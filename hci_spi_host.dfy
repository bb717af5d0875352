/**
 * The host side of Zephyr's Bluetooth HCI-over-SPI driver (drivers/bluetooth/hci/spi.c).
 *
 * Host to controller, one buffer per transfer:
 *   [len + 2, type, payload...] zero-filled to 255 bytes, of which len + 2 are sent.
 * Controller to host, several records per transfer:
 *   [count, (type, len, payload...)*], walked here with a cursor.
 */
module HciSpiHost {
  import opened Bytes
  import opened HciBuf

  /**
   * The check of spi_send_thread: the length byte and the type byte must fit
   * beside the data. A buffer that passes has a length byte that the uint8_t
   * store of len + 2 does not truncate.
   */
  predicate FitsFrame(p: Packet): (ok: bool)
    ensures ok ==> (|p.payload| % 0x100 + 2) % 0x100 == |p.payload| + 2
  {
    |p.payload| + 2 <= SpiMaxBufSize
  }

  /** The 255-byte transmit buffer spi_send_thread prepares for `p`. */
  function CommandFrame(p: Packet): (f: seq<Byte>)
    requires FitsFrame(p)
    ensures |f| == SpiMaxBufSize
    ensures f[0] == |p.payload| + 2 && f[1] == p.kind
    ensures f[2..f[0]] == p.payload
    ensures forall i :: f[0] <= i < SpiMaxBufSize ==> f[i] == 0
  {
    [|p.payload| + 2, p.kind] + p.payload + Zeros(SpiMaxBufSize - 2 - |p.payload|)
  }

  /** A record the host keeps: an event or incoming ACL buffer for which a buffer was allocated. */
  predicate Accepted(kind: Byte, gotBuffer: bool) {
    IsIncoming(kind) && gotBuffer
  }

  /**
   * The buffers spi_recv_thread delivers while it walks `n` more records of `rx`
   * with its cursor at `cursor`; `k` numbers the records so that `allocOk(k)`
   * tells whether bt_buf_get_rx succeeded for record k. A rejected record
   * (unknown type, or no buffer) moves the cursor past its two header bytes only.
   * None when the walk would read past the end of `rx`: the driver does not
   * check this, so the receive path requires that it does not happen.
   */
  function ParseRecords(rx: seq<Byte>, cursor: nat, n: nat, k: nat, allocOk: nat -> bool): (r: Option<seq<Packet>>)
    ensures r.Some? ==> |r.value| <= n
    decreases n
  {
    if n == 0 then Some([])
    else if cursor + 2 > |rx| then None
    else
      var kind, len := rx[cursor], rx[cursor + 1];
      if Accepted(kind, allocOk(k)) then
        if cursor + 2 + len > |rx| then None
        else
          match ParseRecords(rx, cursor + 2 + len, n - 1, k + 1, allocOk)
          case None => None
          case Some(rest) => Some([Packet(kind, rx[cursor + 2..cursor + 2 + len])] + rest)
      else
        ParseRecords(rx, cursor + 2, n - 1, k + 1, allocOk)
  }

  /** The buffers one received transfer yields: `rx[0]` records from byte 1 on. */
  function ParseFrame(rx: seq<Byte>, allocOk: nat -> bool): (r: Option<seq<Packet>>)
    requires |rx| > 0
    ensures rx[0] == 0 ==> r == Some([])
    ensures r.Some? ==> |r.value| <= rx[0]
  {
    ParseRecordsYieldsIncoming(rx, 1, rx[0], 0, allocOk);
    ParseRecords(rx, 1, rx[0], 0, allocOk)
  }

  /**
   * Walking `n` records yields at most `n` buffers, each an event or incoming
   * ACL buffer whose data came with a one-byte length.
   */
  lemma {:induction false} ParseRecordsYieldsIncoming(rx: seq<Byte>, cursor: nat, n: nat, k: nat, allocOk: nat -> bool)
    ensures var r := ParseRecords(rx, cursor, n, k, allocOk);
            r.Some? ==> |r.value| <= n && forall q :: q in r.value ==> IsIncoming(q.kind) && |q.payload| < 0x100
    decreases n
  {
    if n > 0 && cursor + 2 <= |rx| {
      var len := rx[cursor + 1];
      if Accepted(rx[cursor], allocOk(k)) {
        ParseRecordsYieldsIncoming(rx, cursor + 2 + len, n - 1, k + 1, allocOk);
      } else {
        ParseRecordsYieldsIncoming(rx, cursor + 2, n - 1, k + 1, allocOk);
      }
    }
  }

  /** Walking past a rejected record skips only its type and length bytes, never its payload. */
  lemma RejectedRecordSkipsHeaderOnly(rx: seq<Byte>, cursor: nat, n: nat, k: nat, allocOk: nat -> bool)
    requires n > 0 && cursor + 2 <= |rx|
    requires !Accepted(rx[cursor], allocOk(k))
    ensures ParseRecords(rx, cursor, n, k, allocOk) == ParseRecords(rx, cursor + 2, n - 1, k + 1, allocOk)
  {
  }

  /**
   * What that costs: the controller packs (EVT, [ACL_IN, 0]) then (EVT, [9]).
   * When no buffer is free for the first record, the host reads its payload as
   * a header and delivers an empty ACL_IN buffer that was never sent, and the
   * second event is lost.
   */
  lemma AllocationFailureMisreadsPayload(allocOk: nat -> bool)
    requires !allocOk(0) && allocOk(1)
    ensures ParseFrame([2, Evt, 2, AclIn, 0, Evt, 1, 9] + Zeros(SpiMaxBufSize - 8), allocOk)
         == Some([Packet(AclIn, [])])
  {
    var f := [2, Evt, 2, AclIn, 0, Evt, 1, 9] + Zeros(SpiMaxBufSize - 8);
    assert f[1] == Evt && f[2] == 2 && f[3] == AclIn && f[4] == 0;
    assert |f| == SpiMaxBufSize;
    assert Accepted(f[3], allocOk(1));
    assert ParseRecords(f, 5, 0, 2, allocOk) == Some([]);
    var r := ParseRecords(f, 3, 1, 1, allocOk);
    assert r.Some?;
    assert r.value == [Packet(AclIn, f[5..5])];
    assert ParseRecords(f, 1, 2, 0, allocOk) == ParseRecords(f, 3, 1, 1, allocOk);
    assert f[0] == 2 && f[5..5] == [];
  }

  /**
   * One step of a walk that yields `rest`: the header lies inside `rx`; an
   * accepted record's data does too, and it heads `rest`, the remaining
   * records yielding the others; a rejected record leaves `rest` to them.
   */
  lemma WalkStep(rx: seq<Byte>, cursor: nat, n: nat, k: nat, allocOk: nat -> bool, rest: seq<Packet>)
    requires n > 0 && ParseRecords(rx, cursor, n, k, allocOk) == Some(rest)
    ensures cursor + 2 <= |rx|
    ensures Accepted(rx[cursor], allocOk(k)) ==>
              && cursor + 2 + rx[cursor + 1] <= |rx|
              && rest != []
              && rest[0] == Packet(rx[cursor], rx[cursor + 2..cursor + 2 + rx[cursor + 1]])
              && ParseRecords(rx, cursor + 2 + rx[cursor + 1], n - 1, k + 1, allocOk) == Some(rest[1..])
    ensures !Accepted(rx[cursor], allocOk(k)) ==>
              ParseRecords(rx, cursor + 2, n - 1, k + 1, allocOk) == Some(rest)
  {
    if Accepted(rx[cursor], allocOk(k)) {
      var tail := ParseRecords(rx, cursor + 2 + rx[cursor + 1], n - 1, k + 1, allocOk).value;
      assert rest == [rest[0]] + tail;
    }
  }

  /** Moving the head of `rest` over to `got` keeps their concatenation. */
  lemma ShiftHead<T>(got: seq<T>, rest: seq<T>)
    requires rest != []
    ensures got + rest == (got + [rest[0]]) + rest[1..]
  {
    assert rest == [rest[0]] + rest[1..];
  }

  /**
   * The record loop of spi_recv_thread: `rx[0]` records from byte 1 on, each
   * a type and a length byte; an event or incoming ACL record for which a
   * buffer is allocated is copied out and kept, any other record is skipped
   * by its two header bytes. The driver does not check that the walk stays
   * inside the buffer; the model requires it.
   */
  method WalkFrame(rx: array<Byte>, allocOk: nat -> bool) returns (got: seq<Packet>)
    requires rx.Length > 0 && ParseFrame(rx[..], allocOk).Some?
    ensures Some(got) == ParseFrame(rx[..], allocOk)
  {
    ghost var frame := rx[..];
    ghost var rest := ParseFrame(frame, allocOk).value;
    got := [];
    var count := rx[0];
    var offset: nat := 1;
    var i := 0;
    ghost var left: nat := count;
    ghost var whole := rest;
    assert got + rest == rest;
    while i < count
      invariant 0 <= i <= count && left == count - i
      invariant ParseRecords(frame, offset, left, i, allocOk) == Some(rest)
      invariant whole == got + rest
    {
      WalkStep(frame, offset, left, i, allocOk, rest);
      var kind, len := rx[offset], rx[offset + 1];
      assert kind == frame[offset] && len == frame[offset + 1];
      offset := offset + 2;
      if kind == Evt || kind == AclIn {
        if allocOk(i) {
          var data := rx[offset..offset + len];
          assert rest[0] == Packet(kind, data);
          ShiftHead(got, rest);
          got := got + [Packet(kind, data)];
          rest := rest[1..];
          offset := offset + len;
        }
      }
      i := i + 1;
      left := left - 1;
    }
    assert ParseRecords(frame, offset, left, i, allocOk) == Some([]);
    assert got + rest == got;
  }

  /** The host side of the link: the transmit queue and what has been delivered up the stack. */
  class SpiHost {
    /** bt_tx_queue: buffers accepted by spi_queue, oldest first. */
    var txQueue: seq<Packet>
    /** Buffers handed to bt_recv or bt_recv_prio, in delivery order. */
    var delivered: seq<Packet>
    /** spi_send_thread's spi_tx_buf. */
    const txBuf: array<Byte>

    ghost predicate Valid()
      reads this
    {
      && txBuf.Length == SpiMaxBufSize
      && forall p :: p in txQueue ==> IsOutgoing(p.kind)
    }

    constructor ()
      ensures Valid() && fresh(txBuf)
      ensures txQueue == [] && delivered == []
    {
      txQueue := [];
      delivered := [];
      txBuf := new Byte[SpiMaxBufSize];
    }

    /** spi_queue: only commands and outgoing ACL data are queued; anything else is refused with -1. */
    method Queue(p: Packet) returns (ret: int)
      requires Valid()
      modifies this`txQueue
      ensures Valid()
      ensures ret == 0 <==> IsOutgoing(p.kind)
      ensures ret == 0 || ret == -1
      ensures txQueue == if ret == 0 then old(txQueue) + [p] else old(txQueue)
    {
      if p.kind != Cmd && p.kind != AclOut {
        return -1;
      }
      txQueue := txQueue + [p];
      return 0;
    }

    /**
     * One round of spi_send_thread: take the oldest queued buffer; drop it if it
     * does not fit, otherwise lay out its frame in txBuf and send its first
     * `sentLen` bytes (0 when nothing is sent). The transceive status is only logged.
     */
    method SendNext() returns (sentLen: nat)
      requires Valid() && txQueue != []
      modifies this`txQueue, txBuf
      ensures Valid()
      ensures txQueue == old(txQueue)[1..]
      ensures !FitsFrame(old(txQueue)[0]) ==> sentLen == 0 && txBuf[..] == old(txBuf[..])
      ensures FitsFrame(old(txQueue)[0]) ==>
                && sentLen == |old(txQueue)[0].payload| + 2
                && txBuf[..] == CommandFrame(old(txQueue)[0])
                && sentLen == txBuf[0]
    {
      var buf := txQueue[0];
      txQueue := txQueue[1..];
      if |buf.payload| + 2 > txBuf.Length {
        return 0;
      }
      Fill(txBuf, 0);
      assert txBuf[..] == Zeros(SpiMaxBufSize);
      txBuf[0] := |buf.payload| + 2;
      txBuf[1] := buf.kind;
      CopyInto(txBuf, 2, buf.payload);
      assert txBuf[..] == CommandFrame(buf);
      sentLen := txBuf[0];
    }

    /**
     * One round of spi_recv_thread after the two transceives. A failed
     * transceive or a frame announcing no records yields nothing; otherwise
     * the records the walk accepts are delivered, in walk order.
     */
    method Receive(rx: array<Byte>, headerStatus: int, dataStatus: int, allocOk: nat -> bool) returns (got: seq<Packet>)
      requires rx.Length == SpiMaxBufSize
      requires headerStatus >= 0 && dataStatus >= 0 ==> ParseFrame(rx[..], allocOk).Some?
      modifies this`delivered
      ensures headerStatus < 0 || dataStatus < 0 ==> got == []
      ensures headerStatus >= 0 && dataStatus >= 0 ==> Some(got) == ParseFrame(rx[..], allocOk)
      ensures delivered == old(delivered) + got
    {
      got := [];
      if headerStatus < 0 || dataStatus < 0 {
        return;
      }
      if rx[0] == 0 {
        return;
      }
      got := WalkFrame(rx, allocOk);
      delivered := delivered + got;
    }
  }
}
