/**
 * The controller side of the HCI-over-SPI link: the nRF51 sample that hands
 * raw HCI traffic to the host (samples/bluetooth/hci-spi/src/main.c).
 *
 * Controller to host: bt_spi_tx packs one or more buffers into a 255-byte
 * frame [count, (type, len, payload...)*]. Host to controller: the receive
 * thread decodes the single-record frame [len + 2, type, payload...].
 */
module HciSpiController {
  import opened Bytes
  import opened HciBuf

  /** BT_MAX_BUF_SIZE: the largest buffer bt_spi_tx accepts. */
  const MaxBufSize: nat := 70
  /** EINVAL from errno.h. */
  const Einval: int := 22

  /** A buffer bt_spi_tx is willing to pack. */
  predicate Packable(p: Packet) {
    |p.payload| <= MaxBufSize
  }

  predicate AllPackable(rs: seq<Packet>) {
    forall p :: p in rs ==> Packable(p)
  }

  /** One record of a controller frame: type byte, length byte, data. */
  function Record(p: Packet): (b: seq<Byte>)
    requires Packable(p)
    ensures |b| == |p.payload| + 2
  {
    [p.kind, |p.payload|] + p.payload
  }

  /** The records of `rs`, back to back, in order. */
  function Records(rs: seq<Packet>): (b: seq<Byte>)
    requires AllPackable(rs)
    ensures |b| >= 2 * |rs|
  {
    if rs == [] then [] else Record(rs[0]) + Records(rs[1..])
  }

  lemma {:induction false} RecordsAppend(rs: seq<Packet>, p: Packet)
    requires AllPackable(rs) && Packable(p)
    ensures AllPackable(rs + [p])
    ensures Records(rs + [p]) == Records(rs) + Record(p)
  {
    if rs != [] {
      assert (rs + [p])[1..] == rs[1..] + [p];
      RecordsAppend(rs[1..], p);
    }
  }

  /** The bytes of a controller frame: the record count, then the records. */
  function MultiFrame(rs: seq<Packet>): (f: seq<Byte>)
    requires AllPackable(rs) && |rs| < 0x100
    ensures |f| == 1 + |Records(rs)|
    ensures f[0] == |rs|
  {
    [|rs|] + Records(rs)
  }

  /**
   * What bt_spi_tx makes of its buffers: either the records it sends and how
   * many buffers beyond the first it took from rx_queue, or -EINVAL after
   * taking `taken` of them.
   */
  datatype TxOutcome = Sent(records: seq<Packet>, taken: nat) | Invalid(taken: nat)

  /** Prepends records already packed and buffers already taken to an outcome of the rest. */
  function Prefixed(packed: seq<Packet>, taken: nat, r: TxOutcome): TxOutcome {
    match r
    case Sent(rs, c) => Sent(packed + rs, taken + c)
    case Invalid(c) => Invalid(taken + c)
  }

  /**
   * The extra buffers bt_spi_tx appends while `remaining` bytes are left: it goes
   * on while at least BT_MAX_BUF_SIZE + 2 bytes remain and rx_queue is not empty,
   * and gives up with -EINVAL at the first buffer that is too large.
   */
  function PackExtras(remaining: nat, queue: seq<Packet>): (r: TxOutcome)
    ensures r.taken <= |queue|
    decreases |queue|
  {
    if remaining < MaxBufSize + 2 || queue == [] then Sent([], 0)
    else if !Packable(queue[0]) then Invalid(1)
    else Prefixed([queue[0]], 1, PackExtras(remaining - (|queue[0].payload| + 2), queue[1..]))
  }

  /**
   * The loop of bt_spi_tx takes buffers from the front of the queue, in queue
   * order, spends on them no more than the bytes that remain, and stops only
   * when the queue is empty or fewer than BT_MAX_BUF_SIZE + 2 bytes are left.
   */
  lemma {:induction false} PackExtrasSent(remaining: nat, queue: seq<Packet>)
    requires PackExtras(remaining, queue).Sent?
    ensures var r := PackExtras(remaining, queue);
            && r.taken == |r.records| && r.records == queue[..r.taken]
            && AllPackable(r.records) && |Records(r.records)| <= remaining
            && (r.taken == |queue| || remaining - |Records(r.records)| < MaxBufSize + 2)
    decreases |queue|
  {
    if remaining >= MaxBufSize + 2 && queue != [] {
      var rem' := remaining - (|queue[0].payload| + 2);
      PackExtrasSent(rem', queue[1..]);
      var rs := PackExtras(rem', queue[1..]).records;
      assert queue[..|rs| + 1] == [queue[0]] + queue[1..][..|rs|];
      assert Records([queue[0]] + rs) == Record(queue[0]) + Records(rs) by {
        assert ([queue[0]] + rs)[1..] == rs;
      }
    }
  }

  /**
   * The loop of bt_spi_tx gives up with -EINVAL exactly at the first buffer
   * that is too large; every buffer taken before it was packable.
   */
  lemma {:induction false} PackExtrasInvalid(remaining: nat, queue: seq<Packet>)
    requires PackExtras(remaining, queue).Invalid?
    ensures var r := PackExtras(remaining, queue);
            && 1 <= r.taken <= |queue| && !Packable(queue[r.taken - 1])
            && AllPackable(queue[..r.taken - 1])
    decreases |queue|
  {
    if Packable(queue[0]) {
      var rem' := remaining - (|queue[0].payload| + 2);
      PackExtrasInvalid(rem', queue[1..]);
      var c := PackExtras(rem', queue[1..]).taken;
      assert queue[..c] == [queue[0]] + queue[1..][..c - 1];
    }
  }

  /** What bt_spi_tx does with `first` while `queue` is waiting in rx_queue. */
  function Pack(first: Packet, queue: seq<Packet>): (r: TxOutcome)
    ensures r.taken <= |queue|
    ensures r.Sent? ==> AllPackable(r.records) && |r.records| < 0x100
  {
    if !Packable(first) then Invalid(0)
    else
      var rest := PackExtras(SpiMaxBufSize - (|first.payload| + 3), queue);
      match rest
      case Invalid(c) => Invalid(c)
      case Sent(rs, c) =>
        PackExtrasSent(SpiMaxBufSize - (|first.payload| + 3), queue);
        Sent([first] + rs, c)
  }

  /**
   * A frame bt_spi_tx transmits: `first` followed by the buffers it took, in
   * queue order; its count byte is the number of records and it fits the
   * 255-byte SPI limit, the budget `remaining` never going below zero.
   */
  lemma PackSent(first: Packet, queue: seq<Packet>)
    requires Pack(first, queue).Sent?
    ensures var r := Pack(first, queue);
            && |r.records| == r.taken + 1 && r.records == [first] + queue[..r.taken]
            && MultiFrame(r.records)[0] == |r.records|
            && |MultiFrame(r.records)| <= SpiMaxBufSize
  {
    var rem := SpiMaxBufSize - (|first.payload| + 3);
    PackExtrasSent(rem, queue);
    var rs := PackExtras(rem, queue).records;
    assert Records([first] + rs) == Record(first) + Records(rs) by {
      assert ([first] + rs)[1..] == rs;
    }
  }

  /** bt_spi_tx returns -EINVAL for an oversized first buffer, taking nothing, or at the first oversized extra. */
  lemma PackInvalid(first: Packet, queue: seq<Packet>)
    requires Pack(first, queue).Invalid?
    ensures var r := Pack(first, queue);
            && (r.taken == 0 <==> !Packable(first))
            && (r.taken > 0 ==> !Packable(queue[r.taken - 1]) && AllPackable(queue[..r.taken - 1]))
  {
    if Packable(first) {
      PackExtrasInvalid(SpiMaxBufSize - (|first.payload| + 3), queue);
    }
  }

  /** One step of PackExtras: a packable head costs its record and leaves the rest to the tail. */
  lemma PackExtrasStep(remaining: nat, queue: seq<Packet>)
    requires remaining >= MaxBufSize + 2 && queue != [] && Packable(queue[0])
    ensures PackExtras(remaining, queue)
         == Prefixed([queue[0]], 1, PackExtras(remaining - (|queue[0].payload| + 2), queue[1..]))
  {
  }

  /** bt_spi_tx before its loop: the first record is packed, no buffer taken yet. */
  lemma PackStartsWithFirst(first: Packet, queue: seq<Packet>)
    requires Packable(first)
    ensures Pack(first, queue) == Prefixed([first], 0, PackExtras(SpiMaxBufSize - (|first.payload| + 3), queue))
  {
  }

  /** One iteration of the loop of bt_spi_tx keeps the rest of the outcome in step with PackExtras. */
  lemma PackExtrasLoopStep(queue: seq<Packet>, taken: nat, extra: Packet, remaining0: nat, remaining: nat)
    requires taken < |queue| && queue[taken] == extra
    requires remaining >= MaxBufSize + 2 && Packable(extra)
    requires PackExtras(remaining0, queue) == Prefixed(queue[..taken], taken, PackExtras(remaining, queue[taken..]))
    ensures queue[..taken + 1] == queue[..taken] + [extra]
    ensures PackExtras(remaining0, queue)
         == Prefixed(queue[..taken + 1], taken + 1,
                     PackExtras(remaining - (|extra.payload| + 2), queue[taken + 1..]))
  {
    var rest := queue[taken..];
    assert rest[0] == extra && rest[1..] == queue[taken + 1..];
    assert queue[..taken + 1] == queue[..taken] + [extra];
    PackExtrasStep(remaining, rest);
    PrefixedTwice(queue[..taken], taken, [extra], 1,
                  PackExtras(remaining - (|extra.payload| + 2), queue[taken + 1..]));
  }

  lemma PrefixedTwice(a: seq<Packet>, ta: nat, b: seq<Packet>, tb: nat, r: TxOutcome)
    ensures Prefixed(a, ta, Prefixed(b, tb, r)) == Prefixed(a + b, ta + tb, r)
  {
    match r
    case Sent(rs, c) => assert a + (b + rs) == (a + b) + rs;
    case Invalid(c) =>
  }

  /**
   * Appending a record to a frame held in a zero-padded buffer: bump the count
   * byte, then write the record where the padding began.
   */
  lemma {:induction false} FrameGrows(packed: seq<Packet>, extra: Packet, remaining: nat)
    requires AllPackable(packed) && Packable(extra) && |packed| + 1 < 0x100
    requires |extra.payload| + 2 <= remaining
    ensures AllPackable(packed + [extra])
    ensures var s := (MultiFrame(packed) + Zeros(remaining))[0 := |packed| + 1];
            var at := |MultiFrame(packed)|;
            s[..at] + Record(extra) + s[at + |Record(extra)|..]
              == MultiFrame(packed + [extra]) + Zeros(remaining - (|extra.payload| + 2))
  {
    RecordsAppend(packed, extra);
    var n := |Record(extra)|;
    ZerosSplit(n, remaining - n);
    var s := (MultiFrame(packed) + Zeros(remaining))[0 := |packed| + 1];
    var at := |MultiFrame(packed)|;
    assert s[..at] == [|packed| + 1] + Records(packed);
    assert s[at + n..] == Zeros(remaining - n);
  }

  /** offset[0] = type; offset[1] = len; memcpy(offset + 2, data, len) */
  method PutRecord(buf: array<Byte>, at: nat, p: Packet)
    requires Packable(p) && at + |p.payload| + 2 <= buf.Length
    modifies buf
    ensures buf[..] == old(buf[..])[..at] + Record(p) + old(buf[..])[at + |Record(p)|..]
  {
    ghost var before := buf[..];
    buf[at] := p.kind;
    buf[at + 1] := |p.payload|;
    ghost var mid := buf[..];
    assert mid[..at + 2] == before[..at] + [p.kind, |p.payload|];
    assert mid[at + 2 + |p.payload|..] == before[at + |Record(p)|..];
    CopyInto(buf, at + 2, p.payload);
  }

  /** The first record of bt_spi_tx: a zeroed buffer, count byte 1, then the record from byte 1. */
  method StartFrame(buf: array<Byte>, first: Packet)
    requires buf.Length == SpiMaxBufSize && Packable(first)
    modifies buf
    ensures Records([first]) == Record(first)
    ensures buf[..] == MultiFrame([first]) + Zeros(SpiMaxBufSize - (|first.payload| + 3))
  {
    Fill(buf, 0);
    assert buf[..] == Zeros(SpiMaxBufSize);
    buf[0] := 1;
    PutRecord(buf, 1, first);
    assert Records([first]) == Record(first) + Records([]);
    assert buf[3 + |first.payload|..] == Zeros(SpiMaxBufSize - (|first.payload| + 3));
  }

  /** One more record in the loop of bt_spi_tx: spi_tx_buf[0] += 1, then the record at `offset`. */
  method AddToFrame(buf: array<Byte>, ghost packed: seq<Packet>, offset: nat, remaining: nat, extra: Packet)
    requires AllPackable(packed) && |packed| + 1 < 0x100 && Packable(extra)
    requires |extra.payload| + 2 <= remaining
    requires offset == |MultiFrame(packed)| && buf[..] == MultiFrame(packed) + Zeros(remaining)
    modifies buf
    ensures AllPackable(packed + [extra])
    ensures buf[..] == MultiFrame(packed + [extra]) + Zeros(remaining - (|extra.payload| + 2))
  {
    FrameGrows(packed, extra, remaining);
    buf[0] := buf[0] + 1;
    PutRecord(buf, offset, extra);
  }

  /** What the receive thread makes of one transfer from the host. */
  datatype RxOutcome =
    | TransceiveError   // spi_transceive failed: nothing happens
    | Handshake         // length byte 0: the host is ready, the transmit side may go
    | Dropped           // unknown type or no free buffer
    | Forwarded(p: Packet)  // handed to bt_send

  /**
   * The receive thread's precondition: the driver computes spi_buf_len - 2
   * without checking it, so a length byte of 1 on an accepted type makes
   * memcpy copy (size_t)-1 bytes. The model excludes that input.
   */
  predicate DecodableCommand(rx: seq<Byte>, allocOk: bool)
    requires |rx| == SpiMaxBufSize
  {
    rx[0] == 1 ==> !(IsOutgoing(rx[1]) && allocOk)
  }

  /**
   * The receive thread's decoding of a frame from the host: length byte 0 is a
   * handshake; otherwise the type is byte 1 and the data are bytes 2 up to the
   * length byte. `allocOk` is whether net_buf_alloc found a buffer in the pool
   * for that type.
   */
  function DecodeCommand(rx: seq<Byte>, allocOk: bool): (r: RxOutcome)
    requires |rx| == SpiMaxBufSize && DecodableCommand(rx, allocOk)
    ensures r != TransceiveError
    ensures r == Handshake <==> rx[0] == 0
    ensures r.Forwarded? <==> rx[0] != 0 && IsOutgoing(rx[1]) && allocOk
    ensures r.Forwarded? ==> r.p.kind == rx[1] && |r.p.payload| == rx[0] - 2
    ensures r.Forwarded? ==> forall i :: 0 <= i < |r.p.payload| ==> r.p.payload[i] == rx[2 + i]
  {
    if rx[0] == 0 then Handshake
    else if IsOutgoing(rx[1]) && allocOk then Forwarded(Packet(rx[1], rx[2..rx[0]]))
    else Dropped
  }

  /**
   * The state of the loop of bt_spi_tx after `taken` buffers of `queue` were
   * moved into a frame that started with `head`: `packed` is what the frame
   * holds, `offset` its length, `remaining` the space left, and what is left
   * of the outcome is PackExtras of the rest of the queue.
   */
  ghost predicate Packing(queue: seq<Packet>, head: seq<Packet>, remaining0: nat,
                          taken: nat, packed: seq<Packet>, offset: nat, remaining: nat)
  {
    && offset + remaining == SpiMaxBufSize
    && taken <= |queue|
    && packed == head + queue[..taken]
    && AllPackable(packed) && |packed| < 0x100
    && offset == |MultiFrame(packed)|
    && PackExtras(remaining0, queue) == Prefixed(queue[..taken], taken, PackExtras(remaining, queue[taken..]))
  }

  /** A buffer that fits moves the loop on by one record. */
  lemma PackingStep(queue: seq<Packet>, head: seq<Packet>, remaining0: nat,
                    taken: nat, packed: seq<Packet>, offset: nat, remaining: nat, extra: Packet)
    requires Packing(queue, head, remaining0, taken, packed, offset, remaining)
    requires taken < |queue| && queue[taken] == extra && Packable(extra)
    requires remaining >= MaxBufSize + 2
    ensures AllPackable(packed) && |packed| + 1 < 0x100
    ensures offset == |MultiFrame(packed)| && |extra.payload| + 2 <= remaining
    ensures Packing(queue, head, remaining0, taken + 1, packed + [extra],
                    offset + 2 + |extra.payload|, remaining - (|extra.payload| + 2))
  {
    PackExtrasLoopStep(queue, taken, extra, remaining0, remaining);
    RecordsAppend(packed, extra);
    assert head + queue[..taken + 1] == packed + [extra];
  }

  /** A buffer too large ends the loop with -EINVAL, as PackExtras says. */
  lemma PackingRejects(queue: seq<Packet>, head: seq<Packet>, remaining0: nat,
                       taken: nat, packed: seq<Packet>, offset: nat, remaining: nat, extra: Packet)
    requires Packing(queue, head, remaining0, taken, packed, offset, remaining)
    requires taken < |queue| && queue[taken] == extra && !Packable(extra)
    requires remaining >= MaxBufSize + 2
    ensures PackExtras(remaining0, queue) == Invalid(taken + 1)
  {
    assert queue[taken..][0] == extra;
  }

  /** Leaving the loop with the queue empty or too little room: the outcome is what was packed. */
  lemma PackingDone(queue: seq<Packet>, head: seq<Packet>, remaining0: nat,
                    taken: nat, packed: seq<Packet>, offset: nat, remaining: nat)
    requires Packing(queue, head, remaining0, taken, packed, offset, remaining)
    requires remaining < MaxBufSize + 2 || taken == |queue|
    ensures PackExtras(remaining0, queue) == Sent(queue[..taken], taken)
    ensures packed == head + PackExtras(remaining0, queue).records
  {
    assert PackExtras(remaining, queue[taken..]) == Sent([], 0);
    assert queue[..taken] + [] == queue[..taken];
  }

  /** The controller side of the link. */
  class SpiController {
    /** rx_queue: buffers the raw HCI layer has queued for the host, oldest first. */
    var rxQueue: seq<Packet>
    /** Buffers handed to bt_send, in order. */
    var forwarded: seq<Packet>
    /** bt_spi_tx's spi_tx_buf. */
    const txBuf: array<Byte>

    ghost predicate Valid()
      reads this
    {
      txBuf.Length == SpiMaxBufSize
    }

    constructor ()
      ensures Valid() && fresh(txBuf)
      ensures rxQueue == [] && forwarded == []
    {
      rxQueue := [];
      forwarded := [];
      txBuf := new Byte[SpiMaxBufSize];
    }

    /**
     * bt_spi_tx(first) while rxQueue holds the buffers queued after it. On
     * success the frame's first `sentLen` bytes are transmitted and the result
     * is the transceive status; on -EINVAL nothing is transmitted.
     */
    method Transmit(first: Packet, status: int) returns (ret: int, sentLen: nat)
      requires Valid()
      modifies this`rxQueue, txBuf
      ensures Valid()
      ensures Pack(first, old(rxQueue)).taken <= |old(rxQueue)|
      ensures rxQueue == old(rxQueue)[Pack(first, old(rxQueue)).taken..]
      ensures Pack(first, old(rxQueue)).Invalid? ==> ret == -Einval && sentLen == 0
      ensures !Packable(first) ==> txBuf[..] == old(txBuf[..])
      ensures Pack(first, old(rxQueue)).Sent? ==>
                var f := MultiFrame(Pack(first, old(rxQueue)).records);
                && ret == status
                && sentLen == |f| <= SpiMaxBufSize
                && txBuf[..] == f + Zeros(SpiMaxBufSize - sentLen)
    {
      if |first.payload| > MaxBufSize {
        return -Einval, 0;
      }
      var len := |first.payload|;
      StartFrame(txBuf, first);
      PackStartsWithFirst(first, rxQueue);
      var ok, offset := PackQueued([first], 3 + len, SpiMaxBufSize - (len + 3));
      if !ok {
        return -Einval, 0;
      }
      ret, sentLen := status, offset;
    }

    /**
     * The loop of bt_spi_tx: while at least BT_MAX_BUF_SIZE + 2 bytes remain,
     * move the next buffer of rxQueue into the frame that already holds `head`;
     * `ok` is false when a buffer was too large (-EINVAL).
     */
    method PackQueued(ghost head: seq<Packet>, offset0: nat, remaining0: nat) returns (ok: bool, offset: nat)
      requires Valid() && AllPackable(head) && |head| < 0x100
      requires offset0 == |MultiFrame(head)| && offset0 + remaining0 == SpiMaxBufSize
      requires txBuf[..] == MultiFrame(head) + Zeros(remaining0)
      modifies this`rxQueue, txBuf
      ensures Valid()
      ensures PackExtras(remaining0, old(rxQueue)).taken <= |old(rxQueue)|
      ensures rxQueue == old(rxQueue)[PackExtras(remaining0, old(rxQueue)).taken..]
      ensures ok == PackExtras(remaining0, old(rxQueue)).Sent?
      ensures ok ==>
                var packed := head + PackExtras(remaining0, old(rxQueue)).records;
                && AllPackable(packed) && |packed| < 0x100
                && offset == |MultiFrame(packed)| <= SpiMaxBufSize
                && txBuf[..] == MultiFrame(packed) + Zeros(SpiMaxBufSize - offset)
    {
      ghost var queue := rxQueue;
      offset := offset0;
      var remaining: int := remaining0;
      ghost var packed := head;
      ghost var taken: nat := 0;
      assert queue[..0] == [] && head + [] == head && queue[0..] == queue;
      while remaining >= MaxBufSize + 2
        invariant 0 <= remaining
        invariant Packing(queue, head, remaining0, taken, packed, offset, remaining)
        invariant rxQueue == queue[taken..]
        invariant txBuf[..] == MultiFrame(packed) + Zeros(remaining)
        decreases remaining
      {
        if rxQueue == [] {
          break;
        }
        var extra := rxQueue[0];
        rxQueue := rxQueue[1..];
        if |extra.payload| > MaxBufSize {
          PackingRejects(queue, head, remaining0, taken, packed, offset, remaining, extra);
          return false, offset;
        }
        PackingStep(queue, head, remaining0, taken, packed, offset, remaining, extra);
        AddToFrame(txBuf, packed, offset, remaining, extra);
        offset := offset + 2 + |extra.payload|;
        remaining := remaining - (|extra.payload| + 2);
        packed := packed + [extra];
        taken := taken + 1;
      }
      PackingDone(queue, head, remaining0, taken, packed, offset, remaining);
      ok := true;
    }

    /** One round of the receive thread: decode what the host sent and forward it. */
    method Receive(rx: array<Byte>, status: int, allocOk: bool) returns (r: RxOutcome)
      requires rx.Length == SpiMaxBufSize && (status == 0 ==> DecodableCommand(rx[..], allocOk))
      modifies this`forwarded
      ensures status != 0 ==> r == TransceiveError
      ensures status == 0 ==> r == DecodeCommand(rx[..], allocOk)
      ensures forwarded == if r.Forwarded? then old(forwarded) + [r.p] else old(forwarded)
    {
      if status != 0 {
        return TransceiveError;
      }
      var bufLen := rx[0];
      if bufLen == 0 {
        return Handshake;
      }
      var kind := rx[1];
      if !(kind == Cmd || kind == AclOut) || !allocOk {
        return Dropped;
      }
      var data := CopyOut(rx, 2, bufLen - 2);
      r := Forwarded(Packet(kind, data));
      forwarded := forwarded + [r.p];
    }
  }
}
