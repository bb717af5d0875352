/**
 * The two directions of the HCI-over-SPI link put together: what one side
 * encodes, the other side's decoder recovers.
 */
module HciSpiLink {
  import opened Bytes
  import opened HciBuf
  import Host = HciSpiHost
  import Controller = HciSpiController

  /**
   * Host to controller: a frame built by spi_send_thread from a buffer that
   * spi_queue accepted has length byte at least 2, so the controller never
   * takes it for the empty handshake nor meets the length-1 case its decoder
   * cannot handle; with a free buffer it forwards exactly the original type
   * and data.
   */
  lemma HostFrameDecodes(p: Packet, allocOk: bool)
    requires Host.FitsFrame(p) && IsOutgoing(p.kind)
    ensures var f := Host.CommandFrame(p);
            && f[0] >= 2
            && Controller.DecodableCommand(f, allocOk)
            && Controller.DecodeCommand(f, allocOk) == (if allocOk then Controller.Forwarded(p) else Controller.Dropped)
  {
    var f := Host.CommandFrame(p);
    if allocOk {
      assert f[2..f[0]] == p.payload;
    }
  }

  /** The bytes `b` lie in `s` from index `at` on. */
  predicate HoldsAt(s: seq<Byte>, at: nat, b: seq<Byte>) {
    at + |b| <= |s| && s[at..at + |b|] == b
  }

  lemma HoldsAtSplit(s: seq<Byte>, at: nat, a: seq<Byte>, b: seq<Byte>)
    requires HoldsAt(s, at, a + b)
    ensures HoldsAt(s, at, a) && HoldsAt(s, at + |a|, b)
  {
    var whole := s[at..at + |a| + |b|];
    assert whole[..|a|] == a && whole[|a|..] == b;
    assert s[at..at + |a|] == whole[..|a|];
    assert s[at + |a|..at + |a| + |b|] == whole[|a|..];
  }

  lemma HoldsAtMiddle(a: seq<Byte>, b: seq<Byte>, c: seq<Byte>)
    ensures HoldsAt(a + b + c, |a|, b)
  {
    assert (a + b + c)[|a|..|a| + |b|] == b;
  }

  /** One step of the host's walk over a record of kind `p.kind` and data `p.payload` found at `at`. */
  lemma ParseEncodedRecord(s: seq<Byte>, at: nat, p: Packet, n: nat, k: nat, allocOk: nat -> bool)
    requires IsIncoming(p.kind) && allocOk(k)
    requires at + 2 + |p.payload| <= |s| && s[at] == p.kind && s[at + 1] == |p.payload|
    requires s[at + 2..at + 2 + |p.payload|] == p.payload
    ensures Host.ParseRecords(s, at, n + 1, k, allocOk)
         == match Host.ParseRecords(s, at + 2 + |p.payload|, n, k + 1, allocOk)
            case None => None
            case Some(rest) => Some([p] + rest)
  {
  }

  /** A record the controller encoded at `at` puts its type, length and data there. */
  lemma RecordHeld(s: seq<Byte>, at: nat, p: Packet)
    requires Controller.Packable(p) && HoldsAt(s, at, Controller.Record(p))
    ensures at + 2 + |p.payload| <= |s| && s[at] == p.kind && s[at + 1] == |p.payload|
    ensures s[at + 2..at + 2 + |p.payload|] == p.payload
  {
    var header: seq<Byte> := [p.kind, |p.payload|];
    assert Controller.Record(p) == header + p.payload;
    HoldsAtSplit(s, at, header, p.payload);
    assert s[at..at + 2][0] == s[at] && s[at..at + 2][1] == s[at + 1];
  }

  /** The first record and the rest of an encoding placed at `at`. */
  lemma EncodingSplits(s: seq<Byte>, at: nat, rs: seq<Packet>)
    requires rs != [] && Controller.AllPackable(rs) && HoldsAt(s, at, Controller.Records(rs))
    ensures Controller.Packable(rs[0]) && Controller.AllPackable(rs[1..])
    ensures HoldsAt(s, at, Controller.Record(rs[0]))
    ensures HoldsAt(s, at + 2 + |rs[0].payload|, Controller.Records(rs[1..]))
  {
    RecordsUnfold(rs);
    HoldsAtSplit(s, at, Controller.Record(rs[0]), Controller.Records(rs[1..]));
  }

  lemma RecordsUnfold(rs: seq<Packet>)
    requires rs != [] && Controller.AllPackable(rs)
    ensures Controller.Packable(rs[0]) && Controller.AllPackable(rs[1..])
    ensures Controller.Records(rs) == Controller.Record(rs[0]) + Controller.Records(rs[1..])
  {
    assert rs[0] in rs;
  }

  /** The first record of an encoding reads back, and the rest is again an encoding of incoming records. */
  lemma EncodingStep(s: seq<Byte>, at: nat, rs: seq<Packet>, k: nat, allocOk: nat -> bool)
    requires rs != [] && Controller.AllPackable(rs) && HoldsAt(s, at, Controller.Records(rs))
    requires forall p :: p in rs ==> IsIncoming(p.kind)
    requires forall i :: allocOk(i)
    ensures Controller.AllPackable(rs[1..]) && HoldsAt(s, at + 2 + |rs[0].payload|, Controller.Records(rs[1..]))
    ensures forall p :: p in rs[1..] ==> IsIncoming(p.kind)
    ensures Host.ParseRecords(s, at + 2 + |rs[0].payload|, |rs[1..]|, k + 1, allocOk) == Some(rs[1..])
        ==> Host.ParseRecords(s, at, |rs|, k, allocOk) == Some(rs)
  {
    assert rs[0] in rs;
    EncodingSplits(s, at, rs);
    RecordHeld(s, at, rs[0]);
    ParseEncodedRecord(s, at, rs[0], |rs[1..]|, k, allocOk);
    assert rs == [rs[0]] + rs[1..];
  }

  /**
   * The host's walk over records the controller laid out back to back at
   * `at`: when every record is an event or incoming ACL data and a buffer is
   * always available, it yields exactly those records, in order, whatever
   * surrounds them.
   */
  lemma {:induction false} ParseRecordsOfEncoding(s: seq<Byte>, at: nat, rs: seq<Packet>, k: nat, allocOk: nat -> bool)
    requires Controller.AllPackable(rs) && HoldsAt(s, at, Controller.Records(rs))
    requires forall p :: p in rs ==> IsIncoming(p.kind)
    requires forall i :: allocOk(i)
    ensures Host.ParseRecords(s, at, |rs|, k, allocOk) == Some(rs)
    decreases |rs|
  {
    if rs != [] {
      EncodingStep(s, at, rs, k, allocOk);
      ParseRecordsOfEncoding(s, at + 2 + |rs[0].payload|, rs[1..], k + 1, allocOk);
    }
  }

  /**
   * Controller to host: when bt_spi_tx transmits a frame whose records are all
   * events or incoming ACL data, and the host always finds a buffer, the host
   * delivers exactly the buffers the controller packed, in the order packed.
   */
  lemma ControllerFrameParses(first: Packet, queue: seq<Packet>, allocOk: nat -> bool)
    requires Controller.Pack(first, queue).Sent?
    requires forall p :: p in Controller.Pack(first, queue).records ==> IsIncoming(p.kind)
    requires forall i :: allocOk(i)
    ensures var rs := Controller.Pack(first, queue).records;
            var f := Controller.MultiFrame(rs);
            |f| <= SpiMaxBufSize
            && Host.ParseFrame(f + Zeros(SpiMaxBufSize - |f|), allocOk) == Some(rs)
  {
    Controller.PackSent(first, queue);
    var rs := Controller.Pack(first, queue).records;
    var f := Controller.MultiFrame(rs);
    var rx := f + Zeros(SpiMaxBufSize - |f|);
    assert f == [|rs| as Byte] + Controller.Records(rs);
    HoldsAtMiddle([|rs| as Byte], Controller.Records(rs), Zeros(SpiMaxBufSize - |f|));
    ParseRecordsOfEncoding(rx, 1, rs, 0, allocOk);
    assert rx[0] == |rs|;
  }
}
