/**
 * The STM32F4 flash sample (samples/drivers/soc_flash_stm32f4/src/main.c):
 * its sector map, the labels it prints, the write/read/compare passes of
 * test_access and which sectors main erases. Flash itself is reached
 * through the driver, which is not part of this model: what a flash read
 * returns is a parameter.
 */
module Stm32f4FlashTest {
  import opened Bytes
  import SampleSearch

  const KB: nat := 1024

  /** One entry of sector[]. */
  datatype Sector = Sector(start: nat, len: nat)

  /** sector[]: four 16 KB sectors, one of 64 KB, three of 128 KB. */
  const Sectors: seq<Sector> := [
    Sector(0x0000000, 16 * KB),
    Sector(0x0004000, 16 * KB),
    Sector(0x0008000, 16 * KB),
    Sector(0x000c000, 16 * KB),
    Sector(0x0010000, 64 * KB),
    Sector(0x0020000, 128 * KB),
    Sector(0x0040000, 128 * KB),
    Sector(0x0060000, 128 * KB)
  ]

  /** The sectors follow one another without gap or overlap and cover the first 512 KB. */
  lemma SectorsContiguous()
    ensures Sectors[0].start == 0
    ensures forall i :: 0 <= i < |Sectors| - 1 ==> Sectors[i + 1].start == Sectors[i].start + Sectors[i].len
    ensures Sectors[|Sectors| - 1].start + Sectors[|Sectors| - 1].len == 0x80000
  {
  }

  /** sizeof(buffer): 64 KB. */
  const BufferSize: nat := 64 * KB

  /** STR: a printable size label for the four sizes the test meets, a blank one otherwise. */
  function Label(len: nat): (s: string)
    ensures |s| == 6 <==> len in {16 * KB, 64 * KB, 128 * KB, 0}
    ensures |s| == 6 ==> s[4..] == "KB"
    ensures |s| != 6 ==> s == "    "
  {
    if len == 16 * KB then "  16KB"
    else if len == 64 * KB then "  64KB"
    else if len == 128 * KB then " 128KB"
    else if len == 0 then "   0KB"
    else "    "
  }

  /** Address `a` lies in sector `s`. */
  predicate InSector(s: Sector, a: int) {
    s.start <= a < s.start + s.len
  }

  /** One write/read/compare pass of test_access: where it starts and how many bytes it covers. */
  datatype Pass = Pass(at: nat, len: nat)

  /** Pass `p` writes and reads back address `a`. */
  predicate Covers(p: Pass, a: int) {
    p.at <= a < p.at + p.len
  }

  /**
   * The passes test_access makes over a sector: one over the whole sector
   * when it fits the 64 KB buffer, otherwise two 64 KB passes, the second
   * starting `len - 64 KB` into the sector.
   */
  function Passes(s: Sector): (ps: seq<Pass>)
    ensures 1 <= |ps| <= 2
    ensures forall p :: p in ps ==> 0 < p.len <= BufferSize || s.len == 0
  {
    var offset: nat := if s.len > BufferSize then s.len - BufferSize else 0;
    var len := if s.len > BufferSize then BufferSize else s.len;
    if offset != 0 then [Pass(s.start, len), Pass(s.start + offset, len)]
    else [Pass(s.start, len)]
  }

  /**
   * For every sector of at most twice the buffer, the passes stay inside the
   * sector and together reach every byte of it.
   */
  lemma PassesCoverSector(s: Sector)
    requires s.len <= 2 * BufferSize
    ensures forall p, a :: p in Passes(s) && Covers(p, a) ==> InSector(s, a)
    ensures forall a :: InSector(s, a) ==> exists p :: p in Passes(s) && Covers(p, a)
  {
    var ps := Passes(s);
    forall a | InSector(s, a)
      ensures exists p :: p in ps && Covers(p, a)
    {
      if a < s.start + ps[0].len {
        assert ps[0] in ps;
      } else {
        assert ps[1] in ps;
      }
    }
  }

  /** A 128 KB sector is split into its two halves exactly. */
  lemma LargeSectorHalves(s: Sector)
    requires s.len == 128 * KB
    ensures Passes(s) == [Pass(s.start, 64 * KB), Pass(s.start + 64 * KB, 64 * KB)]
  {
  }

  /** The byte the check expects at index j: 0xA5 at even indices, its complement 0x5A at odd ones. */
  function Expected(j: nat): (b: Byte)
    ensures j % 2 == 0 ==> b == 0xA5
    ensures j % 2 == 1 ==> b == 0x5A
  {
    if j % 2 == 1 then 0x5A else 0xA5
  }

  /** val: the first byte of the pattern. */
  const Val: Byte := 0xA5

  /**
   * `0x000000FF & ~x` with the byte x promoted to a 32-bit int: the fill
   * loop's step. It keeps the result a byte and swaps the two pattern bytes.
   */
  function LowByteOfNot(x: bv32): (r: bv32)
    ensures r <= 0xFF
    ensures x == 0xA5 ==> r == 0x5A
    ensures x == 0x5A ==> r == 0xA5
  {
    0xFF & !x
  }

  /**
   * `0x000000FF & ((j % 2) ? ~val : val)`: the value the check loop compares
   * byte j with, which is the pattern byte.
   */
  function CheckedValue(j: nat): (v: bv32)
    ensures v as int == Expected(j)
  {
    var promoted := Val as bv32;
    assert promoted == 0xA5;
    0xFF & (if j % 2 == 1 then !promoted else promoted)
  }

  /** Each step of the fill loop turns the pattern byte at j - 1 into the one at j. */
  lemma FillStepIsPattern(j: nat)
    requires 1 <= j
    ensures LowByteOfNot(Expected(j - 1) as bv32) as int == Expected(j)
  {
    if j % 2 == 1 {
      assert Expected(j - 1) == 0xA5;
    } else {
      assert Expected(j - 1) == 0x5A;
    }
  }

  /** The pattern loop: buffer[0] = 0xA5, then each byte the complement of the one before. */
  method FillPattern(buf: array<Byte>)
    requires buf.Length > 0
    modifies buf
    ensures forall j :: 0 <= j < buf.Length ==> buf[j] == Expected(j)
  {
    buf[0] := Val;
    var j := 1;
    while j < buf.Length
      invariant 1 <= j <= buf.Length
      invariant forall k :: 0 <= k < j ==> buf[k] == Expected(k)
    {
      FillStepIsPattern(j);
      buf[j] := LowByteOfNot(buf[j - 1] as bv32) as Byte;
      j := j + 1;
    }
  }

  /** The check loop: the first index below `len` whose byte is not the expected one, or `len`. */
  method CheckPattern(buf: array<Byte>, len: nat) returns (j: nat)
    requires len <= buf.Length
    ensures j <= len
    ensures forall k :: 0 <= k < j ==> buf[k] == Expected(k)
    ensures j < len ==> buf[j] != Expected(j)
  {
    j := 0;
    while j < len
      invariant j <= len
      invariant forall k :: 0 <= k < j ==> buf[k] == Expected(k)
    {
      if buf[j] != CheckedValue(j) as int {
        return;
      }
      j := j + 1;
    }
  }

  /**
   * One pass of test_access: fill the buffer with the pattern, hand its first
   * `p.len` bytes to flash_write, clear it, let flash_read put `readback`
   * into it, and check. `written` is what went to flash_write; `mismatch` is
   * the index the check stopped at, p.len when it found no error.
   */
  method TestPass(buf: array<Byte>, p: Pass, readback: seq<Byte>) returns (written: seq<Byte>, mismatch: nat)
    requires buf.Length == BufferSize && 0 < p.len <= BufferSize && |readback| == p.len
    modifies buf
    ensures |written| == p.len && forall j :: 0 <= j < p.len ==> written[j] == Expected(j)
    ensures mismatch <= p.len
    ensures mismatch == p.len <==> readback == written
    ensures mismatch < p.len ==> readback[..mismatch] == written[..mismatch] && readback[mismatch] != written[mismatch]
  {
    FillPattern(buf);
    written := buf[..p.len];
    Fill(buf, 0);
    CopyInto(buf, 0, readback);
    assert buf[..p.len] == readback;
    mismatch := CheckPattern(buf, p.len);
    if mismatch == p.len {
      assert readback == written;
    }
  }

  /**
   * test_access(i): the passes over sector i, each with the bytes flash_read
   * produced for it; the result is where each pass's check stopped.
   */
  method TestAccess(buf: array<Byte>, i: nat, readbacks: seq<seq<Byte>>) returns (mismatches: seq<nat>)
    requires 2 <= i < |Sectors| && buf.Length == BufferSize
    requires |readbacks| == |Passes(Sectors[i])|
    requires forall k :: 0 <= k < |readbacks| ==> |readbacks[k]| == Passes(Sectors[i])[k].len
    modifies buf
    ensures |mismatches| == |readbacks|
    ensures forall k :: 0 <= k < |readbacks| ==> mismatches[k] <= Passes(Sectors[i])[k].len
    ensures forall k :: 0 <= k < |readbacks| ==>
              (mismatches[k] == Passes(Sectors[i])[k].len <==> readbacks[k] == Pattern(Passes(Sectors[i])[k].len))
  {
    var passes := Passes(Sectors[i]);
    mismatches := [];
    var k := 0;
    while k < |passes|
      invariant 0 <= k <= |passes| && |mismatches| == k
      invariant forall m :: 0 <= m < k ==> mismatches[m] <= passes[m].len
      invariant forall m :: 0 <= m < k ==> (mismatches[m] == passes[m].len <==> readbacks[m] == Pattern(passes[m].len))
    {
      var written, mismatch := TestPass(buf, passes[k], readbacks[k]);
      assert written == Pattern(passes[k].len);
      mismatches := mismatches + [mismatch];
      k := k + 1;
    }
  }

  /** The first `n` bytes of the test pattern. */
  function Pattern(n: nat): (s: seq<Byte>)
    ensures |s| == n && forall j :: 0 <= j < n ==> s[j] == Expected(j)
  {
    seq(n, j requires 0 <= j => Expected(j))
  }

  /** The erase loop of main: sectors 0 and 1 hold the running firmware and are skipped. */
  method EraseRequests() returns (erased: seq<Sector>)
    ensures erased == Sectors[2..]
  {
    erased := [];
    var i := 0;
    while i < |Sectors|
      invariant 0 <= i <= |Sectors|
      invariant erased == if i < 2 then [] else Sectors[2..i]
    {
      if i < 2 {
        i := i + 1;
        continue;
      }
      erased := erased + [Sectors[i]];
      i := i + 1;
    }
  }

  /** No erased range reaches into the first two sectors. */
  lemma ErasesSpareFirmware()
    ensures forall s, a :: s in Sectors[2..] && InSector(s, a) ==> !InSector(Sectors[0], a) && !InSector(Sectors[1], a)
  {
  }

  /** The banner main looks for in sector 0. */
  const Banner: seq<Byte> := [
    'S' as Byte, 'T' as Byte, 'M' as Byte, '3' as Byte, '2' as Byte, 'F' as Byte, '4' as Byte, ' ' as Byte,
    'F' as Byte, 'l' as Byte, 'a' as Byte, 's' as Byte, 'h' as Byte, ' ' as Byte,
    'T' as Byte, 'e' as Byte, 's' as Byte, 't' as Byte
  ]

  /**
   * The firmware search of main: read the first 16 KB (status `readRc`,
   * bytes `image`) and look for the banner in them. Only a report is made,
   * so the result is whether it would say FOUND.
   */
  method LookForFirmware(readRc: int, image: seq<Byte>) returns (found: bool)
    requires |image| == 16 * KB
    ensures found <==> readRc == 0 && SampleSearch.FirstMatch(image, Banner, 16 * KB).Some?
  {
    if readRc != 0 {
      return false;
    }
    var r := SampleSearch.SStrStr(image, Banner, 16 * KB);
    found := r.Some?;
  }
}
