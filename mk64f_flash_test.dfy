/**
 * The MK64F flash sample (samples/drivers/soc_flash_mk64f/src/main.c):
 * 1 MB of flash in 4 KB sectors; the first 16 KB hold the firmware, the
 * rest is erased and then written and read back in 16 KB blocks. Flash is
 * reached through the driver; what a read returns is a parameter.
 */
module Mk64fFlashTest {
  import opened Bytes
  import SampleSearch

  const KB: nat := 1024
  const FlashSize: nat := 1024 * KB
  const SectorLen: nat := 4 * KB
  /** NBR_SECTORS */
  const NbrSectors: nat := FlashSize / SectorLen
  /** BUFFER_LEN: four sectors. */
  const BufferLen: nat := 4 * SectorLen
  /** BUFFERS_IN(KB(1024 - 16)): the number of blocks the check loop writes. */
  const Blocks: nat := (1024 - 16) * KB / BufferLen

  /** sector[i].start as the fill loop sets it. */
  function SectorStart(i: nat): (start: nat)
    ensures start % SectorLen == 0
  {
    i * SectorLen
  }

  /** The fill loop of main: every entry of sector[] gets its start address. */
  method FillSectorTable(sector: array<nat>)
    requires sector.Length == NbrSectors
    modifies sector
    ensures forall i :: 0 <= i < sector.Length ==> sector[i] == SectorStart(i)
  {
    var i := 0;
    while i < NbrSectors
      invariant 0 <= i <= NbrSectors
      invariant forall k :: 0 <= k < i ==> sector[k] == SectorStart(k)
    {
      sector[i] := i * SectorLen;
      i := i + 1;
    }
  }

  /** The 256 sectors follow one another and end exactly at the end of flash. */
  lemma SectorsTileFlash()
    ensures NbrSectors == 256
    ensures forall i :: 0 <= i < NbrSectors - 1 ==> SectorStart(i + 1) == SectorStart(i) + SectorLen
    ensures SectorStart(NbrSectors - 1) + SectorLen == FlashSize
  {
  }

  /** The byte the write pattern puts at index j: j % MAX_UINT8. */
  function WritePattern(j: nat): (b: Byte)
    ensures b <= 254
    ensures j < 255 ==> b == j
  {
    j % 0xFF
  }

  /** The loop that sets the write buffer. */
  method FillWriteBuffer(write: array<Byte>)
    requires write.Length == BufferLen
    modifies write
    ensures forall j :: 0 <= j < write.Length ==> write[j] == WritePattern(j)
  {
    var j := 0;
    while j < write.Length
      invariant 0 <= j <= write.Length
      invariant forall k :: 0 <= k < j ==> write[k] == WritePattern(k)
    {
      write[j] := j % 0xFF;
      j := j + 1;
    }
  }

  /** `4 + i * BUFFER_LEN / SECTOR_LEN`: the sector index block i is written at. */
  function BlockSector(i: nat): (s: nat)
    ensures s == 4 + 4 * i
  {
    4 + i * BufferLen / SectorLen
  }

  /** The address block i is written at and read back from. */
  function BlockAddress(i: nat): (addr: nat)
    ensures addr == BufferLen * (i + 1)
  {
    SectorStart(BlockSector(i))
  }

  /**
   * The write loop's arithmetic: 63 blocks; block i uses sector 4 + 4i, a
   * valid index, and lies at 16 KB * (i + 1), so that the blocks follow one
   * another from 16 KB on and the last one ends exactly at 1 MB.
   */
  lemma BlockLayout(i: nat)
    requires i < Blocks
    ensures Blocks == 63
    ensures BlockSector(i) == 4 + 4 * i < NbrSectors
    ensures BlockAddress(i) == BufferLen * (i + 1)
    ensures BlockAddress(i) + BufferLen <= FlashSize
    ensures i + 1 < Blocks ==> BlockAddress(i + 1) == BlockAddress(i) + BufferLen
    ensures i + 1 == Blocks ==> BlockAddress(i) + BufferLen == FlashSize
  {
    assert i * BufferLen == (4 * i) * SectorLen;
  }

  /** The erase: from sector[4].start, 1008 KB long. */
  function EraseStart(): (start: nat)
    ensures start == 16 * KB
  {
    SectorStart(4)
  }

  const EraseLen: nat := (1024 - 16) * KB

  /** The erase covers exactly 16 KB .. 1 MB, which holds every block the check writes and nothing of the firmware. */
  lemma EraseCoversBlocks(i: nat, a: nat)
    requires i < Blocks && BlockAddress(i) <= a < BlockAddress(i) + BufferLen
    ensures EraseStart() + EraseLen == FlashSize
    ensures EraseStart() <= a < EraseStart() + EraseLen
  {
    BlockLayout(i);
  }

  /** sizeof(progress_mark) - 1: the four marks of "/-\\|" without the terminating zero. */
  const ProgressMarks: nat := 5 - 1

  /** The progress index after a step. */
  function NextProgress(progress: nat): (next: nat)
    ensures next < ProgressMarks
  {
    (progress + 1) % ProgressMarks
  }

  /** After n steps from 0, the progress index is n mod 4: it stays in 0..3 and cycles. */
  lemma {:induction false} ProgressCycles(n: nat)
    ensures Progress(n) == n % ProgressMarks
  {
    if n > 0 {
      ProgressCycles(n - 1);
    }
  }

  /** The progress index after n steps from 0. */
  function Progress(n: nat): (p: nat)
    ensures p < ProgressMarks
  {
    if n == 0 then 0 else NextProgress(Progress(n - 1))
  }

  /** memcmp(a, b, n) == 0. */
  method MemEqual(a: array<Byte>, b: array<Byte>, n: nat) returns (equal: bool)
    requires n <= a.Length && n <= b.Length
    ensures equal <==> a[..n] == b[..n]
  {
    var k := 0;
    while k < n
      invariant 0 <= k <= n
      invariant a[..k] == b[..k]
    {
      if a[k] != b[k] {
        assert a[..n][k] != b[..n][k];
        return false;
      }
      k := k + 1;
      assert a[..k] == a[..k - 1] + [a[k - 1]];
      assert b[..k] == b[..k - 1] + [b[k - 1]];
    }
    assert a[..n] == a[..k];
    return true;
  }

  /**
   * The buffer work of one iteration of the check loop: clear the read
   * buffer, let flash_read put `readback` into it and compare it with the
   * write buffer.
   */
  method CheckBlock(write: array<Byte>, read: array<Byte>, readback: seq<Byte>) returns (same: bool)
    requires write.Length == BufferLen && read.Length == BufferLen && |readback| == BufferLen
    requires write != read
    modifies read
    ensures same <==> readback == write[..]
  {
    Fill(read, 0);
    CopyInto(read, 0, readback);
    assert read[..] == readback;
    same := MemEqual(read, write, BufferLen);
    assert read[..BufferLen] == read[..] && write[..BufferLen] == write[..];
  }

  /**
   * The check loop of main, given what flash_read returned for each block:
   * it writes blocks in order, stops after the first one whose readback
   * differs from the write buffer, and steps the progress index once per
   * block it wrote. `failed` is that block, Blocks when all matched;
   * `written` the addresses it wrote at.
   */
  method CheckFlash(write: array<Byte>, read: array<Byte>, readbacks: seq<seq<Byte>>)
    returns (failed: nat, progress: nat, written: seq<nat>)
    requires write.Length == BufferLen && read.Length == BufferLen && write != read
    requires |readbacks| == Blocks && forall k :: 0 <= k < Blocks ==> |readbacks[k]| == BufferLen
    modifies read
    ensures failed <= Blocks
    ensures forall k :: 0 <= k < failed ==> readbacks[k] == write[..]
    ensures failed < Blocks ==> readbacks[failed] != write[..]
    ensures |written| == if failed < Blocks then failed + 1 else Blocks
    ensures forall k :: 0 <= k < |written| ==> written[k] == BufferLen * (k + 1)
    ensures progress == Progress(|written|) == |written| % ProgressMarks
  {
    progress := 0;
    written := [];
    var i := 0;
    while i < Blocks
      invariant 0 <= i <= Blocks && |written| == i
      invariant forall k :: 0 <= k < i ==> readbacks[k] == write[..]
      invariant forall k :: 0 <= k < i ==> written[k] == BufferLen * (k + 1)
      invariant progress == Progress(i)
    {
      BlockLayout(i);
      written := written + [BlockAddress(i)];
      var same := CheckBlock(write, read, readbacks[i]);
      progress := NextProgress(progress);
      if !same {
        ProgressCycles(i + 1);
        return i, progress, written;
      }
      i := i + 1;
    }
    ProgressCycles(i);
    return Blocks, progress, written;
  }

  /** The banner main looks for in the first 16 KB of flash. */
  const Banner: seq<Byte> := [
    'M' as Byte, 'K' as Byte, '6' as Byte, '4' as Byte, 'F' as Byte, ' ' as Byte,
    'F' as Byte, 'l' as Byte, 'a' as Byte, 's' as Byte, 'h' as Byte, ' ' as Byte,
    'T' as Byte, 'e' as Byte, 's' as Byte, 't' as Byte
  ]

  /**
   * The firmware search that opens main: read the first 16 KB (status
   * `readRc`, bytes `image`) and look for the banner in them. A failed read
   * is reported and the test goes on; a read that succeeds without the
   * banner ends the test before anything is erased.
   */
  method LookForFirmware(readRc: int, image: seq<Byte>) returns (goOn: bool)
    requires |image| == BufferLen
    ensures goOn <==> readRc != 0 || SampleSearch.FirstMatch(image, Banner, BufferLen).Some?
  {
    if readRc != 0 {
      return true;
    }
    var r := SampleSearch.SStrStr(image, Banner, BufferLen);
    goOn := r.Some?;
  }
}
