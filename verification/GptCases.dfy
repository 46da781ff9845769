/** Disks on which loading a GPT does less than it could, made from any object that can be saved. */
module GptCases {
  import opened GptFormat
  import opened Crc32
  import opened GptStore
  import opened GptRecovery
  import opened GptCrash
  import opened GptLifecycle

  /** The table can be exchanged for any other of its size. */
  lemma OtherTable(g: Gpt, boot: Sector, diskSize: nat, bytes: seq<Byte>, blockSize: BlockSize) returns (next: Gpt)
    requires Savable(g, boot, diskSize, blockSize) && |bytes| == |TableBytes(g.parts)|
    ensures next == g.(parts := next.parts) && TableBytes(next.parts) == bytes
    ensures Savable(next, boot, diskSize, blockSize) && SavesOver(next, g.main, g.second)
  {
    hide HeaderFits, Standard, ParseTable, PartFits;
    TableBytesParse(bytes, |g.parts|);
    next := g.(parts := ParseTable(bytes));
  }

  // ---------- a torn main table ----------

  /** Every save can be followed by one that loses both tables: the object differs from the saved one
      in the last byte of a partition's name and the first byte of the next one's type, on either side
      of the first sector boundary, and power fails after one sector of the main table. */
  lemma TornSave(blank: Gpt, disk: seq<Sector>, g: Gpt, boot: Sector, blockSize: BlockSize) returns (next: Gpt)
    requires Fresh(blank) && Savable(g, boot, |disk|, blockSize) && ENTRY_SIZE * |g.parts| > blockSize
    ensures next == g.(parts := next.parts) && Savable(next, boot, |disk|, blockSize)
    ensures
      var saved := Crashed(disk, g, boot, Complete(g, blockSize), blockSize);
      var r := ForceLoad(blank, Crashed(saved, next, boot, Sectors(next, blockSize) + 2, blockSize), blockSize).0;
      r.parts != g.parts && r.parts != next.parts
  {
    hide HeaderAt, HeaderValid, TableAt, TableBytes, Checksum, Crashed, TableFits, ForceLoad, Standard,
         Fresh, CheckHeaderCRC, RecomputeCRCs, HeaderFits, Consistent, Complete;
    var bytes, e := TableBytes(g.parts), blockSize - 1;
    var before, a, after := bytes[..e], bytes[e..e + 2], bytes[e + 2..];
    var b: seq<Byte> := [255 - a[0], 255 - a[1]];
    assert bytes == before + a + after;
    next := OtherTable(g, boot, |disk|, before + b + after, blockSize);
    FullSave(disk, g, boot, Complete(g, blockSize), blockSize);
    Recomputed(g, g.main, g.second, blockSize);
    var n, saved := RecomputeCRCs(g), Crashed(disk, g, boot, Complete(g, blockSize), blockSize);
    TornMainTableIsLoaded(blank, saved, n.main, n.second, g.parts, next, boot, before, a, b, after, blockSize);
  }

  // ---------- a main table that cannot be read ----------

  lemma PointElsewhere(h: Header, lba: nat)
    requires HeaderFits(h) && lba < TWO64
    ensures HeaderFits(h.(partitionEntriesLBA := lba))
  {
    hide Power256;
    Widths();
    var r := h.(partitionEntriesLBA := lba);
    forall i | 0 <= i < |HEADER_WIDTHS|
      ensures HeaderValues(r)[i] < Power256(HEADER_WIDTHS[i])
    {
      assert HeaderValues(h)[i] < Power256(HEADER_WIDTHS[i]);
    }
  }

  /** The main header that a save would write if its table were past the end of the disk. */
  function Astray(g: Gpt, diskSize: nat): Header {
    RecomputeCRCs(g.(main := g.main.(partitionEntriesLBA := diskSize))).main
  }

  lemma AstrayIsValid(g: Gpt, boot: Sector, diskSize: nat, blockSize: BlockSize)
    requires Savable(g, boot, diskSize, blockSize)
    ensures
      var h := Astray(g, diskSize);
      && HeaderFits(h) && HeaderValid(h, blockSize) && SameGeometry(h, g.main.(partitionEntriesLBA := diskSize))
      && h.partitionEntriesCRC == Checksum(TableBytes(g.parts))
  {
    hide HeaderFits, HeaderValid, RecomputeCRCs, Checksum, TableBytes, TableFits, TableSectors;
    var other := g.(main := g.main.(partitionEntriesLBA := diskSize));
    PointElsewhere(g.main, diskSize);
    Recomputed(other, other.main, other.second, blockSize);
  }

  /** Writing the main header leaves the backup header and its table alone. */
  lemma OnlyMainHeader(disk: seq<Sector>, m: Header, s: Header, h: Header, blockSize: BlockSize)
    requires Standard(m, s, |disk|, blockSize) && HeaderFits(h)
    ensures
      var d := Apply(disk, [HeaderWrite(1, h, blockSize)]);
      && HeaderAt(d, 1, blockSize) == h
      && HeaderAt(d, |disk| - 1, blockSize) == HeaderAt(disk, |disk| - 1, blockSize)
      && TableAt(d, s, blockSize) == TableAt(disk, s, blockSize)
  {
    hide HeaderFits, HeaderBytes, ParseHeader, Apply, ReadBytes, TableSectors, SectorsFor;
    HeaderReadBack(disk, 1, h, blockSize);
    var w := [HeaderWrite(1, h, blockSize)];
    KeepsRead(disk, w, 1, 2, |disk| - 1, HEADER_RECORD, blockSize);
    KeepsRead(disk, w, 1, 2, s.partitionEntriesLBA, TableSize(s), blockSize);
  }

  /** A disk on which the intact backup table is not loaded: after a complete save, the main header is
      replaced by a valid one whose table is past the end of the disk. */
  lemma LostMainTable(blank: Gpt, disk: seq<Sector>, g: Gpt, boot: Sector, blockSize: BlockSize) returns (next: Gpt)
    requires Fresh(blank) && Savable(g, boot, |disk|, blockSize)
    ensures next == g.(parts := next.parts) && Savable(next, boot, |disk|, blockSize)
    ensures
      var saved := Crashed(disk, next, boot, Complete(next, blockSize), blockSize);
      var d := Apply(saved, [HeaderWrite(1, Astray(next, |disk|), blockSize)]);
      var (r, ok) := ForceLoad(blank, d, blockSize);
      && HeaderValid(HeaderAt(d, 1, blockSize), blockSize) && HeaderValid(HeaderAt(d, |d| - 1, blockSize), blockSize)
      && TableAt(d, HeaderAt(d, |d| - 1, blockSize), blockSize) == TableBytes(next.parts)
      && r.parts != next.parts && !ok
  {
    hide HeaderAt, HeaderValid, TableBytes, Checksum, Crashed, TableFits, ForceLoad, Fresh, CheckHeaderCRC,
         RecomputeCRCs, HeaderFits, Complete, ParseTable, Apply, HeaderWrite, TableSectors, ReadBytes, SectorsFor;
    var size := |TableBytes(g.parts)|;
    next := OtherTable(g, boot, |disk|, [1] + ZeroBytes(size - 1), blockSize);
    FullSave(disk, next, boot, Complete(next, blockSize), blockSize);
    Recomputed(next, next.main, next.second, blockSize);
    AstrayIsValid(next, boot, |disk|, blockSize);
    var n, h := RecomputeCRCs(next), Astray(next, |disk|);
    var saved := Crashed(disk, next, boot, Complete(next, blockSize), blockSize);
    var d := Apply(saved, [HeaderWrite(1, h, blockSize)]);
    OnlyMainHeader(saved, n.main, n.second, h, blockSize);
    ReadsPastEnd(d, h, blockSize);
    ZerosDiffer(size);
    StandardReads(d, n.main, n.second, blockSize);
    UnreadMainTable(blank, d, h, n.second, blockSize);
    ParseTableBytes(next.parts);
  }

  lemma ReadsPastEnd(disk: seq<Sector>, h: Header, blockSize: BlockSize)
    requires h.partitionEntriesLBA == |disk| && TableSize(h) > 0
    ensures TableAt(disk, h, blockSize) == ZeroBytes(TableSize(h))
    ensures !ReadOk(disk, h.partitionEntriesLBA, TableSize(h), blockSize)
  {
    SectorsForStep(TableSize(h), blockSize);
  }

  lemma ZerosDiffer(size: nat)
    requires size > 0
    ensures Checksum(ZeroBytes(size)) != Checksum([1] + ZeroBytes(size - 1))
  {
    hide Checksum;
    var zeros := ZeroBytes(size - 1);
    ByteBurstDetected([], [0], [1], zeros);
    assert ZeroBytes(size) == [] + [0] + zeros && [1] + zeros == [] + [1] + zeros;
  }
}
