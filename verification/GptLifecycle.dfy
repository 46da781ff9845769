/** Saves and loads put together, on disks that held anything at all: what a complete save
    establishes, and what the recovery and crash theorems then say from there on. */
module GptLifecycle {
  import opened GptFormat
  import opened Crc32
  import opened GptStore
  import opened GptRecovery
  import opened GptCrash
  import GptLayout

  /** An object whose own geometry is in order and that can be saved on a disk. */
  ghost predicate Savable(g: Gpt, boot: Sector, diskSize: nat, blockSize: BlockSize) {
    Standard(g.main, g.second, diskSize, blockSize) && SavesOver(g, g.main, g.second) && |boot| == blockSize
  }

  /** The number of sector writes of a complete save. */
  function Complete(g: Gpt, blockSize: BlockSize): nat { 2 * Sectors(g, blockSize) + 3 }

  lemma StandardSealed(m: Header, s: Header, a: Header, b: Header, diskSize: nat, blockSize: BlockSize)
    requires Standard(m, s, diskSize, blockSize) && SameGeometry(a, m) && SameGeometry(b, s)
    ensures Standard(a, b, diskSize, blockSize)
  {
    hide TableSectors;
  }

  /** Whatever was on the disk, a complete save leaves it consistent. */
  lemma FullSave(disk: seq<Sector>, g: Gpt, boot: Sector, k: nat, blockSize: BlockSize)
    requires Savable(g, boot, |disk|, blockSize) && k >= Complete(g, blockSize)
    ensures var n := RecomputeCRCs(g);
            Consistent(Crashed(disk, g, boot, k, blockSize), n.main, n.second, g.parts, blockSize)
  {
    hide RecomputeCRCs, HeaderAt, HeaderValid, HeaderFits, TableBytes, Checksum, Mix, Interrupted, SaveWrites,
         TableFits, TableSectors, Sectors, ReadBytes, SectorsFor;
    var n, m, s := RecomputeCRCs(g), g.main, g.second;
    Recomputed(g, m, s, blockSize);
    HeadersAfter(disk, n, m, s, boot, k, blockSize);
    TablesAfter(disk, n, m, s, boot, k, blockSize);
    StandardSealed(m, s, n.main, n.second, |disk|, blockSize);
    SameSectors(g, n, blockSize);
    MixWhole(TableBytes(g.parts), TableAt(disk, m, blockSize), Sectors(g, blockSize), blockSize);
    MixWhole(TableBytes(g.parts), TableAt(disk, s, blockSize), Sectors(g, blockSize), blockSize);
  }

  lemma SameSectors(g: Gpt, n: Gpt, blockSize: BlockSize)
    requires n.parts == g.parts
    ensures Sectors(n, blockSize) == Sectors(g, blockSize) == SectorsFor(|TableBytes(g.parts)|, blockSize)
  {}

  /** What a complete save leaves where: both headers and both tables, field by field. */
  lemma SavedPlaces(disk: seq<Sector>, g: Gpt, boot: Sector, k: nat, i: nat, blockSize: BlockSize)
    requires Savable(g, boot, |disk|, blockSize) && k >= Complete(g, blockSize) && i < |g.parts|
    ensures
      var d, n := Crashed(disk, g, boot, k, blockSize), RecomputeCRCs(g);
      && HeaderPlaces(ReadBytes(d, 1, HEADER_RECORD, blockSize), n.main)
      && HeaderPlaces(ReadBytes(d, |disk| - 1, HEADER_RECORD, blockSize), n.second)
      && PartPlaces(TableAt(d, n.main, blockSize), ENTRY_SIZE * i, g.parts[i])
      && PartPlaces(TableAt(d, n.second, blockSize), ENTRY_SIZE * i, g.parts[i])
  {
    hide RecomputeCRCs, HeaderValid, HeaderPlaces, PartPlaces, TableBytes, TableAt, Checksum, Crashed, TableFits,
         ReadBytes, ParseHeader, HeaderFits, Complete;
    FullSave(disk, g, boot, k, blockSize);
    var d := Crashed(disk, g, boot, k, blockSize);
    HeaderReadFrom(ReadBytes(d, 1, HEADER_RECORD, blockSize));
    HeaderReadFrom(ReadBytes(d, |disk| - 1, HEADER_RECORD, blockSize));
    TableLayout(g.parts, i);
  }

  /** What a load makes of a disk that was saved completely: the object as it was saved. */
  function Reloaded(g: Gpt): Gpt {
    RecomputeCRCs(g).(numParts := |g.parts|, state := GptValid,
                      mainCrcOk := true, secondCrcOk := true, mainPartsCrcOk := true, secondPartsCrcOk := true)
  }

  /** Save, then load: the object saved, reported valid. */
  lemma SaveThenLoad(blank: Gpt, disk: seq<Sector>, g: Gpt, boot: Sector, k: nat, blockSize: BlockSize)
    requires Fresh(blank) && Savable(g, boot, |disk|, blockSize) && k >= Complete(g, blockSize)
    ensures var r := ForceLoad(blank, Crashed(disk, g, boot, k, blockSize), blockSize).0;
            r == Reloaded(g)
  {
    hide RecomputeCRCs, HeaderAt, HeaderValid, TableAt, TableBytes, Checksum, Crashed, TableFits, ForceLoad, Standard,
         Fresh, CheckHeaderCRC, ParseTable;
    FullSave(disk, g, boot, k, blockSize);
    var d, n := Crashed(disk, g, boot, k, blockSize), RecomputeCRCs(g);
    BothHeadersValid(blank, d, n.main, n.second, blockSize);
    ParseTableBytes(g.parts);
    SameParts(g);
  }

  lemma SameParts(g: Gpt)
    ensures RecomputeCRCs(g) == g.(main := RecomputeCRCs(g).main, second := RecomputeCRCs(g).second)
  {
    hide Checksum, HeaderBytes, TableBytes;
  }

  /** Save, damage, load: after a complete save the recoverable faults are recovered, and no
      others, whatever the disk held before, unless the main header heals. */
  lemma SaveThenDamage(blank: Gpt, before: seq<Sector>, g: Gpt, boot: Sector, k: nat, disk: seq<Sector>, f: Faults,
                       blockSize: BlockSize)
    requires Fresh(blank) && |disk| == |before|
    requires Savable(g, boot, |before|, blockSize) && k >= Complete(g, blockSize)
    requires var n := RecomputeCRCs(g); DamagedBy(disk, n.main, n.second, g.parts, f, blockSize)
    ensures var r := ForceLoad(blank, disk, blockSize).0;
            && (r.state == GptInvalid <==> f.mainHeader && f.backupHeader)
            && (r.state != GptInvalid && !Heals(blank, disk, f, blockSize) ==> (r.parts == g.parts <==> Recoverable(f)))
  {
    hide HeaderAt, HeaderValid, TableAt, TableBytes, Checksum, Crashed, TableFits, ForceLoad, Standard,
         Fresh, CheckHeaderCRC, MainAfterBackup, DamagedBy, RecomputeCRCs;
    FullSave(before, g, boot, k, blockSize);
    var n := RecomputeCRCs(g);
    FaultTolerance(blank, Crashed(before, g, boot, k, blockSize), disk, n.main, n.second, g.parts, f, blockSize);
  }

  /** Two saves in a row, the second cut off between two of its regions: on a disk that held
      anything, the load gives the first table or the second, never anything else, and
      reports valid only when all four structures agree. */
  lemma SaveThenCrash(blank: Gpt, disk: seq<Sector>, g: Gpt, next: Gpt, boot: Sector, k: nat, blockSize: BlockSize)
    requires Fresh(blank) && Savable(g, boot, |disk|, blockSize) && SavesOver(next, g.main, g.second)
    requires var t := Sectors(next, blockSize); k in {0, t, t + 1, 2 * t + 1, 2 * t + 2, 2 * t + 3}
    ensures
      var saved := Crashed(disk, g, boot, Complete(g, blockSize), blockSize);
      var r := ForceLoad(blank, Crashed(saved, next, boot, k, blockSize), blockSize).0;
      var t, sameCrc := Sectors(next, blockSize), Checksum(TableBytes(g.parts)) == Checksum(TableBytes(next.parts));
      && r.parts == (if k <= t + 1 then g.parts else next.parts)
      && r.state == (if k == 0 || k > 2 * t + 1 || sameCrc then GptValid else GptCorrupt)
  {
    hide HeaderAt, HeaderValid, TableAt, TableBytes, Checksum, Crashed, TableFits, ForceLoad, Standard,
         Fresh, CheckHeaderCRC, RecomputeCRCs, HeaderFits, Consistent;
    var n := RecomputeCRCs(g);
    FullSave(disk, g, boot, Complete(g, blockSize), blockSize);
    Recomputed(g, g.main, g.second, blockSize);
    var saved := Crashed(disk, g, boot, Complete(g, blockSize), blockSize);
    assert SavesOver(next, n.main, n.second);
    CrashBetweenRegions(blank, saved, n.main, n.second, g.parts, next, boot, k, blockSize);
  }

  /** A header that was read fits its fields. */
  lemma ReadFits(disk: seq<Sector>, lba: nat, blockSize: BlockSize)
    ensures HeaderFits(HeaderAt(disk, lba, blockSize))
  {
    hide HeaderFits, ParseHeader, ReadBytes;
    HeaderBytesParse(ReadBytes(disk, lba, HEADER_RECORD, blockSize));
  }

  lemma RebuiltFits(h: Header, currentLBA: nat, backupLBA: nat, tableLBA: nat)
    requires HeaderFits(h) && currentLBA < TWO64 && backupLBA < TWO64 && tableLBA < TWO64
    ensures HeaderFits(Rebuilt(h, currentLBA, backupLBA, tableLBA))
  {
    hide Power256;
    Widths();
    var r := Rebuilt(h, currentLBA, backupLBA, tableLBA);
    forall i | 0 <= i < |HEADER_WIDTHS|
      ensures HeaderValues(r)[i] < Power256(HEADER_WIDTHS[i])
    {
      assert HeaderValues(h)[i] < Power256(HEADER_WIDTHS[i]);
    }
  }

  /** Damage, load, save: after any recoverable damage, loading the disk and saving what was loaded
      makes it consistent again, with the table it had, unless the main header heals. */
  lemma LoadThenSave(blank: Gpt, original: seq<Sector>, disk: seq<Sector>, m: Header, s: Header, parts: seq<Part>,
                     f: Faults, boot: Sector, k: nat, blockSize: BlockSize)
    requires |disk| == |original| && Consistent(original, m, s, parts, blockSize) && |boot| == blockSize
    requires DamagedBy(disk, m, s, parts, f, blockSize) && Fresh(blank)
    requires Recoverable(f) && !Heals(blank, disk, f, blockSize)
    requires m.headerSize >= HEADER_SIZE && s.headerSize >= HEADER_SIZE
    ensures
      var r := ForceLoad(blank, disk, blockSize).0;
      && Savable(r, boot, |disk|, blockSize) && r.parts == parts
      && (k >= Complete(r, blockSize) ==>
            var n := RecomputeCRCs(r);
            Consistent(Crashed(disk, r, boot, k, blockSize), n.main, n.second, parts, blockSize))
  {
    hide ForceLoad, TableAt, Checksum, HeaderAt, CheckHeaderCRC, TableBytes, Heals, TableFits, Fresh, HeaderFits,
         DamagedBy, RecomputeCRCs, Crashed, Complete, Standard, SavesOver;
    FaultTolerance(blank, original, disk, m, s, parts, f, blockSize);
    var r := ForceLoad(blank, disk, blockSize).0;
    ReadFits(original, 1, blockSize);
    ReadFits(original, |disk| - 1, blockSize);
    RestoredSavable(r, m, s, parts, f, |disk|, blockSize);
    if k >= Complete(r, blockSize) {
      FullSave(disk, r, boot, k, blockSize);
    }
  }

  lemma RestoredSavable(r: Gpt, m: Header, s: Header, parts: seq<Part>, f: Faults, diskSize: nat, blockSize: BlockSize)
    requires Standard(m, s, diskSize, blockSize) && HeadersRestored(r, m, s, f, diskSize) && Recoverable(f)
    requires HeaderValid(m, blockSize) && HeaderValid(s, blockSize) && HeaderFits(m) && HeaderFits(s)
    requires m.headerSize >= HEADER_SIZE && s.headerSize >= HEADER_SIZE
    requires r.parts == parts && |parts| == m.numParts && TableFits(parts)
    ensures Standard(r.main, r.second, diskSize, blockSize) && SavesOver(r, r.main, r.second)
  {
    hide HeaderFits, TableFits, CheckHeaderCRC, TableSectors;
    RebuiltFits(m, diskSize - 1, 1, s.partitionEntriesLBA);
    RebuiltFits(s, 1, diskSize - 1, m.partitionEntriesLBA);
  }

  // ---------- formatting ----------

  /** A cleared object with one partition can be saved. */
  lemma FormattedIsSavable(g: Gpt, p: Part, boot: Sector, diskSize: nat, blockSize: BlockSize)
    requires GptLayout.Cleared(g, diskSize, blockSize) && GptLayout.LargeEnough(diskSize, blockSize)
    requires |boot| == blockSize
    requires HeaderFits(g.main) && HeaderFits(g.second) && PartFits(p) && g.numParts > 0
    ensures Savable(g.(parts := g.parts[0 := p]), boot, diskSize, blockSize)
  {
    hide HeaderFits, TableSectors, GptLayout.DefaultEntries;
    var n := g.(parts := g.parts[0 := p]);
    forall i | 0 <= i < |n.parts|
      ensures PartFits(n.parts[i])
    {
      BlankFits();
    }
  }

  lemma BlankFits()
    ensures PartFits(BLANK)
  {
    assert forall i :: 0 <= i < |PART_WIDTHS| ==> PartValues(BLANK)[i] == 0;
  }

  /** Formatting end to end: on every large enough disk, whatever it held, saving a cleared table
      with one partition of the usable range and loading it again gives exactly that table,
      reported valid, with nothing for Verify to find. */
  lemma FormatThenLoad(blank: Gpt, disk: seq<Sector>, g: Gpt, p: Part, answers: GptLayout.Answers, boot: Sector, k: nat,
                       blockSize: BlockSize)
    requires Fresh(blank) && GptLayout.Cleared(g, |disk|, blockSize)
    requires GptLayout.LargeEnough(|disk|, blockSize) && |boot| == blockSize
    requires HeaderFits(g.main) && HeaderFits(g.second) && g.numParts > 0
    requires PartFits(p) && p.IsUsed() && g.main.firstUsableLBA <= p.firstLBA <= p.lastLBA <= g.main.lastUsableLBA
    requires k >= Complete(g.(parts := g.parts[0 := p]), blockSize)
    ensures
      var n := g.(parts := g.parts[0 := p]);
      var saved := Apply(disk, Take(GptLayout.Written(n, true, answers, false, boot, |disk|, blockSize), k));
      var r := ForceLoad(blank, saved, blockSize).0;
      r == Reloaded(n) && r.parts == n.parts && GptLayout.VerifyFindsNothing(r, |disk|, blockSize)
  {
    hide HeaderFits, PartFits, TableSectors, GptLayout.DefaultEntries, ForceLoad, GptLayout.Written, Apply, Crashed,
         GptLayout.Cleared, GptLayout.LargeEnough,
         Sectors,
         GptLayout.VerifyFindsNothing, GptLayout.Accepted, GptLayout.Spares, GptLayout.Relocated, Fresh,
         Savable, Complete;
    ClearedPlaces(g, |disk|, blockSize);
    var n := g.(parts := g.parts[0 := p]);
    FormattedIsSavable(g, p, boot, |disk|, blockSize);
    GptLayout.FormattedDisk(g, p, answers, boot, |disk|, blockSize);
    GptLayout.InterruptedSave(n, disk, true, answers, boot, k, blockSize);
    SaveThenLoad(blank, disk, n, boot, k, blockSize);
    SavableRecomputed(n, boot, |disk|, blockSize);
    ReloadedVerifies(n, |disk|, blockSize);
  }

  lemma ClearedPlaces(g: Gpt, diskSize: nat, blockSize: BlockSize)
    requires GptLayout.Cleared(g, diskSize, blockSize) && GptLayout.LargeEnough(diskSize, blockSize)
    ensures 0 < diskSize < TWO64 && g.main.backupLBA == diskSize - 1 && g.main.lastUsableLBA < g.main.backupLBA
    ensures |g.parts| == g.numParts
  {
    hide TableSectors, GptLayout.DefaultEntries;
  }

  lemma SavableRecomputed(g: Gpt, boot: Sector, diskSize: nat, blockSize: BlockSize)
    requires Savable(g, boot, diskSize, blockSize)
    ensures var n := RecomputeCRCs(g);
      SameGeometry(n.main, g.main) && SameGeometry(n.second, g.second)
      && |g.parts| == g.main.numParts
  {
    hide RecomputeCRCs, Standard, HeaderFits, TableFits, HeaderValid, Checksum;
    Recomputed(g, g.main, g.second, blockSize);
  }

  /** Verify finds no more in the object loaded than in the one saved. */
  lemma ReloadedVerifies(n: Gpt, diskSize: nat, blockSize: BlockSize)
    requires GptLayout.VerifyFindsNothing(n, diskSize, blockSize) && n.numParts == |n.parts|
    requires var c := RecomputeCRCs(n); SameGeometry(c.main, n.main) && SameGeometry(c.second, n.second)
    ensures GptLayout.VerifyFindsNothing(Reloaded(n), diskSize, blockSize) && Reloaded(n).parts == n.parts
  {
    hide Checksum, HeaderBytes, TableBytes, TableSectors, GptLayout.NoOverlaps, GptLayout.Sane, Add64, Sub64;
    SameParts(n);
    SameGuid(n);
  }

  lemma SameGuid(g: Gpt)
    ensures RecomputeCRCs(g).main.diskGUID == g.main.diskGUID && RecomputeCRCs(g).second.diskGUID == g.second.diskGUID
  {
    hide Checksum, HeaderBytes, TableBytes;
  }

  /** Every fresh object that loads the disk finds this table, valid and without problems.  An object
      with used entries need not: one in a high place keeps the array from being resized. */
  ghost predicate LoadsBack(disk: seq<Sector>, parts: seq<Part>, blockSize: BlockSize) {
    forall blank: Gpt :: Fresh(blank) ==>
      var r := ForceLoad(blank, disk, blockSize).0;
      r.parts == parts && r.state == GptValid && GptLayout.VerifyFindsNothing(r, |disk|, blockSize)
  }

  /** What formatting does, step by step: the save is accepted and moves nothing, Verify finds nothing
      in the saved object, and the disk loads back. */
  lemma Formatting(disk: seq<Sector>, g: Gpt, p: Part, answers: GptLayout.Answers, boot: Sector, k: nat,
                   blockSize: BlockSize)
    requires GptLayout.Cleared(g, |disk|, blockSize) && GptLayout.LargeEnough(|disk|, blockSize) && |boot| == blockSize
    requires HeaderFits(g.main) && HeaderFits(g.second) && g.numParts > 0
    requires PartFits(p) && p.IsUsed() && g.main.firstUsableLBA <= p.firstLBA <= p.lastLBA <= g.main.lastUsableLBA
    requires k >= 2 * TableSectors(g.numParts, blockSize) + 3
    ensures
      var n := g.(parts := g.parts[0 := p]);
      && GptLayout.Relocated(n, true, answers, |disk|) == n
      && GptLayout.Accepted(n, true, answers, false, |disk|)
      && (var c := RecomputeCRCs(n);
          && c.parts == n.parts && c.numParts == n.numParts
          && c.main.firstUsableLBA == n.main.firstUsableLBA && c.main.lastUsableLBA == n.main.lastUsableLBA
          && GptLayout.VerifyFindsNothing(c, |disk|, blockSize))
      && LoadsBack(Apply(disk, Take(GptLayout.Written(n, true, answers, false, boot, |disk|, blockSize), k)),
         n.parts, blockSize)
  {
    hide HeaderFits, PartFits, TableSectors, GptLayout.DefaultEntries, ForceLoad, GptLayout.Written, Apply, Fresh,
         Savable,
         GptLayout.VerifyFindsNothing, GptLayout.Accepted, GptLayout.Spares, GptLayout.Relocated, Complete,
         RecomputeCRCs;
    var n := g.(parts := g.parts[0 := p]);
    CompleteSave(n, blockSize);
    GptLayout.FormattedDisk(g, p, answers, boot, |disk|, blockSize);
    FormattedIsSavable(g, p, boot, |disk|, blockSize);
    SavableRecomputed(n, boot, |disk|, blockSize);
    SavedVerifies(n, |disk|, blockSize);
    SameParts(n);
    forall blank: Gpt | Fresh(blank)
      ensures
        var saved := Apply(disk, Take(GptLayout.Written(n, true, answers, false, boot, |disk|, blockSize), k));
        var r := ForceLoad(blank, saved, blockSize).0;
        r.parts == n.parts && r.state == GptValid && GptLayout.VerifyFindsNothing(r, |disk|, blockSize)
    {
      FormatThenLoad(blank, disk, g, p, answers, boot, k, blockSize);
    }
  }

  lemma CompleteSave(n: Gpt, blockSize: BlockSize)
    requires |n.parts| == n.numParts && n.numParts * ENTRY_SIZE < TWO32
    ensures Complete(n, blockSize) == 2 * TableSectors(n.numParts, blockSize) + 3
  {
    hide TableBytes, SectorsFor;
  }

  lemma SavedVerifies(n: Gpt, diskSize: nat, blockSize: BlockSize)
    requires GptLayout.VerifyFindsNothing(n, diskSize, blockSize)
    requires var c := RecomputeCRCs(n); SameGeometry(c.main, n.main) && SameGeometry(c.second, n.second)
    ensures GptLayout.VerifyFindsNothing(RecomputeCRCs(n), diskSize, blockSize)
  {
    hide Checksum, HeaderBytes, TableBytes, TableSectors, GptLayout.NoOverlaps, GptLayout.Sane, Add64, Sub64;
    SameParts(n);
    SameGuid(n);
  }

  // ---------- values that fit their fields ----------

  lemma Widths()
    ensures Power256(4) == TWO32 && Power256(8) == TWO64 && Power256(16) > 0x10000 && Power256(420) > 0
  {
    assert Power256(1) == 256;
    assert Power256(2) == 65536;
    assert Power256(4) == 65536 * Power256(2);
    assert Power256(6) == 65536 * Power256(4);
    assert Power256(8) == 65536 * Power256(6);
    assert Power256(9) == 256 * Power256(8);
    Power256Grows(9, 16);
  }

  lemma {:induction false} Power256Grows(m: nat, n: nat)
    requires m <= n
    ensures Power256(m) <= Power256(n)
    decreases n
  {
    if m < n {
      Power256Grows(m, n - 1);
    }
  }

  /** The headers of a cleared object fit their fields. */
  lemma ClearedFits(g: Gpt, diskSize: nat, blockSize: BlockSize)
    requires GptLayout.Cleared(g, diskSize, blockSize) && GptLayout.LargeEnough(diskSize, blockSize)
    requires g.main.reserved == g.second.reserved == 0 && g.main.reserved2 == g.second.reserved2 == 0
    requires g.main.headerCRC < TWO32 && g.second.headerCRC < TWO32 && g.main.diskGUID < Power256(16)
    requires g.main.partitionEntriesCRC < TWO32 && g.second.partitionEntriesCRC < TWO32
    ensures HeaderFits(g.main) && HeaderFits(g.second)
  {
    hide Power256, TableSectors, GptLayout.DefaultEntries;
    Widths();
    FieldsFit(g.main);
    FieldsFit(g.second);
  }

  lemma FieldsFit(h: Header)
    requires Power256(4) == TWO32 && Power256(8) == TWO64 && Power256(420) > 0
    requires h.signature < TWO64 && h.revision < TWO32 && h.headerSize < TWO32
    requires h.headerCRC < TWO32 && h.reserved < TWO32
    requires h.currentLBA < TWO64 && h.backupLBA < TWO64 && h.firstUsableLBA < TWO64 && h.lastUsableLBA < TWO64
    requires h.diskGUID < Power256(16) && h.partitionEntriesLBA < TWO64 && h.numParts < TWO32
    requires h.sizeOfPartitionEntries < TWO32 && h.partitionEntriesCRC < TWO32 && h.reserved2 == 0
    ensures HeaderFits(h)
  {
    hide Power256;
    forall i | 0 <= i < |HEADER_WIDTHS|
      ensures HeaderValues(h)[i] < Power256(HEADER_WIDTHS[i])
    {
      assert HEADER_WIDTHS[i] in {4, 8, 16, 420};
    }
  }

  lemma PartitionFits(p: Part)
    requires p.partitionType < Power256(16) && p.uniqueGUID < Power256(16) && p.name < Power256(72)
    requires p.firstLBA < TWO64 && p.lastLBA < TWO64 && p.attributes < TWO64
    ensures PartFits(p)
  {
    hide Power256;
    Widths();
  }
}
