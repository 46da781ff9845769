/** What survives damage and power loss: theorems about ForceLoadGPTData on every disk that
    came from a consistent one by damaging some of its four structures, or by interrupting
    SaveGPTData after any number of sector writes. */
module GptRecovery {
  import opened Crc32
  import opened GptFormat
  import opened GptStore

  /** The two headers describe one table of n entries placed in the standard way: the main
      table right before the usable sectors, the backup table right after them, the backup
      header on the last sector. */
  ghost predicate Standard(m: Header, s: Header, diskSize: nat, blockSize: BlockSize)
  {
    var sectors := TableSectors(m.numParts, blockSize);
    && 0 < m.numParts && m.numParts * ENTRY_SIZE < TWO32 && diskSize < TWO64
    && m.sizeOfPartitionEntries == s.sizeOfPartitionEntries == ENTRY_SIZE
    && m.numParts == s.numParts
    && m.currentLBA == s.backupLBA == 1
    && m.backupLBA == s.currentLBA == diskSize - 1
    && m.firstUsableLBA == s.firstUsableLBA && m.lastUsableLBA == s.lastUsableLBA
    && 2 <= m.partitionEntriesLBA && m.partitionEntriesLBA + sectors == m.firstUsableLBA
    && m.firstUsableLBA <= s.partitionEntriesLBA == m.lastUsableLBA + 1
    && s.partitionEntriesLBA + sectors < diskSize
  }

  /** A freshly constructed object: no entry is in use. */
  predicate Fresh(g: Gpt) { 0 < g.numParts && g.parts == Blanks(g.numParts) }

  lemma {:induction false} NoneUsed(n: nat)
    ensures HighestUsed(Blanks(n)) == 0
  {
    if n > 0 {
      NoneUsed(n - 1);
      assert Blanks(n)[..n - 1] == Blanks(n - 1);
    }
  }

  /** Resizing an empty table always succeeds and leaves it empty. */
  lemma ResizeFresh(g: Gpt, n: nat, diskSize: nat, blockSize: BlockSize)
    requires Fresh(g) && n > 0
    ensures
      var (r, ok) := Resize(g, n, diskSize, blockSize);
      && ok && Fresh(r) && r.numParts == n
  {
    NoneUsed(g.numParts);
    assert g.parts[..g.numParts] == g.parts;
    if n < g.numParts {
      assert Blanks(g.numParts)[..n] == Blanks(n);
    } else {
      assert Blanks(g.numParts) + Blanks(n - g.numParts) == Blanks(n);
    }
  }

  /** Resizing to the size the object already has changes nothing but the header counts. */
  lemma ResizeSame(g: Gpt, diskSize: nat, blockSize: BlockSize)
    requires g.main.numParts == g.second.numParts == g.numParts
    ensures Resize(g, g.numParts, diskSize, blockSize) == (g, true)
  {}

  // ---------- reading the headers ----------

  /** Reading a header whose checksum is right into a fresh object sizes the object for it. */
  lemma LoadGoodHeader(g: Gpt, disk: seq<Sector>, which: Which, lba: nat, blockSize: BlockSize)
    requires Fresh(g) && lba < |disk|
    requires HeaderAt(disk, lba, blockSize).numParts > 0
    requires CheckHeaderCRC(HeaderAt(disk, lba, blockSize), blockSize)
    ensures
      var (r, ok) := LoadHeader(g, disk, which, lba, blockSize);
      var h := HeaderAt(disk, lba, blockSize);
      && ok && Fresh(r) && r.numParts == h.numParts
      && (which.Main? ==> r.main == h && r.mainCrcOk)
      && (which.Second? ==> r.second == h && r.secondCrcOk && r.mainCrcOk == g.mainCrcOk)
      && (which.Second? && g.numParts == h.numParts ==> r.main == g.main)
      && (which.Second? && g.numParts != h.numParts ==> r.main == Resize(g, h.numParts, |disk|, blockSize).0.main)
  {
    hide HeaderAt, CheckHeaderCRC, Blanks;
    ResizeFresh(g, HeaderAt(disk, lba, blockSize).numParts, |disk|, blockSize);
  }

  /** Reading a header whose checksum is wrong changes only that header. */
  lemma LoadBadHeader(g: Gpt, disk: seq<Sector>, which: Which, lba: nat, blockSize: BlockSize)
    requires lba < |disk|
    requires !CheckHeaderCRC(HeaderAt(disk, lba, blockSize), blockSize)
    ensures
      var (r, ok) := LoadHeader(g, disk, which, lba, blockSize);
      var h := HeaderAt(disk, lba, blockSize);
      ok && r == if which.Main? then g.(main := h, mainCrcOk := false) else g.(second := h, secondCrcOk := false)
  {
    hide HeaderAt, CheckHeaderCRC, Resize;
  }

  // ---------- choosing a table ----------

  /** Both headers are in memory and agree on the shape of the table. */
  ghost predicate Shaped(g: Gpt) {
    && g.main.numParts == g.second.numParts == g.numParts && g.numParts * ENTRY_SIZE < TWO32
    && g.main.sizeOfPartitionEntries == g.second.sizeOfPartitionEntries == ENTRY_SIZE
  }

  /** ... and point inside the disk. */
  ghost predicate Ready(g: Gpt, disk: seq<Sector>, blockSize: BlockSize)
  {
    && Shaped(g)
    && ReadOk(disk, g.main.partitionEntriesLBA, TableSize(g.main), blockSize)
    && ReadOk(disk, g.second.partitionEntriesLBA, TableSize(g.second), blockSize)
  }

  predicate TableGood(disk: seq<Sector>, h: Header, blockSize: BlockSize)
  {
    Checksum(TableAt(disk, h, blockSize)) == h.partitionEntriesCRC
  }

  /** Loading a table into an object of the right size; entries of another size are read as if
      they had the usual one. */
  lemma LoadTableSame(g: Gpt, disk: seq<Sector>, which: Which, blockSize: BlockSize)
    requires g.main.numParts == g.second.numParts == g.numParts
    ensures
      var h := HeaderOfGpt(g, which);
      var good, bytes := TableGood(disk, h, blockSize), Clip(TableAt(disk, h, blockSize), g.numParts * ENTRY_SIZE);
      LoadTable(g, disk, which, blockSize) ==
           (g.(parts := ParseTable(bytes), mainPartsCrcOk := good, secondPartsCrcOk := good),
            ReadOk(disk, h.partitionEntriesLBA, TableSize(h), blockSize))
  {
    hide Resize, Checksum, ReadBytes, ParseTable, Clip;
    ResizeSame(g, |disk|, blockSize);
  }

  lemma LoadTableReady(g: Gpt, disk: seq<Sector>, which: Which, blockSize: BlockSize)
    requires Shaped(g)
    ensures
      var h := HeaderOfGpt(g, which);
      var good := TableGood(disk, h, blockSize);
      LoadTable(g, disk, which, blockSize) ==
           (g.(parts := ParseTable(TableAt(disk, h, blockSize)), mainPartsCrcOk := good, secondPartsCrcOk := good),
            ReadOk(disk, h.partitionEntriesLBA, TableSize(h), blockSize))
  {
    hide LoadTable, Checksum, ReadBytes, ParseTable;
    LoadTableSame(g, disk, which, blockSize);
    WholeTable(disk, HeaderOfGpt(g, which), g.numParts, blockSize);
  }

  lemma WholeTable(disk: seq<Sector>, h: Header, n: nat, blockSize: BlockSize)
    requires h.numParts == n && h.sizeOfPartitionEntries == ENTRY_SIZE && n * ENTRY_SIZE < TWO32
    ensures Clip(TableAt(disk, h, blockSize), n * ENTRY_SIZE) == TableAt(disk, h, blockSize)
  {
    hide ReadBytes;
    assert TableSize(h) == n * ENTRY_SIZE;
  }

  /** The headers and their flags are as before, the two table flags as given. */
  ghost predicate Chosen(r: Gpt, g: Gpt, mainGood: bool, backupAgrees: bool) {
    r == g.(parts := r.parts, mainPartsCrcOk := mainGood, secondPartsCrcOk := backupAgrees)
  }

  /** With a valid main header, whatever it says of the main table: the backup table is used if
      and only if it satisfies both headers while the main table could be read but does not
      satisfy its own. */
  lemma TableChoice(g: Gpt, disk: seq<Sector>, blockSize: BlockSize)
    requires g.main.numParts == g.second.numParts == g.numParts && g.numParts * ENTRY_SIZE < TWO32
    requires g.second.sizeOfPartitionEntries == ENTRY_SIZE && g.secondCrcOk
    ensures
      var (r, ok) := LoadTables(g, disk, false, true, blockSize);
      var mainGood, backupAgrees := TableGood(disk, g.main, blockSize), CheckTable(g, disk, Second, blockSize);
      var readable := ReadOk(disk, g.main.partitionEntriesLBA, TableSize(g.main), blockSize);
      && ok == readable
      && Chosen(r, g, mainGood, backupAgrees)
      && r.parts == ParseTable(if !mainGood && backupAgrees && readable then TableAt(disk, g.second, blockSize)
                               else Clip(TableAt(disk, g.main, blockSize), g.numParts * ENTRY_SIZE))
  {
    hide LoadTable, TableAt, Checksum, ReadOk, ParseTable, Clip;
    LoadTableSame(g, disk, Main, blockSize);
    var b := LoadTable(g, disk, Main, blockSize).0;
    LoadTableSame(b.(secondPartsCrcOk := CheckTable(b, disk, Second, blockSize)), disk, Second, blockSize);
    WholeTable(disk, g.second, g.numParts, blockSize);
  }

  /** With a valid main header: the main table is used unless its checksum is wrong while the
      backup's is right for both headers. */
  lemma MainHeaderChoice(g: Gpt, disk: seq<Sector>, blockSize: BlockSize)
    requires Ready(g, disk, blockSize) && g.secondCrcOk
    ensures
      var (r, ok) := LoadTables(g, disk, false, true, blockSize);
      var mainGood, backupAgrees := TableGood(disk, g.main, blockSize), CheckTable(g, disk, Second, blockSize);
      var h := if mainGood || !backupAgrees then g.main else g.second;
      && ok
      && r.parts == ParseTable(TableAt(disk, h, blockSize))
      && Chosen(r, g, mainGood, backupAgrees)
  {
    hide LoadTables, TableAt, Checksum, ReadOk, ParseTable, Clip;
    TableChoice(g, disk, blockSize);
    WholeTable(disk, g.main, g.numParts, blockSize);
  }

  /** With only the backup header valid: the backup table is used, right or wrong. */
  lemma BackupHeaderChoice(g: Gpt, disk: seq<Sector>, blockSize: BlockSize)
    requires Ready(g, disk, blockSize)
    ensures
      var (r, ok) := LoadTables(g, disk, true, true, blockSize);
      && ok
      && r.parts == ParseTable(TableAt(disk, g.second, blockSize))
      && Chosen(r, g, CheckTable(g, disk, Main, blockSize), TableGood(disk, g.second, blockSize))
  {
    hide LoadTable, TableAt, Checksum, ReadOk, ParseTable;
    LoadTableReady(g, disk, Second, blockSize);
    var b := LoadTable(g, disk, Second, blockSize).0;
    LoadTableReady(b.(mainPartsCrcOk := CheckTable(b, disk, Main, blockSize)), disk, Second, blockSize);
  }

  // ---------- loading with both, one or no valid header ----------

  /** The backup table carries the checksum both headers expect. */
  predicate Agrees(disk: seq<Sector>, m: Header, s: Header, blockSize: BlockSize)
  {
    Checksum(TableAt(disk, s, blockSize)) == m.partitionEntriesCRC == s.partitionEntriesCRC
  }

  lemma StandardReads(disk: seq<Sector>, m: Header, s: Header, blockSize: BlockSize)
    requires Standard(m, s, |disk|, blockSize)
    ensures TableSize(m) == TableSize(s) == m.numParts * ENTRY_SIZE
    ensures ReadOk(disk, m.partitionEntriesLBA, TableSize(m), blockSize)
    ensures ReadOk(disk, s.partitionEntriesLBA, TableSize(s), blockSize)
    ensures ReadOk(disk, 1, HEADER_RECORD, blockSize) && ReadOk(disk, |disk| - 1, HEADER_RECORD, blockSize)
  {}

  lemma BothHeadersValid(g: Gpt, disk: seq<Sector>, m: Header, s: Header, blockSize: BlockSize)
    requires Fresh(g) && Standard(m, s, |disk|, blockSize)
    requires HeaderAt(disk, 1, blockSize) == m && HeaderAt(disk, |disk| - 1, blockSize) == s
    requires HeaderValid(m, blockSize) && HeaderValid(s, blockSize)
    ensures
      var (r, ok) := ForceLoad(g, disk, blockSize);
      var mainGood, backupAgrees := TableGood(disk, m, blockSize), Agrees(disk, m, s, blockSize);
      && ok
      && r.parts == ParseTable(TableAt(disk, if mainGood || !backupAgrees then m else s, blockSize))
      && r.state == (if mainGood && backupAgrees then GptValid else GptCorrupt)
      && r == Gpt(m, s, r.parts, m.numParts, r.state, true, true, mainGood, backupAgrees)
  {
    hide LoadHeader, LoadTables, HeaderAt, CheckHeaderCRC, TableAt, Checksum, ParseTable, TableSectors, Fresh;
    StandardReads(disk, m, s, blockSize);
    LoadGoodHeader(g, disk, Main, 1, blockSize);
    var a := LoadHeader(g, disk, Main, 1, blockSize).0;
    LoadGoodHeader(a, disk, Second, |disk| - 1, blockSize);
    var b := LoadHeader(a, disk, Second, |disk| - 1, blockSize).0;
    MainHeaderChoice(b, disk, blockSize);
  }

  /** A header rebuilt from its counterpart: a copy that knows its own place and that of its table,
      and has no checksum yet. */
  function Rebuilt(other: Header, currentLBA: nat, backupLBA: nat, tableLBA: nat): Header {
    other.(headerCRC := 0, currentLBA := currentLBA, backupLBA := backupLBA, partitionEntriesLBA := tableLBA)
  }

  lemma MainHeaderOnly(g: Gpt, disk: seq<Sector>, m: Header, s: Header, blockSize: BlockSize)
    requires Fresh(g) && Standard(m, s, |disk|, blockSize)
    requires m.partitionEntriesCRC == s.partitionEntriesCRC
    requires HeaderAt(disk, 1, blockSize) == m && HeaderValid(m, blockSize)
    requires !CheckHeaderCRC(HeaderAt(disk, |disk| - 1, blockSize), blockSize)
    ensures
      var (r, ok) := ForceLoad(g, disk, blockSize);
      var mainGood, backupAgrees := TableGood(disk, m, blockSize), Agrees(disk, m, s, blockSize);
      && ok
      && r.parts == ParseTable(TableAt(disk, if mainGood || !backupAgrees then m else s, blockSize))
      && r == Gpt(m, Rebuilt(m, |disk| - 1, 1, s.partitionEntriesLBA), r.parts, m.numParts, GptCorrupt, true, true,
                  mainGood, backupAgrees)
  {
    hide LoadHeaders, LoadTables, HeaderAt, CheckHeaderCRC, HeaderValid, ReadBytes, Checksum, ParseTable, RebuildSecond,
         RebuildMain;
    ValidHasCRC(m, blockSize);
    var b := MainHeaderRead(g, disk, m, blockSize, s);
    assert !HeaderValid(b.second, blockSize) by { InvalidWithoutCRC(b.second, blockSize); }
    RebuiltSecond(b, disk, m, s, blockSize);
    MainHeaderChoice(RebuildSecond(b, |disk|, blockSize), disk, blockSize);
  }

  lemma InvalidWithoutCRC(h: Header, blockSize: BlockSize)
    requires !CheckHeaderCRC(h, blockSize)
    ensures !HeaderValid(h, blockSize)
  {}

  lemma MainHeaderRead(g: Gpt, disk: seq<Sector>, m: Header, blockSize: BlockSize, s: Header) returns (b: Gpt)
    requires Fresh(g) && Standard(m, s, |disk|, blockSize)
    requires HeaderAt(disk, 1, blockSize) == m && HeaderValid(m, blockSize)
    requires !CheckHeaderCRC(HeaderAt(disk, |disk| - 1, blockSize), blockSize)
    ensures LoadHeaders(g, disk, blockSize) == (b, true)
    ensures b.main == m && b.mainCrcOk && b.second == HeaderAt(disk, |disk| - 1, blockSize) && b.numParts == m.numParts
  {
    hide LoadHeader, HeaderAt, CheckHeaderCRC, TableSectors, Fresh;
    LoadGoodHeader(g, disk, Main, 1, blockSize);
    var a := LoadHeader(g, disk, Main, 1, blockSize).0;
    LoadBadHeader(a, disk, Second, |disk| - 1, blockSize);
    b := LoadHeader(a, disk, Second, |disk| - 1, blockSize).0;
  }

  lemma RebuiltSecond(b: Gpt, disk: seq<Sector>, m: Header, s: Header, blockSize: BlockSize)
    requires Standard(m, s, |disk|, blockSize) && b.main == m && b.mainCrcOk && b.numParts == m.numParts
    requires m.signature == GPT_SIGNATURE
    ensures
      var c := RebuildSecond(b, |disk|, blockSize);
      && c.main == m && c.mainCrcOk && c.secondCrcOk && c.numParts == m.numParts && Ready(c, disk, blockSize)
      && c.second == Rebuilt(m, |disk| - 1, 1, s.partitionEntriesLBA)
  {
    hide ReadOk, TableSectors;
    StandardReads(disk, m, s, blockSize);
  }

  /** A backup that would help is not used when the main table cannot be read at all: with two
      valid headers of the same shape, a main table that does not satisfy its header and a backup
      table that satisfies both, the backup table is loaded if and only if every sector of the
      main table is on the disk. */
  lemma UnreadMainTable(g: Gpt, disk: seq<Sector>, m: Header, s: Header, blockSize: BlockSize)
    requires Fresh(g) && 2 <= |disk| < TWO64 && m.backupLBA == |disk| - 1
    requires HeaderAt(disk, 1, blockSize) == m && HeaderAt(disk, |disk| - 1, blockSize) == s
    requires HeaderValid(m, blockSize) && HeaderValid(s, blockSize)
    requires 0 < m.numParts == s.numParts && m.numParts * ENTRY_SIZE < TWO32
    requires m.sizeOfPartitionEntries == s.sizeOfPartitionEntries == ENTRY_SIZE
    requires ReadOk(disk, s.partitionEntriesLBA, TableSize(s), blockSize)
    requires Agrees(disk, m, s, blockSize) && !TableGood(disk, m, blockSize)
    ensures
      var (r, ok) := ForceLoad(g, disk, blockSize);
      var readable := ReadOk(disk, m.partitionEntriesLBA, TableSize(m), blockSize);
      && (r.parts == ParseTable(TableAt(disk, s, blockSize)) <==> readable)
      && (ok <==> readable) && r.state == GptCorrupt
  {
    hide LoadHeader, LoadTables, HeaderAt, CheckHeaderCRC, TableAt, Checksum, ParseTable, Fresh, ReadOk, Clip;
    HeaderSectors(disk, blockSize);
    LoadGoodHeader(g, disk, Main, 1, blockSize);
    var a := LoadHeader(g, disk, Main, 1, blockSize).0;
    LoadGoodHeader(a, disk, Second, |disk| - 1, blockSize);
    var b := LoadHeader(a, disk, Second, |disk| - 1, blockSize).0;
    TableChoice(b, disk, blockSize);
    WholeTable(disk, m, m.numParts, blockSize);
    WholeTable(disk, s, m.numParts, blockSize);
    DifferentTables(TableAt(disk, m, blockSize), TableAt(disk, s, blockSize), m.numParts);
  }

  /** On a disk that has grown or shrunk since the table was written: the backup header is found where
      the main one says if that is on the disk, and on the last sector otherwise; both headers are then
      taken as they are, and the state is valid if and only if both tables satisfy them. */
  lemma BackupFound(g: Gpt, disk: seq<Sector>, m: Header, s: Header, blockSize: BlockSize)
    requires Fresh(g) && 2 <= |disk| < TWO64 && HeaderAt(disk, 1, blockSize) == m
    requires s == HeaderAt(disk, if m.backupLBA < |disk| then m.backupLBA else |disk| - 1, blockSize)
    requires HeaderValid(m, blockSize) && HeaderValid(s, blockSize)
    requires 0 < m.numParts == s.numParts && m.numParts * ENTRY_SIZE < TWO32
    requires m.sizeOfPartitionEntries == s.sizeOfPartitionEntries == ENTRY_SIZE
    ensures
      var r := ForceLoad(g, disk, blockSize).0;
      var agrees := ReadOk(disk, s.partitionEntriesLBA, TableSize(s), blockSize) && Agrees(disk, m, s, blockSize);
      && r.main == m && r.second == s && r.mainCrcOk && r.secondCrcOk
      && r.state == if TableGood(disk, m, blockSize) && agrees then GptValid else GptCorrupt
  {
    hide LoadHeader, LoadTables, HeaderAt, CheckHeaderCRC, TableAt, Checksum, ParseTable, Fresh, ReadOk, Clip;
    var at := if m.backupLBA < |disk| then m.backupLBA else |disk| - 1;
    OneHeaderSector(disk, 1, blockSize);
    OneHeaderSector(disk, at, blockSize);
    LoadGoodHeader(g, disk, Main, 1, blockSize);
    var a := LoadHeader(g, disk, Main, 1, blockSize).0;
    LoadGoodHeader(a, disk, Second, at, blockSize);
    var b := LoadHeader(a, disk, Second, at, blockSize).0;
    TableChoice(b, disk, blockSize);
  }

  lemma OneHeaderSector(disk: seq<Sector>, lba: nat, blockSize: BlockSize)
    requires lba < |disk|
    ensures ReadOk(disk, lba, HEADER_RECORD, blockSize)
  {}

  lemma HeaderSectors(disk: seq<Sector>, blockSize: BlockSize)
    requires 2 <= |disk|
    ensures ReadOk(disk, 1, HEADER_RECORD, blockSize) && ReadOk(disk, |disk| - 1, HEADER_RECORD, blockSize)
  {}

  lemma DifferentTables(a: seq<Byte>, b: seq<Byte>, n: nat)
    requires |a| == |b| == n * ENTRY_SIZE && a != b
    ensures ParseTable(a) != ParseTable(b)
  {
    hide ParseTable;
    TableBytesParse(a, n);
    TableBytesParse(b, n);
  }

  /** What becomes of a main header with a wrong checksum once the backup header has been
      read: sizing the object for the backup overwrites some fields of it. */
  function MainAfterBackup(g: Gpt, disk: seq<Sector>, blockSize: BlockSize): Header
  {
    var main, n := HeaderAt(disk, 1, blockSize), HeaderAt(disk, Sub64(|disk|, 1), blockSize).numParts;
    if g.numParts == n then main
    else Resize(g.(main := main, mainCrcOk := false), n, |disk|, blockSize).0.main
  }

  lemma BackupHeaderOnly(g: Gpt, disk: seq<Sector>, m: Header, s: Header, blockSize: BlockSize)
    requires Fresh(g) && Standard(m, s, |disk|, blockSize)
    requires HeaderAt(disk, |disk| - 1, blockSize) == s && HeaderValid(s, blockSize)
    requires !CheckHeaderCRC(HeaderAt(disk, 1, blockSize), blockSize)
    requires !HeaderValid(MainAfterBackup(g, disk, blockSize), blockSize)
    ensures
      var (r, ok) := ForceLoad(g, disk, blockSize);
      var main := Rebuilt(s, 1, |disk| - 1, m.partitionEntriesLBA);
      && ok
      && r.parts == ParseTable(TableAt(disk, s, blockSize))
      && r == Gpt(main, s, r.parts, s.numParts, GptCorrupt, true, true, TableGood(disk, main, blockSize),
                  TableGood(disk, s, blockSize))
  {
    hide LoadHeaders, LoadTables, HeaderAt, HeaderValid, CheckHeaderCRC, ReadBytes, Checksum, ParseTable,
         MainAfterBackup, RebuildMain, RebuildSecond;
    ValidHasCRC(s, blockSize);
    var b := BackupHeaderRead(g, disk, m, s, blockSize);
    RebuiltMain(b, disk, m, s, blockSize);
    BackupHeaderChoice(RebuildMain(b, |disk|, blockSize), disk, blockSize);
  }

  lemma BackupHeaderRead(g: Gpt, disk: seq<Sector>, m: Header, s: Header, blockSize: BlockSize) returns (b: Gpt)
    requires Fresh(g) && Standard(m, s, |disk|, blockSize)
    requires HeaderAt(disk, |disk| - 1, blockSize) == s && CheckHeaderCRC(s, blockSize)
    requires !CheckHeaderCRC(HeaderAt(disk, 1, blockSize), blockSize)
    ensures LoadHeaders(g, disk, blockSize) == (b, true)
    ensures b.main == MainAfterBackup(g, disk, blockSize) && b.second == s
    ensures b.secondCrcOk && b.numParts == s.numParts
  {
    hide LoadHeader, HeaderAt, HeaderValid, CheckHeaderCRC, TableSectors, Fresh;
    LoadBadHeader(g, disk, Main, 1, blockSize);
    var a := LoadHeader(g, disk, Main, 1, blockSize).0;
    SameSize(g, a);
    LoadGoodHeader(a, disk, Second, |disk| - 1, blockSize);
    b := LoadHeader(a, disk, Second, |disk| - 1, blockSize).0;
  }

  lemma RebuiltMain(b: Gpt, disk: seq<Sector>, m: Header, s: Header, blockSize: BlockSize)
    requires Standard(m, s, |disk|, blockSize)
    requires b.second == s && b.numParts == s.numParts
    requires b.secondCrcOk && s.signature == GPT_SIGNATURE
    ensures
      var c := RebuildMain(b, |disk|, blockSize);
      && c.second == s && c.mainCrcOk && c.secondCrcOk && c.numParts == s.numParts && Ready(c, disk, blockSize)
      && c.main == Rebuilt(s, 1, |disk| - 1, m.partitionEntriesLBA)
  {
    StandardReads(disk, m, s, blockSize);
  }

  lemma SameSize(g: Gpt, a: Gpt)
    requires Fresh(g) && a.parts == g.parts && a.numParts == g.numParts
    ensures Fresh(a)
  {}

  lemma ValidHasCRC(h: Header, blockSize: BlockSize)
    requires HeaderValid(h, blockSize)
    ensures CheckHeaderCRC(h, blockSize) && h.signature == GPT_SIGNATURE
  {}

  lemma NoHeader(g: Gpt, disk: seq<Sector>, blockSize: BlockSize)
    requires 2 <= |disk| < TWO64
    requires !CheckHeaderCRC(HeaderAt(disk, 1, blockSize), blockSize)
    requires !CheckHeaderCRC(HeaderAt(disk, |disk| - 1, blockSize), blockSize)
    ensures ForceLoad(g, disk, blockSize).0 ==
      g.(main := HeaderAt(disk, 1, blockSize), second := HeaderAt(disk, |disk| - 1, blockSize),
         mainCrcOk := false, secondCrcOk := false, state := GptInvalid)
  {
    hide LoadHeader, LoadTables, RebuildMain, RebuildSecond, HeaderAt, CheckHeaderCRC;
    LoadBadHeader(g, disk, Main, 1, blockSize);
    var a := LoadHeader(g, disk, Main, 1, blockSize).0;
    LoadBadHeader(a, disk, Second, |disk| - 1, blockSize);
  }

  // ---------- damage ----------

  /** A disk that holds one partition table twice, with both headers right. */
  ghost predicate Consistent(disk: seq<Sector>, m: Header, s: Header, parts: seq<Part>, blockSize: BlockSize)
  {
    && 2 <= |disk| && Standard(m, s, |disk|, blockSize)
    && HeaderAt(disk, 1, blockSize) == m && HeaderAt(disk, |disk| - 1, blockSize) == s
    && HeaderValid(m, blockSize) && HeaderValid(s, blockSize)
    && |parts| == m.numParts && TableFits(parts)
    && TableAt(disk, m, blockSize) == TableAt(disk, s, blockSize) == TableBytes(parts)
    && Checksum(TableBytes(parts)) == m.partitionEntriesCRC == s.partitionEntriesCRC
  }

  /** Which of the four structures are damaged. */
  datatype Faults = Faults(mainHeader: bool, mainTable: bool, backupHeader: bool, backupTable: bool)

  /** The damaged disk: a damaged structure has arbitrary contents with a wrong checksum, an
      undamaged one reads as before. */
  ghost predicate DamagedBy(disk: seq<Sector>, m: Header, s: Header, parts: seq<Part>, f: Faults, blockSize: BlockSize)
  {
    && Standard(m, s, |disk|, blockSize)
    && (if f.mainHeader then !CheckHeaderCRC(HeaderAt(disk, 1, blockSize), blockSize)
        else HeaderAt(disk, 1, blockSize) == m)
    && (if f.backupHeader then !CheckHeaderCRC(HeaderAt(disk, |disk| - 1, blockSize), blockSize)
        else HeaderAt(disk, |disk| - 1, blockSize) == s)
    && (if f.mainTable then !TableGood(disk, m, blockSize) else TableAt(disk, m, blockSize) == TableBytes(parts))
    && (if f.backupTable then !TableGood(disk, s, blockSize) else TableAt(disk, s, blockSize) == TableBytes(parts))
  }

  /** The faults after which the original table is still loaded: with a good main header one
      good table is enough; without it the backup table itself must be good. */
  predicate Recoverable(f: Faults) {
    if !f.mainHeader then !(f.mainTable && f.backupTable) else !f.backupHeader && !f.backupTable
  }

  /** A damaged main header that becomes valid when the object is sized for the backup header. */
  ghost predicate Heals(g: Gpt, disk: seq<Sector>, f: Faults, blockSize: BlockSize) {
    f.mainHeader && !f.backupHeader && HeaderValid(MainAfterBackup(g, disk, blockSize), blockSize)
  }

  /** The headers in memory after a load of a damaged disk: a damaged one is rebuilt from the other. */
  ghost predicate HeadersRestored(r: Gpt, m: Header, s: Header, f: Faults, diskSize: nat)
    requires diskSize > 0
  {
    && r.main == (if f.mainHeader then Rebuilt(s, 1, diskSize - 1, m.partitionEntriesLBA) else m)
    && r.second == (if f.backupHeader then Rebuilt(m, diskSize - 1, 1, s.partitionEntriesLBA) else s)
    && r.numParts == m.numParts && r.mainCrcOk && r.secondCrcOk
  }

  /** The backup table takes the place of the one that the healed header h points to. */
  predicate BackupPreferred(disk: seq<Sector>, h: Header, s: Header, f: Faults, blockSize: BlockSize) {
    && !TableGood(disk, h, blockSize) && ReadOk(disk, h.partitionEntriesLBA, TableSize(h), blockSize)
    && !f.backupTable && h.partitionEntriesCRC == s.partitionEntriesCRC
  }

  /** Fault tolerance, for all sixteen combinations of damaged structures and objects of every
      size: the original table is loaded exactly when the faults are recoverable, and the object
      reports itself valid exactly when nothing is damaged; a damaged header is rebuilt from the
      other one.  Only a main header that heals is
      different: then the original table is loaded exactly when the backup is preferred or the
      healed header points to a copy of it. */
  lemma FaultTolerance(g: Gpt, original: seq<Sector>, disk: seq<Sector>, m: Header, s: Header,
                       parts: seq<Part>, f: Faults, blockSize: BlockSize)
    requires |disk| == |original|
    requires Consistent(original, m, s, parts, blockSize)
    requires DamagedBy(disk, m, s, parts, f, blockSize) && Fresh(g)
    ensures
      var r := ForceLoad(g, disk, blockSize).0;
      r.state == GptInvalid <==> f.mainHeader && f.backupHeader
    ensures
      var r := ForceLoad(g, disk, blockSize).0;
      !Heals(g, disk, f, blockSize) ==>
        && (r.state != GptInvalid ==> (r.parts == parts <==> Recoverable(f)))
        && (r.state != GptInvalid ==> HeadersRestored(r, m, s, f, |disk|))
        && (r.state == GptValid <==> f == Faults(false, false, false, false))
    ensures
      var r, h := ForceLoad(g, disk, blockSize).0, MainAfterBackup(g, disk, blockSize);
      Heals(g, disk, f, blockSize) ==>
        && (r.parts == parts <==> BackupPreferred(disk, h, s, f, blockSize)
                                  || Clip(TableAt(disk, h, blockSize), |parts| * ENTRY_SIZE) == TableBytes(parts))
        && (r.state == GptValid <==>
              TableGood(disk, h, blockSize) && !f.backupTable && h.partitionEntriesCRC == s.partitionEntriesCRC)
    ensures g.numParts == m.numParts ==> !Heals(g, disk, f, blockSize)
  {
    hide ForceLoad, TableAt, Checksum, HeaderAt, ParseTable, CheckHeaderCRC, TableBytes, MainAfterBackup, Clip,
         HeaderValid,
         BackupPreferred, DamagedBy, Standard, Heals, Recoverable, TableFits, Fresh, TableGood, HeadersRestored;
    HealsOnly(g, disk, m, s, parts, f, blockSize);
    if Heals(g, disk, f, blockSize) {
      HealedLoad(g, disk, m, s, parts, f, blockSize);
    } else if f.mainHeader {
      WithoutMainHeader(g, disk, m, s, parts, f, blockSize);
    } else {
      WithMainHeader(g, disk, m, s, parts, f, blockSize);
    }
  }

  lemma HealsOnly(g: Gpt, disk: seq<Sector>, m: Header, s: Header, parts: seq<Part>, f: Faults, blockSize: BlockSize)
    requires DamagedBy(disk, m, s, parts, f, blockSize)
    ensures Heals(g, disk, f, blockSize) ==> f.mainHeader && !f.backupHeader && g.numParts != m.numParts
  {
    hide TableAt, Checksum, HeaderAt, CheckHeaderCRC, TableBytes, MainAfterBackup, HeaderValid, Standard;
    if f.mainHeader && !f.backupHeader {
      StillInvalid(g, disk, m, s, blockSize);
    }
  }

  lemma WithoutMainHeader(g: Gpt, disk: seq<Sector>, m: Header, s: Header, parts: seq<Part>, f: Faults,
                          blockSize: BlockSize)
    requires Fresh(g) && DamagedBy(disk, m, s, parts, f, blockSize) && f.mainHeader && !Heals(g, disk, f, blockSize)
    requires HeaderValid(s, blockSize) && 2 <= |disk|
    requires |parts| == m.numParts && TableFits(parts) && Checksum(TableBytes(parts)) == s.partitionEntriesCRC
    ensures
      var r := ForceLoad(g, disk, blockSize).0;
      && r.state == (if f.backupHeader then GptInvalid else GptCorrupt)
      && (!f.backupHeader ==> (r.parts == parts <==> Recoverable(f)) && HeadersRestored(r, m, s, f, |disk|))
  {
    hide ForceLoad, TableAt, Checksum, HeaderAt, ParseTable, CheckHeaderCRC, TableBytes, HeaderValid, TableFits,
         MainAfterBackup;
    if f.backupHeader {
      NoHeader(g, disk, blockSize);
    } else {
      ParseTableBytes(parts);
      BackupHeaderOnly(g, disk, m, s, blockSize);
      WrongTable(disk, s, parts, blockSize);
    }
  }

  lemma WithMainHeader(g: Gpt, disk: seq<Sector>, m: Header, s: Header, parts: seq<Part>, f: Faults,
                       blockSize: BlockSize)
    requires Fresh(g) && DamagedBy(disk, m, s, parts, f, blockSize) && !f.mainHeader
    requires HeaderValid(m, blockSize) && HeaderValid(s, blockSize) && 2 <= |disk|
    requires |parts| == m.numParts && TableFits(parts)
    requires Checksum(TableBytes(parts)) == m.partitionEntriesCRC == s.partitionEntriesCRC
    ensures
      var r := ForceLoad(g, disk, blockSize).0;
      && r.state == (if f == Faults(false, false, false, false) then GptValid else GptCorrupt)
      && (r.parts == parts <==> Recoverable(f)) && HeadersRestored(r, m, s, f, |disk|)
  {
    hide ForceLoad, TableAt, Checksum, HeaderAt, ParseTable, CheckHeaderCRC, TableBytes, HeaderValid, TableFits;
    ParseTableBytes(parts);
    WrongTable(disk, m, parts, blockSize);
    WrongTable(disk, s, parts, blockSize);
    if f.backupHeader {
      MainHeaderOnly(g, disk, m, s, blockSize);
    } else {
      BothHeadersValid(g, disk, m, s, blockSize);
    }
  }

  lemma HealedLoad(g: Gpt, disk: seq<Sector>, m: Header, s: Header, parts: seq<Part>, f: Faults, blockSize: BlockSize)
    requires Fresh(g) && DamagedBy(disk, m, s, parts, f, blockSize) && Heals(g, disk, f, blockSize)
    requires HeaderValid(s, blockSize) && |parts| == m.numParts && TableFits(parts)
    requires Checksum(TableBytes(parts)) == s.partitionEntriesCRC
    ensures
      var r, h := ForceLoad(g, disk, blockSize).0, MainAfterBackup(g, disk, blockSize);
      && (r.parts == parts <==> BackupPreferred(disk, h, s, f, blockSize)
                                || Clip(TableAt(disk, h, blockSize), |parts| * ENTRY_SIZE) == TableBytes(parts))
      && r.state == (if TableGood(disk, h, blockSize) && !f.backupTable
                          && h.partitionEntriesCRC == s.partitionEntriesCRC
                     then GptValid else GptCorrupt)
  {
    hide LoadHeaders, LoadTables, HeaderAt, HeaderValid, CheckHeaderCRC, TableAt, Checksum, ParseTable, TableBytes,
         TableFits,
         MainAfterBackup, RebuildMain, RebuildSecond, Clip, ReadOk;
    var h := MainAfterBackup(g, disk, blockSize);
    StandardReads(disk, m, s, blockSize);
    ValidHasCRC(s, blockSize);
    var b := BackupHeaderRead(g, disk, m, s, blockSize);
    HealedCount(g, disk, m, s, blockSize);
    TableChoice(b, disk, blockSize);
    ParseTableBytes(parts);
    SameTable(Clip(TableAt(disk, h, blockSize), |parts| * ENTRY_SIZE), parts);
  }

  lemma SameTable(bytes: seq<Byte>, parts: seq<Part>)
    requires |bytes| == |parts| * ENTRY_SIZE && TableFits(parts)
    ensures ParseTable(bytes) == parts <==> bytes == TableBytes(parts)
  {
    hide ParseTable, TableBytes, TableFits;
    TableBytesParse(bytes, |parts|);
    ParseTableBytes(parts);
  }

  /** A header that heals has the backup's count. */
  lemma HealedCount(g: Gpt, disk: seq<Sector>, m: Header, s: Header, blockSize: BlockSize)
    requires Standard(m, s, |disk|, blockSize) && HeaderAt(disk, |disk| - 1, blockSize) == s
    requires !CheckHeaderCRC(HeaderAt(disk, 1, blockSize), blockSize)
    requires HeaderValid(MainAfterBackup(g, disk, blockSize), blockSize)
    ensures MainAfterBackup(g, disk, blockSize).numParts == s.numParts
  {
    hide HeaderAt, CheckHeaderCRC, TableSectors;
  }

  lemma StillInvalid(g: Gpt, disk: seq<Sector>, m: Header, s: Header, blockSize: BlockSize)
    requires Standard(m, s, |disk|, blockSize)
    requires HeaderAt(disk, |disk| - 1, blockSize) == s
    requires !CheckHeaderCRC(HeaderAt(disk, 1, blockSize), blockSize)
    ensures g.numParts == m.numParts ==> !HeaderValid(MainAfterBackup(g, disk, blockSize), blockSize)
  {
    hide HeaderAt, CheckHeaderCRC, Resize;
  }

  /** A table whose checksum is not the expected one is not the original table. */
  lemma WrongTable(disk: seq<Sector>, h: Header, parts: seq<Part>, blockSize: BlockSize)
    requires TableSize(h) == ENTRY_SIZE * |parts|
    requires h.partitionEntriesCRC == Checksum(TableBytes(parts))
    requires TableFits(parts)
    ensures !TableGood(disk, h, blockSize) ==> ParseTable(TableAt(disk, h, blockSize)) != parts
  {
    hide ReadBytes, Checksum, ParseTable, TableBytes, TableFits;
    if !TableGood(disk, h, blockSize) && ParseTable(TableAt(disk, h, blockSize)) == parts {
      TableBytesParse(TableAt(disk, h, blockSize), |parts|);
    }
  }

  /** Overwriting up to four consecutive bytes of a table always counts as damage. */
  lemma BurstIsDamage(disk: seq<Sector>, h: Header, before: seq<Byte>, a: seq<Byte>, b: seq<Byte>, after: seq<Byte>,
                      blockSize: BlockSize)
    requires h.partitionEntriesCRC == Checksum(before + a + after)
    requires TableAt(disk, h, blockSize) == before + b + after
    requires |a| == |b| <= 4 && a != b
    ensures !TableGood(disk, h, blockSize)
  {
    hide Checksum, TableAt;
    ByteBurstDetected(before, a, b, after);
  }

  /** Self-healing: on a disk laid out by this program, damage confined to the main header's
      geometry fields is undone by sizing the object for the backup header, whenever the
      object had another size before; the load then reports no damage at all. */
  lemma GeometryDamageHealed(g: Gpt, disk: seq<Sector>, m: Header, s: Header, parts: seq<Part>,
                             first: nat, last: nat, backup: nat, count: nat, blockSize: BlockSize)
    requires DamagedBy(disk, m, s, parts, Faults(true, false, false, false), blockSize)
    requires HeaderAt(disk, 1, blockSize) ==
             m.(firstUsableLBA := first, lastUsableLBA := last, backupLBA := backup, numParts := count)
    requires HeaderValid(m, blockSize) && HeaderValid(s, blockSize)
    requires Checksum(TableBytes(parts)) == m.partitionEntriesCRC == s.partitionEntriesCRC
    requires |parts| == m.numParts && TableFits(parts)
    requires m.lastUsableLBA == |disk| - m.firstUsableLBA
    requires Fresh(g) && g.numParts != m.numParts
    ensures ForceLoad(g, disk, blockSize).0.parts == parts
    ensures ForceLoad(g, disk, blockSize).0.state == GptValid
  {
    hide LoadHeaders, LoadTables, HeaderAt, CheckHeaderCRC, TableAt, Checksum, ParseTable, TableBytes, TableFits,
         MainAfterBackup, RebuildMain, RebuildSecond;
    ParseTableBytes(parts);
    StandardReads(disk, m, s, blockSize);
    ValidHasCRC(s, blockSize);
    var b := BackupHeaderRead(g, disk, m, s, blockSize);
    HealedHeader(g, disk, m, s, first, last, backup, count, blockSize);
    MainHeaderChoice(b, disk, blockSize);
  }

  lemma HealedHeader(g: Gpt, disk: seq<Sector>, m: Header, s: Header,
                     first: nat, last: nat, backup: nat, count: nat, blockSize: BlockSize)
    requires Standard(m, s, |disk|, blockSize)
    requires HeaderAt(disk, |disk| - 1, blockSize) == s
    requires HeaderAt(disk, 1, blockSize) ==
             m.(firstUsableLBA := first, lastUsableLBA := last, backupLBA := backup, numParts := count)
    requires m.lastUsableLBA == |disk| - m.firstUsableLBA && g.numParts != m.numParts
    ensures MainAfterBackup(g, disk, blockSize) == m
  {
    hide HeaderAt, TableSectors;
  }
}
