/** Loading and saving a GUID partition table (gdisk/gpt.cc).  The disk is a sequence of
    sectors of bytes; a GPTData object is modelled by the record Gpt, and each operation by a
    function on it.  GptData.dfy holds the object itself. */
module GptStore {
  import opened Crc32
  import opened GptFormat

  datatype Validity = GptValid | GptCorrupt | GptInvalid

  /** Sectors hold at least a header. */
  type BlockSize = n: nat | n >= HEADER_RECORD witness 512

  /** The contents of a sector; reads and writes see exactly one block of it. */
  type Sector = seq<Byte>

  /** The fields of GPTData that loading and saving use. */
  datatype Gpt = Gpt(
    main: Header, second: Header, parts: seq<Part>, numParts: nat, state: Validity,
    mainCrcOk: bool, secondCrcOk: bool, mainPartsCrcOk: bool, secondPartsCrcOk: bool)

  // ---------- sectors ----------

  function ZeroBytes(n: nat): (bytes: seq<Byte>)
    ensures |bytes| == n
  {
    seq(n, i => 0)
  }

  /** Bytes cut or zero-extended to a given length. */
  function Clip(bytes: seq<Byte>, n: nat): (r: seq<Byte>)
    ensures |r| == n
  {
    if |bytes| >= n then bytes[..n] else bytes + ZeroBytes(n - |bytes|)
  }

  /** The first `count` bytes from sector `lba` on; past the end of the disk the buffer holds zeros. */
  function ReadBytes(disk: seq<Sector>, lba: nat, count: nat, blockSize: BlockSize): (bytes: seq<Byte>)
    ensures |bytes| == count
    decreases count
  {
    if count == 0 then []
    else if lba >= |disk| then ZeroBytes(count)
    else if count <= blockSize then Clip(disk[lba], blockSize)[..count]
    else Clip(disk[lba], blockSize) + ReadBytes(disk, lba + 1, count - blockSize, blockSize)
  }

  function SectorsFor(count: nat, blockSize: BlockSize): nat
  {
    count / blockSize + if count % blockSize != 0 then 1 else 0
  }

  /** A read succeeds when every sector of it exists. */
  predicate ReadOk(disk: seq<Sector>, lba: nat, count: nat, blockSize: BlockSize)
  {
    lba + SectorsFor(count, blockSize) <= |disk|
  }

  // ---------- unsigned arithmetic ----------

  function Sub64(a: nat, b: nat): nat { (a - b) % TWO64 }

  function Add64(a: nat, b: nat): nat { (a + b) % TWO64 }

  function Mul32(a: nat, b: nat): nat { a * b % TWO32 }

  function TableSectors(numParts: nat, blockSize: BlockSize): nat
  {
    SectorsFor(Mul32(numParts, ENTRY_SIZE), blockSize)
  }

  // ---------- header checksums ----------

  /** The bytes CheckHeaderCRC hashes: the header with its checksum field blanked, cut or
      zero-extended to the header size, which falls back to 92 when it is out of range. */
  function CheckedBytes(h: Header, blockSize: BlockSize): seq<Byte> {
    var size := if h.headerSize > blockSize || h.headerSize < HEADER_SIZE then HEADER_SIZE else h.headerSize;
    var bytes := HeaderBytes(h.(headerCRC := 0));
    if size <= HEADER_RECORD then bytes[..size] else bytes + ZeroBytes(size - HEADER_RECORD)
  }

  predicate CheckHeaderCRC(h: Header, blockSize: BlockSize) {
    Checksum(CheckedBytes(h, blockSize)) == h.headerCRC
  }

  predicate HeaderValid(h: Header, blockSize: BlockSize) {
    h.signature == GPT_SIGNATURE && CheckHeaderCRC(h, blockSize) && h.revision == SUPPORTED_REVISION
  }

  // ---------- geometry ----------

  /** MoveSecondHeaderToEnd. */
  function MoveToEnd(g: Gpt, diskSize: nat): Gpt {
    var end := Sub64(diskSize, 1);
    var last := Sub64(diskSize, g.main.firstUsableLBA);
    g.(main := g.main.(backupLBA := end, lastUsableLBA := last),
       second := g.second.(currentLBA := end, lastUsableLBA := last, partitionEntriesLBA := Add64(last, 1)))
  }

  /** The highest used entry number, 0 when there is none (GetPartRange). */
  function HighestUsed(parts: seq<Part>): nat {
    if parts == [] then 0
    else if parts[|parts| - 1].IsUsed() then |parts| - 1
    else HighestUsed(parts[..|parts| - 1])
  }

  function Blanks(n: nat): (parts: seq<Part>)
    ensures |parts| == n
    ensures forall i :: 0 <= i < n ==> parts[i] == BLANK
  {
    seq(n, i => BLANK)
  }

  /** SetGPTSize(n, 0): the resized object and whether it succeeded.  The sizes and the
      placement of the backup change even when the entries do not fit. */
  function Resize(g: Gpt, n: nat, diskSize: nat, blockSize: BlockSize): (Gpt, bool)
  {
    var changed := n != g.numParts && n > 0;
    var live := if g.numParts <= |g.parts| then g.parts[..g.numParts] else g.parts;
    var fits := n >= HighestUsed(live) + 1;
    var first := Add64(TableSectors(n, blockSize), g.main.partitionEntriesLBA);
    var r :=
      if !changed then g
      else
        var parts := if !fits then g.parts
                     else if n < |live| then live[..n]
                     else live + Blanks(n - |live|);
        MoveToEnd(g.(parts := parts, numParts := n,
                     main := g.main.(firstUsableLBA := first),
                     second := g.second.(firstUsableLBA := first)), diskSize);
    (r.(main := r.main.(numParts := r.numParts), second := r.second.(numParts := r.numParts)),
     !changed || fits)
  }

  // ---------- loading ----------

  datatype Which = Main | Second

  function HeaderAt(disk: seq<Sector>, lba: nat, blockSize: BlockSize): Header
  {
    ParseHeader(ReadBytes(disk, lba, HEADER_RECORD, blockSize))
  }

  /** LoadHeader. */
  function LoadHeader(g: Gpt, disk: seq<Sector>, which: Which, lba: nat, blockSize: BlockSize): (Gpt, bool)
  {
    var readOk := ReadOk(disk, lba, HEADER_RECORD, blockSize);
    var header := HeaderAt(disk, lba, blockSize);
    var crcOk := CheckHeaderCRC(header, blockSize);
    var (r, ok) := if readOk && g.numParts != header.numParts && crcOk
                   then Resize(g, header.numParts, |disk|, blockSize) else (g, readOk);
    (if which.Main? then r.(main := header, mainCrcOk := crcOk)
     else r.(second := header, secondCrcOk := crcOk), ok)
  }

  function TableSize(h: Header): nat { Mul32(h.numParts, h.sizeOfPartitionEntries) }

  function TableAt(disk: seq<Sector>, h: Header, blockSize: BlockSize): (bytes: seq<Byte>)
  {
    ReadBytes(disk, h.partitionEntriesLBA, TableSize(h), blockSize)
  }

  function HeaderOfGpt(g: Gpt, which: Which): Header { if which.Main? then g.main else g.second }

  /** LoadPartitionTable: resize, read the entries, compare their checksum with the header's.
      A wrong checksum is not a failure. */
  function LoadTable(g: Gpt, disk: seq<Sector>, which: Which, blockSize: BlockSize): (Gpt, bool)
  {
    var lba := HeaderOfGpt(g, which).partitionEntriesLBA;
    var (r, ok) := Resize(g, HeaderOfGpt(g, which).numParts, |disk|, blockSize);
    if !ok then (r, false)
    else
      var header := HeaderOfGpt(r, which);
      var bytes := ReadBytes(disk, lba, TableSize(header), blockSize);
      var crcOk := Checksum(bytes) == header.partitionEntriesCRC;
      (r.(parts := ParseTable(Clip(bytes, r.numParts * ENTRY_SIZE)),
          mainPartsCrcOk := crcOk, secondPartsCrcOk := crcOk),
       ReadOk(disk, lba, TableSize(header), blockSize))
  }

  /** CheckTable: the table on disk matches this header's checksum and the other header's. */
  predicate CheckTable(g: Gpt, disk: seq<Sector>, which: Which, blockSize: BlockSize)
  {
    var header := HeaderOfGpt(g, which);
    && ReadOk(disk, header.partitionEntriesLBA, TableSize(header), blockSize)
    && Checksum(TableAt(disk, header, blockSize)) == g.main.partitionEntriesCRC == g.second.partitionEntriesCRC
  }

  /** RebuildMainHeader. */
  function RebuildMain(g: Gpt, diskSize: nat, blockSize: BlockSize): Gpt
  {
    var s := g.second;
    var main := s.(signature := GPT_SIGNATURE, headerCRC := 0,
                   currentLBA := s.backupLBA, backupLBA := s.currentLBA,
                   partitionEntriesLBA := Sub64(s.firstUsableLBA, TableSectors(g.numParts, blockSize)));
    Resize(g.(main := main, mainCrcOk := g.secondCrcOk), main.numParts, diskSize, blockSize).0
  }

  /** RebuildSecondHeader. */
  function RebuildSecond(g: Gpt, diskSize: nat, blockSize: BlockSize): Gpt
  {
    var m := g.main;
    var second := m.(signature := GPT_SIGNATURE, headerCRC := 0,
                     currentLBA := m.backupLBA, backupLBA := m.currentLBA,
                     partitionEntriesLBA := Add64(m.lastUsableLBA, 1));
    Resize(g.(second := second, secondCrcOk := g.mainCrcOk), second.numParts, diskSize, blockSize).0
  }

  /** The headers as ForceLoadGPTData first reads them. */
  function LoadHeaders(g: Gpt, disk: seq<Sector>, blockSize: BlockSize): (Gpt, bool)
  {
    var (a, mainOk) := LoadHeader(g, disk, Main, 1, blockSize);
    var lba := if a.mainCrcOk && a.main.backupLBA < |disk| then a.main.backupLBA else Sub64(|disk|, 1);
    var (b, secondOk) := LoadHeader(a, disk, Second, lba, blockSize);
    (b, secondOk && mainOk)
  }

  /** The table choice of ForceLoadGPTData when at least one header is valid: `fromBackup`
      says that only the backup header was, and `headersOk` that reading them succeeded.  Once
      something has gone wrong the backup table is not read in place of a bad main table. */
  function LoadTables(g: Gpt, disk: seq<Sector>, fromBackup: bool, headersOk: bool, blockSize: BlockSize): (Gpt, bool)
  {
    var (b, loaded) :=
      if !fromBackup then LoadTable(g, disk, Main, blockSize)
      else
        var (t, ok) := LoadTable(g, disk, Second, blockSize);
        if ok then (t, true) else LoadTable(t, disk, Main, blockSize);
    var usedBackup := fromBackup && LoadTable(g, disk, Second, blockSize).1;
    var c := if usedBackup then b.(mainPartsCrcOk := CheckTable(b, disk, Main, blockSize))
             else if loaded || !fromBackup then b.(secondPartsCrcOk := CheckTable(b, disk, Second, blockSize))
             else b.(mainPartsCrcOk := false, secondPartsCrcOk := false);
    var allOk := headersOk && loaded;
    if c.secondPartsCrcOk && c.secondCrcOk && !c.mainPartsCrcOk && allOk then
      var (d, ok) := LoadTable(c, disk, Second, blockSize);
      (d.(mainPartsCrcOk := false), ok)
    else (c, allOk)
  }

  /** ForceLoadGPTData: the object after loading and whether nothing obvious went wrong. */
  function ForceLoad(g: Gpt, disk: seq<Sector>, blockSize: BlockSize): (Gpt, bool)
  {
    var (a, headersOk) := LoadHeaders(g, disk, blockSize);
    var mainValid, secondValid := HeaderValid(a.main, blockSize), HeaderValid(a.second, blockSize);
    if !mainValid && !secondValid then (a.(state := GptInvalid), headersOk)
    else
      var b := if mainValid && secondValid then a
               else if mainValid then RebuildSecond(a, |disk|, blockSize)
               else RebuildMain(a, |disk|, blockSize);
      var (c, allOk) := LoadTables(b, disk, !mainValid, headersOk, blockSize);
      var good := mainValid && secondValid && c.mainPartsCrcOk && c.secondPartsCrcOk;
      (c.(state := if good then GptValid else GptCorrupt), allOk)
  }

  // ---------- saving ----------

  /** One sector written to the device. */
  datatype Write = Write(lba: nat, data: Sector)

  /** The device after a list of writes; a write past the end changes nothing. */
  function Apply(disk: seq<Sector>, writes: seq<Write>): (r: seq<Sector>)
    ensures |r| == |disk|
    decreases writes
  {
    if writes == [] then disk
    else Apply(if writes[0].lba < |disk| then disk[writes[0].lba := writes[0].data] else disk, writes[1..])
  }

  /** The sector writes that put `bytes` at `lba`, the last sector filled up with zeros. */
  function TableWrites(lba: nat, bytes: seq<Byte>, blockSize: BlockSize): (writes: seq<Write>)
    decreases |bytes|
  {
    if bytes == [] then []
    else if |bytes| <= blockSize then [Write(lba, Clip(bytes, blockSize))]
    else [Write(lba, bytes[..blockSize])] + TableWrites(lba + 1, bytes[blockSize..], blockSize)
  }

  function HeaderWrite(lba: nat, h: Header, blockSize: BlockSize): Write {
    Write(lba, Clip(HeaderBytes(h), blockSize))
  }

  /** The checksum RecomputeCRCs stores: over `size` bytes of the header, its own field blanked. */
  function Sealed(h: Header, size: nat): Header
    requires size <= HEADER_RECORD
  {
    var blank := h.(headerCRC := 0);
    blank.(headerCRC := Checksum(HeaderBytes(blank)[..size]))
  }

  /** RecomputeCRCs. */
  function RecomputeCRCs(g: Gpt): Gpt {
    var size := if g.main.headerSize > HEADER_RECORD then HEADER_SIZE else g.main.headerSize;
    var crc := Checksum(TableBytes(g.parts));
    g.(main := Sealed(g.main.(headerSize := size, partitionEntriesCRC := crc), size),
       second := Sealed(g.second.(headerSize := size, partitionEntriesCRC := crc), size))
  }

  /** The five regions SaveGPTData writes, in its order: backup table, backup header, main
      table, main header, boot record. */
  function SaveWrites(g: Gpt, bootRecord: Sector, blockSize: BlockSize): (writes: seq<Write>)
  {
    var table := TableBytes(g.parts);
    TableWrites(g.second.partitionEntriesLBA, table, blockSize)
    + [HeaderWrite(g.main.backupLBA, g.second, blockSize)]
    + TableWrites(g.main.partitionEntriesLBA, table, blockSize)
    + [HeaderWrite(1, g.main, blockSize)]
    + [Write(0, bootRecord)]
  }

  /** At most the first k elements. */
  function Take<T>(s: seq<T>, k: int): seq<T> {
    if k < 0 then [] else if k > |s| then s else s[..k]
  }

  /** The device after the first k sector writes of a save. */
  function Interrupted(disk: seq<Sector>, n: Gpt, boot: Sector, k: nat, blockSize: BlockSize): (d: seq<Sector>)
    ensures |d| == |disk|
  {
    Apply(disk, Take(SaveWrites(n, boot, blockSize), k))
  }

  lemma {:induction false} ApplyConcat(disk: seq<Sector>, a: seq<Write>, b: seq<Write>)
    ensures Apply(disk, a + b) == Apply(Apply(disk, a), b)
    decreases a
  {
    if a == [] {
      assert a + b == b;
    } else {
      assert (a + b)[1..] == a[1..] + b;
      ApplyConcat(if a[0].lba < |disk| then disk[a[0].lba := a[0].data] else disk, a[1..], b);
    }
  }
}
