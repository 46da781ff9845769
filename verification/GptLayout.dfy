/** Where a GPT puts its structures, what SaveGPTData may move before writing, and whether the
    sectors it then writes can belong to a partition (gdisk/gpt.cc). */
module GptLayout {
  import opened Crc32
  import opened GptFormat
  import opened GptStore
  import opened FreeSpace
  import GptCrash
  import DivMod

  // ---------- the checks before a save ----------

  /** CheckGPTSize finds nothing: every used partition is inside the usable range. */
  predicate InUsableRange(g: Gpt) {
    forall i :: 0 <= i < |g.parts| && g.parts[i].IsUsed() ==>
      g.main.firstUsableLBA <= g.parts[i].firstLBA && g.parts[i].lastLBA <= g.main.lastUsableLBA
  }

  /** FindInsanePartitions finds nothing. */
  predicate Sane(parts: seq<Part>, diskSize: nat) {
    forall i :: 0 <= i < |parts| && parts[i].IsUsed() ==> parts[i].firstLBA <= parts[i].lastLBA < diskSize
  }

  /** GPTPart::DoTheyOverlap. */
  predicate DoTheyOverlap(p: Part, q: Part) {
    p.firstLBA != 0 && q.firstLBA != 0 && ((p.firstLBA <= q.lastLBA) != (p.lastLBA < q.firstLBA))
  }

  /** FindOverlaps finds nothing. */
  predicate NoOverlaps(parts: seq<Part>) {
    forall i, j :: 0 <= j < i < |parts| && parts[i].IsUsed() && parts[j].IsUsed() ==> !DoTheyOverlap(parts[i], parts[j])
  }

  /** Entry i overlaps none of the first n entries. */
  predicate ApartFromEarlier(parts: seq<Part>, i: nat, n: nat)
    requires n <= i < |parts|
  {
    forall k :: 0 <= k < n && parts[i].IsUsed() && parts[k].IsUsed() ==> !DoTheyOverlap(parts[i], parts[k])
  }

  lemma ExtendNoOverlaps(parts: seq<Part>, i: nat)
    requires i < |parts|
    ensures NoOverlaps(parts[..i + 1]) <==> NoOverlaps(parts[..i]) && ApartFromEarlier(parts, i, i)
  {
    hide DoTheyOverlap;
    var a, b := parts[..i], parts[..i + 1];
    assert forall k :: 0 <= k < i ==> b[k] == a[k] == parts[k];
    assert b[i] == parts[i];
  }

  /** On entries that do not end before they begin, the source's comparison of comparisons is
      exactly "they share a sector". */
  lemma OverlapMeansShared(p: Part, q: Part)
    requires 0 < p.firstLBA <= p.lastLBA && 0 < q.firstLBA <= q.lastLBA && p.IsUsed() && q.IsUsed()
    ensures DoTheyOverlap(p, q) <==> exists x :: Covers(p, x) && Covers(q, x)
  {
    if DoTheyOverlap(p, q) {
      var x := if p.firstLBA < q.firstLBA then q.firstLBA else p.firstLBA;
      assert Covers(p, x) && Covers(q, x);
    }
  }

  // ---------- relocation ----------

  /** The answers to the three questions SaveGPTData may ask. */
  datatype Answers = Answers(moveBackup: bool, fixLast: bool, proceed: bool)

  /** A backup header beyond the end of the disk is always moved. */
  function PullBack(g: Gpt, diskSize: nat): Gpt {
    if g.main.backupLBA >= diskSize then MoveToEnd(g, diskSize) else g
  }

  /** A backup header that is not on the last sector is moved if nobody objects. */
  predicate PushesOut(g: Gpt, quiet: bool, yes: bool, diskSize: nat) {
    g.main.backupLBA < Sub64(diskSize, 1) && (quiet || yes)
  }

  function PushOut(g: Gpt, quiet: bool, yes: bool, diskSize: nat): Gpt {
    if PushesOut(g, quiet, yes, diskSize) then MoveToEnd(g, diskSize) else g
  }

  /** A last usable sector outside the disk or after the backup header is corrected likewise. */
  function FixLast(g: Gpt, quiet: bool, yes: bool, diskSize: nat): Gpt {
    if (g.main.lastUsableLBA >= diskSize || g.main.lastUsableLBA > g.main.backupLBA) && (quiet || yes)
    then MoveToEnd(g, diskSize) else g
  }

  function Relocated(g: Gpt, quiet: bool, answers: Answers, diskSize: nat): Gpt {
    FixLast(PushOut(PullBack(g, diskSize), quiet, answers.moveBackup, diskSize), quiet, answers.fixLast, diskSize)
  }

  /** SaveGPTData goes on to write. */
  predicate Accepted(g: Gpt, quiet: bool, answers: Answers, justLooking: bool, diskSize: nat) {
    && !justLooking
    && (diskSize != 0 ==> InUsableRange(PullBack(g, diskSize)))
    && NoOverlaps(g.parts) && Sane(g.parts, diskSize)
    && (quiet || answers.proceed)
  }

  /** The sectors SaveGPTData writes. */
  function Written(g: Gpt, quiet: bool, answers: Answers, justLooking: bool, boot: Sector, diskSize: nat,
                   blockSize: BlockSize): seq<Write> {
    if Accepted(g, quiet, answers, justLooking, diskSize)
    then SaveWrites(RecomputeCRCs(Relocated(g, quiet, answers, diskSize)), boot, blockSize)
    else []
  }

  /** No sector written belongs to a used partition. */
  predicate Spares(writes: seq<Write>, parts: seq<Part>) {
    forall i, j :: 0 <= i < |writes| && 0 <= j < |parts| ==> !Covers(parts[j], writes[i].lba)
  }

  /** The metadata as recorded are in order: boot record, main header, main table, usable
      sectors, backup table, backup header. */
  predicate InOrder(g: Gpt, blockSize: BlockSize) {
    var sectors := TableSectors(g.numParts, blockSize);
    && |g.parts| == g.numParts && g.numParts * ENTRY_SIZE < TWO32
    && 2 <= g.main.partitionEntriesLBA && g.main.partitionEntriesLBA + sectors <= g.main.firstUsableLBA
    && g.main.lastUsableLBA < g.second.partitionEntriesLBA
    && g.second.partitionEntriesLBA + sectors <= g.main.backupLBA
    && g.main.firstUsableLBA < TWO64
  }

  /** A used partition reaches into the sectors where MoveSecondHeaderToEnd puts the backup table. */
  predicate InTheWay(g: Gpt, diskSize: nat, blockSize: BlockSize) {
    exists i, x :: 0 <= i < |g.parts| && Covers(g.parts[i], x)
      && diskSize - g.main.firstUsableLBA < x <= diskSize - g.main.firstUsableLBA + TableSectors(g.numParts, blockSize)
  }

  // ---------- the sectors a save writes ----------

  /** Some used partition has a sector in lo..hi. */
  predicate Hits(parts: seq<Part>, lo: int, hi: int) {
    exists i, x :: 0 <= i < |parts| && Covers(parts[i], x) && lo <= x < hi
  }

  lemma TableHits(lba: nat, bytes: seq<Byte>, parts: seq<Part>, blockSize: BlockSize)
    ensures Spares(TableWrites(lba, bytes, blockSize), parts) <==>
      !Hits(parts, lba, lba + SectorsFor(|bytes|, blockSize))
  {
    var w := TableWrites(lba, bytes, blockSize);
    GptCrash.TableWritesShape(lba, bytes, blockSize);
    if Hits(parts, lba, lba + SectorsFor(|bytes|, blockSize)) {
      var i, x :| 0 <= i < |parts| && Covers(parts[i], x) && lba <= x < lba + SectorsFor(|bytes|, blockSize);
      assert w[x - lba].lba == x;
    }
  }

  lemma SparesConcat(a: seq<Write>, b: seq<Write>, parts: seq<Part>)
    ensures Spares(a + b, parts) <==> Spares(a, parts) && Spares(b, parts)
  {
    if Spares(a + b, parts) {
      forall i, j | 0 <= i < |a| && 0 <= j < |parts|
        ensures !Covers(parts[j], a[i].lba)
      {
        assert (a + b)[i] == a[i];
      }
      forall i, j | 0 <= i < |b| && 0 <= j < |parts|
        ensures !Covers(parts[j], b[i].lba)
      {
        assert (a + b)[|a| + i] == b[i];
      }
    }
  }

  lemma OneHit(w: Write, parts: seq<Part>)
    ensures Spares([w], parts) <==> !Hits(parts, w.lba, w.lba + 1)
  {
    if Spares([w], parts) {
      forall j | 0 <= j < |parts|
        ensures !Covers(parts[j], w.lba)
      {
        assert [w][0] == w;
      }
    }
  }

  /** The sectors of a save are exactly its five regions. */
  lemma SaveHits(n: Gpt, boot: Sector, parts: seq<Part>, blockSize: BlockSize)
    ensures
      var t := SectorsFor(|TableBytes(n.parts)|, blockSize);
      Spares(SaveWrites(n, boot, blockSize), parts) <==>
        && !Hits(parts, n.second.partitionEntriesLBA, n.second.partitionEntriesLBA + t)
        && !Hits(parts, n.main.backupLBA, n.main.backupLBA + 1)
        && !Hits(parts, n.main.partitionEntriesLBA, n.main.partitionEntriesLBA + t)
        && !Hits(parts, 1, 2) && !Hits(parts, 0, 1)
  {
    hide Spares, Hits, TableBytes, TableWrites, HeaderBytes;
    var table := TableBytes(n.parts);
    var a, b := TableWrites(n.second.partitionEntriesLBA, table, blockSize),
      HeaderWrite(n.main.backupLBA, n.second, blockSize);
    var c, d := TableWrites(n.main.partitionEntriesLBA, table, blockSize), HeaderWrite(1, n.main, blockSize);
    SparesConcat(a + [b] + c + [d], [Write(0, boot)], parts);
    SparesConcat(a + [b] + c, [d], parts);
    SparesConcat(a + [b], c, parts);
    SparesConcat(a, [b], parts);
    TableHits(n.second.partitionEntriesLBA, table, parts, blockSize);
    TableHits(n.main.partitionEntriesLBA, table, parts, blockSize);
    OneHit(b, parts);
    OneHit(d, parts);
    OneHit(Write(0, boot), parts);
  }

  /** Recomputing checksums moves nothing. */
  lemma RecomputeKeepsPlaces(g: Gpt)
    ensures
      var n := RecomputeCRCs(g);
      && n.parts == g.parts && n.main.backupLBA == g.main.backupLBA
      && n.main.partitionEntriesLBA == g.main.partitionEntriesLBA
      && n.second.partitionEntriesLBA == g.second.partitionEntriesLBA
  {}

  /** When the disk is too small to have any usable sector left, no partition passes the checks. */
  lemma NothingToHit(g: Gpt, diskSize: nat)
    requires Sane(g.parts, diskSize) && InUsableRange(g) && diskSize <= g.main.firstUsableLBA
    ensures forall i, x :: 0 <= i < |g.parts| ==> !Covers(g.parts[i], x)
  {}

  /** Safe save, exactly.  For metadata recorded in order, every disk size and every
      combination of answers: a save that goes ahead overwrites a used partition if and only
      if it moves a backup header that was not on the last sector while a partition lies where
      the backup table will go. */
  lemma SaveSparesPartitions(g: Gpt, quiet: bool, answers: Answers, boot: Sector, diskSize: nat, blockSize: BlockSize)
    requires InOrder(g, blockSize) && diskSize < TWO64 && Accepted(g, quiet, answers, false, diskSize)
    ensures Spares(Written(g, quiet, answers, false, boot, diskSize, blockSize), g.parts) <==>
      !(PushesOut(PullBack(g, diskSize), quiet, answers.moveBackup, diskSize) && InTheWay(g, diskSize, blockSize))
  {
    hide RecomputeCRCs, SaveWrites, Spares, TableBytes, NoOverlaps, Relocated, Hits, TableSectors, PullBack, PushesOut;
    var c, t := Relocated(g, quiet, answers, diskSize), TableSectors(g.numParts, blockSize);
    RelocatedKeeps(g, quiet, answers, diskSize);
    RecomputeKeepsPlaces(c);
    SaveHits(RecomputeCRCs(c), boot, g.parts, blockSize);
    SameTableSectors(g, blockSize);
    var a := PullBack(g, diskSize);
    PulledBack(g, quiet, answers.moveBackup, diskSize);
    if diskSize <= g.main.firstUsableLBA {
      NothingToHit(a, diskSize);
      assert forall lo, hi :: !Hits(g.parts, lo, hi) by { NoHits(g.parts); }
    } else {
      RelocatedPlaces(g, quiet, answers, diskSize, blockSize);
      Misses(a, 0, 1);
      Misses(a, 1, 2);
      Misses(a, g.main.partitionEntriesLBA, g.main.partitionEntriesLBA + t);
      Misses(a, c.main.backupLBA, c.main.backupLBA + 1);
      if PushesOut(a, quiet, answers.moveBackup, diskSize) {
        WayIsHit(g, diskSize, blockSize);
      } else {
        Misses(a, c.second.partitionEntriesLBA, c.second.partitionEntriesLBA + t);
      }
    }
  }

  lemma NoHits(parts: seq<Part>)
    requires forall i, x :: 0 <= i < |parts| ==> !Covers(parts[i], x)
    ensures forall lo, hi :: !Hits(parts, lo, hi)
  {}

  /** Partitions in the usable range have no sector before or after it. */
  lemma Misses(g: Gpt, lo: int, hi: int)
    requires InUsableRange(g) && (hi <= g.main.firstUsableLBA || g.main.lastUsableLBA < lo)
    ensures !Hits(g.parts, lo, hi)
  {}

  lemma WayIsHit(g: Gpt, diskSize: nat, blockSize: BlockSize)
    ensures
      var start := diskSize - g.main.firstUsableLBA + 1;
      InTheWay(g, diskSize, blockSize) <==> Hits(g.parts, start, start + TableSectors(g.numParts, blockSize))
  {}

  lemma RelocatedKeeps(g: Gpt, quiet: bool, answers: Answers, diskSize: nat)
    ensures
      var c := Relocated(g, quiet, answers, diskSize);
      && c.parts == g.parts && c.main.partitionEntriesLBA == g.main.partitionEntriesLBA
  {
    hide MoveToEnd;
    var a := PullBack(g, diskSize);
    var b := PushOut(a, quiet, answers.moveBackup, diskSize);
    MoveKeeps(g, diskSize);
    MoveKeeps(a, diskSize);
    MoveKeeps(b, diskSize);
  }

  lemma MoveKeeps(g: Gpt, diskSize: nat)
    ensures
      var c := MoveToEnd(g, diskSize);
      && c.parts == g.parts && c.numParts == g.numParts
      && c.main.partitionEntriesLBA == g.main.partitionEntriesLBA && c.main.firstUsableLBA == g.main.firstUsableLBA
  {}

  lemma PulledBack(g: Gpt, quiet: bool, yes: bool, diskSize: nat)
    requires diskSize < TWO64
    ensures
      var a := PullBack(g, diskSize);
      && a.parts == g.parts && a.main.firstUsableLBA == g.main.firstUsableLBA
      && (PushesOut(a, quiet, yes, diskSize) <==> g.main.backupLBA < diskSize && PushesOut(g, quiet, yes, diskSize))
      && (g.main.backupLBA < diskSize ==> a == g)
      && (g.main.backupLBA >= diskSize >= g.main.firstUsableLBA ==>
            a.main.lastUsableLBA == diskSize - g.main.firstUsableLBA)
  {}

  lemma SameTableSectors(g: Gpt, blockSize: BlockSize)
    requires InOrder(g, blockSize)
    ensures SectorsFor(|TableBytes(g.parts)|, blockSize) == TableSectors(g.numParts, blockSize)
  {
    hide TableBytes;
  }

  /** Where the structures are after relocation, on a disk with room for them. */
  lemma RelocatedPlaces(g: Gpt, quiet: bool, answers: Answers, diskSize: nat, blockSize: BlockSize)
    requires InOrder(g, blockSize) && g.main.firstUsableLBA < diskSize < TWO64
    ensures
      var c := Relocated(g, quiet, answers, diskSize);
      && c.parts == g.parts && c.main.partitionEntriesLBA == g.main.partitionEntriesLBA
      && if g.main.backupLBA >= diskSize || PushesOut(g, quiet, answers.moveBackup, diskSize)
         then c.main.backupLBA == diskSize - 1 && c.second.partitionEntriesLBA == diskSize - g.main.firstUsableLBA + 1
         else c.main.backupLBA == g.main.backupLBA && c.second.partitionEntriesLBA == g.second.partitionEntriesLBA
  {
    hide TableSectors;
    assert MoveToEnd(g, diskSize).main.lastUsableLBA == diskSize - g.main.firstUsableLBA;
    assert MoveToEnd(g, diskSize).main.backupLBA == diskSize - 1;
  }

  /** On tables laid out with nothing between the main table and the usable sectors, no save
      touches a partition, whatever is answered. */
  lemma GaplessSaveIsSafe(g: Gpt, quiet: bool, answers: Answers, boot: Sector, diskSize: nat, blockSize: BlockSize)
    requires InOrder(g, blockSize) && diskSize < TWO64 && Accepted(g, quiet, answers, false, diskSize)
    requires g.main.firstUsableLBA == 2 + TableSectors(g.numParts, blockSize)
    ensures Spares(Written(g, quiet, answers, false, boot, diskSize, blockSize), g.parts)
  {
    hide Spares, Written, NoOverlaps, TableSectors, PullBack, PushesOut;
    SaveSparesPartitions(g, quiet, answers, boot, diskSize, blockSize);
    PulledBack(g, quiet, answers.moveBackup, diskSize);
    if PushesOut(PullBack(g, diskSize), quiet, answers.moveBackup, diskSize) {
      PushedMeans(g, quiet, answers.moveBackup, diskSize);
      WayIsHit(g, diskSize, blockSize);
      var start := diskSize - g.main.firstUsableLBA + 1;
      Misses(g, start, start + TableSectors(g.numParts, blockSize));
    }
  }

  lemma PushedMeans(g: Gpt, quiet: bool, yes: bool, diskSize: nat)
    requires diskSize < TWO64 && g.main.backupLBA < diskSize && PushesOut(g, quiet, yes, diskSize)
    ensures g.main.backupLBA < diskSize - 1
  {}

  /** The example behind the condition: a table whose main copy was moved up to sector 268 on
      a disk of 734 sectors that has since grown to 900. */
  function Grown(): Gpt {
    var header := Header(GPT_SIGNATURE, SUPPORTED_REVISION, 92, 0, 0, 1, 733, 300, 700, 0, 268, 128, 128, 0, 0);
    var backup := header.(currentLBA := 733, backupLBA := 1, partitionEntriesLBA := 701);
    Gpt(header, backup, [Part(1, 1, 300, 700, 0, 0)] + Blanks(127), 128, GptValid, true, true, true, true)
  }

  /** A quiet save then writes the backup table into the middle of the partition. */
  lemma GrownDiskIsOverwritten(answers: Answers, boot: Sector)
    ensures InOrder(Grown(), 512) && Accepted(Grown(), true, answers, false, 900)
    ensures !Spares(Written(Grown(), true, answers, false, boot, 900, 512), Grown().parts)
  {
    hide Spares, Written;
    var g := Grown();
    assert g.parts[0] == Part(1, 1, 300, 700, 0, 0) && forall i :: 0 < i < 128 ==> g.parts[i] == BLANK;
    assert Covers(g.parts[0], 601);
    SaveSparesPartitions(g, true, answers, boot, 900, 512);
  }

  /** With the backup header on the last sector and the usable range before it, a save that
      loses power after k sector writes is exactly the interrupted save of module GptCrash. */
  lemma InterruptedSave(g: Gpt, disk: seq<Sector>, quiet: bool, answers: Answers, boot: Sector, k: nat,
                        blockSize: BlockSize)
    requires 0 < |disk| < TWO64 && g.main.backupLBA == |disk| - 1 && g.main.lastUsableLBA < g.main.backupLBA
    requires Accepted(g, quiet, answers, false, |disk|)
    ensures Apply(disk, Take(Written(g, quiet, answers, false, boot, |disk|, blockSize), k)) ==
      GptCrash.Crashed(disk, g, boot, k, blockSize)
  {
    hide Accepted, SaveWrites, RecomputeCRCs, Relocated;
    NoRelocation(g, quiet, answers, |disk|);
  }

  lemma NoRelocation(g: Gpt, quiet: bool, answers: Answers, diskSize: nat)
    requires 0 < diskSize < TWO64 && g.main.backupLBA == diskSize - 1 && g.main.lastUsableLBA < g.main.backupLBA
    ensures Relocated(g, quiet, answers, diskSize) == g
  {
    hide MoveToEnd;
  }

  // ---------- a new, empty table ----------

  function RoundUp(n: nat, m: nat): nat
    requires m > 0
  {
    if n % m == 0 then n else (n / m + 1) * m
  }

  /** The number of entries ClearGPTData makes: 128, rounded up to whole sectors. */
  function DefaultEntries(blockSize: BlockSize): nat {
    RoundUp(NUM_GPT_ENTRIES, blockSize / ENTRY_SIZE)
  }

  /** At least 128 entries, filling whole sectors, and no sector more than that takes. */
  lemma DefaultEntriesMeaning(blockSize: BlockSize)
    ensures
      var n, perSector := DefaultEntries(blockSize), blockSize / ENTRY_SIZE;
      128 <= n < 128 + perSector && n % perSector == 0
  {
    var m := blockSize / ENTRY_SIZE;
    var q, r := 128 / m, 128 % m;
    assert 128 == q * m + r && (q + 1) * m == q * m + m;
    DivMod.QuotientUnique((q + 1) * m, m, q + 1, 0);
  }

  /** What ClearGPTData leaves in the object. */
  predicate Cleared(g: Gpt, diskSize: nat, blockSize: BlockSize) {
    var n := DefaultEntries(blockSize);
    var first := 2 + TableSectors(n, blockSize);
    && g.numParts == n && g.parts == Blanks(n)
    && g.main.signature == g.second.signature == GPT_SIGNATURE
    && g.main.revision == g.second.revision == SUPPORTED_REVISION
    && g.main.headerSize == g.second.headerSize == HEADER_SIZE
    && g.main.currentLBA == g.second.backupLBA == 1
    && g.main.backupLBA == g.second.currentLBA == Sub64(diskSize, 1)
    && g.main.firstUsableLBA == g.second.firstUsableLBA == first
    && g.main.lastUsableLBA == g.second.lastUsableLBA == Sub64(diskSize, first)
    && g.main.partitionEntriesLBA == 2 && g.second.partitionEntriesLBA == Add64(g.main.lastUsableLBA, 1)
    && g.main.diskGUID == g.second.diskGUID
    && g.main.numParts == g.second.numParts == n
    && g.main.sizeOfPartitionEntries == g.second.sizeOfPartitionEntries == ENTRY_SIZE
    && g.mainCrcOk && g.secondCrcOk && g.mainPartsCrcOk && g.secondPartsCrcOk
  }

  /** What the two headers say of each other and of the disk is the same. */
  predicate HeadersMatch(m: Header, s: Header) {
    && m.currentLBA == s.backupLBA && m.backupLBA == s.currentLBA
    && m.firstUsableLBA == s.firstUsableLBA && m.lastUsableLBA == s.lastUsableLBA
    && m.diskGUID == s.diskGUID && m.numParts == s.numParts
    && m.sizeOfPartitionEntries == s.sizeOfPartitionEntries
  }

  /** The tables end before what follows them, and everything is on the disk. */
  predicate PlacesFit(m: Header, s: Header, sectors: nat, diskSize: nat) {
    && m.backupLBA < diskSize
    && Add64(m.partitionEntriesLBA, sectors) <= m.firstUsableLBA
    && m.partitionEntriesLBA >= 2
    && Add64(s.partitionEntriesLBA, sectors) <= s.currentLBA
    && m.lastUsableLBA < diskSize && m.lastUsableLBA <= m.backupLBA
  }

  /** The GPT side of Verify counts no problem. */
  predicate VerifyFindsNothing(g: Gpt, diskSize: nat, blockSize: BlockSize) {
    var m, s, sectors := g.main, g.second, TableSectors(g.numParts, blockSize);
    && g.mainCrcOk && g.mainPartsCrcOk && g.secondCrcOk && g.secondPartsCrcOk
    && m.currentLBA == 1 && s.currentLBA == Sub64(diskSize, 1)
    && HeadersMatch(m, s) && PlacesFit(m, s, sectors, diskSize)
    && NoOverlaps(g.parts) && Sane(g.parts, diskSize)
    && (diskSize != 0 ==> InUsableRange(g))
  }

  /** A disk with room for both copies of the default table and at least one usable sector. */
  predicate LargeEnough(diskSize: nat, blockSize: BlockSize) {
    && 2 * (2 + TableSectors(DefaultEntries(blockSize), blockSize)) <= diskSize < TWO64
    && DefaultEntries(blockSize) * ENTRY_SIZE < TWO32
  }

  /** End to end: a cleared object whose first entry is given any partition of the usable range
      passes every check, is accepted by a save, and the save leaves the partition alone. */
  lemma FormattedDisk(g: Gpt, p: Part, answers: Answers, boot: Sector, diskSize: nat, blockSize: BlockSize)
    requires Cleared(g, diskSize, blockSize) && LargeEnough(diskSize, blockSize)
    requires p.IsUsed() && g.main.firstUsableLBA <= p.firstLBA <= p.lastLBA <= g.main.lastUsableLBA
    requires g.numParts > 0
    ensures
      var n := g.(parts := g.parts[0 := p]);
      && VerifyFindsNothing(n, diskSize, blockSize)
      && Accepted(n, true, answers, false, diskSize)
      && Relocated(n, true, answers, diskSize) == n
      && Spares(Written(n, true, answers, false, boot, diskSize, blockSize), n.parts)
  {
    hide Spares, Written, TableSectors, DefaultEntries;
    var n := g.(parts := g.parts[0 := p]);
    assert n.parts[0] == p && forall i :: 0 < i < |n.parts| ==> n.parts[i] == BLANK;
    GaplessSaveIsSafe(n, true, answers, boot, diskSize, blockSize);
  }

  // ---------- operations that move structures ----------

  /** Everything in order, the backup header on the last sector and the backup table right
      after the usable sectors, and the two headers agree. */
  predicate Laid(g: Gpt, diskSize: nat, blockSize: BlockSize) {
    && InOrder(g, blockSize) && diskSize < TWO64
    && HeadersMatch(g.main, g.second) && g.main.currentLBA == 1
    && g.main.firstUsableLBA <= g.main.lastUsableLBA + 1 == g.second.partitionEntriesLBA
    && g.main.backupLBA == g.second.currentLBA == diskSize - 1
  }

  datatype Move = ToEnd | SetSize(entries: nat) | MainTable(lba: nat)

  /** FindFirstUsedLBA. */
  function FirstUsed(parts: seq<Part>): (r: nat)
    ensures r < TWO64
  {
    if parts == [] then TWO64 - 1
    else
      var r, p := FirstUsed(parts[..|parts| - 1]), parts[|parts| - 1];
      if p.IsUsed() && p.firstLBA < r then p.firstLBA else r
  }

  lemma {:induction false} FirstUsedBelow(parts: seq<Part>, i: nat)
    requires i < |parts| && parts[i].IsUsed()
    ensures FirstUsed(parts) <= parts[i].firstLBA
  {
    if i < |parts| - 1 {
      FirstUsedBelow(parts[..|parts| - 1], i);
    }
  }

  /** MoveMainTable. */
  function MoveMainTable(g: Gpt, lba: nat, diskSize: nat, blockSize: BlockSize): Gpt {
    var sectors := TableSectors(g.numParts, blockSize);
    if lba >= 2 && lba + sectors <= FirstUsed(g.parts)
    then RebuildSecond(g.(main := g.main.(partitionEntriesLBA := lba, firstUsableLBA := lba + sectors)),
         diskSize, blockSize)
    else g
  }

  function Moved(g: Gpt, m: Move, diskSize: nat, blockSize: BlockSize): Gpt {
    match m
    case ToEnd => MoveToEnd(g, diskSize)
    case SetSize(n) => Resize(g, n, diskSize, blockSize).0
    case MainTable(lba) => MoveMainTable(g, lba, diskSize, blockSize)
  }

  /** The step leaves usable sectors: moving to the end and resizing place the backup as far
      from the end as the usable range is from the start; moving the main table needs a
      partition to stay in front of; a resize must succeed. */
  predicate Possible(g: Gpt, m: Move, diskSize: nat, blockSize: BlockSize) {
    match m
    case ToEnd => 2 * g.main.firstUsableLBA <= diskSize + 1
    case SetSize(n) =>
      && Resize(g, n, diskSize, blockSize).1 && n * ENTRY_SIZE < TWO32
      && 2 * (g.main.partitionEntriesLBA + TableSectors(n, blockSize)) <= diskSize + 1
    case MainTable(_) =>
      && InUsableRange(g) && Sane(g.parts, diskSize)
      && exists i :: 0 <= i < |g.parts| && g.parts[i].IsUsed()
  }

  lemma MoveKeepsLayout(g: Gpt, m: Move, diskSize: nat, blockSize: BlockSize)
    requires Laid(g, diskSize, blockSize) && Possible(g, m, diskSize, blockSize)
    requires g.main.numParts == g.second.numParts == g.numParts
    ensures
      var r := Moved(g, m, diskSize, blockSize);
      Laid(r, diskSize, blockSize) && r.main.numParts == r.second.numParts == r.numParts
  {
    match m
    case ToEnd => EndLaid(g, diskSize, blockSize);
    case SetSize(n) => SizeLaid(g, n, diskSize, blockSize);
    case MainTable(lba) => MainTableLaid(g, lba, diskSize, blockSize);
  }

  lemma EndLaid(g: Gpt, diskSize: nat, blockSize: BlockSize)
    requires |g.parts| == g.numParts && g.numParts * ENTRY_SIZE < TWO32
    requires 2 <= g.main.partitionEntriesLBA
    requires g.main.partitionEntriesLBA + TableSectors(g.numParts, blockSize) <= g.main.firstUsableLBA
    requires 2 * g.main.firstUsableLBA <= diskSize + 1 && diskSize < TWO64
    requires g.main.currentLBA == g.second.backupLBA == 1 && g.main.firstUsableLBA == g.second.firstUsableLBA
    requires g.main.diskGUID == g.second.diskGUID && g.main.numParts == g.second.numParts
    requires g.main.sizeOfPartitionEntries == g.second.sizeOfPartitionEntries
    ensures Laid(MoveToEnd(g, diskSize), diskSize, blockSize)
  {
    hide SectorsFor;
  }

  lemma SizeLaid(g: Gpt, n: nat, diskSize: nat, blockSize: BlockSize)
    requires Laid(g, diskSize, blockSize) && Possible(g, SetSize(n), diskSize, blockSize)
    requires g.main.numParts == g.second.numParts == g.numParts
    ensures
      var r := Resize(g, n, diskSize, blockSize).0;
      Laid(r, diskSize, blockSize) && r.main.numParts == r.second.numParts == r.numParts
  {
    hide TableSectors, HighestUsed, MoveToEnd;
    var r := Resize(g, n, diskSize, blockSize).0;
    if n != g.numParts && n > 0 {
      assert g.parts[..g.numParts] == g.parts;
      var first := g.main.partitionEntriesLBA + TableSectors(n, blockSize);
      var h := g.(parts := r.parts, numParts := n,
        main := g.main.(firstUsableLBA := first), second := g.second.(firstUsableLBA := first));
      ResizedParts(g, n, diskSize, blockSize);
      EndLaid(h, diskSize, blockSize);
      CountsOnly(MoveToEnd(h, diskSize), diskSize, blockSize);
    }
  }

  lemma ResizedParts(g: Gpt, n: nat, diskSize: nat, blockSize: BlockSize)
    requires |g.parts| == g.numParts && n != g.numParts && n > 0 && Resize(g, n, diskSize, blockSize).1
    requires g.main.partitionEntriesLBA + TableSectors(n, blockSize) < TWO64
    ensures
      var r := Resize(g, n, diskSize, blockSize).0;
      var first := g.main.partitionEntriesLBA + TableSectors(n, blockSize);
      var h := g.(parts := r.parts, numParts := n,
        main := g.main.(firstUsableLBA := first), second := g.second.(firstUsableLBA := first));
      var e := MoveToEnd(h, diskSize);
      && |r.parts| == n && Add64(TableSectors(n, blockSize), g.main.partitionEntriesLBA) == first
      && r == e.(main := e.main.(numParts := n), second := e.second.(numParts := n))
  {
    hide TableSectors, HighestUsed, MoveToEnd;
    assert g.parts[..g.numParts] == g.parts;
    MoveKeeps(g, diskSize);
    assert forall h: Gpt :: MoveToEnd(h, diskSize).numParts == h.numParts && MoveToEnd(h, diskSize).parts == h.parts
      by { forall h: Gpt { MoveKeeps(h, diskSize); } }
  }

  lemma CountsOnly(g: Gpt, diskSize: nat, blockSize: BlockSize)
    requires Laid(g, diskSize, blockSize)
    ensures Laid(g.(main := g.main.(numParts := g.numParts),
      second := g.second.(numParts := g.numParts)), diskSize, blockSize)
  {
    hide TableSectors;
  }

  lemma MainTableLaid(g: Gpt, lba: nat, diskSize: nat, blockSize: BlockSize)
    requires Laid(g, diskSize, blockSize) && Possible(g, MainTable(lba), diskSize, blockSize)
    requires g.main.numParts == g.second.numParts == g.numParts
    ensures
      var r := MoveMainTable(g, lba, diskSize, blockSize);
      Laid(r, diskSize, blockSize) && r.main.numParts == r.second.numParts == r.numParts
  {
    hide TableSectors, FirstUsed;
    var i :| 0 <= i < |g.parts| && g.parts[i].IsUsed();
    FirstUsedBelow(g.parts, i);
  }

  /** A table can be resized if and only if every used entry still has a place, and then every used
      entry stays in its place. */
  lemma ResizeKeeps(g: Gpt, n: nat, diskSize: nat, blockSize: BlockSize)
    requires |g.parts| == g.numParts && n > 0
    ensures
      var (r, ok) := Resize(g, n, diskSize, blockSize);
      && (ok <==> forall i :: n <= i < |g.parts| ==> !g.parts[i].IsUsed())
      && r.numParts == n
      && (ok ==> SameUsed(g.parts, r.parts) && |r.parts| == n)
      && (!ok ==> r.parts == g.parts)
  {
    hide TableSectors, MoveToEnd, HighestUsed;
    assert g.parts[..g.numParts] == g.parts;
    HighestUsedMeaning(g.parts, n);
    if n != g.numParts {
      forall h: Gpt
        ensures MoveToEnd(h, diskSize).numParts == h.numParts && MoveToEnd(h, diskSize).parts == h.parts
      {
        MoveKeeps(h, diskSize);
      }
    }
  }

  /** The same used entries in the same places. */
  predicate SameUsed(a: seq<Part>, b: seq<Part>) {
    && (forall i :: 0 <= i < |a| && a[i].IsUsed() ==> i < |b| && b[i] == a[i])
    && (forall i :: 0 <= i < |b| && b[i].IsUsed() ==> i < |a| && a[i] == b[i])
  }

  lemma {:induction false} HighestUsedMeaning(parts: seq<Part>, n: nat)
    requires n > 0
    ensures n >= HighestUsed(parts) + 1 <==> forall i :: n <= i < |parts| ==> !parts[i].IsUsed()
  {
    if parts != [] && !parts[|parts| - 1].IsUsed() {
      HighestUsedMeaning(parts[..|parts| - 1], n);
    }
  }

  /** Moving the main table is possible if and only if it then ends before every used partition, and
      leaves the partitions in the usable range. */
  lemma MainTableMoved(g: Gpt, lba: nat, diskSize: nat, blockSize: BlockSize)
    requires |g.parts| == g.numParts && InUsableRange(g) && g.main.numParts == g.numParts
    requires lba + TableSectors(g.numParts, blockSize) < TWO64
    ensures
      var r, end := MoveMainTable(g, lba, diskSize, blockSize), lba + TableSectors(g.numParts, blockSize);
      && r.parts == g.parts && InUsableRange(r)
      && (if lba >= 2 && forall i :: 0 <= i < |g.parts| && g.parts[i].IsUsed() ==> end <= g.parts[i].firstLBA
          then r.main == g.main.(partitionEntriesLBA := lba, firstUsableLBA := end)
          else r == g)
  {
    hide TableSectors;
    FirstUsedMeaning(g.parts, lba + TableSectors(g.numParts, blockSize));
  }

  lemma {:induction false} FirstUsedMeaning(parts: seq<Part>, x: nat)
    requires x < TWO64
    ensures x <= FirstUsed(parts) <==> forall i :: 0 <= i < |parts| && parts[i].IsUsed() ==> x <= parts[i].firstLBA
  {
    if parts != [] {
      FirstUsedMeaning(parts[..|parts| - 1], x);
      var front := parts[..|parts| - 1];
      assert forall i :: 0 <= i < |front| ==> front[i] == parts[i];
    }
  }

  lemma MovedKeepsUsed(g: Gpt, m: Move, diskSize: nat, blockSize: BlockSize)
    requires |g.parts| == g.numParts && g.main.numParts == g.numParts && Possible(g, m, diskSize, blockSize)
    ensures SameUsed(g.parts, Moved(g, m, diskSize, blockSize).parts)
  {
    hide TableSectors;
    match m
    case ToEnd => MoveKeeps(g, diskSize);
    case SetSize(n) => if n > 0 { ResizeKeeps(g, n, diskSize, blockSize); }
    case MainTable(lba) =>
  }

  /** The layout over every run of moves, and the partitions in their places. */
  lemma {:induction false} LayoutRun(states: seq<Gpt>, moves: seq<Move>, diskSize: nat, blockSize: BlockSize, k: nat)
    requires |states| == |moves| + 1 && k < |states|
    requires Laid(states[0], diskSize, blockSize)
    requires states[0].main.numParts == states[0].second.numParts == states[0].numParts
    requires forall i :: 0 <= i < |moves| ==>
      Possible(states[i], moves[i], diskSize, blockSize)
      && states[i + 1] == Moved(states[i], moves[i], diskSize, blockSize)
    ensures Laid(states[k], diskSize, blockSize) && SameUsed(states[0].parts, states[k].parts)
    ensures states[k].main.numParts == states[k].second.numParts == states[k].numParts
  {
    hide Laid, Moved, Possible;
    if k > 0 {
      LayoutRun(states, moves, diskSize, blockSize, k - 1);
      MoveKeepsLayout(states[k - 1], moves[k - 1], diskSize, blockSize);
      LaidSize(states[k - 1], diskSize, blockSize);
      MovedKeepsUsed(states[k - 1], moves[k - 1], diskSize, blockSize);
    }
  }

  lemma LaidSize(g: Gpt, diskSize: nat, blockSize: BlockSize)
    requires Laid(g, diskSize, blockSize)
    ensures |g.parts| == g.numParts
  {}

  /** What Verify, CheckGPTSize and the others that look at the partitions come to: each used partition
      is a range of usable sectors on the disk, and no two share a sector. */
  lemma ChecksMeaning(g: Gpt, diskSize: nat)
    requires forall i :: 0 <= i < |g.parts| && g.parts[i].IsUsed() ==> g.parts[i].firstLBA > 0
    ensures
      NoOverlaps(g.parts) && Sane(g.parts, diskSize) && InUsableRange(g) <==>
        && (forall i :: 0 <= i < |g.parts| && g.parts[i].IsUsed() ==>
              Within(g.parts[i], g.main.firstUsableLBA, g.main.lastUsableLBA, diskSize))
        && (forall i, j, x :: 0 <= j < i < |g.parts| && Covers(g.parts[i], x) ==> !Covers(g.parts[j], x))
  {
    hide DoTheyOverlap, Within;
    forall i | 0 <= i < |g.parts| && g.parts[i].IsUsed()
      ensures Within(g.parts[i], g.main.firstUsableLBA, g.main.lastUsableLBA, diskSize) <==>
        && g.main.firstUsableLBA <= g.parts[i].firstLBA <= g.parts[i].lastLBA <= g.main.lastUsableLBA
        && g.parts[i].lastLBA < diskSize
    {
      WithinEnds(g.parts[i], g.main.firstUsableLBA, g.main.lastUsableLBA, diskSize);
    }
    if Sane(g.parts, diskSize) {
      forall i, j | 0 <= j < i < |g.parts| && g.parts[i].IsUsed() && g.parts[j].IsUsed()
        ensures DoTheyOverlap(g.parts[i], g.parts[j]) <==> exists x :: Covers(g.parts[i], x) && Covers(g.parts[j], x)
      {
        OverlapMeansShared(g.parts[i], g.parts[j]);
      }
    }
  }

  /** A partition covers at least one sector, and only usable ones of the disk. */
  ghost predicate Within(p: Part, first: nat, last: nat, diskSize: nat) {
    && Covers(p, p.firstLBA)
    && forall x :: Covers(p, x) ==> first <= x <= last && x < diskSize
  }

  /** When a save goes on to write: somebody agreed, and every used partition is a range of usable sectors
      on the disk, once the backup is back on it, and shares no sector with another one. */
  lemma AcceptedExactly(g: Gpt, quiet: bool, answers: Answers, justLooking: bool, diskSize: nat)
    requires diskSize > 0
    requires forall i :: 0 <= i < |g.parts| && g.parts[i].IsUsed() ==> g.parts[i].firstLBA > 0
    ensures
      var m := PullBack(g, diskSize).main;
      Accepted(g, quiet, answers, justLooking, diskSize) <==>
        && !justLooking && (quiet || answers.proceed)
        && (forall i :: 0 <= i < |g.parts| && g.parts[i].IsUsed() ==>
              Within(g.parts[i], m.firstUsableLBA, m.lastUsableLBA, diskSize))
        && (forall i, j, x :: 0 <= j < i < |g.parts| && Covers(g.parts[i], x) ==> !Covers(g.parts[j], x))
  {
    hide NoOverlaps, Sane, InUsableRange, Within, MoveToEnd;
    MoveKeeps(g, diskSize);
    ChecksMeaning(PullBack(g, diskSize), diskSize);
  }

  lemma WithinEnds(p: Part, first: nat, last: nat, diskSize: nat)
    requires p.IsUsed()
    ensures Within(p, first, last, diskSize) <==> first <= p.firstLBA <= p.lastLBA <= last && p.lastLBA < diskSize
  {
    assert p.firstLBA <= p.lastLBA ==> Covers(p, p.lastLBA);
  }

  /** After a relocation that nobody objects to, the backup header is on the last sector and the usable
      range is on the disk, whatever they were before. */
  lemma RelocatedOntoDisk(g: Gpt, quiet: bool, answers: Answers, diskSize: nat)
    requires 0 < g.main.firstUsableLBA <= diskSize < TWO64 && (quiet || (answers.moveBackup && answers.fixLast))
    ensures
      var c := Relocated(g, quiet, answers, diskSize);
      && c.main.backupLBA == diskSize - 1 && c.main.lastUsableLBA < diskSize
      && c.parts == g.parts && c.main.firstUsableLBA == g.main.firstUsableLBA
      && (c != g ==> && c.second.currentLBA == diskSize - 1
                     && c.main.lastUsableLBA == c.second.lastUsableLBA == diskSize - g.main.firstUsableLBA
                     && c.second.partitionEntriesLBA == c.main.lastUsableLBA + 1)
  {
    hide MoveToEnd, Sub64;
    LastSector(diskSize);
    EndPlaces(g, diskSize);
    var a := PullBack(g, diskSize);
    EndPlaces(a, diskSize);
    var b := PushOut(a, quiet, answers.moveBackup, diskSize);
    EndPlaces(b, diskSize);
    assert b.main.backupLBA == diskSize - 1 && (b != g ==> AtEnd(b, g, diskSize));
  }

  lemma LastSector(diskSize: nat)
    requires 0 < diskSize < TWO64
    ensures Sub64(diskSize, 1) == diskSize - 1
  {}

  /** Where MoveSecondHeaderToEnd puts things. */
  predicate AtEnd(c: Gpt, g: Gpt, diskSize: nat) {
    && c.parts == g.parts && c.main.firstUsableLBA == g.main.firstUsableLBA
    && c.main.backupLBA == c.second.currentLBA == diskSize - 1
    && c.main.lastUsableLBA == c.second.lastUsableLBA == diskSize - g.main.firstUsableLBA
    && c.second.partitionEntriesLBA == diskSize - g.main.firstUsableLBA + 1
  }

  lemma EndPlaces(g: Gpt, diskSize: nat)
    requires 0 < g.main.firstUsableLBA <= diskSize < TWO64
    ensures AtEnd(MoveToEnd(g, diskSize), g, diskSize)
  {}

  /** If everything is declined, only a backup header beyond the end of the disk is moved. */
  lemma RelocatedDeclined(g: Gpt, answers: Answers, diskSize: nat)
    requires !answers.moveBackup && !answers.fixLast
    ensures Relocated(g, false, answers, diskSize) == if g.main.backupLBA >= diskSize then MoveToEnd(g, diskSize) else g
  {}

  /** A cleared object on a large enough disk is laid out in order. */
  lemma ClearedIsLaid(g: Gpt, diskSize: nat, blockSize: BlockSize)
    requires Cleared(g, diskSize, blockSize) && LargeEnough(diskSize, blockSize)
    ensures Laid(g, diskSize, blockSize)
  {
    hide SectorsFor, DefaultEntries;
  }

  /** The usable range of a cleared object is not empty and every sector in it is free. */
  lemma ClearedArea(g: Gpt, diskSize: nat, blockSize: BlockSize)
    requires Cleared(g, diskSize, blockSize) && LargeEnough(diskSize, blockSize)
    ensures 2 <= g.main.firstUsableLBA <= g.main.lastUsableLBA == diskSize - g.main.firstUsableLBA
    ensures Space(g.parts, g.main.firstUsableLBA, g.main.lastUsableLBA)
      .AllFree(g.main.firstUsableLBA, g.main.lastUsableLBA + 1)
  {
    hide TableSectors, DefaultEntries;
  }

  /** Rebuilding the backup header of an object whose size is settled mirrors the main one. */
  lemma MirroredHeader(g: Gpt, diskSize: nat, blockSize: BlockSize)
    requires g.main.numParts == g.numParts
    ensures RebuildSecond(g, diskSize, blockSize) ==
      g.(second := g.main.(signature := GPT_SIGNATURE, headerCRC := 0, currentLBA := g.main.backupLBA,
                           backupLBA := g.main.currentLBA, partitionEntriesLBA := Add64(g.main.lastUsableLBA, 1)),
         secondCrcOk := g.mainCrcOk)
  {}
}
