/** The GPTData object of gdisk/gpt.cc: its fields and the methods that change them. */
module GptObject {
  import opened Crc32
  import opened GptFormat
  import opened GptStore
  import opened FreeSpace
  import Allocator
  import Rearranging
  import GptLayout
  import GptLifecycle
  import GptRecovery
  import opened Alignment

  const DEFAULT_ALIGNMENT: nat := 2048
  const SMALLEST_ADVANCED_FORMAT: nat := 585937500

  class GptData {
    const blockSize: BlockSize
    var disk: seq<Sector>
    var mainHeader: Header
    var secondHeader: Header
    var partitions: seq<Part>
    var numParts: nat
    var state: Validity
    var mainCrcOk: bool
    var secondCrcOk: bool
    var mainPartsCrcOk: bool
    var secondPartsCrcOk: bool
    var sectorAlignment: nat
    // How many more sector writes the device accepts before power is lost.
    var life: nat

    /** The partition array and usable range, as the free-space searches see them. */
    function Area(): Space
      reads this
    {
      Space(partitions, mainHeader.firstUsableLBA, mainHeader.lastUsableLBA)
    }

    // ---------- searching for free space ----------

    method IsFree(sector: nat) returns (isFree: bool)
      requires |partitions| == numParts
      ensures isFree <==> mainHeader.firstUsableLBA <= sector <= mainHeader.lastUsableLBA
                          && forall i :: 0 <= i < numParts ==>
                            !(partitions[i].firstLBA <= sector <= partitions[i].lastLBA)
      ensures Area().BlankUnused() ==> (isFree <==> Area().Free(sector))
    {
      isFree := true;
      for i := 0 to numParts
        invariant isFree <==> forall j :: 0 <= j < i ==> !(partitions[j].firstLBA <= sector <= partitions[j].lastLBA)
      {
        if partitions[i].firstLBA <= sector <= partitions[i].lastLBA {
          isFree := false;
        }
      }
      if sector < mainHeader.firstUsableLBA || sector > mainHeader.lastUsableLBA {
        isFree := false;
      }
    }

    /** The first free sector from start on, 0 if there is none. */
    method FindFirstAvailable(start: nat) returns (found: nat)
      requires |partitions| == numParts && mainHeader.firstUsableLBA > 0
      ensures found != 0 ==> start <= found && Area().Free(found) && Area().NoneFree(start, found)
      ensures found == 0 ==> Area().NoneFree(start, mainHeader.lastUsableLBA + 1)
    {
      var t := Area();
      var first := if start < t.lo then t.lo else start;
      var moved := true;
      while moved
        invariant start <= first && t.lo <= first && t.NoneFree(start, first)
        invariant !moved ==> !t.Occupied(first)
        decreases Horizon(partitions) - first, moved
      {
        moved := false;
        ghost var before := first;
        for i := 0 to numParts
          invariant before <= first && t.NoneFree(start, first)
          invariant moved ==> before < first <= Horizon(partitions)
          invariant !moved ==> before == first && forall j :: 0 <= j < i ==> !Covers(partitions[j], first)
        {
          var p := partitions[i];
          if p.IsUsed() && p.firstLBA <= first <= p.lastLBA {
            HorizonBounds(partitions, i);
            forall x | first <= x <= p.lastLBA
              ensures t.Occupied(x)
            {
              assert Covers(partitions[i], x);
            }
            first := p.lastLBA + 1;
            moved := true;
          }
        }
      }
      found := if first > t.hi then 0 else first;
    }

    /** The last free sector of the run that start is in. */
    method FindLastInFree(start: nat) returns (last: int)
      requires |partitions| == numParts
      ensures last == NearestEnd(Area(), numParts, start)
    {
      last := mainHeader.lastUsableLBA;
      for i := 0 to numParts
        invariant last == NearestEnd(Area(), i, start)
      {
        if last > partitions[i].firstLBA > start {
          last := partitions[i].firstLBA - 1;
        }
      }
    }

    /** Totals over all free runs: how many free sectors, in how many runs, the longest run.
        Terminates on every table.  On a well-formed one the number of runs is right, and a run
        that the search for its end goes past counts as one sector longer than it is: the total
        is right if and only if there is no such run. */
    method FindFreeBlocks() returns (total: nat, runs: nat, longest: nat)
      requires |partitions| == numParts && mainHeader.firstUsableLBA > 0
      ensures |disk| == 0 ==> total == runs == longest == 0
      ensures |disk| > 0 && Area().WellFormed() ==>
        && total == CountFree(Area(), mainHeader.lastUsableLBA + 1) + CountOver(Area(), mainHeader.lastUsableLBA + 1)
        && runs == CountRuns(Area(), mainHeader.lastUsableLBA + 1)
        && LargestMeasure(Area(), longest)
      ensures |disk| > 0 && Area().WellFormed() ==>
        (total == CountFree(Area(), mainHeader.lastUsableLBA + 1) <==> NoneOver(Area(), mainHeader.lastUsableLBA + 1))
    {
      hide CountFree, CountRuns, CountOver, NearestEnd, Over, SeenAtMost, Measured, Attained, NoneOver,
           Space.WellFormed, Space.Run;
      total, runs, longest := 0, 0, 0;
      if |disk| == 0 {
        return;
      }
      var t := Area();
      ghost var good := t.WellFormed();
      var start: nat := 0;
      var first := FindFirstAvailable(start);
      ScanStart(t);
      while first != 0
        invariant start <= t.hi + 1 && (first != 0 ==> start <= first <= t.hi)
        invariant good ==> Scanning(t, start, first)
        invariant good ==> total == CountFree(t, start) + CountOver(t, start) && runs == CountRuns(t, start)
        invariant good ==> SeenAtMost(t, start, longest)
        invariant good ==> Attained(t, longest)
        decreases t.hi + 1 - start
      {
        var last := FindLastInFree(first);
        NearestEndBounds(t, numParts, first);
        if good {
          ghost var end := ScanStep(t, start, first, last);
          NewSeen(t, start, first, end, last + 1, longest);
          AttainedBy(t, first, end);
        }
        var size: nat := last - first + 1;
        if size > longest {
          longest := size;
        }
        total, runs := total + size, runs + 1;
        start := last + 1;
        first := FindFirstAvailable(start);
      }
      if good {
        ScanEnd(t, start);
        CountOverZero(t, t.hi + 1);
        SeenAll(t, start, longest);
      }
    }

    /** The first sector of the earliest run that measures most, 0 if nothing is free. */
    method FindFirstInLargest() returns (selected: nat, ghost end: nat)
      requires |partitions| == numParts && mainHeader.firstUsableLBA > 0
      ensures Area().WellFormed() && selected == 0 ==> Area().NoneFree(0, mainHeader.lastUsableLBA + 1)
      ensures Area().WellFormed() && selected != 0 ==> Selected(Area(), selected, end)
    {
      var t := Area();
      ghost var good := t.WellFormed();
      hide CountFree, CountRuns, CountOver, NearestEnd, Over, EarliestLargest, SeenAtMost, Measured, Space.WellFormed;
      var start: nat, selectedSize: nat := 0, 0;
      selected, end := 0, 0;
      var first := FindFirstAvailable(start);
      ScanStart(t);
      while first != 0
        invariant start <= t.hi + 1 && (first != 0 ==> start <= first <= t.hi)
        invariant good ==> Scanning(t, start, first)
        invariant good && selected == 0 ==> selectedSize == 0 && t.NoneFree(0, start)
        invariant good && selected != 0 ==> t.Run(selected, end) && Measured(t, selected, end) == selectedSize
        invariant good ==> selected <= start && EarliestLargest(t, start, selected, selectedSize)
        decreases t.hi + 1 - start
      {
        var last := FindLastInFree(first);
        NearestEndBounds(t, numParts, first);
        ghost var stop: nat := 0;
        if good {
          stop := ScanStep(t, start, first, last);
          NewEarliest(t, start, first, stop, last + 1, selected, selectedSize);
        }
        var segment: nat := last - first + 1;
        if segment > selectedSize {
          selectedSize, selected := segment, first;
          end := stop;
        }
        start := last + 1;
        first := FindFirstAvailable(start);
      }
      if good {
        EarliestOfAll(t, start, selected, selectedSize);
      }
    }

    /** The last free sector, 0 if there is none, on overlapping and out-of-range tables too.  The
        search goes down from the last usable sector and wraps around below sector 0, so this is
        right if and only if some sector up to the last usable one is in no entry, where blank
        entries take sector 0.  It never ends if the entries take every sector. */
    method FindLastAvailable() returns (found: nat)
      requires |partitions| == numParts && mainHeader.lastUsableLBA < TWO64
      requires !AllTaken(Area(), 0, TWO64)
      ensures !AllTaken(Area(), 0, mainHeader.lastUsableLBA + 1) && Area().BlankUnused() ==>
        LastFree(Area(), found)
      ensures AllTaken(Area(), 0, mainHeader.lastUsableLBA + 1) &&
              mainHeader.firstUsableLBA <= mainHeader.lastUsableLBA + 1 ==>
        mainHeader.lastUsableLBA < found && !Taken(Area(), found) && AllTaken(Area(), found + 1, TWO64)
      ensures Area().BlankUnused() && mainHeader.firstUsableLBA <= mainHeader.lastUsableLBA + 1 ==>
        (LastFree(Area(), found) <==> !AllTaken(Area(), 0, mainHeader.lastUsableLBA + 1))
    {
      var t := Area();
      var last: nat := t.hi;
      var moved := true;
      ghost var wrapped := false;
      while moved
        invariant Descended(t, last, wrapped)
        invariant !moved ==> !Taken(t, last)
        decreases !wrapped, last, moved
      {
        moved := false;
        ghost var before, low := last, wrapped;
        for i := 0 to numParts
          invariant Descended(t, last, wrapped)
          invariant moved ==> (wrapped && !low) || (wrapped == low && last < before)
          invariant !moved ==> wrapped == low && last == before
          invariant !moved ==> forall j :: 0 <= j < i ==> !Takes(partitions[j], last)
        {
          var p := partitions[i];
          if p.firstLBA <= last <= p.lastLBA {
            wrapped := Descend(t, i, last, wrapped);
            last := Below(p.firstLBA);
            moved := true;
          }
        }
      }
      found := if last < t.lo then 0 else last;
      LastFreeExactly(t, last, wrapped);
    }

    /** Move a sector onto an alignment boundary if the sectors in between are free. */
    method Align(sector: nat) returns (aligned: nat, changed: bool)
      requires |partitions| == numParts && Area().BlankUnused() && sectorAlignment > 0
      ensures aligned == Allocator.AlignSector(Area(), sector, sectorAlignment)
      ensures changed <==> aligned != sector
    {
      var t := Area();
      aligned, changed := sector, false;
      if sector % sectorAlignment != 0 {
        Allocator.RoundDownFacts(sector, sectorAlignment);
        var earlier := sector / sectorAlignment * sectorAlignment;
        var later := earlier + sectorAlignment;
        var sectorOk := false;
        if earlier >= mainHeader.firstUsableLBA {
          sectorOk := true;
          var test := earlier;
          while sectorOk && test < sector
            invariant earlier <= test <= sector
            invariant sectorOk <==> t.AllFree(earlier, test)
            decreases sector - test, sectorOk
          {
            sectorOk := IsFree(test);
            test := test + 1;
          }
          assert sectorOk <==> t.AllFree(earlier, sector);
          if sectorOk {
            aligned, changed := earlier, true;
          }
        }
        if !sectorOk && later <= mainHeader.lastUsableLBA {
          sectorOk := true;
          var test := later;
          while sectorOk && test > sector
            invariant sector <= test <= later
            invariant sectorOk <==> t.AllFree(test + 1, later + 1)
            decreases test, sectorOk
          {
            sectorOk := IsFree(test);
            test := test - 1;
          }
          assert sectorOk <==> t.AllFree(sector + 1, later + 1);
          if sectorOk {
            aligned, changed := later, true;
          }
        }
      }
    }

    // ---------- changing the partition array ----------

    method CreatePartition(entry: nat, start: nat, end: nat, kind: nat, guid: nat, name: nat) returns (ok: bool)
      requires |partitions| == numParts && Area().BlankUnused() && sectorAlignment > 0
      modifies `partitions
      ensures (Area(), ok) ==
        Allocator.CreatePartition(old(Area()), Allocator.Create(entry, start, end, kind, guid, name), sectorAlignment)
    {
      ok := false;
      if entry < numParts && !partitions[entry].IsUsed() {
        var first, moved := Align(start);
        var isFree := IsFree(first);
        if isFree && first <= end {
          var last := FindLastInFree(first);
          if last >= end {
            partitions := partitions[entry :=
              partitions[entry].(firstLBA := first, lastLBA := end, partitionType := kind, uniqueGUID := guid,
                                 name := name)];
            ok := true;
          }
        }
      }
    }

    /** The lowest and highest used entry numbers and how many entries are used. */
    method GetPartRange() returns (found: nat, low: nat, high: nat)
      requires numParts <= |partitions|
      ensures found == UsedCount(partitions[..numParts])
      ensures found > 0 <==> exists i :: 0 <= i < numParts && partitions[i].IsUsed()
      ensures found > 0 ==> low <= high < numParts && partitions[low].IsUsed() && partitions[high].IsUsed()
      ensures forall i :: 0 <= i < numParts && partitions[i].IsUsed() ==> low <= i <= high
      ensures found == 0 ==> low == high == 0
      ensures high == HighestUsed(partitions[..numParts])
    {
      found, low, high := 0, numParts + 1, 0;
      for i := 0 to numParts
        invariant found > 0 <==> exists j :: 0 <= j < i && partitions[j].IsUsed()
        invariant found == 0 ==> low == numParts + 1 && high == 0
        invariant found > 0 ==> low <= high < i && partitions[low].IsUsed() && partitions[high].IsUsed()
        invariant forall j :: 0 <= j < i && partitions[j].IsUsed() ==> low <= j <= high
        invariant high == HighestUsed(partitions[..i]) && found == UsedCount(partitions[..i])
      {
        assert partitions[..i + 1][..i] == partitions[..i];
        if partitions[i].IsUsed() {
          high := i;
          if low == numParts + 1 {
            low := i;
          }
          found := found + 1;
        }
      }
      if low == numParts + 1 {
        low := 0;
      }
    }

    method DeletePartition(entry: nat) returns (ok: bool)
      requires |partitions| == numParts
      modifies `partitions
      ensures (Area(), ok) == Allocator.DeletePartition(old(Area()), entry)
    {
      var found, low, high := GetPartRange();
      if found > 0 && low <= entry <= high {
        assert Allocator.InUsedRange(Area(), entry);
        partitions := partitions[entry := BLANK];
        ok := true;
      } else {
        ok := false;
      }
    }

    method SwapPartitions(a: nat, b: nat) returns (ok: bool)
      requires |partitions| == numParts
      modifies `partitions
      ensures (Area(), ok) == Allocator.SwapPartitions(old(Area()), a, b)
    {
      ok := a < numParts && b < numParts;
      assert ok && a == b ==> partitions[a := partitions[b]][b := partitions[a]] == partitions;
      if ok && a != b {
        partitions := partitions[a := partitions[b]][b := partitions[a]];
      }
    }

    /** Order the entries by first sector, blank ones last (a call to std::sort in the source;
        any ordered rearrangement meets the contract). */
    method SortGPT()
      requires |partitions| == numParts
      modifies `partitions
      ensures Allocator.SortOf(partitions, old(partitions))
    {
      var sorted: seq<Part> := [];
      ghost var any := (p: Part) => true;
      Allocator.PrecedesOrders();
      for i := 0 to numParts
        invariant partitions == old(partitions)
        invariant Allocator.SortOf(sorted, partitions[..i])
      {
        assert partitions[..i + 1] == partitions[..i] + [partitions[i]];
        sorted := Rearranging.Insert(sorted, partitions[i], Allocator.Precedes, any);
      }
      assert partitions[..numParts] == partitions;
      partitions := sorted;
    }

    // ---------- geometry and headers ----------

    /** The fields that loading and saving work on. */
    function Value(): Gpt
      reads this
    {
      Gpt(mainHeader, secondHeader, partitions, numParts, state, mainCrcOk, secondCrcOk,
          mainPartsCrcOk, secondPartsCrcOk)
    }

    method MoveSecondHeaderToEnd()
      modifies `mainHeader, `secondHeader
      ensures Value() == MoveToEnd(old(Value()), |disk|)
    {
      mainHeader := mainHeader.(backupLBA := Sub64(|disk|, 1));
      secondHeader := secondHeader.(currentLBA := Sub64(|disk|, 1));
      var last := Sub64(|disk|, mainHeader.firstUsableLBA);
      mainHeader := mainHeader.(lastUsableLBA := last);
      secondHeader := secondHeader.(lastUsableLBA := last, partitionEntriesLBA := Add64(last, 1));
    }

    /** SetGPTSize without rounding up to whole sectors. */
    method SetGPTSize(entries: nat) returns (ok: bool)
      requires numParts <= |partitions|
      modifies `mainHeader, `secondHeader, `partitions, `numParts
      ensures (Value(), ok) == Resize(old(Value()), entries, |disk|, blockSize)
      ensures numParts <= |partitions|
    {
      ok := true;
      if entries != numParts && entries > 0 {
        var found, low, high := GetPartRange();
        ResizeRoom(partitions[..numParts]);
        if entries < high + 1 {
          ok := false;
        } else {
          var resized := CopyEntries(entries);
          partitions := resized;
        }
        numParts := entries;
        var first := Add64(TableSectors(entries, blockSize), mainHeader.partitionEntriesLBA);
        mainHeader := mainHeader.(firstUsableLBA := first);
        secondHeader := secondHeader.(firstUsableLBA := first);
        MoveSecondHeaderToEnd();
      }
      mainHeader := mainHeader.(numParts := numParts);
      secondHeader := secondHeader.(numParts := numParts);
    }

    /** The entries of a table of another size: the old ones that fit, then blank ones. */
    method CopyEntries(entries: nat) returns (resized: seq<Part>)
      requires numParts <= |partitions|
      ensures resized == if entries < numParts then partitions[..numParts][..entries]
                         else partitions[..numParts] + Blanks(entries - numParts)
    {
      var copied := if entries < numParts then entries else numParts;
      resized := Blanks(entries);
      for i := 0 to copied
        invariant |resized| == entries
        invariant forall j :: 0 <= j < i ==> resized[j] == partitions[j]
        invariant forall j :: i <= j < entries ==> resized[j] == BLANK
      {
        resized := resized[i := partitions[i]];
      }
    }

    method RebuildMainHeader()
      requires numParts <= |partitions|
      modifies `mainHeader, `secondHeader, `partitions, `numParts, `mainCrcOk
      ensures Value() == RebuildMain(old(Value()), |disk|, blockSize)
      ensures numParts <= |partitions|
    {
      mainHeader := secondHeader.(
        signature := GPT_SIGNATURE, headerCRC := 0,
        currentLBA := secondHeader.backupLBA, backupLBA := secondHeader.currentLBA,
        partitionEntriesLBA := Sub64(secondHeader.firstUsableLBA, TableSectors(numParts, blockSize)));
      mainCrcOk := secondCrcOk;
      var _ := SetGPTSize(mainHeader.numParts);
    }

    method RebuildSecondHeader()
      requires numParts <= |partitions|
      modifies `mainHeader, `secondHeader, `partitions, `numParts, `secondCrcOk
      ensures Value() == RebuildSecond(old(Value()), |disk|, blockSize)
      ensures numParts <= |partitions|
    {
      secondHeader := mainHeader.(
        signature := GPT_SIGNATURE, headerCRC := 0,
        currentLBA := mainHeader.backupLBA, backupLBA := mainHeader.currentLBA,
        partitionEntriesLBA := Add64(mainHeader.lastUsableLBA, 1));
      secondCrcOk := mainCrcOk;
      var _ := SetGPTSize(secondHeader.numParts);
    }

    // ---------- loading ----------

    method LoadHeader(which: Which, lba: nat) returns (ok: bool)
      requires numParts <= |partitions|
      modifies `mainHeader, `secondHeader, `partitions, `numParts, `mainCrcOk, `secondCrcOk
      ensures (Value(), ok) == GptStore.LoadHeader(old(Value()), disk, which, lba, blockSize)
      ensures numParts <= |partitions|
    {
      hide Resize, CheckHeaderCRC, ReadBytes, ParseHeader;
      ok := ReadOk(disk, lba, HEADER_RECORD, blockSize);
      var header := HeaderAt(disk, lba, blockSize);
      var crcOk := CheckHeaderCRC(header, blockSize);
      if ok && numParts != header.numParts && crcOk {
        ok := SetGPTSize(header.numParts);
      }
      if which == Main {
        mainHeader, mainCrcOk := header, crcOk;
      } else {
        secondHeader, secondCrcOk := header, crcOk;
      }
    }

    method LoadPartitionTable(which: Which) returns (ok: bool)
      requires numParts <= |partitions|
      modifies `mainHeader, `secondHeader, `partitions, `numParts, `mainPartsCrcOk, `secondPartsCrcOk
      ensures (Value(), ok) == LoadTable(old(Value()), disk, which, blockSize)
      ensures numParts <= |partitions|
    {
      hide Resize, ReadBytes, ReadOk, TableSize, Checksum, ParseTable, TableBytes, Clip;
      var lba := HeaderOfGpt(Value(), which).partitionEntriesLBA;
      ok := SetGPTSize(HeaderOfGpt(Value(), which).numParts);
      if ok {
        var header := HeaderOfGpt(Value(), which);
        var bytes := ReadBytes(disk, lba, TableSize(header), blockSize);
        ok := ReadOk(disk, lba, TableSize(header), blockSize);
        mainPartsCrcOk := Checksum(bytes) == header.partitionEntriesCRC;
        secondPartsCrcOk := mainPartsCrcOk;
        var kept := Clip(bytes, numParts * ENTRY_SIZE);
        TableBytesParse(kept, numParts);
        partitions := ParseTable(kept);
      }
    }

    /** The first part of ForceLoadGPTData: read the main header, then the backup header from
        where the main one says, or from the last sector. */
    method ReadHeaders() returns (allOk: bool)
      requires numParts <= |partitions|
      modifies `mainHeader, `secondHeader, `partitions, `numParts, `mainCrcOk, `secondCrcOk
      ensures (Value(), allOk) == LoadHeaders(old(Value()), disk, blockSize)
      ensures numParts <= |partitions|
    {
      hide GptStore.LoadHeader, Sub64;
      var mainOk := LoadHeader(Main, 1);
      var secondOk: bool;
      if mainCrcOk && mainHeader.backupLBA < |disk| {
        secondOk := LoadHeader(Second, mainHeader.backupLBA);
      } else {
        secondOk := LoadHeader(Second, Sub64(|disk|, 1));
      }
      allOk := secondOk && mainOk;
    }

    method ForceLoadGPTData() returns (allOk: bool)
      requires numParts <= |partitions|
      modifies this
      ensures (Value(), allOk) == ForceLoad(old(Value()), disk, blockSize)
      ensures disk == old(disk) && numParts <= |partitions|
    {
      hide LoadHeaders, LoadTables, HeaderValid, RebuildMain, RebuildSecond;
      allOk := ReadHeaders();
      var mainValid, secondValid := HeaderValid(mainHeader, blockSize), HeaderValid(secondHeader, blockSize);
      if mainValid || secondValid {
        if !secondValid {
          RebuildSecondHeader();
        } else if !mainValid {
          RebuildMainHeader();
        }
        allOk := ChooseTable(!mainValid, allOk);
        state := if mainValid && secondValid && mainPartsCrcOk && secondPartsCrcOk then GptValid else GptCorrupt;
      } else {
        state := GptInvalid;
      }
    }

    /** The part of ForceLoadGPTData that decides between the two tables. */
    method ChooseTable(fromBackup: bool, headersOk: bool) returns (allOk: bool)
      requires numParts <= |partitions|
      modifies `mainHeader, `secondHeader, `partitions, `numParts, `mainPartsCrcOk, `secondPartsCrcOk
      ensures (Value(), allOk) == LoadTables(old(Value()), disk, fromBackup, headersOk, blockSize)
      ensures numParts <= |partitions|
    {
      hide LoadTable, GptStore.CheckTable;
      var loadedTable := 1;
      allOk := headersOk;
      if !fromBackup {
        var ok := LoadPartitionTable(Main);
        if !ok {
          allOk := false;
        }
      } else {
        var ok := LoadPartitionTable(Second);
        if ok {
          loadedTable := 2;
        } else {
          ok := LoadPartitionTable(Main);
          if !ok {
            allOk, loadedTable := false, 0;
          }
        }
      }
      if loadedTable == 1 {
        secondPartsCrcOk := CheckTable(Value(), disk, Second, blockSize);
      } else if loadedTable == 2 {
        mainPartsCrcOk := CheckTable(Value(), disk, Main, blockSize);
      } else {
        mainPartsCrcOk, secondPartsCrcOk := false, false;
      }
      if secondPartsCrcOk && secondCrcOk && !mainPartsCrcOk {
        if allOk {
          allOk := LoadPartitionTable(Second);
        }
        mainPartsCrcOk := false;
      }
    }

    // ---------- checking ----------

    method CheckGPTSize() returns (problems: nat)
      requires |partitions| == numParts && mainHeader.firstUsableLBA < TWO64
      ensures problems == 0 <==> |disk| == 0 || GptLayout.InUsableRange(Value())
    {
      var firstUsed, lastUsed := TWO64 - 1, 0;
      for i := 0 to numParts
        invariant forall j :: 0 <= j < i && partitions[j].IsUsed() ==>
          firstUsed <= partitions[j].firstLBA && partitions[j].lastLBA <= lastUsed
        invariant firstUsed == TWO64 - 1 ||
          exists j :: 0 <= j < i && partitions[j].IsUsed() && partitions[j].firstLBA == firstUsed
        invariant lastUsed == 0 || exists j :: 0 <= j < i && partitions[j].IsUsed() && partitions[j].lastLBA == lastUsed
      {
        if partitions[i].IsUsed() {
          if partitions[i].firstLBA < firstUsed {
            firstUsed := partitions[i].firstLBA;
          }
          if partitions[i].lastLBA > lastUsed {
            lastUsed := partitions[i].lastLBA;
          }
        }
      }
      problems := 0;
      if |disk| != 0 {
        if mainHeader.firstUsableLBA > firstUsed {
          problems := problems + 1;
        }
        if mainHeader.lastUsableLBA < lastUsed {
          problems := problems + 1;
        }
      }
    }

    method FindOverlaps() returns (problems: nat)
      requires |partitions| == numParts
      ensures problems == 0 <==> GptLayout.NoOverlaps(partitions)
    {
      problems := 0;
      for i := 0 to numParts
        invariant problems == 0 <==> GptLayout.NoOverlaps(partitions[..i])
      {
        assert partitions[..i + 1] == partitions[..i] + [partitions[i]];
        for j := 0 to i
          invariant problems == 0 <==>
            GptLayout.NoOverlaps(partitions[..i]) && GptLayout.ApartFromEarlier(partitions, i, j)
        {
          if partitions[i].IsUsed() && partitions[j].IsUsed() && GptLayout.DoTheyOverlap(partitions[i], partitions[j]) {
            problems := problems + 1;
          }
        }
        GptLayout.ExtendNoOverlaps(partitions, i);
      }
      assert partitions[..numParts] == partitions;
    }

    method FindInsanePartitions() returns (problems: nat)
      requires |partitions| == numParts
      ensures problems == 0 <==> GptLayout.Sane(partitions, |disk|)
    {
      problems := 0;
      for i := 0 to numParts
        invariant problems == 0 <==> forall j :: 0 <= j < i && partitions[j].IsUsed() ==>
          partitions[j].firstLBA <= partitions[j].lastLBA < |disk|
      {
        if partitions[i].IsUsed() {
          if partitions[i].firstLBA > partitions[i].lastLBA {
            problems := problems + 1;
          }
          if partitions[i].lastLBA >= |disk| {
            problems := problems + 1;
          }
        }
      }
    }

    // ---------- saving ----------

    method WriteSector(w: Write)
      modifies `disk, `life
      ensures disk == Apply(old(disk), Take([w], old(life)))
      ensures life == Spend(old(life), 1)
    {
      if life > 0 {
        assert Take([w], life) == [w] && [w][1..] == [];
        if w.lba < |disk| {
          disk := disk[w.lba := w.data];
        }
        life := life - 1;
      } else {
        assert Take([w], life) == [];
      }
    }

    /** Write a table sector by sector. */
    method SavePartitionTable(lba: nat, table: seq<Byte>)
      modifies `disk, `life
      ensures disk == Apply(old(disk), Take(TableWrites(lba, table, blockSize), old(life)))
      ensures life == Spend(old(life), |TableWrites(lba, table, blockSize)|)
    {
      hide Apply, Take, Clip;
      var rest, at := table, lba;
      ghost var all, done := TableWrites(lba, table, blockSize), [];
      TakeNothing(disk, life);
      while rest != []
        invariant done + TableWrites(at, rest, blockSize) == all
        invariant disk == Apply(old(disk), Take(done, old(life))) && life == Spend(old(life), |done|)
        decreases |rest|
      {
        var chunk := if |rest| <= blockSize then Clip(rest, blockSize) else rest[..blockSize];
        var w := Write(at, chunk);
        TakeThen(old(disk), done, [w], old(life));
        WriteSector(w);
        done := done + [w];
        rest := if |rest| <= blockSize then [] else rest[blockSize..];
        at := at + 1;
      }
      assert done == all;
    }

    method RecomputeCRCs()
      modifies `mainHeader, `secondHeader
      ensures Value() == GptStore.RecomputeCRCs(old(Value()))
    {
      hide Checksum, HeaderBytes, TableBytes;
      var size := if mainHeader.headerSize > HEADER_RECORD then HEADER_SIZE else mainHeader.headerSize;
      var crc := Checksum(TableBytes(partitions));
      mainHeader := mainHeader.(headerSize := size, partitionEntriesCRC := crc, headerCRC := 0);
      secondHeader := secondHeader.(headerSize := size, partitionEntriesCRC := crc, headerCRC := 0);
      mainHeader := mainHeader.(headerCRC := Checksum(HeaderBytes(mainHeader)[..size]));
      secondHeader := secondHeader.(headerCRC := Checksum(HeaderBytes(secondHeader)[..size]));
    }

    /** The five region writes of SaveGPTData, in its order. */
    method WriteRegions(boot: Sector)
      modifies `disk, `life
      ensures disk == Interrupted(old(disk), Value(), boot, old(life), blockSize)
    {
      hide Apply, Take, TableWrites, HeaderWrite, TableBytes;
      var table := TableBytes(partitions);
      ghost var a, b := TableWrites(secondHeader.partitionEntriesLBA, table, blockSize),
        HeaderWrite(mainHeader.backupLBA, secondHeader, blockSize);
      ghost var c, d := TableWrites(mainHeader.partitionEntriesLBA, table, blockSize),
        HeaderWrite(1, mainHeader, blockSize);
      TakeThen(old(disk), a, [b], old(life));
      TakeThen(old(disk), a + [b], c, old(life));
      TakeThen(old(disk), a + [b] + c, [d], old(life));
      TakeThen(old(disk), a + [b] + c + [d], [Write(0, boot)], old(life));
      SavePartitionTable(secondHeader.partitionEntriesLBA, table);
      WriteSector(HeaderWrite(mainHeader.backupLBA, secondHeader, blockSize));
      SavePartitionTable(mainHeader.partitionEntriesLBA, table);
      WriteSector(HeaderWrite(1, mainHeader, blockSize));
      WriteSector(Write(0, boot));
    }

    method SaveGPTData(quiet: bool, answers: GptLayout.Answers, justLooking: bool, boot: Sector) returns (ok: bool)
      requires |partitions| == numParts && mainHeader.firstUsableLBA < TWO64
      modifies `mainHeader, `secondHeader, `disk, `life
      ensures ok == GptLayout.Accepted(old(Value()), quiet, answers, justLooking, |old(disk)|)
      ensures Value() == GptStore.RecomputeCRCs(GptLayout.Relocated(old(Value()), quiet, answers, |old(disk)|))
      ensures disk == Apply(old(disk),
        Take(GptLayout.Written(old(Value()), quiet, answers, justLooking, boot, |old(disk)|, blockSize), old(life)))
    {
      hide Apply, Take, SaveWrites, GptStore.RecomputeCRCs, GptLayout.Relocated, GptLayout.InUsableRange,
           GptLayout.NoOverlaps, GptLayout.Sane;
      ok := !justLooking;
      var sizeProblems := Relocate(quiet, answers);
      if sizeProblems > 0 {
        ok := false;
      }
      var overlaps := FindOverlaps();
      var insane := FindInsanePartitions();
      if overlaps > 0 || insane > 0 {
        ok := false;
      }
      RecomputeCRCs();
      if ok && !quiet && !answers.proceed {
        ok := false;
      }
      if ok {
        WriteRegions(boot);
      } else {
        TakeNothing(disk, life);
      }
    }

    /** The first half of SaveGPTData: move the backup structures where asked, and check the
        partitions against the usable range in between. */
    method Relocate(quiet: bool, answers: GptLayout.Answers) returns (sizeProblems: nat)
      requires |partitions| == numParts && mainHeader.firstUsableLBA < TWO64
      modifies `mainHeader, `secondHeader
      ensures sizeProblems == 0 <==> |disk| == 0 || GptLayout.InUsableRange(GptLayout.PullBack(old(Value()), |disk|))
      ensures Value() == GptLayout.Relocated(old(Value()), quiet, answers, |disk|)
    {
      hide MoveToEnd, Sub64, GptLayout.InUsableRange;
      GptLayout.MoveKeeps(Value(), |disk|);
      if mainHeader.backupLBA >= |disk| {
        MoveSecondHeaderToEnd();
      }
      sizeProblems := CheckGPTSize();
      if mainHeader.backupLBA < Sub64(|disk|, 1) && (quiet || answers.moveBackup) {
        MoveSecondHeaderToEnd();
      }
      if (mainHeader.lastUsableLBA >= |disk| || mainHeader.lastUsableLBA > mainHeader.backupLBA)
        && (quiet || answers.fixLast) {
        MoveSecondHeaderToEnd();
      }
    }

    /** The first sector of any used partition, the largest 64-bit number if there is none. */
    method FindFirstUsedLBA() returns (first: nat)
      requires |partitions| == numParts
      ensures first == GptLayout.FirstUsed(partitions)
    {
      first := TWO64 - 1;
      for i := 0 to numParts
        invariant first == GptLayout.FirstUsed(partitions[..i])
      {
        assert partitions[..i + 1][..i] == partitions[..i];
        if partitions[i].IsUsed() && partitions[i].firstLBA < first {
          first := partitions[i].firstLBA;
        }
      }
      assert partitions[..numParts] == partitions;
    }

    /** Moves the main table, if it then still ends before the first used sector. */
    method MoveMainTable(lba: nat) returns (ok: bool)
      requires |partitions| == numParts
      modifies `mainHeader, `secondHeader, `partitions, `numParts, `secondCrcOk
      ensures Value() == GptLayout.MoveMainTable(old(Value()), lba, |disk|, blockSize)
      ensures ok <==> lba >= 2 && lba + TableSectors(old(numParts), blockSize) <= GptLayout.FirstUsed(old(partitions))
    {
      hide RebuildSecond, TableSectors;
      var sectors := TableSectors(numParts, blockSize);
      var first := FindFirstUsedLBA();
      ok := lba >= 2 && lba + sectors <= first;
      if ok {
        mainHeader := mainHeader.(partitionEntriesLBA := lba, firstUsableLBA := lba + sectors);
        RebuildSecondHeader();
      }
    }

    // ---------- a new table ----------

    method BlankPartitions()
      requires |partitions| == numParts
      modifies `partitions
      ensures partitions == Blanks(numParts)
    {
      for i := 0 to numParts
        invariant |partitions| == numParts && forall j :: 0 <= j < i ==> partitions[j] == BLANK
      {
        partitions := partitions[i := BLANK];
      }
    }

    /** Start a new, empty table with the given disk GUID. */
    method ClearGPTData(guid: nat)
      modifies this
      ensures GptLayout.Cleared(Value(), |disk|, blockSize)
      ensures sectorAlignment == DEFAULT_ALIGNMENT * 512 / blockSize
      ensures disk == old(disk) && life == old(life) && mainHeader.diskGUID == guid
      ensures mainHeader.headerCRC == old(mainHeader.headerCRC)
      ensures mainHeader.partitionEntriesCRC == old(mainHeader.partitionEntriesCRC)
      ensures mainHeader.reserved == mainHeader.reserved2 == 0 && secondHeader.headerCRC == 0
      ensures secondHeader.partitionEntriesCRC == mainHeader.partitionEntriesCRC
      ensures secondHeader.reserved == secondHeader.reserved2 == 0
    {
      hide TableSectors, GptLayout.DefaultEntries, RebuildSecond, Sub64, Add64;
      var entries := GptLayout.DefaultEntries(blockSize);
      partitions, numParts := Blanks(entries), entries;
      mainHeader := mainHeader.(
        signature := GPT_SIGNATURE, revision := SUPPORTED_REVISION, headerSize := HEADER_SIZE, reserved := 0,
        currentLBA := 1, partitionEntriesLBA := 2, sizeOfPartitionEntries := ENTRY_SIZE, numParts := entries,
        firstUsableLBA := TableSectors(entries, blockSize) + 2, reserved2 := 0);
      sectorAlignment := DEFAULT_ALIGNMENT * 512 / blockSize;
      mainHeader := mainHeader.(backupLBA := Sub64(|disk|, 1),
        lastUsableLBA := Sub64(|disk|, mainHeader.firstUsableLBA), diskGUID := guid);
      GptLayout.MirroredHeader(Value(), |disk|, blockSize);
      RebuildSecondHeader();
      BlankPartitions();
      mainCrcOk, secondCrcOk, mainPartsCrcOk, secondPartsCrcOk := true, true, true, true;
    }

    /** PalData::ClearDisk up to the save: one partition over the largest free run, from its
        first aligned sector to its end. */
    method ClearDisk(defaultKind: nat, kind: nat, guid: nat, name: nat)
      requires GptLayout.Cleared(Value(), |disk|, blockSize) && GptLayout.LargeEnough(|disk|, blockSize)
      requires 0 < numParts && 0 < sectorAlignment && defaultKind != 0 && kind != 0
      modifies `partitions
      ensures GptLayout.VerifyFindsNothing(Value(), |disk|, blockSize)
      ensures
        var t := old(Area());
        partitions == Blanks(numParts)
          [0 := Part(kind, guid, Allocator.AlignSector(t, t.lo, sectorAlignment), t.hi, 0, name)]
    {
      hide TableSectors, GptLayout.DefaultEntries, GptLayout.RoundUp, CountFree, Sub64, Add64;
      var t := Area();
      GptLayout.ClearedArea(Value(), |disk|, blockSize);
      Allocator.EmptyArea(t);
      var low, stop := FindFirstInLargest();
      Allocator.OnlyRun(t, low, stop);
      var start, moved := Align(low);
      Allocator.AlignStaysInRun(t, low, sectorAlignment);
      var end := FindLastInFree(start);
      Allocator.NearestEndStuck(t, numParts, start);
      var ok := CreatePartition(0, start, end, defaultKind, guid, name);
      assert Allocator.AlignSector(t, start, sectorAlignment) == start
        by { Allocator.AlignTwice(t, low, sectorAlignment); }
      assert ok;
      partitions := partitions[0 :=
        partitions[0].(firstLBA := start, lastLBA := end, partitionType := kind, uniqueGUID := guid)];
      assert partitions == Blanks(numParts)[0 := Part(kind, guid, start, t.hi, 0, name)];
      Formatted(old(Value()), Part(kind, guid, start, t.hi, 0, name), |disk|, blockSize);
    }

    /** The first part of Verify: the checksum flags and the headers' own places. */
    method VerifyChecksums() returns (problems: nat)
      modifies `mainHeader
      ensures problems == 0 <==>
        && mainCrcOk && mainPartsCrcOk && secondCrcOk && secondPartsCrcOk
        && old(mainHeader.currentLBA) == 1 && secondHeader.currentLBA == Sub64(|disk|, 1)
      ensures mainHeader == old(mainHeader).(currentLBA := 1)
    {
      hide Sub64;
      problems := 0;
      if !mainCrcOk {
        problems := problems + 1;
      }
      if !mainPartsCrcOk {
        problems := problems + 1;
      }
      if !secondCrcOk {
        problems := problems + 1;
      }
      if !secondPartsCrcOk {
        problems := problems + 1;
      }
      if mainHeader.currentLBA != 1 {
        problems := problems + 1;
        mainHeader := mainHeader.(currentLBA := 1);
      }
      if secondHeader.currentLBA != Sub64(|disk|, 1) {
        problems := problems + 1;
      }
    }

    /** The second part of Verify: how many fields of the two headers do not match. */
    method VerifyMatches() returns (problems: nat)
      ensures problems == 0 <==> GptLayout.HeadersMatch(mainHeader, secondHeader)
    {
      problems := 0;
      if mainHeader.currentLBA != secondHeader.backupLBA {
        problems := problems + 1;
      }
      if mainHeader.backupLBA != secondHeader.currentLBA {
        problems := problems + 1;
      }
      if mainHeader.firstUsableLBA != secondHeader.firstUsableLBA {
        problems := problems + 1;
      }
      if mainHeader.lastUsableLBA != secondHeader.lastUsableLBA {
        problems := problems + 1;
      }
      if mainHeader.diskGUID != secondHeader.diskGUID {
        problems := problems + 1;
      }
      if mainHeader.numParts != secondHeader.numParts {
        problems := problems + 1;
      }
      if mainHeader.sizeOfPartitionEntries != secondHeader.sizeOfPartitionEntries {
        problems := problems + 1;
      }
    }

    /** The third part of Verify: whether the tables and the usable range have room. */
    method VerifyPlaces() returns (problems: nat)
      ensures problems == 0 <==>
        GptLayout.PlacesFit(mainHeader, secondHeader, TableSectors(numParts, blockSize), |disk|)
    {
      hide TableSectors, Add64;
      problems := 0;
      if mainHeader.backupLBA >= |disk| {
        problems := problems + 1;
      }
      var sectors := TableSectors(numParts, blockSize);
      if Add64(mainHeader.partitionEntriesLBA, sectors) > mainHeader.firstUsableLBA {
        problems := problems + 1;
      }
      if mainHeader.partitionEntriesLBA < 2 {
        problems := problems + 1;
      }
      if Add64(secondHeader.partitionEntriesLBA, sectors) > secondHeader.currentLBA {
        problems := problems + 1;
      }
      if mainHeader.lastUsableLBA >= |disk| || mainHeader.lastUsableLBA > mainHeader.backupLBA {
        problems := problems + 1;
      }
    }

    /** The GPT side of Verify: how many problems there are. */
    method Verify() returns (problems: nat)
      requires |partitions| == numParts && mainHeader.firstUsableLBA < TWO64
      modifies `mainHeader
      ensures problems == 0 <==> GptLayout.VerifyFindsNothing(old(Value()), |disk|, blockSize)
      ensures mainHeader == old(mainHeader).(currentLBA := 1)
    {
      hide TableSectors, GptLayout.NoOverlaps, GptLayout.Sane, GptLayout.InUsableRange, Sub64, Add64;
      var checksums := VerifyChecksums();
      var mismatches := VerifyMatches();
      var misplaced := VerifyPlaces();
      var overlaps := FindOverlaps();
      var insane := FindInsanePartitions();
      var outside := CheckGPTSize();
      SameRange(Value(), old(Value()));
      problems := checksums + mismatches + misplaced + overlaps + insane + outside;
    }

    /** makeEmptyPartition, with a new table: on every large enough disk, whatever it held, the table
        in memory and, loaded again, the one on the disk have exactly one partition, from the first
        aligned usable sector to the last usable one, and Verify finds no problem in either. */
    method MakeEmptyPartition(diskGuid: nat, defaultKind: nat, kind: nat, guid: nat, name: nat, boot: Sector)
      returns (ok: bool)
      requires GptLayout.LargeEnough(|disk|, blockSize) && blockSize <= DEFAULT_ALIGNMENT * 512 && |boot| == blockSize
      requires mainHeader.headerCRC < TWO32 && mainHeader.partitionEntriesCRC < TWO32 && diskGuid < Power256(16)
      requires 0 < kind < Power256(16) && defaultKind != 0 && guid < Power256(16) && name < Power256(72)
      requires life >= 2 * TableSectors(GptLayout.DefaultEntries(blockSize), blockSize) + 3
      modifies this
      ensures ok && OnePartition(Value(), sectorAlignment, kind, guid, name)
      ensures GptLifecycle.LoadsBack(disk, partitions, blockSize)
    {
      hide GptLayout.LargeEnough, GptLayout.Cleared, TableSectors, GptLayout.DefaultEntries, Power256,
           GptStore.RecomputeCRCs, Apply, Take,
           GptLayout.Written, GptLayout.Accepted, GptLayout.Relocated, GptLayout.VerifyFindsNothing,
           GptLifecycle.LoadsBack, HeaderFits, PartFits;
      ClearGPTData(diskGuid);
      ghost var g := Value();
      ClearedSize(g, |disk|, blockSize);
      PositiveAlignment(blockSize);
      GptLifecycle.ClearedFits(g, |disk|, blockSize);
      ClearDisk(defaultKind, kind, guid, name);
      ghost var p := partitions[0];
      AlignedFits(g, |disk|, blockSize, sectorAlignment, p);
      var answers := GptLayout.Answers(true, true, true);
      GptLifecycle.Formatting(disk, g, p, answers, boot, life, blockSize);
      assert Value() == g.(parts := g.parts[0 := p]);
      var saved := SaveGPTData(true, answers, false, boot);
      var problems := Verify();
      ok := problems == 0;
    }

    /** The alignment the partitions already have: the greatest power of two, up to one
        mebibyte, that divides every used first sector; one mebibyte if nothing is used; never
        below 8 sectors on large disks. */
    method ComputeAlignment() returns (alignment: nat)
      requires |partitions| == numParts && blockSize <= DEFAULT_ALIGNMENT * 512
      modifies `sectorAlignment
      ensures sectorAlignment == alignment
      ensures
        var top := DEFAULT_ALIGNMENT * 512 / blockSize;
        var raw := if exists i :: 0 <= i < numParts && partitions[i].IsUsed()
          then Power2(GreatestExponent(partitions, Log2(top)))
          else top;
        alignment == if raw < 8 && |disk| >= SMALLEST_ADVANCED_FORMAT then 8 else raw
    {
      hide Power2, Log2;
      alignment := DEFAULT_ALIGNMENT * 512 / blockSize;
      var exponent := Log2(alignment);
      ghost var top := exponent;
      assert partitions[..0] == [];
      for i := 0 to numParts
        invariant exponent <= top && exponent == GreatestExponent(partitions[..i], top)
        invariant if exists j :: 0 <= j < i && partitions[j].IsUsed() then alignment == Power2(exponent)
                  else alignment == DEFAULT_ALIGNMENT * 512 / blockSize
      {
        assert partitions[..i + 1][..i] == partitions[..i];
        if partitions[i].IsUsed() {
          var found := false;
          ghost var start := exponent;
          while !found
            invariant exponent <= start
            invariant found ==> alignment == Power2(exponent) && partitions[i].firstLBA % Power2(exponent) == 0
            invariant LargestDividing(partitions[i].firstLBA, start) ==
              LargestDividing(partitions[i].firstLBA, exponent)
            decreases exponent, !found
          {
            alignment := Power2(exponent);
            if partitions[i].firstLBA % alignment == 0 {
              found := true;
            } else {
              PowerZero(partitions[i].firstLBA);
              exponent := exponent - 1;
            }
          }
        }
      }
      assert partitions[..numParts] == partitions;
      if alignment < 8 && |disk| >= SMALLEST_ADVANCED_FORMAT {
        alignment := 8;
      }
      sectorAlignment := alignment;
    }
  }

  lemma SameRange(g: Gpt, h: Gpt)
    requires g.parts == h.parts && g.main.firstUsableLBA == h.main.firstUsableLBA
    requires g.main.lastUsableLBA == h.main.lastUsableLBA
    ensures GptLayout.InUsableRange(g) <==> GptLayout.InUsableRange(h)
  {}

  /** The table holds one partition, from the first aligned usable sector to the last usable one. */
  ghost predicate OnePartition(g: Gpt, alignment: nat, kind: nat, guid: nat, name: nat) {
    && |g.parts| == g.numParts > 0 && alignment > 0
    && var t := Space(Blanks(g.numParts), g.main.firstUsableLBA, g.main.lastUsableLBA);
       g.parts == Blanks(g.numParts)[0 := Part(kind, guid, Allocator.AlignSector(t, t.lo, alignment), t.hi, 0, name)]
  }

  lemma ClearedSize(g: Gpt, diskSize: nat, blockSize: BlockSize)
    requires GptLayout.Cleared(g, diskSize, blockSize)
    ensures g.numParts == GptLayout.DefaultEntries(blockSize) > 0 && g.parts == Blanks(g.numParts)
    ensures g.main.diskGUID == g.second.diskGUID && g.main.currentLBA == 1
  {
    hide TableSectors, Sub64, Add64;
  }

  lemma PositiveAlignment(blockSize: BlockSize)
    requires blockSize <= DEFAULT_ALIGNMENT * 512
    ensures DEFAULT_ALIGNMENT * 512 / blockSize > 0
  {
    var x := DEFAULT_ALIGNMENT * 512;
    assert x == x / blockSize * blockSize + x % blockSize;
  }

  /** The aligned partition lies in the usable range and its values fit. */
  lemma AlignedFits(g: Gpt, diskSize: nat, blockSize: BlockSize, alignment: nat, p: Part)
    requires GptLayout.Cleared(g, diskSize, blockSize) && GptLayout.LargeEnough(diskSize, blockSize) && alignment > 0
    requires
      var t := Space(g.parts, g.main.firstUsableLBA, g.main.lastUsableLBA);
      p == Part(p.partitionType, p.uniqueGUID, Allocator.AlignSector(t, t.lo, alignment), t.hi, 0, p.name)
    requires p.partitionType < Power256(16) && p.uniqueGUID < Power256(16) && p.name < Power256(72)
    ensures PartFits(p) && g.main.firstUsableLBA <= p.firstLBA <= p.lastLBA <= g.main.lastUsableLBA < TWO64
  {
    hide TableSectors, GptLayout.DefaultEntries, Power256, PartFits;
    GptLayout.ClearedArea(g, diskSize, blockSize);
    Allocator.FirstAligned(Space(g.parts, g.main.firstUsableLBA, g.main.lastUsableLBA), alignment);
    GptLifecycle.PartitionFits(p);
  }

  /** How many entries are used. */
  function UsedCount(parts: seq<Part>): nat {
    if parts == [] then 0 else UsedCount(parts[..|parts| - 1]) + if parts[|parts| - 1].IsUsed() then 1 else 0
  }

  /** A cleared table with one partition in its usable range has no problems. */
  lemma Formatted(g: Gpt, p: Part, diskSize: nat, blockSize: BlockSize)
    requires GptLayout.Cleared(g, diskSize, blockSize) && GptLayout.LargeEnough(diskSize, blockSize) && g.numParts > 0
    requires p.IsUsed() && g.main.firstUsableLBA <= p.firstLBA <= p.lastLBA <= g.main.lastUsableLBA
    ensures GptLayout.VerifyFindsNothing(g.(parts := Blanks(g.numParts)[0 := p]), diskSize, blockSize)
  {
    hide GptLayout.VerifyFindsNothing;
    GptLayout.FormattedDisk(g, p, GptLayout.Answers(false, false, false), [], diskSize, blockSize);
  }

  /** One past the last sector of any entry. */
  ghost function Horizon(parts: seq<Part>): nat {
    if parts == [] then 0
    else
      var h, l := Horizon(parts[..|parts| - 1]), parts[|parts| - 1].lastLBA + 1;
      if h < l then l else h
  }

  lemma {:induction false} HorizonBounds(parts: seq<Part>, i: nat)
    requires i < |parts|
    ensures parts[i].lastLBA < Horizon(parts)
  {
    if i < |parts| - 1 {
      HorizonBounds(parts[..|parts| - 1], i);
    }
  }

  /** The highest used entry is one of the entries. */
  lemma {:induction false} ResizeRoom(parts: seq<Part>)
    ensures parts != [] ==> HighestUsed(parts) < |parts|
    ensures parts == [] ==> HighestUsed(parts) == 0
  {
    if parts != [] {
      ResizeRoom(parts[..|parts| - 1]);
    }
  }

  function Spend(life: nat, n: nat): nat { if life < n then 0 else life - n }

  lemma TakeNothing(disk: seq<Sector>, life: nat)
    ensures Apply(disk, Take([], life)) == disk
  {}

  /** Writing one list after the other with the writes that are left is writing both. */
  lemma TakeThen(disk: seq<Sector>, a: seq<Write>, b: seq<Write>, life: nat)
    ensures Apply(Apply(disk, Take(a, life)), Take(b, Spend(life, |a|))) == Apply(disk, Take(a + b, life))
  {
    ApplyConcat(disk, Take(a, life), Take(b, Spend(life, |a|)));
    assert Take(a + b, life) == Take(a, life) + Take(b, Spend(life, |a|));
  }
}
