/** The BasicMBRData object of gdisk/basicmbr.cc: the legality checks, the arrangement of entries
    for writing, the EBR writer and the EBR reader. */
module MbrObject {
  import opened MbrTable
  import opened MbrChain
  import opened MbrLayout
  import opened MbrRepair
  import opened Rearranging

  // ---------- facts the loops need ----------

  lemma CountHead(s: seq<Part>, f: Part -> bool)
    requires s != []
    ensures Count(s, f) == Count(s[1..], f) + (if f(s[0]) then 1 else 0)
  {
    assert s[..0] + s[1..] == s[1..];
    CountRemoved(s, 0, f);
  }

  lemma CountUpdated(s: seq<Part>, i: nat, p: Part, f: Part -> bool)
    requires i < |s|
    ensures Count(s[i := p], f) + (if f(s[i]) then 1 else 0) == Count(s, f) + (if f(p) then 1 else 0)
  {
    CountRemoved(s, i, f);
    CountRemoved(s[i := p], i, f);
    assert s[i := p][..i] + s[i := p][i + 1..] == s[..i] + s[i + 1..];
  }

  function Swap(s: seq<Part>, i: nat, j: nat): (r: seq<Part>)
    requires i < |s| && j < |s|
    ensures multiset(r) == multiset(s) && |r| == |s|
  {
    s[i := s[j]][j := s[i]]
  }

  lemma {:induction false} UsedAsDecided(t: seq<Part>, sector: nat, diskSize: nat, n: nat, m: nat)
    requires n <= m <= |t| && UsedAs(t, sector, diskSize, n) !in {Unused, Ebr}
    ensures UsedAs(t, sector, diskSize, m) == UsedAs(t, sector, diskSize, n)
    decreases m
  {
    if n < m {
      UsedAsDecided(t, sector, diskSize, n, m - 1);
    }
  }

  lemma CountPrefix(s: seq<Part>, i: nat, f: Part -> bool)
    requires i < |s|
    ensures Count(s[..i + 1], f) == Count(s[..i], f) + (if f(s[i]) then 1 else 0)
  {
    assert s[..i + 1][..i] == s[..i];
  }

  predicate HasEE(t: seq<Part>) { exists i :: 0 <= i < |t| && t[i].kind == 0xEE }

  /** The first i slots are clear, and there is room for what the others up to the fourth hold. */
  ghost predicate Cleared(t: seq<Part>, i: nat)
    requires i <= 4 <= |t|
  {
    (forall k :: 0 <= k < i ==> !Displaced(t[k])) && Count(t[i..4], Displaced) <= Count(t[4..], Vacant)
  }

  /** The first four slots hold primaries or nothing, the others before i no primary. */
  ghost predicate Placed(t: seq<Part>, i: nat)
    requires 4 <= i <= |t|
  {
    (forall k :: 0 <= k < 4 ==> !Displaced(t[k])) && forall k :: 4 <= k < i ==> t[k].role != Primary
  }

  lemma PlacedNext(t: seq<Part>, i: nat)
    requires 4 <= i < |t| && Placed(t, i) && t[i].role != Primary
    ensures Placed(t, i + 1)
  {}

  lemma PlacedSwap(t: seq<Part>, i: nat, j: nat)
    requires j < 4 <= i < |t| && Placed(t, i) && t[i].role == Primary && t[j].role != Primary
    ensures Placed(Swap(t, j, i), i + 1)
  {}

  lemma ClearedStart(t: seq<Part>, u: seq<Part>)
    requires |t| >= 4 && |u| >= 4
    ensures Roomy(t) ==> Cleared(t, 0)
    ensures Cleared(u, 4) ==> forall i :: 0 <= i < 4 ==> !Displaced(u[i])
  {
    assert t[0..4] == t[..4];
  }

  lemma ClearedNext(t: seq<Part>, i: nat)
    requires i < 4 <= |t| && Cleared(t, i)
    ensures !Displaced(t[i]) ==> Cleared(t, i + 1)
    ensures Displaced(t[i]) ==> exists j :: 4 <= j < |t| && Vacant(t[j])
  {
    hide Count;
    CountHead(t[i..4], Displaced);
    assert t[i..4][1..] == t[i + 1..4];
    CountPositive(t[4..], Vacant);
    if Displaced(t[i]) {
      var j :| 0 <= j < |t[4..]| && Vacant(t[4..][j]);
      assert Vacant(t[j + 4]);
    }
  }

  lemma ClearedSwap(t: seq<Part>, i: nat, j: nat)
    requires i < 4 <= j < |t| && Cleared(t, i) && Displaced(t[i]) && Vacant(t[j])
    ensures Cleared(Swap(t, i, j), i + 1)
  {
    hide Count;
    CountHead(t[i..4], Displaced);
    assert t[i..4][1..] == t[i + 1..4];
    CountUpdated(t[4..], j - 4, t[i], Vacant);
    var u := Swap(t, i, j);
    assert u[4..] == t[4..][j - 4 := t[i]];
    assert u[i + 1..4] == t[i + 1..4];
  }

  class BasicMbrData {
    var disk: seq<Sector>
    var diskSize: nat
    var signature: nat
    var partitions: seq<Part>
    // Per entry, what UpdateCanBeLogical last found out.
    var canBeLogical: seq<bool>
    var canBePrimary: seq<bool>

    // ---------- queries ----------

    method SectorUsedAs(sector: nat) returns (usedAs: Usage)
      requires |partitions| == MAX_MBR_PARTS
      ensures usedAs == UsedAs(partitions, sector, diskSize, MAX_MBR_PARTS)
    {
      var i := 0;
      usedAs := Unused;
      while i < MAX_MBR_PARTS && (usedAs == Unused || usedAs == Ebr)
        invariant i <= MAX_MBR_PARTS && usedAs == UsedAs(partitions, sector, diskSize, i)
      {
        if partitions[i].first <= sector && partitions[i].Last() >= sector {
          usedAs := AsUsage(partitions[i].role);
        }
        if partitions[i].first == sector + 1 && partitions[i].role == Logical {
          usedAs := Ebr;
        }
        if sector == 0 {
          usedAs := Ebr;
        }
        if sector >= diskSize {
          usedAs := Invalid;
        }
        i := i + 1;
      }
      if i < MAX_MBR_PARTS {
        UsedAsDecided(partitions, sector, diskSize, i, MAX_MBR_PARTS);
      }
    }

    method FindOverlaps() returns (problems: nat)
      ensures problems == 0 <==> NoOverlaps(partitions)
    {
      problems := 0;
      for i := 0 to |partitions|
        invariant problems == 0 <==>
          forall a, b :: 0 <= a < i && a < b < |partitions| ==> Compatible(partitions[a], partitions[b])
      {
        for j := i + 1 to |partitions|
          invariant problems == 0 <==>
            && (forall a, b :: 0 <= a < i && a < b < |partitions| ==> Compatible(partitions[a], partitions[b]))
            && (forall b :: i < b < j ==> Compatible(partitions[i], partitions[b]))
        {
          if partitions[i].Included() && partitions[j].Included() && Overlap(partitions[i], partitions[j]) {
            problems := problems + 1;
          }
        }
      }
    }

    method CountPrimaries() returns (n: nat)
      ensures n == NumPrimaries(partitions)
    {
      n := 0;
      var logicals := 0;
      for i := 0 to |partitions|
        invariant n == Count(partitions[..i], isPrimary)
        invariant logicals == if HasLogical(partitions[..i]) then 1 else 0
      {
        CountPrefix(partitions, i, isPrimary);
        assert partitions[..i + 1] == partitions[..i] + [partitions[i]];
        assert HasLogical(partitions[..i + 1]) <==>
          HasLogical(partitions[..i]) || (partitions[i].length > 0 && partitions[i].role == Logical) by {
          if HasLogical(partitions[..i]) {
            var j :| 0 <= j < i && partitions[..i][j].length > 0 && partitions[..i][j].role == Logical;
            assert partitions[..i + 1][j] == partitions[..i][j];
          }
          assert partitions[..i + 1][i] == partitions[i];
        }
        if partitions[i].length > 0 {
          if partitions[i].role == Primary {
            n := n + 1;
          }
          if partitions[i].role == Logical {
            logicals := 1;
          }
        }
      }
      assert partitions[..|partitions|] == partitions;
      n := n + logicals;
    }

    method NumLogicals() returns (n: nat)
      ensures n == Count(partitions, isLogical)
      ensures n > 0 <==> exists i :: 0 <= i < |partitions| && partitions[i].role == Logical
    {
      n := 0;
      for i := 0 to |partitions|
        invariant n == Count(partitions[..i], isLogical)
        invariant n > 0 <==> exists j :: 0 <= j < i && partitions[j].role == Logical
      {
        CountPrefix(partitions, i, isLogical);
        if partitions[i].role == Logical {
          n := n + 1;
        }
      }
      assert partitions[..|partitions|] == partitions;
    }

    method FirstLogicalLBA() returns (first: nat)
      ensures first == FirstLogical(partitions)
    {
      first := UINT32_MAX;
      for i := 0 to |partitions|
        invariant first == FirstLogical(partitions[..i])
      {
        assert partitions[..i + 1][..i] == partitions[..i];
        if partitions[i].role == Logical && partitions[i].first < first {
          first := partitions[i].first;
        }
      }
      assert partitions[..|partitions|] == partitions;
    }

    method LastLogicalLBA() returns (last: nat)
      ensures last == LastLogical(partitions)
    {
      last := 0;
      for i := 0 to |partitions|
        invariant last == LastLogical(partitions[..i])
      {
        assert partitions[..i + 1][..i] == partitions[..i];
        if partitions[i].role == Logical && partitions[i].Last() > last {
          last := partitions[i].Last();
        }
      }
      assert partitions[..|partitions|] == partitions;
    }

    method AreLogicalsContiguous() returns (ok: bool)
      ensures ok <==> LogicalsContiguous(partitions)
    {
      ok := true;
      var first := FirstLogicalLBA();
      var last := LastLogicalLBA();
      var ebr := (first - 1) % TWO64;
      if last > 0 {
        var i := 0;
        while i < |partitions| && ok
          invariant i <= |partitions|
          invariant ok <==> forall j :: 0 <= j < i && partitions[j].role == Primary ==>
            !(ebr <= partitions[j].first <= last)
        {
          if partitions[i].role == Primary && partitions[i].first >= ebr && partitions[i].first <= last {
            ok := false;
          }
          i := i + 1;
        }
      }
    }

    method DoTheyFit() returns (ok: bool)
      ensures ok <==> AllFit(partitions, diskSize)
    {
      ok := true;
      for i := 0 to |partitions|
        invariant ok <==> forall j :: 0 <= j < i ==> partitions[j].first <= diskSize && partitions[j].Last() <= diskSize
      {
        if partitions[i].first > diskSize || partitions[i].Last() > diskSize {
          ok := false;
        }
      }
    }

    method SpaceBeforeAllLogicals() returns (ok: bool)
      requires |partitions| == MAX_MBR_PARTS
      ensures ok <==> SpaceBeforeLogicals(partitions, diskSize)
    {
      var i := 0;
      ok := true;
      while ok && i < MAX_MBR_PARTS
        invariant i <= MAX_MBR_PARTS
        invariant ok <==> forall j :: 0 <= j < i && partitions[j].first > 0 && partitions[j].role == Logical ==>
                            UsedAs(partitions, partitions[j].first - 1, diskSize, |partitions|) == Ebr
      {
        if partitions[i].first > 0 && partitions[i].role == Logical {
          var usedAs := SectorUsedAs(partitions[i].first - 1);
          ok := ok && usedAs == Ebr;
        }
        i := i + 1;
      }
    }

    method IsLegal() returns (ok: bool)
      requires |partitions| == MAX_MBR_PARTS
      ensures ok <==> Legal(partitions, diskSize)
    {
      var overlaps := FindOverlaps();
      var primaries := CountPrimaries();
      var contiguous := AreLogicalsContiguous();
      var fit := DoTheyFit();
      var space := SpaceBeforeAllLogicals();
      ok := overlaps == 0 && primaries <= 4 && contiguous && fit && space;
    }

    /** The next included entry from start on, -1 if there is none. */
    method FindNextInUse(start: nat) returns (next: int)
      requires |partitions| == MAX_MBR_PARTS
      ensures next == -1 ==> forall i :: start <= i < MAX_MBR_PARTS ==> !partitions[i].Included()
      ensures next != -1 ==>
        start <= next < MAX_MBR_PARTS && partitions[next].Included() && forall i :: start <= i < next ==>
          !partitions[i].Included()
    {
      if start >= MAX_MBR_PARTS {
        return -1;
      }
      next := start;
      while next < MAX_MBR_PARTS && !partitions[next].Included()
        invariant start <= next <= MAX_MBR_PARTS && forall i :: start <= i < next ==> !partitions[i].Included()
      {
        next := next + 1;
      }
      if next >= MAX_MBR_PARTS {
        next := -1;
      }
    }

    // ---------- arranging the entries ----------

    /** Moves what is not primary out of the first four slots, as far as there is room. */
    method RemoveLogicalsFromFirstFour()
      requires |partitions| == MAX_MBR_PARTS
      modifies `partitions
      ensures |partitions| == MAX_MBR_PARTS && multiset(partitions) == multiset(old(partitions))
      ensures Roomy(old(partitions)) ==> forall i :: 0 <= i < 4 ==> !Displaced(partitions[i])
    {
      hide Count, Cleared;
      ghost var room := Cleared(partitions, 0);
      for i := 0 to 4
        invariant |partitions| == MAX_MBR_PARTS && multiset(partitions) == multiset(old(partitions))
        invariant room ==> Cleared(partitions, i)
      {
        ghost var before := partitions;
        if room {
          ClearedNext(before, i);
        }
        if partitions[i].role != Primary && partitions[i].length > 0 {
          var j := 4;
          var swapped := false;
          while j < MAX_MBR_PARTS && !swapped
            invariant 4 <= j <= MAX_MBR_PARTS
            invariant !swapped ==> partitions == before && forall k :: 4 <= k < j ==> !Vacant(before[k])
            invariant swapped ==> 4 < j && Vacant(before[j - 1]) && partitions == Swap(before, i, j - 1)
          {
            if partitions[j].role == Omitted && partitions[j].length == 0 {
              partitions := Swap(partitions, i, j);
              swapped := true;
            }
            j := j + 1;
          }
          if room {
            ClearedSwap(before, i, j - 1);
          }
        }
      }
      ClearedStart(old(partitions), partitions);
    }

    /** Moves primaries into the first four slots. */
    method MovePrimariesToFirstFour()
      requires |partitions| == MAX_MBR_PARTS
      modifies `partitions
      ensures |partitions| == MAX_MBR_PARTS && multiset(partitions) == multiset(old(partitions))
      ensures Tidy(old(partitions)) && Count(old(partitions), isPrimary) <= 4 && Placed(old(partitions), 4) ==>
        Placed(partitions, MAX_MBR_PARTS)
    {
      hide Count, Placed, TidyPart;
      ghost var sound := Tidy(partitions) && Count(partitions, isPrimary) <= 4 && Placed(partitions, 4);
      for i := 4 to MAX_MBR_PARTS
        invariant |partitions| == MAX_MBR_PARTS && multiset(partitions) == multiset(old(partitions))
        invariant sound ==> Placed(partitions, i)
      {
        ghost var before := partitions;
        if partitions[i].role == Primary {
          if sound {
            FifthPrimary(old(partitions), before, i);
          }
          var j := 0;
          var swapped := false;
          while j < 4 && !swapped
            invariant 0 <= j <= 4
            invariant !swapped ==> partitions == before && forall k :: 0 <= k < j ==> before[k].role == Primary
            invariant swapped ==> 0 < j && before[j - 1].role != Primary && partitions == Swap(before, j - 1, i)
          {
            if partitions[j].role != Primary {
              partitions := Swap(partitions, j, i);
              swapped := true;
            }
            j := j + 1;
          }
          if sound {
            PlacedSwap(before, i, j - 1);
          }
        } else if sound {
          PlacedNext(before, i);
        }
      }
    }

    /** std::sort on the entries from start on, on which operator< must be a proper order. */
    method SortMBR(start: nat)
      requires |partitions| == MAX_MBR_PARTS && start < MAX_MBR_PARTS && All(partitions[start..], Sortable)
      modifies `partitions
      ensures |partitions| == MAX_MBR_PARTS && multiset(partitions) == multiset(old(partitions))
      ensures partitions[..start] == old(partitions)[..start]
      ensures multiset(partitions[start..]) == multiset(old(partitions)[start..])
      ensures Ordered(partitions[start..], Precedes)
    {
      hide Orders;
      PrecedesOrders();
      var tail := partitions[start..];
      var sorted: seq<Part> := [];
      for i := 0 to |tail|
        invariant Ordered(sorted, Precedes) && multiset(sorted) == multiset(tail[..i]) && All(sorted, Sortable)
      {
        assert tail[..i + 1] == tail[..i] + [tail[i]];
        sorted := Insert(sorted, tail[i], Precedes, Sortable);
      }
      assert tail[..|tail|] == tail;
      assert |multiset(sorted)| == |multiset(tail)|;
      assert partitions == partitions[..start] + tail;
      partitions := partitions[..start] + sorted;
    }

    /** The moves of CreateExtended on a legal table, up to and including the sort. */
    method Arrange() returns (logicals: nat)
      requires Tidy(partitions) && Roomy(partitions) && Legal(partitions, diskSize)
      modifies `partitions
      ensures multiset(partitions) == multiset(old(partitions)) && Arranged(partitions)
      ensures logicals > 0 <==> HasLogical(old(partitions))
    {
      hide Legal, Count, Ordered, FirstLogical, LastLogical;
      ghost var t := partitions;
      RemoveLogicalsFromFirstFour();
      TidyRearranged(t, partitions);
      FewPrimaries(t, partitions, diskSize);
      MovePrimariesToFirstFour();
      TidyRearranged(t, partitions);
      SpanRearranged(t, partitions);
      logicals := NumLogicals();
      if logicals > 0 {
        ghost var u := partitions;
        TailSortable(u);
        SortMBR(4);
        SortedTail(u, partitions);
      }
    }

    /** Puts the extended partition into the first slot that is not in use. */
    method AddExtended(ghost t: seq<Part>) returns (swapped: bool, ghost k: nat)
      requires Tidy(t) && Legal(t, diskSize) && HasLogical(t) && multiset(partitions) == multiset(t)
      requires Arranged(partitions)
      modifies `partitions
      ensures swapped && Spare(old(partitions), k) && partitions == old(partitions)[k := Extended(old(partitions))]
    {
      hide Legal, Ordered, FirstLogical, LastLogical;
      ghost var u := partitions;
      SpareSlot(t, u, diskSize);
      var first := FirstLogicalLBA();
      var last := LastLogicalLBA();
      var temp := Part(0, 0x0f, (first - 1) % TWO32, (last - first + 2) % TWO32, Primary);
      swapped, k := false, 0;
      var i := 0;
      while i < 4 && !swapped
        invariant 0 <= i <= 4
        invariant !swapped ==> partitions == u && forall j :: 0 <= j < i ==> u[j].length != 0
        invariant swapped ==> 0 < i && k == i - 1 && u[k].length == 0 && partitions == u[k := temp]
      {
        if partitions[i].role == Omitted || partitions[i].length == 0 {
          k := i;
          partitions := partitions[i := temp];
          swapped := true;
        }
        i := i + 1;
      }
    }

    /** Arranges a legal table for writing and adds the extended partition if there are logicals;
        fails exactly on an illegal table, or if there are logicals and a 0xEE entry. */
    method CreateExtended() returns (ok: bool, ghost u: seq<Part>, ghost k: nat)
      requires Tidy(partitions) && Roomy(partitions)
      modifies `partitions
      ensures |partitions| == MAX_MBR_PARTS
      ensures !Legal(old(partitions), diskSize) ==> partitions == old(partitions)
      ensures ok <==> Legal(old(partitions), diskSize) && !(HasLogical(old(partitions)) && HasEE(partitions))
      ensures Legal(old(partitions), diskSize) ==>
        && multiset(u) == multiset(old(partitions)) && Arranged(u)
        && (if HasLogical(old(partitions)) then Spare(u, k) && partitions == u[k := Extended(u)] else partitions == u)
    {
      hide Legal, Arranged, FirstLogical, LastLogical, Extended, HasLogical, TidyPart, Roomy;
      u, k := partitions, 0;
      var swapped := false;
      ok := IsLegal();
      ghost var legal := ok;
      if ok {
        var logicals := Arrange();
        SizeRearranged(old(partitions), partitions);
        u := partitions;
        if logicals > 0 {
          swapped, k := AddExtended(old(partitions));
          if !swapped {
            ok := false;
          }
        }
      }
      for i := 0 to MAX_MBR_PARTS
        invariant ok <==> legal && !(swapped && exists j :: 0 <= j < i && partitions[j].kind == 0xEE)
      {
        if swapped && partitions[i].kind == 0xEE {
          ok := false;
        }
      }
    }

    // ---------- writing ----------

    method WriteSector(content: Sector, at: nat) returns (ok: bool)
      modifies `disk
      ensures ok <==> at < |old(disk)|
      ensures disk == if ok then old(disk)[at := content] else old(disk)
    {
      ok := at < |disk|;
      if ok {
        disk := disk[at := content];
      }
    }

    /** One EBR of WriteMBRData: the logical itself, and a link to the next one if there is one. */
    method FillEbr(records: Quad, partNum: nat, next: int, ext: nat) returns (ebr: Quad, more: bool)
      requires partNum < |partitions| == MAX_MBR_PARTS && (next == -1 || 0 < next < MAX_MBR_PARTS)
      ensures ebr[0] == Store(partitions[partNum]).(first := 1) && ebr[2] == records[2] && ebr[3] == records[3]
      ensures more <==> next != -1 && partitions[next].first > 0
      ensures ebr[1].first == if more then (partitions[next].first - ext - 1) % TWO32 else 0
      ensures ebr[1].kind == (if more then 0x0f else 0) && ebr[1].status == records[1].status
      ensures ebr[1].length == if more then (partitions[next].length + 1) % TWO32 else 0
    {
      ebr := records[0 := Store(partitions[partNum]).(first := 1)];
      if 0 < next < MAX_MBR_PARTS && partitions[next].first > 0 {
        ebr := ebr[1 := Record(ebr[1].status, 0x0f, (partitions[next].first - ext - 1) % TWO32,
                         (partitions[next].length + 1) % TWO32)];
        more := true;
      } else {
        ebr := ebr[1 := Record(ebr[1].status, 0, 0, 0)];
        more := false;
      }
    }

    /** The loop of WriteMBRData that writes one EBR before each logical partition. */
    method WriteChain(main: Quad, ext: nat, ghost l: seq<Part>) returns (ok: bool)
      requires |partitions| == MAX_MBR_PARTS && (forall i :: 4 <= i < MAX_MBR_PARTS ==> partitions[i].role != Primary)
      requires l == Logicals(partitions[4..]) && Chainable(l) && l != [] && ext == l[0].first - 1
      requires main[2].kind == 0 && main[3].kind == 0
      modifies `disk
      ensures OnlyEbrs(disk, old(disk), l)
      ensures ok ==>
        && ext < |disk| && (signature == MBR_SIGNATURE ==> Chained(disk, ext, l)) && AllTyped(disk, l)
        && (if ext > 0 then disk[0] == old(disk)[0] else disk[0].records[2].kind == 0 && disk[0].records[3].kind == 0)
      ensures (forall i :: 0 <= i < |l| ==> l[i].first - 1 < |disk|) ==> ok
    {
      hide Logicals, ChainWritten, Chainable, OnlyEbrs, AllTyped, Chained;
      ok := true;
      var records := main;
      ghost var s := partitions[4..];
      var partNum := FindNextInUse(4);
      FirstInUse(partitions, partNum);
      NothingWritten(disk, ext, l, signature);
      var writeTo, more := ext, true;
      ghost var j := 0;
      while ok && more && 0 <= partNum < MAX_MBR_PARTS
        invariant OnlyEbrs(disk, old(disk), l) && records[2].kind == 0 && records[3].kind == 0
        invariant ok && more ==>
          && j < |l| && 4 <= partNum < MAX_MBR_PARTS && partitions[partNum].role == Logical
          && |Logicals(s[..partNum - 4])| == j && writeTo == l[j].first - 1
        invariant ok && !more ==> j == |l|
        invariant 0 <= j <= |l|
        invariant ok ==> ChainWritten(disk, old(disk), ext, l, j, signature)
        invariant !ok ==> exists i :: 0 <= i < |l| && l[i].first - 1 >= |disk|
        decreases |l| - j, ok
      {
        LogicalsAt(s, partNum - 4);
        ChainStarts(l);
        assert partitions[partNum] == l[j];
        var next := FindNextInUse(partNum + 1);
        FollowingInUse(partitions, partNum, next);
        records, more := FillEbr(records, partNum, next, ext);
        ghost var before := disk;
        ok := WriteSector(Sector(records, signature), writeTo);
        writeTo := records[1].first + ext;
        partNum := next;
        if ok {
          LinkWritten(old(disk), before, disk, ext, l, j, Sector(records, signature));
          j := j + 1;
        }
      }
      if ok {
        ChainComplete(disk, old(disk), ext, l, signature);
      }
    }

    /** Blanks every entry with an extended type. */
    method DeleteExtendedParts()
      modifies `partitions
      ensures Pruned(partitions, old(partitions))
    {
      for i := 0 to |partitions|
        invariant |partitions| == |old(partitions)|
        invariant forall j :: 0 <= j < i ==>
          var p := old(partitions)[j]; partitions[j] == if IsExtended(p.kind) && p.length > 0 then BLANK else p
        invariant forall j :: i <= j < |partitions| ==> partitions[j] == old(partitions)[j]
      {
        if IsExtended(partitions[i].kind) && partitions[i].length > 0 {
          partitions := partitions[i := BLANK];
        }
      }
    }

    /** WriteMBRData: an illegal table is refused and nothing is written.  A legal one is written
        without touching a sector of any included partition, whether or not writing succeeds, and reads
        back as the same partitions if and only if no EBR falls on the boot record.  What is written is
        the arranged table u, with the extended partition in slot k and the chain of EBRs.  The table in
        memory keeps the same included partitions, unless the length of the extended partition is cut to
        0, in which case it is left behind. */
    method WriteMBRData() returns (ok: bool, ghost u: seq<Part>, ghost k: nat)
      requires Tidy(partitions) && Roomy(partitions)
      modifies `partitions, `disk
      ensures |partitions| == MAX_MBR_PARTS && |disk| == |old(disk)|
      ensures !Legal(old(partitions), diskSize) ==> !ok && disk == old(disk)
      ensures DataKept(disk, old(disk), old(partitions))
      ensures ok && signature == MBR_SIGNATURE ==>
        && |u| == MAX_MBR_PARTS && multiset(u) == multiset(old(partitions)) && Arranged(u)
        && Written(disk, u, k) && AllTyped(disk, Logicals(u[4..]))
      ensures ok && signature == MBR_SIGNATURE ==>
        (RoundTrips(disk, old(partitions)) <==> EbrsAfterMbr(old(partitions)))
      ensures Legal(old(partitions), diskSize) && 0 < diskSize <= |disk| ==>
        ok || (HasLogical(old(partitions)) && HasEE(old(partitions)))
      ensures SameIncluded(partitions, old(partitions)) <==>
        !(Legal(old(partitions), diskSize) && HasLogical(old(partitions)) && CutToNothing(old(partitions)))
    {
      hide SameIncluded, CutToNothing, Legal, Arranged, Extended, HasLogical, Logicals, Written, RoundTrips,
           HasEE, NoOverlaps, Chained, EbrsAfterMbr, TidyPart, Roomy, Chainable, OnlyEbrs, AllTyped;
      ghost var t := partitions;
      ok, u, k := CreateExtended();
      ghost var v := partitions;
      if Legal(t, diskSize) {
        ReadyToWrite(t, u, k, v, diskSize);
      }
      var ext, more := 0, false;
      var records: Quad := [Record(0, 0, 0, 0), Record(0, 0, 0, 0), Record(0, 0, 0, 0), Record(0, 0, 0, 0)];
      if ok {
        for i := 0 to 4
          invariant forall j :: 0 <= j < i ==> records[j] == Store(partitions[j])
          invariant more <==> exists j :: 0 <= j < i && partitions[j].kind == 0x0f
          invariant more ==> exists j :: 0 <= j < i && partitions[j].kind == 0x0f && ext == partitions[j].first
        {
          records := records[i := Store(partitions[i])];
          if partitions[i].kind == 0x0f {
            ext := partitions[i].first;
            more := true;
          }
        }
        ok := WriteSector(Sector(records, signature), 0);
      }
      ghost var main := disk;
      records := records[2 := Record(records[2].status, 0, 0, 0)][3 := Record(records[3].status, 0, 0, 0)];
      NoEbrs(disk, Logicals(v[4..]));
      NoneTyped(disk);
      if ok && more {
        ok := WriteChain(records, ext, Logicals(partitions[4..]));
      }
      if Legal(t, diskSize) {
        SparesData(t, u, diskSize, old(disk), main, disk);
      }
      if ok && signature == MBR_SIGNATURE {
        AllWritten(disk, main, t, u, k, v);
        RoundTripExact(disk, t, u, k);
      }
      DeleteExtendedParts();
      if Legal(t, diskSize) {
        KeptInMemory(t, u, k, v, partitions);
      } else {
        PrunedSame(t, t, partitions);
        SameInRearranged(partitions, t, t);
      }
    }

    // ---------- reading ----------

    /** How often the loop guard of ReadLogicalParts fires for a place. */
    method CountHits(seen: seq<nat>, offset: nat) returns (hits: nat)
      ensures hits == Hits(seen, offset)
    {
      hits := 0;
      for i := 0 to |seen|
        invariant hits + Hits(seen[i..], offset) == Hits(seen, offset)
      {
        HitsHead(seen[i..], offset);
        assert seen[i..][1..] == seen[i + 1..];
        if seen[i] == offset {
          hits := hits + 1;
        }
      }
    }

    /** ReadLogicalParts, on a disk where following the links comes to an end. */
    method ReadLogicalParts(ext: nat, start: nat, ghost fuel: nat) returns (result: int)
      requires |partitions| == MAX_MBR_PARTS && !Walk(disk, ext, Begin(partitions, start, ext), fuel).Running()
      modifies `partitions
      ensures var e := Walk(disk, ext, Begin(old(partitions), start, ext), fuel);
        partitions == e.parts && result == Outcome(e)
      ensures |partitions| == MAX_MBR_PARTS
    {
      hide Hits, Walk, IsExtended, Load;
      var partNum: int := start;
      var offset: nat, another, ok := ext, true, true;
      var seen: seq<nat> := Zeros(MAX_MBR_PARTS);
      ghost var rounds := fuel;
      ghost var e := Walk(disk, ext, Begin(partitions, start, ext), fuel);
      while another && 0 <= partNum < MAX_MBR_PARTS && ok
        invariant |partitions| == |seen| == MAX_MBR_PARTS
        invariant Walk(disk, ext, Reader(partitions, partNum, offset, seen, another, ok), rounds) == e
        decreases rounds
      {
        ghost var r := Reader(partitions, partNum, offset, seen, another, ok);
        var hits := CountHits(seen, offset);
        if hits > 0 {
          ok := false;
          partNum := partNum - hits;
        }
        if 0 <= partNum < MAX_MBR_PARTS {
          seen := seen[partNum := offset];
        }
        if offset >= |disk| {
          ok := false;
        } else if disk[offset].signature != MBR_SIGNATURE {
          ok := false;
        }
        if 0 <= partNum < MAX_MBR_PARTS && ok {
          var ebr := disk[offset].records;
          if IsExtended(ebr[0].kind) {
            offset := ext + ebr[0].first;
          } else {
            partitions := partitions[partNum := Load(ebr[0])];
            partitions := partitions[partNum := partitions[partNum].(first := (ebr[0].first + offset) % TWO32)];
            partitions := partitions[partNum := partitions[partNum].(role := Logical)];
            if ebr[1].first != 0 && partNum < MAX_MBR_PARTS - 1 {
              offset := ext + ebr[1].first;
              partNum := partNum + 1;
            } else {
              another := false;
            }
          }
        }
        RoundOf(disk, ext, r, Reader(partitions, partNum, offset, seen, another, ok), rounds);
        rounds := rounds - 1;
      }
      WalkEnded(disk, ext, Reader(partitions, partNum, offset, seen, another, ok), rounds);
      result := if ok then partNum else -partNum;
    }

    /** ReadMBRData, on a disk where following the links comes to an end: the four entries of the
        boot record, with each extended one replaced by what its chain holds. */
    method ReadMBRData(ghost fuel: nat) returns (ok: bool)
      requires Signed(disk) ==> Ends(disk, Primaries(disk), 3, 0, fuel)
      modifies `partitions, `diskSize, `signature
      ensures partitions == ReadTable(disk, fuel) && |partitions| == MAX_MBR_PARTS
      ensures ok <==> disk == [] || Signed(disk)
      ensures disk != [] ==> diskSize == |disk| && signature == disk[0].signature
    {
      hide Walk, Blanks;
      ok := true;
      signature := MBR_SIGNATURE;
      partitions := Blanks(MAX_MBR_PARTS);
      if disk != [] {
        for i := 0 to 4
          invariant |partitions| == MAX_MBR_PARTS && partitions[4..] == Blanks(MAX_MBR_PARTS)[4..]
          invariant forall j :: 0 <= j < i ==> partitions[j] == Load(disk[0].records[j])
        {
          partitions := partitions[i := Load(disk[0].records[i])];
          if partitions[i].length > 0 {
            partitions := partitions[i := partitions[i].(role := Primary)];
          }
        }
        assert partitions == Primaries(disk);
        signature := disk[0].signature;
        if signature != MBR_SIGNATURE {
          ok := false;
        }
        diskSize := |disk|;
        if ok {
          var logicalNum := 3;
          for i := 0 to 4
            invariant |partitions| == MAX_MBR_PARTS && diskSize == |disk| && signature == disk[0].signature
            invariant ReadExtended(disk, partitions, logicalNum, i, fuel) == ReadTable(disk, fuel)
            invariant Ends(disk, partitions, logicalNum, i, fuel)
          {
            if IsExtended(partitions[i].kind) {
              logicalNum := ReadLogicalParts(partitions[i].first, Abs(logicalNum) + 1, fuel);
              partitions := partitions[i := BLANK];
            }
          }
        }
      }
    }

    // ---------- repair ----------

    ghost predicate Sized()
      reads this
    {
      |partitions| == |canBeLogical| == |canBePrimary| == MAX_MBR_PARTS
    }

    method DeleteOversizedParts()
      modifies `partitions
      ensures |partitions| == |old(partitions)| && AllFit(partitions, diskSize)
      ensures forall i :: 0 <= i < |partitions| ==>
        partitions[i] == if Oversized(old(partitions)[i], diskSize) then BLANK else old(partitions)[i]
    {
      for i := 0 to |partitions|
        invariant |partitions| == |old(partitions)|
        invariant forall j :: 0 <= j < i ==>
          partitions[j] == if Oversized(old(partitions)[j], diskSize) then BLANK else old(partitions)[j]
        invariant forall j :: i <= j < |partitions| ==> partitions[j] == old(partitions)[j]
      {
        if Oversized(partitions[i], diskSize) {
          partitions := partitions[i := BLANK];
        }
      }
    }

    /** Whether entry i can join the logicals, from the sector before it and the primaries. */
    method CheckLogical(i: nat, firstEbr: nat, last: nat) returns (can: bool)
      requires |partitions| == MAX_MBR_PARTS && i < MAX_MBR_PARTS
      requires firstEbr == (FirstLogical(partitions) - 1) % TWO64 && last == LastLogical(partitions)
      ensures can <==> MayBeLogical(partitions, i, diskSize)
    {
      hide UsedAs, FirstLogical, LastLogical;
      var before := SectorUsedAs((partitions[i].first - 1) % TWO64);
      if last > 0 && (before == Ebr || before == Unused) {
        can := true;
        for j := 0 to MAX_MBR_PARTS
          invariant can <==> forall k :: 0 <= k < j && k != i && partitions[k].role == Primary ==>
            !(partitions[k].first < partitions[i].first && firstEbr < partitions[k].first)
            && !(partitions[k].first > partitions[i].first && firstEbr > partitions[k].first)
        {
          if i != j && partitions[j].role == Primary {
            if (partitions[j].first < partitions[i].first && firstEbr < partitions[j].first)
               || (partitions[j].first > partitions[i].first && firstEbr > partitions[j].first) {
              can := false;
            }
          }
        }
      } else if before != Ebr && before != Unused {
        can := false;
      } else {
        can := last == 0;
      }
    }

    method UpdateCanBeLogical()
      requires Sized()
      modifies `canBeLogical, `canBePrimary
      ensures Sized() && (diskSize > 0 ==> canBePrimary == PrimaryFlags(partitions, diskSize))
      ensures forall i :: 0 <= i < MAX_MBR_PARTS ==>
        if EndsOnEbr(partitions, i, diskSize) then !canBeLogical[i] && !canBePrimary[i]
        else if partitions[i].length > 0 then
          (canBeLogical[i] <==> MayBeLogical(partitions, i, diskSize))
          && (canBePrimary[i] <==> MayBePrimary(partitions, i))
        else canBeLogical[i] == old(canBeLogical)[i] && canBePrimary[i] == old(canBePrimary)[i]
    {
      hide UsedAs, FirstLogical, LastLogical, MayBeLogical, Count, NumPrimaries;
      var primaries := CountPrimaries();
      var logicals := NumLogicals();
      var first := FirstLogicalLBA();
      var firstEbr := (first - 1) % TWO64;
      var last := LastLogicalLBA();
      for i := 0 to MAX_MBR_PARTS
        invariant Sized()
        invariant forall j :: 0 <= j < i ==>
          if EndsOnEbr(partitions, j, diskSize) then !canBeLogical[j] && !canBePrimary[j]
          else if partitions[j].length > 0 then
            (canBeLogical[j] <==> MayBeLogical(partitions, j, diskSize))
            && (canBePrimary[j] <==> MayBePrimary(partitions, j))
          else canBeLogical[j] == old(canBeLogical)[j] && canBePrimary[j] == old(canBePrimary)[j]
        invariant forall j :: i <= j < MAX_MBR_PARTS ==>
          canBeLogical[j] == old(canBeLogical)[j] && canBePrimary[j] == old(canBePrimary)[j]
      {
        var usedAs := SectorUsedAs(partitions[i].Last());
        if usedAs == Ebr {
          canBeLogical := canBeLogical[i := false];
          canBePrimary := canBePrimary[i := false];
        } else if partitions[i].length > 0 {
          var can := CheckLogical(i, firstEbr, last);
          canBeLogical := canBeLogical[i := can];
          var prim := true;
          if primaries >= 4 && partitions[i].role != Primary {
            prim := false;
            if partitions[i].role == Logical && logicals == 1 && primaries == 4 {
              prim := true;
            }
          }
          if partitions[i].first > (firstEbr + 1) % TWO64 && partitions[i].Last() < last {
            prim := false;
          }
          assert (firstEbr + 1) % TWO64 == first;
          canBePrimary := canBePrimary[i := prim];
        }
      }
      if diskSize > 0 {
        forall i | 0 <= i < MAX_MBR_PARTS
          ensures canBePrimary[i] <==> PrimaryFlag(partitions, i, diskSize)
        {
          if partitions[i].length == 0 { EmptyEndsOnEbr(partitions, i, diskSize); }
        }
      }
    }

    /** Makes every entry logical if it can be, else primary if it can be; empty ones end up omitted. */
    method MaximizeLogicals()
      requires Sized()
      modifies `partitions, `canBeLogical, `canBePrimary
      ensures Sized() && Relabeled(old(partitions), partitions)
      ensures diskSize > 0 ==> EmptiesOut(partitions, canBePrimary)
      ensures diskSize > 0 ==> partitions == AfterLogicals(old(partitions), diskSize)
      ensures diskSize > 0 ==> canBePrimary == PrimaryFlags(Maximized(old(partitions), diskSize, 1), diskSize)
    {
      hide UsedAs, MayBeLogical, MayBePrimary, EndsOnEbr, NumPrimaries, PrimaryFlags;
      for i := MAX_MBR_PARTS downto 0
        invariant Sized() && Relabeled(old(partitions), partitions)
        invariant diskSize > 0 ==> partitions == Maximized(old(partitions), diskSize, i)
        invariant diskSize > 0 && i < MAX_MBR_PARTS ==>
          canBePrimary == PrimaryFlags(Maximized(old(partitions), diskSize, i + 1), diskSize)
        invariant diskSize > 0 ==> forall j :: i <= j < MAX_MBR_PARTS && partitions[j].length == 0 ==>
          partitions[j].role == Omitted
        invariant diskSize > 0 && i < MAX_MBR_PARTS ==>
          forall j :: 0 <= j < MAX_MBR_PARTS && partitions[j].length == 0 ==> !canBePrimary[j]
      {
        UpdateCanBeLogical();
        if diskSize > 0 {
          forall j | 0 <= j < MAX_MBR_PARTS && partitions[j].length == 0
            ensures EndsOnEbr(partitions, j, diskSize)
          {
            EmptyEndsOnEbr(partitions, j, diskSize);
          }
        }
        if canBeLogical[i] {
          partitions := partitions[i := partitions[i].(role := Logical)];
        } else if canBePrimary[i] {
          partitions := partitions[i := partitions[i].(role := Primary)];
        } else {
          partitions := partitions[i := partitions[i].(role := Omitted)];
        }
      }
      var primaries := CountPrimaries();
      if primaries < 4 && partitions[0].role == Logical {
        partitions := partitions[0 := partitions[0].(role := Omitted)];
      }
    }

    /** Makes omitted entries primary, as long as there are slots. */
    method MaximizePrimaries()
      requires Sized()
      modifies `partitions, `canBeLogical, `canBePrimary
      ensures Sized() && Relabeled(old(partitions), partitions)
      ensures diskSize > 0 && EmptiesOut(old(partitions), old(canBePrimary)) ==> EmptiesOut(partitions, canBePrimary)
      ensures diskSize > 0 ==>
        partitions == Fill(old(partitions), old(canBePrimary), diskSize, 0, NumPrimaries(old(partitions)))
    {
      hide PrimaryFlags, UsedAs, MayBeLogical, MayBePrimary, EndsOnEbr, NumPrimaries;
      var n := CountPrimaries();
      var i := 0;
      while n < 4 && i < MAX_MBR_PARTS
        invariant i <= MAX_MBR_PARTS
        invariant Sized() && Relabeled(old(partitions), partitions)
        invariant diskSize > 0 ==>
          Fill(partitions, canBePrimary, diskSize, i, n) ==
          Fill(old(partitions), old(canBePrimary), diskSize, 0, NumPrimaries(old(partitions)))
        invariant diskSize > 0 && EmptiesOut(old(partitions), old(canBePrimary)) ==>
          EmptiesOut(partitions, canBePrimary)
      {
        if partitions[i].role == Omitted && canBePrimary[i] {
          partitions := partitions[i := partitions[i].(role := Primary)];
          n := n + 1;
          UpdateCanBeLogical();
        }
        i := i + 1;
      }
    }

    /** Makes primaries among the logicals logical, or omits them. */
    method MakeLogicalsContiguous()
      requires |partitions| == MAX_MBR_PARTS
      modifies `partitions
      ensures Relabeled(old(partitions), partitions)
      ensures partitions == Joined(old(partitions), FirstLogical(old(partitions)), LastLogical(old(partitions)),
                                 diskSize, MAX_MBR_PARTS)
      ensures forall i :: 0 <= i < MAX_MBR_PARTS ==>
        Settled(old(partitions)[i], partitions[i], FirstLogical(old(partitions)), LastLogical(old(partitions)))
    {
      hide FirstLogical, LastLogical, UsedAs;
      var first := FirstLogicalLBA();
      var last := LastLogicalLBA();
      for i := 0 to MAX_MBR_PARTS
        invariant Relabeled(old(partitions), partitions)
        invariant partitions == Joined(old(partitions), first, last, diskSize, i)
        invariant forall j :: 0 <= j < i ==> Settled(old(partitions)[j], partitions[j], first, last)
        invariant forall j :: i <= j < MAX_MBR_PARTS ==> partitions[j] == old(partitions)[j]
      {
        if partitions[i].role == Primary && partitions[i].first >= first && partitions[i].Last() <= last {
          var before := SectorUsedAs((partitions[i].first - 1) % TWO64);
          if before == Unused {
            partitions := partitions[i := partitions[i].(role := Logical)];
          } else {
            partitions := partitions[i := partitions[i].(role := Omitted)];
          }
        }
      }
    }

    /** Omits primaries, the last ones first, until four slots are enough; an empty primary would
        be counted as one too many, and its omission as one less. */
    method TrimPrimaries()
      requires |partitions| == MAX_MBR_PARTS
      modifies `partitions
      ensures Thinned(old(partitions), partitions)
      ensures exists k :: 0 <= k <= MAX_MBR_PARTS && TrimmedFrom(old(partitions), partitions, k)
      ensures partitions == Trim(old(partitions), MAX_MBR_PARTS, NumPrimaries(old(partitions)) - 4)
      ensures NoEmptyPrimary(old(partitions)) ==>
        NumPrimaries(partitions) == if NumPrimaries(old(partitions)) > 4 then 4 else NumPrimaries(old(partitions))
    {
      hide NumPrimaries;
      var n: int := CountPrimaries();
      var excess := n - 4;
      var i := MAX_MBR_PARTS - 1;
      while excess > 0 && i >= 0
        invariant -1 <= i < MAX_MBR_PARTS && Thinned(old(partitions), partitions)
        invariant n > 4 ==> excess >= 0
        invariant n <= 4 ==> partitions == old(partitions)
        invariant NoEmptyPrimary(old(partitions)) ==> NumPrimaries(partitions) == 4 + excess
        invariant forall j :: i < j < MAX_MBR_PARTS ==> partitions[j].role != Primary || excess <= 0
        invariant forall j :: 0 <= j <= i ==> partitions[j] == old(partitions)[j]
        invariant TrimmedFrom(old(partitions), partitions, i + 1)
        invariant Trim(partitions, i + 1, excess) == Trim(old(partitions), MAX_MBR_PARTS, n - 4)
      {
        if partitions[i].role == Primary {
          if partitions[i].length > 0 {
            OnePrimaryLess(partitions, i);
          }
          partitions := partitions[i := partitions[i].(role := Omitted)];
          excess := excess - 1;
        }
        i := i - 1;
      }
      if excess > 0 {
        NoPrimaries(partitions);
      }
    }

    /** Omits the smaller of any two overlapping partitions. */
    method OmitOverlaps()
      modifies `partitions
      ensures partitions == OmitFrom(old(partitions), 0, 1)
      ensures Thinned(old(partitions), partitions) && NoOverlaps(partitions)
      ensures forall i :: 0 <= i < |partitions| && partitions[i] != old(partitions)[i] ==> Outdone(old(partitions), i)
    {
      hide Thinned, NoOverlaps, Outdone;
      OmitKeeps(partitions, 0, 1);
      for i := 0 to |partitions|
        invariant |partitions| == |old(partitions)|
        invariant OmitFrom(partitions, i, i + 1) == OmitFrom(old(partitions), 0, 1)
      {
        for j := i + 1 to |partitions|
          invariant |partitions| == |old(partitions)|
          invariant OmitFrom(partitions, i, j) == OmitFrom(old(partitions), 0, 1)
        {
          if partitions[i].Included() && Overlap(partitions[i], partitions[j]) {
            if partitions[i].length < partitions[j].length {
              partitions := partitions[i := partitions[i].(role := Omitted)];
            } else {
              partitions := partitions[j := partitions[j].(role := Omitted)];
            }
          }
        }
      }
    }

    /** MakeItLegal: leaves a legal table alone.  On a disk that is not empty, whatever the table,
        afterwards no two included partitions overlap, four primary slots are enough and every
        partition fits; entries that fitted only ever change their role.  The table is legal if no
        partition that fits covers the sector before another one. */
    method MakeItLegal()
      requires Sized()
      modifies `partitions, `canBeLogical, `canBePrimary
      ensures Sized()
      ensures Legal(old(partitions), diskSize) ==> partitions == old(partitions)
      ensures !Legal(old(partitions), diskSize) && diskSize > 0 ==> partitions == Repair(old(partitions), diskSize)
      ensures diskSize > 0 ==> NoOverlaps(partitions) && NumPrimaries(partitions) <= 4 && AllFit(partitions, diskSize)
      ensures diskSize > 0 && Gapped(Fitting(old(partitions), diskSize)) ==> Legal(partitions, diskSize)
      ensures forall i :: 0 <= i < MAX_MBR_PARTS ==>
        var p := old(partitions)[i];
        if Oversized(p, diskSize) then partitions[i] == p || partitions[i] == BLANK.(role := partitions[i].role)
        else partitions[i] == p.(role := partitions[i].role)
    {
      hide NumPrimaries, Legal, NoOverlaps, AllFit, Relabeled, Thinned, Settled, Gapped, Oversized, EmptiesOut,
           LogicalsContiguous,
           TrimmedFrom, NoEmptyPrimary, Outdone, Fill, Joined, Trim, OmitFrom, Maximized, PrimaryFlags;
      var legal := IsLegal();
      ghost var t := partitions;
      if legal {
        LegalIsRepaired(t, diskSize);
      } else {
        DeleteOversizedParts();
        assert partitions == Fitting(t, diskSize);
        ghost var kept := partitions;
        MaximizeLogicals();
        ghost var maximal := partitions;
        RelabeledSize(kept, maximal);
        MaximizePrimaries();
        ghost var filled := partitions;
        RelabeledAgain(kept, maximal, filled);
        assert diskSize > 0 ==> filled == Maximize(t, diskSize);
        var contiguous := AreLogicalsContiguous();
        if !contiguous {
          MakeLogicalsContiguous();
          RelabeledAgain(kept, filled, partitions);
        }
        ghost var settled := partitions;
        assert diskSize > 0 ==> settled == Settle(t, diskSize);
        var n := CountPrimaries();
        if n > 4 {
          TrimPrimaries();
          ThinnedRelabels(kept, settled, partitions);
        }
        ghost var trimmed := partitions;
        OmitOverlaps();
        ThinnedRelabels(kept, trimmed, partitions);
        RelabeledEach(kept, partitions);
        if diskSize > 0 {
          assert partitions == Repair(t, diskSize);
          RepairKeeps(t, diskSize);
          if Gapped(Fitting(t, diskSize)) {
            GappedIsRepaired(t, diskSize);
          }
        }
      }
    }
  }

  lemma WalkEnded(disk: seq<Sector>, ext: nat, r: Reader, fuel: nat)
    requires !r.Running()
    ensures Walk(disk, ext, r, fuel) == r
  {}

  /** One round of the method's loop is one step of the reader. */
  lemma RoundOf(disk: seq<Sector>, ext: nat, r: Reader, s: Reader, fuel: nat)
    requires r.Running() && !Walk(disk, ext, r, fuel).Running() && s == ReadStep(disk, ext, r)
    ensures fuel > 0 && Walk(disk, ext, s, fuel - 1) == Walk(disk, ext, r, fuel)
  {
    hide ReadStep;
  }

  lemma HitsHead(s: seq<nat>, offset: nat)
    requires s != []
    ensures Hits(s, offset) == Hits(s[1..], offset) + (if s[0] == offset then 1 else 0)
  {}

  /** Logicals in strictly ascending order. */
  ghost predicate Chainable(l: seq<Part>) {
    && (forall i, j :: 0 <= i < j < |l| ==> l[i].first < l[j].first)
    && (forall i :: 0 <= i < |l| ==> 1 <= l[i].first <= UINT32_MAX)
  }

  lemma ChainStarts(l: seq<Part>)
    requires Chainable(l)
    ensures forall i :: 0 <= i < |l| ==> l[i].first >= 1
  {}

  lemma FirstInUse(t: seq<Part>, next: int)
    requires |t| == MAX_MBR_PARTS && (forall i :: 4 <= i < MAX_MBR_PARTS ==> t[i].role != Primary)
    requires next == -1 ==> forall i :: 4 <= i < MAX_MBR_PARTS ==> !t[i].Included()
    requires next != -1 ==> 4 <= next < MAX_MBR_PARTS && t[next].Included() && forall i :: 4 <= i < next ==>
      !t[i].Included()
    ensures next == -1 ==> Logicals(t[4..]) == []
    ensures next != -1 ==> Logicals(t[4..][..next - 4]) == []
  {
    var s := t[4..];
    assert s[..0] == [] && s[..|s|] == s;
    LogicalsSkip(s, 0, if next == -1 then |s| else next - 4);
  }

  lemma FollowingInUse(t: seq<Part>, a: nat, next: int)
    requires |t| == MAX_MBR_PARTS && 4 <= a < |t| && t[a].role == Logical
    requires (forall i :: 4 <= i < MAX_MBR_PARTS ==> t[i].role != Primary)
    requires next == -1 ==> forall i :: a + 1 <= i < MAX_MBR_PARTS ==> !t[i].Included()
    requires next != -1 ==> a + 1 <= next < MAX_MBR_PARTS && t[next].Included() && forall i :: a + 1 <= i < next ==>
      !t[i].Included()
    ensures var s := t[4..]; var n := |Logicals(s[..a - 4])|;
            if next == -1 then |Logicals(s)| == n + 1
            else |Logicals(s[..next - 4])| == n + 1 && n + 1 < |Logicals(s)|
                 && Logicals(s)[n + 1] == t[next] && t[next].role == Logical
  {
    var s := t[4..];
    assert s[..|s|] == s && s[..a - 3][..a - 4] == s[..a - 4];
    LogicalsSkip(s, a - 3, if next == -1 then |s| else next - 4);
    if next != -1 {
      LogicalsAt(s, next - 4);
    }
  }

  /** The sector before some logical partition. */
  ghost predicate IsEbr(l: seq<Part>, x: nat) { exists i :: 0 <= i < |l| && l[i].first - 1 == x }

  /** No sector has changed but EBRs. */
  ghost predicate OnlyEbrs(disk: seq<Sector>, before: seq<Sector>, l: seq<Part>) {
    |disk| == |before| && forall x :: 0 <= x < |disk| ==> disk[x] == before[x] || IsEbr(l, x)
  }

  /** No sector of an included partition has changed, but for the boot record. */
  ghost predicate DataKept(disk: seq<Sector>, before: seq<Sector>, t: seq<Part>) {
    && |disk| == |before|
    && forall i, x: nat :: 0 <= i < |t| && 0 < x < |disk| && t[i].Included() && t[i].Has(x) ==> disk[x] == before[x]
  }

  /** On a legal table no EBR lies in an included partition. */
  lemma SparesData(t: seq<Part>, u: seq<Part>, diskSize: nat, before: seq<Sector>, main: seq<Sector>, disk: seq<Sector>)
    requires Tidy(t) && Legal(t, diskSize) && |u| == MAX_MBR_PARTS && multiset(t) == multiset(u)
    requires |main| == |before| && (forall x :: 0 < x < |main| ==> main[x] == before[x])
    requires OnlyEbrs(disk, main, Logicals(u[4..]))
    ensures DataKept(disk, before, t)
  {
    hide Legal, Logicals;
    var l := Logicals(u[4..]);
    forall i, x: nat | 0 <= i < |t| && 0 < x < |disk| && t[i].Included() && t[i].Has(x)
      ensures disk[x] == before[x]
    {
      if IsEbr(l, x) {
        var j :| 0 <= j < |l| && l[j].first - 1 == x;
        FromTable(t, u, j);
        LogicalsCount(u[4..], l[j]);
        assert l[j] in multiset(l);
        var k :| 0 <= k < |t| && t[k] == l[j];
        EbrsApart(t, diskSize, k, i);
        assert false;
      }
    }
  }

  /** The disk after the first j EBRs. */
  ghost predicate ChainWritten(disk: seq<Sector>, before: seq<Sector>, ext: nat, l: seq<Part>, j: nat, signature: nat)
    requires j <= |l|
  {
    && OnlyEbrs(disk, before, l)
    && (signature == MBR_SIGNATURE ==> forall i :: 0 <= i < j ==> Link(disk, ext, l, i))
    && (forall i :: 0 <= i < j ==> Typed(disk, l, i))
    && (j > 0 ==> ext < |disk|)
    && (disk != [] && (j == 0 || ext > 0) ==> disk[0] == before[0])
    && (disk != [] && j > 0 && ext == 0 ==> disk[0].records[2].kind == 0 && disk[0].records[3].kind == 0)
  }

  /** The link of the j-th EBR has an extended type and the length of what it leads to, its EBR
      included; the last EBR has no link. */
  predicate Typed(disk: seq<Sector>, l: seq<Part>, j: nat)
    requires j < |l|
  {
    && 0 <= l[j].first - 1 < |disk|
    && var link := disk[l[j].first - 1].records[1];
       if j + 1 < |l| then link.kind == 0x0f && link.length == (l[j + 1].length + 1) % TWO32
       else link.kind == 0 && link.length == 0
  }

  lemma NoneTyped(disk: seq<Sector>)
    ensures AllTyped(disk, [])
  {}

  predicate AllTyped(disk: seq<Sector>, l: seq<Part>) { forall j :: 0 <= j < |l| ==> Typed(disk, l, j) }

  lemma NoEbrs(disk: seq<Sector>, l: seq<Part>)
    ensures OnlyEbrs(disk, disk, l)
  {}

  lemma NothingWritten(disk: seq<Sector>, ext: nat, l: seq<Part>, signature: nat)
    ensures ChainWritten(disk, disk, ext, l, 0, signature) && OnlyEbrs(disk, disk, l)
  {}

  lemma ChainComplete(disk: seq<Sector>, before: seq<Sector>, ext: nat, l: seq<Part>, signature: nat)
    requires l != [] && ChainWritten(disk, before, ext, l, |l|, signature)
    ensures ext < |disk| && (signature == MBR_SIGNATURE ==> Chained(disk, ext, l)) && AllTyped(disk, l)
    ensures if ext > 0 then disk[0] == before[0] else disk[0].records[2].kind == 0 && disk[0].records[3].kind == 0
  {}

  /** Writing one more EBR adds its link and leaves the earlier ones alone. */
  lemma LinkWritten(first: seq<Sector>, before: seq<Sector>, disk: seq<Sector>, ext: nat, l: seq<Part>, j: nat,
                    content: Sector)
    requires j < |l| && Chainable(l) && ext == l[0].first - 1 && 0 <= l[j].first - 1 < |before|
    requires disk == before[l[j].first - 1 := content]
    requires content.records[0] == Store(l[j]).(first := 1)
    requires content.records[1].first == if j + 1 < |l| then (l[j + 1].first - ext - 1) % TWO32 else 0
    requires content.records[1].kind == if j + 1 < |l| then 0x0f else 0
    requires content.records[1].length == if j + 1 < |l| then (l[j + 1].length + 1) % TWO32 else 0
    requires content.records[2].kind == 0 && content.records[3].kind == 0
    requires ChainWritten(before, first, ext, l, j, content.signature)
    ensures ChainWritten(disk, first, ext, l, j + 1, content.signature) && OnlyEbrs(disk, first, l)
    ensures j + 1 < |l| ==> content.records[1].first + ext == l[j + 1].first - 1
  {
    hide Typed;
    LinkTyped(before, disk, l, j, content);
    if j + 1 < |l| {
      assert l[0].first <= l[j].first < l[j + 1].first;
    }
    assert l[0].first <= l[j].first;
    assert IsEbr(l, l[j].first - 1);
    forall i | 0 <= i < j && Link(before, ext, l, i)
      ensures Link(disk, ext, l, i)
    {
      assert l[i].first < l[j].first;
    }
  }

  lemma LinkTyped(before: seq<Sector>, disk: seq<Sector>, l: seq<Part>, j: nat, content: Sector)
    requires j < |l| && Chainable(l) && 0 <= l[j].first - 1 < |before|
    requires disk == before[l[j].first - 1 := content] && forall i :: 0 <= i < j ==> Typed(before, l, i)
    requires content.records[1].kind == if j + 1 < |l| then 0x0f else 0
    requires content.records[1].length == if j + 1 < |l| then (l[j + 1].length + 1) % TWO32 else 0
    ensures forall i :: 0 <= i <= j ==> Typed(disk, l, i)
  {
    forall i | 0 <= i < j
      ensures Typed(disk, l, i)
    {
      assert Typed(before, l, i) && l[i].first < l[j].first;
    }
  }

  /** The table as CreateExtended leaves it: u with the extended partition in slot k. */
  ghost predicate Prepared(t: seq<Part>, u: seq<Part>, k: nat, v: seq<Part>) {
    && Tidy(t) && multiset(u) == multiset(t) && Arranged(u)
    && (if HasLogical(t) then Spare(u, k) && v == u[k := Extended(u)] else v == u)
  }

  /** What DeleteExtendedParts leaves. */
  ghost predicate Pruned(w: seq<Part>, v: seq<Part>) {
    && |w| == |v|
    && forall i :: 0 <= i < |v| ==> w[i] == if v[i].kind in {0x05, 0x0f, 0x85} && v[i].length > 0 then BLANK else v[i]
  }

  /** Deleting extended entries, and putting blank entries where nothing was, keeps what is included. */
  lemma PrunedSame(u: seq<Part>, v: seq<Part>, w: seq<Part>)
    requires Tidy(u) && |v| == |u| && Pruned(w, v)
    requires forall i :: 0 <= i < |u| ==> v[i] == u[i] || (u[i].length == 0 && IsExtended(v[i].kind) && v[i].length > 0)
    ensures SameIncluded(w, u)
  {
    forall p: Part | p.Included()
      ensures multiset(w)[p] == multiset(u)[p]
    {
      Alike(w, u, p);
    }
  }

  lemma KeptInMemory(t: seq<Part>, u: seq<Part>, k: nat, v: seq<Part>, w: seq<Part>)
    requires Prepared(t, u, k, v) && Pruned(w, v)
    ensures SameIncluded(w, t) <==> !(HasLogical(t) && CutToNothing(t))
  {
    hide FirstLogical, LastLogical, Arranged, Pruned, SameIncluded, HasLogical;
    TidyRearranged(t, u);
    SpanRearranged(t, u);
    if HasLogical(t) && CutToNothing(t) {
      LeftBehind(t, u, k, v, w);
    } else {
      PrunedSame(u, v, w);
      SameInRearranged(w, u, t);
    }
  }

  /** An extended partition of length 0 stays in the table. */
  lemma LeftBehind(t: seq<Part>, u: seq<Part>, k: nat, v: seq<Part>, w: seq<Part>)
    requires Tidy(t) && multiset(u) == multiset(t) && Spare(u, k) && v == u[k := Extended(u)] && Pruned(w, v)
    requires Extended(u).length == 0
    ensures !SameIncluded(w, t)
  {
    hide FirstLogical, LastLogical;
    var x := Extended(u);
    assert w[k] == x && x in multiset(w);
    assert x !in t by {
      assert x.Included() && !TidyPart(x);
    }
    assert multiset(w)[x] != multiset(t)[x];
  }

  lemma ReadyToWrite(t: seq<Part>, u: seq<Part>, k: nat, v: seq<Part>, diskSize: nat)
    requires Prepared(t, u, k, v) && Legal(t, diskSize)
    ensures NoOverlaps(t) && |u| == MAX_MBR_PARTS && |v| == MAX_MBR_PARTS && v[4..] == u[4..]
    ensures forall i :: 4 <= i < MAX_MBR_PARTS ==> v[i].role != Primary
    ensures !HasEE(t) ==> !HasEE(v)
    ensures var l := Logicals(v[4..]);
            && Chainable(l) && (diskSize > 0 ==> forall i :: 0 <= i < |l| ==> l[i].first - 1 < diskSize)
            && (HasLogical(t) <==> l != [])
    ensures if HasLogical(t) then OnlyExtended(v, k) && v[k].first == Logicals(v[4..])[0].first - 1
            else forall i :: 0 <= i < 4 ==> !IsExtended(v[i].kind)
  {
    hide FirstLogical, LastLogical, Logicals, NumPrimaries, LogicalsContiguous, AllFit, UsedAs, Ordered;
    TidyRearranged(t, u);
    NoOverlapsRearranged(t, u);
    SpanRearranged(t, u);
    LogicalsAscend(u);
    FirstOfLogicals(u);
    FirstLogicalMeaning(u);
    assert v[4..] == u[4..];
    if HasEE(u) {
      EERearranged(t, u);
    }
    var l := Logicals(u[4..]);
    forall i | 0 <= i < |l| && diskSize > 0
      ensures l[i].first - 1 < diskSize
    {
      FromTable(t, u, i);
      var j :| 0 <= j < |t| && t[j] == l[i];
      EbrOnDisk(t, diskSize, j);
    }
  }

  /** Slot k, and no other of the first four, has an extended type. */
  predicate OnlyExtended(v: seq<Part>, k: nat) {
    k < 4 <= |v| && v[k].kind == 0x0f && forall i :: 0 <= i < 4 && i != k ==> !IsExtended(v[i].kind)
  }

  lemma EbrOnDisk(t: seq<Part>, diskSize: nat, j: nat)
    requires Tidy(t) && SpaceBeforeLogicals(t, diskSize) && j < |t| && t[j].role == Logical && diskSize > 0
    ensures t[j].first - 1 < diskSize
  {
    if t[j].first > 1 {
      EbrIsFree(t, t[j].first - 1, diskSize, |t|);
    }
  }

  lemma EERearranged(t: seq<Part>, u: seq<Part>)
    requires multiset(t) == multiset(u) && HasEE(u)
    ensures HasEE(t)
  {
    var i :| 0 <= i < |u| && u[i].kind == 0xEE;
    assert u[i] in multiset(u);
    var j :| 0 <= j < |t| && t[j] == u[i];
  }

  /** The boot record and the chain together are the written table. */
  lemma AllWritten(disk: seq<Sector>, main: seq<Sector>, t: seq<Part>, u: seq<Part>, k: nat, v: seq<Part>)
    requires Prepared(t, u, k, v) && NoOverlaps(t)
    requires Signed(main) && (forall i :: 0 <= i < 4 ==> main[0].records[i] == Store(v[i]))
    requires if HasLogical(t) then
        && disk != [] && OnlyExtended(v, k) && Chained(disk, v[k].first, Logicals(u[4..]))
        && (if v[k].first > 0 then disk[0] == main[0] else disk[0].records[2].kind == 0 && disk[0].records[3].kind == 0)
      else disk == main && forall i :: 0 <= i < 4 ==> !IsExtended(v[i].kind)
    ensures Written(disk, u, k)
  {
    hide FirstLogical, LastLogical, Logicals, Chained, Ordered, NoOverlaps;
    TidyRearranged(t, u);
    NoOverlapsRearranged(t, u);
    SpanRearranged(t, u);
    FirstOfLogicals(u);
    FirstLogicalMeaning(u);
    var l := Logicals(u[4..]);
    if l == [] {
      assert Saved(disk, u[..4], l, 4);
    } else {
      assert u[k := Extended(u)][..4] == v[..4];
      assert v[k].first > 0 ==> Saved(disk, v[..4], l, k);
    }
  }

  lemma SizeRearranged(t: seq<Part>, u: seq<Part>)
    requires multiset(t) == multiset(u)
    ensures |t| == |u|
  {
    assert |multiset(t)| == |t| && |multiset(u)| == |u|;
  }

  /** Only primaries may start on sector 0, and they are in the first four slots. */
  lemma TailSortable(u: seq<Part>)
    requires Tidy(u) && forall i :: 4 <= i < |u| ==> u[i].role != Primary
    ensures All(u[4..], Sortable)
  {
    forall i | 0 <= i < |u[4..]|
      ensures Sortable(u[4..][i])
    {
      assert u[4..][i] == u[i + 4];
    }
  }

  lemma FewPrimaries(t: seq<Part>, u: seq<Part>, diskSize: nat)
    requires Legal(t, diskSize) && multiset(t) == multiset(u)
    ensures Count(u, isPrimary) <= 4
  {
    CountRearranged(t, u, isPrimary);
  }

  /** Sorting the logical space leaves the primaries where they are. */
  lemma SortedTail(u: seq<Part>, v: seq<Part>)
    requires |u| == |v| == MAX_MBR_PARTS && v[..4] == u[..4] && multiset(v[4..]) == multiset(u[4..])
    requires Ordered(v[4..], Precedes)
    requires (forall i :: 0 <= i < 4 ==> u[i].role == Primary || u[i].length == 0)
    requires (forall i :: 4 <= i < |u| ==> u[i].role != Primary)
    ensures Arranged(v)
  {
    hide Ordered;
    forall i | 0 <= i < 4
      ensures v[i] == u[i]
    {
      assert v[i] == v[..4][i] && u[i] == u[..4][i];
    }
    forall i | 4 <= i < |v|
      ensures v[i].role != Primary
    {
      assert v[i] == v[4..][i - 4] && v[i] in multiset(v[4..]);
      assert v[i] in u[4..];
    }
  }

  /** A legal table with logicals has at most three primaries, so a slot is left. */
  lemma SpareSlot(t: seq<Part>, u: seq<Part>, diskSize: nat)
    requires Tidy(t) && Legal(t, diskSize) && HasLogical(t) && multiset(t) == multiset(u) && Arranged(u)
    ensures exists k :: 0 <= k < 4 && u[k].length == 0
  {
    hide Count;
    TidyRearranged(t, u);
    CountRearranged(t, u, isPrimary);
    assert u == u[..4] + u[4..];
    CountConcat(u[..4], u[4..], isPrimary);
    CountPositive(u[..4], isPrimary);
    var k :| 0 <= k < 4 && !isPrimary(u[..4][k]);
    assert u[k].length == 0;
  }

  /** With at most four primaries, one outside the first four slots means a slot without one. */
  lemma FifthPrimary(t: seq<Part>, u: seq<Part>, i: nat)
    requires Tidy(t) && multiset(t) == multiset(u) && Count(t, isPrimary) <= 4 && |u| == MAX_MBR_PARTS
    requires 4 <= i < |u| && u[i].role == Primary
    ensures exists k :: 0 <= k < 4 && u[k].role != Primary
  {
    hide Count;
    TidyRearranged(t, u);
    CountRearranged(t, u, isPrimary);
    assert u == u[..4] + u[4..];
    CountConcat(u[..4], u[4..], isPrimary);
    CountPositive(u[..4], isPrimary);
    CountPositive(u[4..], isPrimary);
    assert isPrimary(u[4..][i - 4]);
    var k :| 0 <= k < 4 && !isPrimary(u[..4][k]);
    assert u[k].role != Primary;
  }
}
