/** Creating, deleting, swapping and sorting GPT partitions (gdisk/gpt.cc), as steps on the
    partition array, and what every run of such steps keeps. */
module Allocator {
  import Rearranging
  import opened GptFormat
  import opened FreeSpace
  import DivMod

  // ---------- alignment ----------

  function RoundDown(s: nat, alignment: nat): nat
    requires alignment > 0
  {
    s / alignment * alignment
  }

  /** Align: move a sector down to a multiple of the alignment if everything in between is
      free, else up likewise, else leave it. */
  function AlignSector(t: Space, s: nat, alignment: nat): (r: nat)
    requires alignment > 0
  {
    var earlier := RoundDown(s, alignment);
    var later := earlier + alignment;
    if s % alignment == 0 then s
    else if earlier >= t.lo && t.AllFree(earlier, s) then earlier
    else if later <= t.hi && t.AllFree(s + 1, later + 1) then later
    else s
  }

  lemma RoundDownFacts(s: nat, alignment: nat)
    requires alignment > 0
    ensures RoundDown(s, alignment) % alignment == 0
    ensures (RoundDown(s, alignment) + alignment) % alignment == 0
    ensures RoundDown(s, alignment) <= s < RoundDown(s, alignment) + alignment
    ensures s % alignment != 0 ==> RoundDown(s, alignment) < s
  {
    var q := s / alignment;
    DivMod.QuotientUnique(q * alignment, alignment, q, 0);
    DivMod.QuotientUnique((q + 1) * alignment, alignment, q + 1, 0);
    assert s == q * alignment + s % alignment;
  }

  /** Align moves a free sector only onto a multiple of the alignment in the same free run,
      and fails to do so only when neither neighbouring multiple can be reached. */
  lemma AlignStaysInRun(t: Space, s: nat, alignment: nat)
    requires alignment > 0 && t.Free(s)
    ensures
      var r := AlignSector(t, s, alignment);
      && t.Free(r)
      && (r <= s ==> t.AllFree(r, s + 1)) && (s <= r ==> t.AllFree(s, r + 1))
      && (r % alignment == 0 || r == s)
      && (r % alignment != 0 ==>
            && !t.AllFree(RoundDown(s, alignment), s)
            && !t.AllFree(s + 1, RoundDown(s, alignment) + alignment + 1))
  {
    RoundDownFacts(s, alignment);
    var earlier := RoundDown(s, alignment);
    if s % alignment != 0 {
      if earlier < t.lo {
        assert !t.Free(earlier);
      }
      if earlier + alignment > t.hi {
        assert !t.Free(earlier + alignment);
      }
      if earlier >= t.lo && t.AllFree(earlier, s) {
        assert t.Free(earlier);
      } else if earlier + alignment <= t.hi && t.AllFree(s + 1, earlier + alignment + 1) {
        assert t.Free(earlier + alignment);
      }
    }
  }

  /** Align, exactly: between the multiples m and m + alignment a sector moves down to m if and only
      if everything from m up to it is free, and otherwise up if and only if everything behind it up
      to the next multiple is. */
  lemma AlignExact(t: Space, s: nat, alignment: nat, m: nat)
    requires alignment > 0 && m % alignment == 0 && m <= s < m + alignment
    ensures
      var r := AlignSector(t, s, alignment);
      && (s == m ==> r == s)
      && (r < s <==> s != m && t.AllFree(m, s))
      && (r > s <==> s != m && !t.AllFree(m, s) && t.AllFree(s + 1, m + alignment + 1))
      && r in {m, s, m + alignment}
  {
    var q := m / alignment;
    assert m == q * alignment;
    DivMod.QuotientUnique(s, alignment, q, s - m);
    assert s % alignment == s - m && RoundDown(s, alignment) == m;
    if s != m {
      assert t.AllFree(m, s) ==> t.Free(m);
      assert t.AllFree(s + 1, m + alignment + 1) ==> t.Free(m + alignment);
    }
  }

  // ---------- the operations ----------

  datatype Request =
    | Create(entry: nat, start: nat, end: nat, kind: nat, guid: nat, name: nat)
    | Delete(entry: nat)
    | Swap(a: nat, b: nat)
    | Sort(result: seq<Part>)

  /** CreatePartition: the new array, or the old one when the request is refused. */
  function CreatePartition(t: Space, r: Request, alignment: nat): (Space, bool)
    requires r.Create? && alignment > 0
  {
    if r.entry < |t.parts| && !t.parts[r.entry].IsUsed() then
      var start := AlignSector(t, r.start, alignment);
      if t.Free(start) && start <= r.end <= NearestEnd(t, |t.parts|, start) then
        var p := t.parts[r.entry].(partitionType := r.kind, uniqueGUID := r.guid,
            firstLBA := start, lastLBA := r.end, name := r.name);
        (t.(parts := t.parts[r.entry := p]), true)
      else (t, false)
    else (t, false)
  }

  /** DeletePartition: entries between the lowest and the highest used one can be blanked. */
  predicate InUsedRange(t: Space, n: nat) {
    n < |t.parts|
      && (exists i :: 0 <= i <= n && t.parts[i].IsUsed())
      && (exists i :: n <= i < |t.parts| && t.parts[i].IsUsed())
  }

  function DeletePartition(t: Space, n: nat): (Space, bool) {
    if InUsedRange(t, n) then (t.(parts := t.parts[n := BLANK]), true) else (t, false)
  }

  function SwapPartitions(t: Space, a: nat, b: nat): (Space, bool) {
    if a < |t.parts| && b < |t.parts| then (t.(parts := t.parts[a := t.parts[b]][b := t.parts[a]]), true)
    else (t, false)
  }

  /** GPTPart::operator<: by first sector, entries without one last. */
  predicate Precedes(p: Part, q: Part) {
    if p.firstLBA != 0 && q.firstLBA != 0 then p.firstLBA < q.firstLBA else q.firstLBA < p.firstLBA
  }

  /** SortGPT leaves some ordered rearrangement of the array. */
  predicate SortOf(result: seq<Part>, parts: seq<Part>) {
    multiset(result) == multiset(parts) && Rearranging.Ordered(result, Precedes)
  }

  /** Sorting brings the entries with sectors to the front, in ascending order. */
  lemma SortMeaning(result: seq<Part>, parts: seq<Part>, i: nat, j: nat)
    requires SortOf(result, parts) && i < j < |result| && result[j].firstLBA != 0
    ensures 0 < result[i].firstLBA <= result[j].firstLBA
  {
    assert !Precedes(result[j], result[i]);
  }

  /** The comparison is an order on all entries. */
  lemma PrecedesOrders()
    ensures Rearranging.Orders(Precedes, (p: Part) => true)
  {}

  /** One operation on the array, successful or refused. */
  predicate Step(t: Space, r: Request, u: Space, alignment: nat)
    requires alignment > 0
  {
    match r
    case Create(_, _, _, kind, _, _) => kind != 0 && u == CreatePartition(t, r, alignment).0
    case Delete(n) => u == DeletePartition(t, n).0
    case Swap(a, b) => u == SwapPartitions(t, a, b).0
    case Sort(result) => SortOf(result, t.parts) && u == t.(parts := result)
  }

  /** A creation request is for more than one sector, counted from its aligned start. */
  predicate Roomy(t: Space, r: Request, alignment: nat)
    requires alignment > 0
  {
    r.Create? ==> AlignSector(t, r.start, alignment) < r.end
  }

  // ---------- every step keeps the table in shape ----------

  lemma CreateKeeps(t: Space, r: Request, alignment: nat)
    requires alignment > 0 && r.Create? && r.kind != 0
    requires t.WellFormed() && t.Wide() && Roomy(t, r, alignment)
    ensures var u := CreatePartition(t, r, alignment).0; u.WellFormed() && u.Wide()
  {
    var (u, ok) := CreatePartition(t, r, alignment);
    if ok {
      var start := AlignSector(t, r.start, alignment);
      NearestEndMeaning(t, start);
      NearestEndBounds(t, |t.parts|, start);
      PlacedApart(t, u, r.entry, start, r.end);
    }
  }

  /** A partition placed on free sectors is apart from all others. */
  lemma PlacedApart(t: Space, u: Space, n: nat, first: nat, last: nat)
    requires t.WellFormed() && n < |t.parts| && first <= last && t.AllFree(first, last + 1)
    requires |u.parts| == |t.parts| && u == t.(parts := t.parts[n := u.parts[n]])
    requires u.parts[n].IsUsed() && u.parts[n].firstLBA == first && u.parts[n].lastLBA == last
    ensures u.WellFormed()
  {
    assert t.Free(first) && t.Free(last);
    forall i | 0 <= i < |t.parts|
      ensures i != n ==> Apart(t.parts[i], u.parts[n])
    {
      var x := if t.parts[i].firstLBA < first then first else t.parts[i].firstLBA;
      assert first <= x <= last ==> t.Free(x);
      assert first <= x <= last ==> !Covers(t.parts[i], x);
    }
  }

  /** CreatePartition, exactly: a request is granted if and only if the entry is there and unused, and
      from the aligned start on every sector is free, the last one possibly being one that the search
      goes on to; the entry is then used for it, and nothing else changes. */
  lemma CreateGranted(t: Space, r: Request, alignment: nat)
    requires alignment > 0 && r.Create? && t.WellFormed()
    ensures
      var (u, ok) := CreatePartition(t, r, alignment);
      var start := AlignSector(t, r.start, alignment);
      && (ok <==> && r.entry < |t.parts| && !t.parts[r.entry].IsUsed()
                  && start <= r.end && t.Free(start) && t.AllFree(start, r.end)
                  && (t.Free(r.end) || Over(t, r.end)))
      && (!ok ==> u == t)
      && (ok ==> && |u.parts| == |t.parts| && u.lo == t.lo && u.hi == t.hi
                 && (forall i :: 0 <= i < |t.parts| && i != r.entry ==> u.parts[i] == t.parts[i])
                 && u.parts[r.entry] == Part(r.kind, r.guid, start, r.end, t.parts[r.entry].attributes, r.name))
  {
    hide Over, NearestEnd, AlignSector;
    var start := AlignSector(t, r.start, alignment);
    if t.Free(start) {
      var e := RunEnd(t, start);
      NearestEndExact(t, start, e);
      assert t.AllFree(start, r.end) ==> r.end <= e + 1;
      assert t.Free(r.end) && t.AllFree(start, r.end) ==> r.end != e + 1;
    }
  }

  /** On every well-formed table, an accepted request leaves the table well formed if and only
      if its last sector was free; the code checks only the sectors before it. */
  lemma CreateExact(t: Space, r: Request, alignment: nat)
    requires alignment > 0 && r.Create? && r.kind != 0 && t.WellFormed()
    requires CreatePartition(t, r, alignment).1
    ensures CreatePartition(t, r, alignment).0.WellFormed() <==> t.Free(r.end)
  {
    var u := CreatePartition(t, r, alignment).0;
    var start := AlignSector(t, r.start, alignment);
    NearestEndMeaning(t, start);
    if t.Free(r.end) {
      PlacedApart(t, u, r.entry, start, r.end);
    } else {
      var i :| 0 <= i < |t.parts| && t.parts[i].IsUsed()
               && t.parts[i].firstLBA == t.parts[i].lastLBA == NearestEnd(t, |t.parts|, start);
      assert !Apart(u.parts[i], u.parts[r.entry]) && !Apart(u.parts[r.entry], u.parts[i]);
    }
  }

  lemma DeleteKeeps(t: Space, n: nat)
    requires t.WellFormed() && t.Wide()
    ensures var u := DeletePartition(t, n).0; u.WellFormed() && u.Wide()
  {}

  /** DeletePartition, exactly: an entry is blanked if and only if it is used or has used entries on both
      sides, and nothing else changes; deleting it gives back its sectors and no others. */
  lemma DeleteExact(t: Space, n: nat)
    requires t.WellFormed()
    ensures
      var (u, ok) := DeletePartition(t, n);
      && (ok <==> n < |t.parts| && (t.parts[n].IsUsed()
                  || ((exists i :: 0 <= i < n && t.parts[i].IsUsed())
                      && exists i :: n < i < |t.parts| && t.parts[i].IsUsed())))
      && (!ok ==> u == t)
      && (ok ==> forall x :: u.Free(x) <==> t.Free(x) || Covers(t.parts[n], x))
  {
    var (u, ok) := DeletePartition(t, n);
    if ok {
      forall x
        ensures u.Free(x) <==> t.Free(x) || Covers(t.parts[n], x)
      {
        DeletedSectors(t, u, n, x);
      }
    }
  }

  lemma DeletedSectors(t: Space, u: Space, n: nat, x: int)
    requires t.WellFormed() && n < |t.parts| && u == t.(parts := t.parts[n := BLANK])
    ensures u.Free(x) <==> t.Free(x) || Covers(t.parts[n], x)
  {
    if u.Occupied(x) {
      var i :| 0 <= i < |u.parts| && Covers(u.parts[i], x);
      assert i != n && Covers(t.parts[i], x);
      ApartSymmetric(t, i, n);
    }
    if t.Occupied(x) {
      var i :| 0 <= i < |t.parts| && Covers(t.parts[i], x);
      assert i != n ==> Covers(u.parts[i], x);
    }
  }

  /** Rearranging the entries keeps everything that does not depend on their order. */
  lemma RearrangeKeeps(t: Space, u: Space)
    requires t.WellFormed() && t.Wide()
    requires u.lo == t.lo && u.hi == t.hi && multiset(u.parts) == multiset(t.parts)
    ensures u.WellFormed() && u.Wide()
  {
    forall i | 0 <= i < |u.parts|
      ensures u.parts[i] in t.parts
    {
      assert u.parts[i] in multiset(u.parts);
    }
    forall i, j | 0 <= i < j < |u.parts|
      ensures Apart(u.parts[i], u.parts[j])
    {
      var a, b := Rearranging.TwoPlaces(u.parts, t.parts, i, j);
      ApartSymmetric(t, a, b);
    }
  }

  lemma SwapKeeps(t: Space, a: nat, b: nat)
    requires t.WellFormed() && t.Wide()
    ensures var u := SwapPartitions(t, a, b).0; u.WellFormed() && u.Wide()
  {
    if a < |t.parts| && b < |t.parts| {
      RearrangeKeeps(t, SwapPartitions(t, a, b).0);
    }
  }

  lemma StepKeeps(t: Space, r: Request, u: Space, alignment: nat)
    requires alignment > 0 && Step(t, r, u, alignment)
    requires t.WellFormed() && t.Wide() && Roomy(t, r, alignment)
    ensures u.WellFormed() && u.Wide() && u.lo == t.lo && u.hi == t.hi
  {
    match r
    case Create(_, _, _, _, _, _) => CreateKeeps(t, r, alignment);
    case Delete(n) => DeleteKeeps(t, n);
    case Swap(a, b) => SwapKeeps(t, a, b);
    case Sort(_) => RearrangeKeeps(t, u);
  }

  /** A run: states and the requests between them. */
  ghost predicate IsRun(states: seq<Space>, requests: seq<Request>, alignment: nat)
    requires alignment > 0
  {
    && |states| == |requests| + 1
    && forall i :: 0 <= i < |requests| ==>
         Step(states[i], requests[i], states[i + 1], alignment) && Roomy(states[i], requests[i], alignment)
  }

  /** Over every run, used partitions stay disjoint, in range and wider than one sector, and
      unused entries stay blank; free space and partitions always add up. */
  lemma {:induction false} RunKeeps(states: seq<Space>, requests: seq<Request>, alignment: nat, k: nat)
    requires alignment > 0 && IsRun(states, requests, alignment) && k < |states|
    requires states[0].WellFormed() && states[0].Wide()
    ensures states[k].WellFormed() && states[k].Wide()
    ensures states[k].lo == states[0].lo && states[k].hi == states[0].hi
    ensures states[k].lo <= states[k].hi + 1 ==>
      CountFree(states[k], states[k].hi + 1) + TotalLength(states[k].parts) == states[k].hi + 1 - states[k].lo
  {
    hide CountFree, TotalLength;
    if k > 0 {
      RunKeeps(states, requests, alignment, k - 1);
      StepKeeps(states[k - 1], requests[k - 1], states[k], alignment);
    }
    if states[k].lo <= states[k].hi + 1 {
      Conservation(states[k]);
    }
  }

  /** Without that restriction the invariant is lost: on an empty table two accepted requests,
      the first for the single last usable sector, end up overlapping. */
  lemma OneSectorRequestBreaks(t: Space, alignment: nat, kind: nat)
    requires 0 < t.lo < t.hi && |t.parts| >= 2 && (forall i :: 0 <= i < |t.parts| ==> t.parts[i] == BLANK)
    requires alignment > 0 && t.lo % alignment == 0 && t.hi % alignment == 0 && kind != 0
    ensures t.WellFormed() && t.Wide()
    ensures
      var (u, ok) := CreatePartition(t, Create(0, t.hi, t.hi, kind, 0, 0), alignment);
      var (v, alsoOk) := CreatePartition(u, Create(1, t.lo, t.hi, kind, 0, 0), alignment);
      ok && alsoOk && !Apart(v.parts[0], v.parts[1])
  {
    NearestEndStuck(t, |t.parts|, t.hi);
    assert t.Free(t.hi);
    var u := CreatePartition(t, Create(0, t.hi, t.hi, kind, 0, 0), alignment).0;
    NearestEndStuck(u, |u.parts|, t.lo);
    assert forall i :: 0 <= i < |u.parts| ==> !Covers(u.parts[i], t.lo);
    assert u.Free(t.lo);
  }

  /** No entry begins strictly between start and the last usable sector. */
  lemma {:induction false} NearestEndStuck(t: Space, n: nat, start: nat)
    requires n <= |t.parts| && forall j :: 0 <= j < |t.parts| ==> !(start < t.parts[j].firstLBA < t.hi)
    ensures NearestEnd(t, n, start) == t.hi
  {
    if n > 0 {
      NearestEndStuck(t, n - 1, start);
    }
  }

  // ---------- an empty table ----------

  lemma EmptyArea(t: Space)
    requires 0 < t.lo && forall i :: 0 <= i < |t.parts| ==> t.parts[i] == BLANK
    ensures t.WellFormed() && t.Wide() && t.AllFree(t.lo, t.hi + 1)
  {}

  /** When everything is free, the earliest longest run is the whole range. */
  lemma OnlyRun(t: Space, low: nat, end: nat)
    requires 0 < t.lo <= t.hi && t.AllFree(t.lo, t.hi + 1)
    requires low == 0 ==> t.NoneFree(0, t.hi + 1)
    requires low != 0 ==> t.Run(low, end)
    ensures low == t.lo && t.Free(low)
  {
    assert t.Free(t.lo);
    if low != 0 {
      assert t.Free(low) && !t.Free(low - 1);
      assert low > t.lo ==> t.Free(low - 1);
    }
  }

  /** Aligning an aligned start again changes nothing. */
  lemma AlignTwice(t: Space, s: nat, alignment: nat)
    requires alignment > 0
    ensures var r := AlignSector(t, s, alignment); AlignSector(t, r, alignment) == r
  {
    RoundDownFacts(s, alignment);
  }

  /** On an empty table the first usable sector is aligned upwards to the least multiple of
      the alignment, if that is usable at all. */
  lemma FirstAligned(t: Space, alignment: nat)
    requires alignment > 0 && 0 < t.lo <= t.hi && t.AllFree(t.lo, t.hi + 1)
    ensures
      var r := AlignSector(t, t.lo, alignment);
      && t.lo <= r <= t.hi && r < t.lo + alignment
      && (if RoundDown(t.lo + alignment - 1, alignment) <= t.hi then r % alignment == 0 else r == t.lo)
  {
    RoundDownFacts(t.lo, alignment);
    RoundDownFacts(t.lo + alignment - 1, alignment);
    NextMultiple(t.lo, alignment);
  }

  lemma NextMultiple(s: nat, alignment: nat)
    requires alignment > 0
    ensures RoundDown(s + alignment - 1, alignment) ==
      if s % alignment == 0 then s else RoundDown(s, alignment) + alignment
  {
    var q, r := s / alignment, s % alignment;
    assert s == q * alignment + r;
    if r == 0 {
      DivMod.QuotientUnique(s + alignment - 1, alignment, q, alignment - 1);
    } else {
      assert s + alignment - 1 == (q + 1) * alignment + (r - 1);
      DivMod.QuotientUnique(s + alignment - 1, alignment, q + 1, r - 1);
    }
  }
}
