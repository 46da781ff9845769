/** Which sectors of a GPT disk are free: the plain set-of-sectors view against which the
    searches of gdisk/gpt.cc are proved, and the counting functions for free space. */
module FreeSpace {
  import opened GptFormat

  /** A partition array together with the usable sector range lo..hi. */
  datatype Space = Space(parts: seq<Part>, lo: nat, hi: nat) {

    predicate Occupied(x: int) { exists i :: 0 <= i < |parts| && Covers(parts[i], x) }

    predicate Free(x: int) { lo <= x <= hi && !Occupied(x) }

    /** Every sector from a up to and not including b is free. */
    predicate AllFree(a: int, b: int) { forall x :: a <= x < b ==> Free(x) }

    predicate NoneFree(a: int, b: int) { forall x :: a <= x < b ==> !Free(x) }

    /** Unused entries are blank, and sector 0 is not usable. */
    predicate BlankUnused() {
      0 < lo && forall i :: 0 <= i < |parts| && !parts[i].IsUsed() ==> parts[i].firstLBA == parts[i].lastLBA == 0
    }

    /** Used partitions lie in the usable range and are pairwise disjoint; unused entries
        are blank. */
    predicate WellFormed() {
      && BlankUnused()
      && (forall i :: 0 <= i < |parts| && parts[i].IsUsed() ==> lo <= parts[i].firstLBA <= parts[i].lastLBA <= hi)
      && (forall i, j :: 0 <= i < j < |parts| ==> Apart(parts[i], parts[j]))
    }

    /** No used partition is a single sector. */
    predicate Wide() {
      forall i :: 0 <= i < |parts| && parts[i].IsUsed() ==> parts[i].firstLBA < parts[i].lastLBA
    }

    /** [a, b) is a maximal run of free sectors. */
    predicate Run(a: int, b: int) { a < b && AllFree(a, b) && !Free(a - 1) && !Free(b) }
  }

  predicate Covers(p: Part, x: int) { p.IsUsed() && p.firstLBA <= x <= p.lastLBA }

  /** Two entries share no sector. */
  predicate Apart(p: Part, q: Part) {
    !p.IsUsed() || !q.IsUsed() || p.lastLBA < q.firstLBA || q.lastLBA < p.firstLBA
  }

  lemma ApartSymmetric(t: Space, i: int, j: int)
    requires t.WellFormed() && 0 <= i < |t.parts| && 0 <= j < |t.parts| && i != j
    ensures Apart(t.parts[i], t.parts[j])
  {
    if j < i {
      assert Apart(t.parts[j], t.parts[i]);
    }
  }

  // ---------- the last free sector ----------

  /** The test of FindLastAvailable: it does not ask whether the entry is used. */
  predicate Takes(p: Part, x: int) { p.firstLBA <= x <= p.lastLBA }

  predicate Taken(t: Space, x: int) { exists i :: 0 <= i < |t.parts| && Takes(t.parts[i], x) }

  /** Every sector from a up to and not including b is taken. */
  predicate AllTaken(t: Space, a: int, b: int) { forall x :: a <= x < b ==> Taken(t, x) }

  /** The sector before x, in 64 bits. */
  function Below(x: nat): (r: nat) { if x == 0 then TWO64 - 1 else x - 1 }

  /** What the search has shown when it stands at last. */
  ghost predicate Descended(t: Space, last: nat, wrapped: bool) {
    last < TWO64 && t.hi < TWO64 && !AllTaken(t, 0, TWO64)
    && if wrapped then AllTaken(t, 0, t.hi + 1) && AllTaken(t, last + 1, TWO64)
       else last <= t.hi && AllTaken(t, last + 1, t.hi + 1)
  }

  /** One move of the search, which wraps around at most once. */
  lemma Descend(t: Space, i: nat, last: nat, wrapped: bool) returns (now: bool)
    requires Descended(t, last, wrapped) && i < |t.parts| && Takes(t.parts[i], last)
    ensures Descended(t, Below(t.parts[i].firstLBA), now)
    ensures if now == wrapped then t.parts[i].firstLBA > 0 else now && t.parts[i].firstLBA == 0
  {
    var first := t.parts[i].firstLBA;
    now := wrapped || first == 0;
    forall x | first <= x <= last
      ensures Taken(t, x)
    {
      assert Takes(t.parts[i], x);
    }
  }

  /** r is the last free sector, or 0 if there is none. */
  predicate LastFree(t: Space, r: nat) {
    if r != 0 then t.Free(r) && t.NoneFree(r + 1, t.hi + 1) else t.NoneFree(0, t.hi + 1)
  }

  /** Blank entries take sector 0 only, which is not usable. */
  lemma TakenIsOccupied(t: Space, x: nat)
    requires t.BlankUnused() && 0 < x
    ensures Taken(t, x) <==> t.Occupied(x)
  {
    if Taken(t, x) {
      var i :| 0 <= i < |t.parts| && Takes(t.parts[i], x);
      assert Covers(t.parts[i], x);
    }
    if t.Occupied(x) {
      var i :| 0 <= i < |t.parts| && Covers(t.parts[i], x);
      assert Takes(t.parts[i], x);
    }
  }

  /** Where the search ends is the last free sector, unless it wrapped around. */
  lemma LastFreeExactly(t: Space, last: nat, wrapped: bool)
    requires Descended(t, last, wrapped) && !Taken(t, last)
    ensures wrapped <==> AllTaken(t, 0, t.hi + 1)
    ensures !wrapped && t.BlankUnused() ==> LastFree(t, if last < t.lo then 0 else last)
    ensures wrapped ==> t.hi < last && AllTaken(t, last + 1, TWO64)
  {
    if !wrapped && t.BlankUnused() {
      forall x: nat | 0 < x
        ensures Taken(t, x) <==> t.Occupied(x)
      {
        TakenIsOccupied(t, x);
      }
    }
  }

  /** A well-formed table on which the search wraps around: one partition on 1..5, the whole usable
      range, and a blank entry.  It then ends past the usable range and reports a free sector. */
  lemma LastFreeWraps(p: Part, blank: Part)
    requires p.IsUsed() && p.firstLBA == 1 && p.lastLBA == 5
    requires !blank.IsUsed() && blank.firstLBA == 0 && blank.lastLBA == 0
    ensures var t := Space([p, blank], 1, 5);
      t.WellFormed() && t.NoneFree(0, 6) && AllTaken(t, 0, 6) && !Taken(t, TWO64 - 1) && !LastFree(t, TWO64 - 1)
  {
    var t := Space([p, blank], 1, 5);
    assert t.parts[0] == p && t.parts[1] == blank;
    forall x | 0 <= x < 6
      ensures Taken(t, x) && !t.Free(x)
    {
      assert Takes(t.parts[if x == 0 then 1 else 0], x);
      assert x > 0 ==> Covers(t.parts[0], x);
    }
  }

  // ---------- the end of a free run ----------

  /** FindLastInFree over the first n entries. */
  function NearestEnd(t: Space, n: nat, start: nat): (r: int)
    requires n <= |t.parts|
  {
    if n == 0 then t.hi
    else
      var r := NearestEnd(t, n - 1, start);
      if r > t.parts[n - 1].firstLBA > start then t.parts[n - 1].firstLBA - 1 else r
  }

  /** The answer never lies beyond the first sector of a partition that begins after start,
      and is the last usable sector or the one before such a partition. */
  lemma {:induction false} NearestEndBounds(t: Space, n: nat, start: nat)
    requires n <= |t.parts| && start <= t.hi
    ensures start <= NearestEnd(t, n, start) <= t.hi
    ensures forall j :: 0 <= j < n && t.parts[j].firstLBA > start ==> NearestEnd(t, n, start) <= t.parts[j].firstLBA
    ensures NearestEnd(t, n, start) == t.hi
         || exists j :: 0 <= j < n && t.parts[j].firstLBA > start && NearestEnd(t, n, start) == t.parts[j].firstLBA - 1
  {
    if n > 0 {
      NearestEndBounds(t, n - 1, start);
      var r := NearestEnd(t, n - 1, start);
      if !(r > t.parts[n - 1].firstLBA > start) && r != t.hi {
        var j :| 0 <= j < n - 1 && t.parts[j].firstLBA > start && r == t.parts[j].firstLBA - 1;
        assert 0 <= j < n && t.parts[j].firstLBA > start && NearestEnd(t, n, start) == t.parts[j].firstLBA - 1;
      } else if r > t.parts[n - 1].firstLBA > start {
        assert 0 <= n - 1 < n && NearestEnd(t, n, start) == t.parts[n - 1].firstLBA - 1;
      }
    }
  }

  /** FindLastInFree, on every well-formed table: from a free sector it finds the end of the
      free run, except that it may overshoot by one onto a partition of a single sector. */
  lemma NearestEndMeaning(t: Space, start: nat)
    requires t.WellFormed() && t.Free(start)
    ensures
      var r := NearestEnd(t, |t.parts|, start);
      && start <= r <= t.hi && t.AllFree(start, r)
      && !t.Free(r + 1)
      && (!t.Free(r) ==>
              exists i :: 0 <= i < |t.parts| && t.parts[i].IsUsed() && t.parts[i].firstLBA == t.parts[i].lastLBA == r)
  {
    var n := |t.parts|;
    var r := NearestEnd(t, n, start);
    NearestEndBounds(t, n, start);
    forall x | start <= x < r
      ensures t.Free(x)
    {
      StartsAfter(t, start, x, r);
    }
    if r < t.hi {
      BeforePartition(t, start, r);
    }
    if !t.Free(r) {
      Overshoot(t, start, r);
    }
  }

  lemma BeforePartition(t: Space, start: nat, r: nat)
    requires t.WellFormed()
    requires exists j :: 0 <= j < |t.parts| && t.parts[j].firstLBA > start && r == t.parts[j].firstLBA - 1
    ensures t.Occupied(r + 1)
  {
    var j :| 0 <= j < |t.parts| && t.parts[j].firstLBA > start && r == t.parts[j].firstLBA - 1;
    assert Covers(t.parts[j], r + 1);
  }

  lemma Overshoot(t: Space, start: nat, r: nat)
    requires t.WellFormed() && t.Free(start) && start <= r <= t.hi && t.Occupied(r)
    requires forall j :: 0 <= j < |t.parts| && t.parts[j].firstLBA > start ==> r <= t.parts[j].firstLBA
    requires r == t.hi || exists j :: 0 <= j < |t.parts| && t.parts[j].firstLBA > start && r == t.parts[j].firstLBA - 1
    ensures exists i :: 0 <= i < |t.parts| && t.parts[i].IsUsed() && t.parts[i].firstLBA == t.parts[i].lastLBA == r
  {
    var i :| 0 <= i < |t.parts| && Covers(t.parts[i], r);
    StartsBetween(t, start, r, i);
    if r < t.hi {
      var j :| 0 <= j < |t.parts| && t.parts[j].firstLBA > start && r == t.parts[j].firstLBA - 1;
      ApartSymmetric(t, i, j);
    }
  }

  /** A used partition that covers a sector after a free one begins after that free one. */
  lemma StartsBetween(t: Space, start: nat, x: int, i: int)
    requires t.WellFormed() && t.Free(start) && start <= x && 0 <= i < |t.parts| && Covers(t.parts[i], x)
    ensures start < t.parts[i].firstLBA
  {
    assert !Covers(t.parts[i], start);
  }

  lemma StartsAfter(t: Space, start: nat, x: int, r: int)
    requires t.WellFormed() && t.Free(start) && start <= x < r <= t.hi
    requires forall j :: 0 <= j < |t.parts| && t.parts[j].firstLBA > start ==> r <= t.parts[j].firstLBA
    ensures t.Free(x)
  {
    forall i | 0 <= i < |t.parts|
      ensures !Covers(t.parts[i], x)
    {
      assert !Covers(t.parts[i], start);
    }
  }

  /** The search does not see entry i: it has come down to the entry's first sector already,
      because that is the last usable one or because an earlier entry that it does see starts on
      the next sector. */
  ghost predicate PassedOver(t: Space, i: nat)
    requires i < |t.parts|
    decreases i
  {
    t.parts[i].firstLBA == t.hi
    || exists k: nat :: k < i && t.parts[k].firstLBA == t.parts[i].firstLBA + 1 && !PassedOver(t, k)
  }

  /** A run of free sectors ends before x, and the search goes on to x. */
  ghost predicate Over(t: Space, x: int) {
    && t.Free(x - 1)
    && exists i: nat :: i < |t.parts| && t.parts[i].IsUsed() && t.parts[i].firstLBA == x && PassedOver(t, i)
  }

  /** Among the entries up to i, the first one that starts after start is i. */
  predicate Foremost(t: Space, start: nat, i: nat)
    requires i < |t.parts|
  {
    && start < t.parts[i].firstLBA <= t.hi
    && forall j :: 0 <= j < i && t.parts[j].firstLBA > start ==> t.parts[j].firstLBA > t.parts[i].firstLBA
  }

  /** Before entry i the search has come down to its first sector exactly if it passes it over. */
  lemma {:induction false} Approach(t: Space, start: nat, i: nat, n: nat)
    requires t.WellFormed() && n <= i < |t.parts| && Foremost(t, start, i)
    ensures
      var p := t.parts[i].firstLBA;
      && NearestEnd(t, n, start) >= p
      && (NearestEnd(t, n, start) == p <==>
            p == t.hi || exists k: nat :: k < n && t.parts[k].firstLBA == p + 1 && !PassedOver(t, k))
    decreases i, n
  {
    if n > 0 {
      Approach(t, start, i, n - 1);
      var p, k := t.parts[i].firstLBA, n - 1;
      if t.parts[k].firstLBA == p + 1 {
        forall j | 0 <= j < k && t.parts[j].firstLBA > start
          ensures t.parts[j].firstLBA > p + 1
        {
          assert t.parts[j].IsUsed() && t.parts[k].IsUsed() && Apart(t.parts[j], t.parts[k]);
        }
        Approach(t, start, k, k);
      }
    }
  }

  /** Entries that start no earlier than the search has come down to do not move it. */
  lemma {:induction false} StaysDown(t: Space, start: nat, m: nat, n: nat)
    requires m <= n <= |t.parts|
    requires forall j :: m <= j < n && t.parts[j].firstLBA > start ==> t.parts[j].firstLBA >= NearestEnd(t, m, start)
    ensures NearestEnd(t, n, start) == NearestEnd(t, m, start)
    decreases n
  {
    if m < n {
      StaysDown(t, start, m, n - 1);
    }
  }

  /** FindLastInFree, exactly: from a free sector whose run ends on e, the search returns e, or the
      sector after it if and only if the partition that starts there is passed over. */
  lemma NearestEndExact(t: Space, start: nat, e: nat)
    requires t.WellFormed() && start <= e && t.AllFree(start, e + 1) && !t.Free(e + 1)
    ensures NearestEnd(t, |t.parts|, start) == if Over(t, e + 1) then e + 1 else e
  {
    assert t.Free(e);
    if t.Occupied(e + 1) {
      var i: nat :| i < |t.parts| && Covers(t.parts[i], e + 1);
      EndsBefore(t, start, e, i);
    } else {
      EndsLast(t, start);
    }
  }

  lemma EndsLast(t: Space, start: nat)
    requires t.WellFormed() && t.AllFree(start, t.hi + 1) && start <= t.hi
    ensures NearestEnd(t, |t.parts|, start) == t.hi && !Over(t, t.hi + 1)
  {
    hide PassedOver;
    forall j | 0 <= j < |t.parts|
      ensures t.parts[j].firstLBA <= start
    {
      var x := t.parts[j].firstLBA;
      assert start < x ==> t.Free(x) && Covers(t.parts[j], x);
    }
    StaysDown(t, start, 0, |t.parts|);
  }

  lemma EndsBefore(t: Space, start: nat, e: nat, i: nat)
    requires t.WellFormed() && start <= e && t.AllFree(start, e + 1) && i < |t.parts| && Covers(t.parts[i], e + 1)
    ensures NearestEnd(t, |t.parts|, start) == if Over(t, e + 1) then e + 1 else e
  {
    hide PassedOver, Over;
    RunStopsAt(t, start, e, i);
    PassedOverAt(t, start, i);
    StaysDown(t, start, i + 1, |t.parts|);
    assert t.Free(e);
    OverAt(t, e, i);
  }

  lemma PassedOverAt(t: Space, start: nat, i: nat)
    requires t.WellFormed() && i < |t.parts| && Foremost(t, start, i)
    ensures NearestEnd(t, i, start) >= t.parts[i].firstLBA
    ensures NearestEnd(t, i, start) == t.parts[i].firstLBA <==> PassedOver(t, i)
  {
    hide Space.WellFormed;
    Approach(t, start, i, i);
  }

  /** The partition after a run of free sectors is the first one after its start. */
  lemma RunStopsAt(t: Space, start: nat, e: nat, i: nat)
    requires t.WellFormed() && start <= e && t.AllFree(start, e + 1) && i < |t.parts| && Covers(t.parts[i], e + 1)
    ensures t.parts[i].firstLBA == e + 1 && Foremost(t, start, i)
    ensures forall j :: 0 <= j < |t.parts| && j != i && t.parts[j].firstLBA > start ==> t.parts[j].firstLBA > e + 1
  {
    assert t.Free(e) && !Covers(t.parts[i], e);
    forall j | 0 <= j < |t.parts| && j != i && t.parts[j].firstLBA > start
      ensures t.parts[j].firstLBA > e + 1
    {
      var x := t.parts[j].firstLBA;
      assert Covers(t.parts[j], x);
      assert x <= e ==> t.Free(x);
      ApartSymmetric(t, i, j);
    }
  }

  lemma OverAt(t: Space, e: nat, i: nat)
    requires t.WellFormed() && t.Free(e) && i < |t.parts| && t.parts[i].IsUsed() && t.parts[i].firstLBA == e + 1
    ensures Over(t, e + 1) <==> PassedOver(t, i)
  {
    forall j: nat | j < |t.parts| && t.parts[j].IsUsed() && t.parts[j].firstLBA == e + 1
      ensures j == i
    {
      if j != i {
        ApartSymmetric(t, i, j);
      }
    }
  }

  /** A partition that is passed over is a single sector, and nothing free follows it. */
  lemma OverIsSingle(t: Space, x: int)
    requires t.WellFormed() && Over(t, x)
    ensures !t.Free(x) && !t.Free(x + 1) && x <= t.hi
    ensures exists i :: 0 <= i < |t.parts| && t.parts[i].IsUsed() && t.parts[i].firstLBA == t.parts[i].lastLBA == x
  {
    var i: nat :| i < |t.parts| && t.parts[i].IsUsed() && t.parts[i].firstLBA == x && PassedOver(t, i);
    assert Covers(t.parts[i], x);
    if x < t.hi {
      var k: nat :| k < i && t.parts[k].firstLBA == x + 1 && !PassedOver(t, k);
      assert Covers(t.parts[k], x + 1);
      ApartSymmetric(t, i, k);
    }
  }

  /** With no single-sector partition nothing is passed over. */
  lemma WideNotOver(t: Space, x: int)
    requires t.WellFormed() && t.Wide()
    ensures !Over(t, x)
  {
    if Over(t, x) {
      OverIsSingle(t, x);
    }
  }

  /** The order of the array decides: the same two partitions, the single sector 40 and 41 to 50. */
  lemma OrderDecides(a: Part, b: Part)
    requires a.IsUsed() && b.IsUsed() && a.firstLBA == a.lastLBA == 40 && b.firstLBA == 41 && b.lastLBA == 50
    ensures
      var t, u := Space([a, b], 34, 60), Space([b, a], 34, 60);
      && t.WellFormed() && u.WellFormed() && (forall x :: t.Free(x) <==> u.Free(x))
      && NearestEnd(t, 2, 34) == 39 && t.Free(39) && !Over(t, 40)
      && NearestEnd(u, 2, 34) == 40 && !u.Free(40) && Over(u, 40) && CountOver(u, 61) > 0
  {
    hide NearestEnd, Over, CountOver;
    var t, u := Space([a, b], 34, 60), Space([b, a], 34, 60);
    forall x
      ensures t.Occupied(x) <==> 40 <= x <= 50
      ensures u.Occupied(x) <==> 40 <= x <= 50
    {
      assert t.parts[0] == u.parts[1] == a && t.parts[1] == u.parts[0] == b;
      assert 40 <= x <= 50 ==> Covers(a, x) || Covers(b, x);
    }
    NearestOfTwo(t, 34);
    NearestOfTwo(u, 34);
    NearestEndExact(t, 34, 39);
    NearestEndExact(u, 34, 39);
    CountOverZero(u, 61);
  }

  /** One round of the search for the end of a run. */
  function Nearer(p: Part, last: int, start: nat): int { if last > p.firstLBA > start then p.firstLBA - 1 else last }

  lemma NearestOfTwo(t: Space, start: nat)
    requires |t.parts| == 2
    ensures NearestEnd(t, 2, start) == Nearer(t.parts[1], Nearer(t.parts[0], t.hi, start), start)
  {
    assert NearestEnd(t, 0, start) == t.hi;
    assert NearestEnd(t, 1, start) == Nearer(t.parts[0], t.hi, start);
  }

  // ---------- counting ----------

  /** The number of free sectors below b. */
  function CountFree(t: Space, b: nat): nat {
    if b == 0 then 0 else CountFree(t, b - 1) + if t.Free(b - 1) then 1 else 0
  }

  /** The number of maximal free runs that begin below b. */
  function CountRuns(t: Space, b: nat): nat {
    if b == 0 then 0 else CountRuns(t, b - 1) + if t.Free(b - 1) && !t.Free(b - 2) then 1 else 0
  }

  lemma {:induction false} CountNone(t: Space, a: nat, b: nat)
    requires a <= b && t.NoneFree(a, b)
    ensures CountFree(t, b) == CountFree(t, a) && CountRuns(t, b) == CountRuns(t, a)
    decreases b
  {
    if a < b {
      CountNone(t, a, b - 1);
      assert !t.Free(b - 1);
    }
  }

  lemma {:induction false} CountRun(t: Space, a: nat, b: nat)
    requires a < b && t.AllFree(a, b) && !t.Free(a - 1)
    ensures CountFree(t, b) == CountFree(t, a) + (b - a) && CountRuns(t, b) == CountRuns(t, a) + 1
    decreases b
  {
    assert t.Free(b - 1);
    if a < b - 1 {
      CountRun(t, a, b - 1);
      assert t.Free(b - 2);
    }
  }

  /** The sectors held by used partitions. */
  function TotalLength(parts: seq<Part>): nat {
    if parts == [] then 0
    else
      var p := parts[|parts| - 1];
      TotalLength(parts[..|parts| - 1]) +
        if p.IsUsed() && p.firstLBA <= p.lastLBA then p.lastLBA - p.firstLBA + 1 else 0
  }

  /** Conservation: free sectors and partitions together make up the usable range. */
  lemma {:induction false} Conservation(t: Space)
    requires t.WellFormed() && t.lo <= t.hi + 1
    ensures CountFree(t, t.hi + 1) + TotalLength(t.parts) == t.hi + 1 - t.lo
    decreases |t.parts|
  {
    var n := |t.parts|;
    if n == 0 {
      EmptyCount(t);
    } else {
      var p, u := t.parts[n - 1], t.(parts := t.parts[..n - 1]);
      ShorterWellFormed(t);
      Conservation(u);
      LastCount(t, u, p);
    }
  }

  lemma EmptyCount(t: Space)
    requires t.parts == [] && t.lo <= t.hi + 1
    ensures CountFree(t, t.hi + 1) == t.hi + 1 - t.lo
  {
    CountNone(t, 0, t.lo);
    AllFreeCount(t, t.lo, t.hi + 1);
  }

  lemma LastCount(t: Space, u: Space, p: Part)
    requires t.WellFormed() && |t.parts| > 0 && u == t.(parts := t.parts[..|t.parts| - 1])
    requires p == t.parts[|t.parts| - 1]
    ensures CountFree(u, t.hi + 1) - CountFree(t, t.hi + 1) == if p.IsUsed() then p.lastLBA - p.firstLBA + 1 else 0
  {
    if p.IsUsed() {
      RemoveLast(t, u, p.firstLBA, p.lastLBA, t.hi + 1);
    } else {
      RemoveUnused(t, u, t.hi + 1);
    }
  }

  lemma ShorterWellFormed(t: Space)
    requires t.WellFormed() && |t.parts| > 0
    ensures t.(parts := t.parts[..|t.parts| - 1]).WellFormed()
  {}

  lemma {:induction false} AllFreeCount(t: Space, a: nat, b: nat)
    requires a <= b && t.AllFree(a, b)
    ensures CountFree(t, b) == CountFree(t, a) + (b - a)
    decreases b
  {
    if a < b {
      AllFreeCount(t, a, b - 1);
      assert t.Free(b - 1);
    }
  }

  lemma DropLast(t: Space, u: Space, x: int)
    requires |t.parts| > 0 && u == t.(parts := t.parts[..|t.parts| - 1])
    ensures t.Occupied(x) <==> u.Occupied(x) || Covers(t.parts[|t.parts| - 1], x)
  {
    if t.Occupied(x) {
      var i :| 0 <= i < |t.parts| && Covers(t.parts[i], x);
      assert i < |t.parts| - 1 ==> u.parts[i] == t.parts[i];
    }
    if u.Occupied(x) {
      var i :| 0 <= i < |u.parts| && Covers(u.parts[i], x);
      assert t.parts[i] == u.parts[i];
    }
  }

  lemma {:induction false} RemoveUnused(t: Space, u: Space, b: nat)
    requires |t.parts| > 0 && u == t.(parts := t.parts[..|t.parts| - 1]) && !t.parts[|t.parts| - 1].IsUsed()
    ensures CountFree(t, b) == CountFree(u, b)
  {
    if b > 0 {
      DropLast(t, u, b - 1);
      RemoveUnused(t, u, b - 1);
    }
  }

  /** Removing a partition frees exactly its sectors. */
  lemma {:induction false} RemoveLast(t: Space, u: Space, first: nat, last: nat, b: nat)
    requires t.WellFormed() && |t.parts| > 0 && u == t.(parts := t.parts[..|t.parts| - 1])
    requires t.parts[|t.parts| - 1].IsUsed()
    requires first == t.parts[|t.parts| - 1].firstLBA && last == t.parts[|t.parts| - 1].lastLBA
    ensures CountFree(u, b) - CountFree(t, b) ==
      if b <= first then 0 else if b <= last then b - first else last + 1 - first
  {
    if b > 0 {
      var x := b - 1;
      RemoveLast(t, u, first, last, x);
      DropLast(t, u, x);
      forall i | 0 <= i < |u.parts|
        ensures first <= x <= last ==> !Covers(u.parts[i], x)
      {
        assert Apart(t.parts[i], t.parts[|t.parts| - 1]);
      }
    }
  }

  // ---------- scanning run by run ----------

  /** A newly found run adds its length and one run to the totals. */
  lemma RunFound(t: Space, start: nat, first: nat, end: nat)
    requires !t.Free(start) && start <= first < end && t.NoneFree(start, first) && t.AllFree(first, end) && !t.Free(end)
    ensures CountFree(t, end) == CountFree(t, start) + (end - first)
    ensures CountRuns(t, end) == CountRuns(t, start) + 1
    ensures t.Run(first, end)
  {
    assert t.Free(first);
    assert !t.Free(first - 1);
    CountNone(t, start, first);
    CountRun(t, first, end);
  }

  /** The number of sectors below b that the search goes on to after a run has ended. */
  ghost function CountOver(t: Space, b: nat): nat {
    if b == 0 then 0 else CountOver(t, b - 1) + if Over(t, b - 1) then 1 else 0
  }

  lemma {:induction false} CountOverNone(t: Space, a: nat, b: nat)
    requires a <= b && forall x :: a <= x < b ==> !Over(t, x)
    ensures CountOver(t, b) == CountOver(t, a)
    decreases b
  {
    hide Over;
    if a < b {
      CountOverNone(t, a, b - 1);
    }
  }

  ghost predicate NoneOver(t: Space, b: nat) { forall x :: 0 <= x < b ==> !Over(t, x) }

  /** The count is zero if and only if there are none. */
  lemma {:induction false} CountOverZero(t: Space, b: nat)
    ensures CountOver(t, b) == 0 <==> NoneOver(t, b)
  {
    hide Over;
    if b > 0 {
      CountOverZero(t, b - 1);
    }
  }

  /** The length FindFreeBlocks takes the run [a, b) to have. */
  ghost function Measured(t: Space, a: int, b: int): int { b - a + if Over(t, b) then 1 else 0 }

  /** The scan over free runs: everything below start has been seen, and first is the next
      free sector, 0 at the end. */
  ghost predicate Scanning(t: Space, start: nat, first: nat) {
    && !t.Free(start) && !Over(t, start) && start <= t.hi + 1
    && (if first != 0 then start <= first && t.Free(first) && t.NoneFree(start, first) else t.NoneFree(start, t.hi + 1))
  }

  lemma ScanStart(t: Space)
    ensures CountFree(t, 0) == CountRuns(t, 0) == CountOver(t, 0) == 0 && Attained(t, 0)
    ensures t.lo > 0 ==> SeenAtMost(t, 0, 0) && EarliestLargest(t, 0, 0, 0) && !Over(t, 0)
  {
    forall a, b | t.Run(a, b)
      ensures a >= t.lo
    {
      assert t.Free(a);
    }
  }

  /** Where the run of free sectors from x on ends. */
  lemma {:induction false} RunEnd(t: Space, x: nat) returns (e: nat)
    requires t.Free(x)
    ensures x <= e <= t.hi && t.AllFree(x, e + 1) && !t.Free(e + 1)
    decreases t.hi - x
  {
    if t.Free(x + 1) {
      e := RunEnd(t, x + 1);
    } else {
      e := x;
    }
  }

  /** One turn of the scan: it finds one run, and takes it to be as long as measured. */
  lemma ScanStep(t: Space, start: nat, first: nat, last: int) returns (end: nat)
    requires t.WellFormed() && Scanning(t, start, first) && first != 0
    requires last == NearestEnd(t, |t.parts|, first)
    ensures first <= last <= t.hi && t.Run(first, end) && last + 1 - first == Measured(t, first, end)
    ensures end <= last + 1 && t.NoneFree(end, last + 1) && !t.Free(last + 1) && !Over(t, last + 1)
    ensures CountFree(t, last + 1) + CountOver(t, last + 1) ==
      CountFree(t, start) + CountOver(t, start) + Measured(t, first, end)
    ensures CountRuns(t, last + 1) == CountRuns(t, start) + 1
  {
    hide NearestEnd, Over, CountFree, CountRuns, CountOver;
    var e := RunEnd(t, first);
    end := e + 1;
    NearestEndExact(t, first, e);
    NearestEndBounds(t, |t.parts|, first);
    RunFound(t, start, first, end);
    NoOverWithin(t, start, first, end);
    CountOverNone(t, start, end);
    if Over(t, end) {
      OverIsSingle(t, end);
      OverNext(t, end);
      OneOver(t, end);
      assert t.NoneFree(end, end + 1);
      CountNone(t, end, end + 1);
    }
  }

  lemma OneOver(t: Space, x: nat)
    requires Over(t, x)
    ensures CountOver(t, x + 1) == CountOver(t, x) + 1
  {}

  lemma OverNext(t: Space, x: int)
    requires !t.Free(x)
    ensures !Over(t, x + 1)
  {}

  lemma FreeNotOver(t: Space, x: int)
    requires t.WellFormed() && t.Free(x)
    ensures !Over(t, x)
  {
    forall i | 0 <= i < |t.parts|
      ensures !(t.parts[i].IsUsed() && t.parts[i].firstLBA == x)
    {
      assert !Covers(t.parts[i], x);
    }
  }

  /** Only the end of a run can be gone past. */
  lemma NoOverWithin(t: Space, start: nat, first: nat, end: nat)
    requires t.WellFormed() && !Over(t, start) && start <= first < end
    requires t.NoneFree(start, first) && t.AllFree(first, end)
    ensures forall x :: start <= x < end ==> !Over(t, x)
  {
    forall x | start <= x < end
      ensures !Over(t, x)
    {
      if start < x <= first {
        assert !t.Free(x - 1);
      } else if first < x {
        assert t.Free(x);
        FreeNotOver(t, x);
      }
    }
  }

  /** Runs that begin before `end` measure at most `size`. */
  ghost predicate SeenAtMost(t: Space, end: nat, size: nat) {
    forall a, b :: t.Run(a, b) && a < end ==> Measured(t, a, b) <= size
  }

  /** ... and those that begin before `selected` measure less. */
  ghost predicate EarliestLargest(t: Space, end: nat, selected: nat, size: nat) {
    SeenAtMost(t, end, size) && forall a, b :: t.Run(a, b) && a < selected ==> Measured(t, a, b) < size
  }

  /** The runs that begin before the scan's new position are those before the old one and the new. */
  lemma OnlyNewRun(t: Space, start: nat, first: nat, end: nat, next: nat, a: int, b: int)
    requires t.NoneFree(start, first) && t.Run(first, end) && end <= next && t.NoneFree(end, next)
    requires start <= first && t.Run(a, b) && a < next
    ensures a < start || (a == first && b == end)
  {
    assert t.Free(a) && !t.Free(a - 1) && t.Free(first);
    if a >= start {
      assert a >= first;
      assert first < a < end ==> t.Free(a - 1);
      assert a == first;
      assert b < end ==> t.Free(b);
      assert b > end ==> t.Free(end);
    }
  }

  lemma NewSeen(t: Space, start: nat, first: nat, end: nat, next: nat, size: nat)
    requires t.NoneFree(start, first) && t.Run(first, end) && end <= next && t.NoneFree(end, next) && start <= first
    requires SeenAtMost(t, start, size)
    ensures SeenAtMost(t, next, if Measured(t, first, end) > size then Measured(t, first, end) else size)
  {
    hide Measured;
    forall a, b | t.Run(a, b) && a < next
      ensures Measured(t, a, b) <= size || Measured(t, a, b) <= Measured(t, first, end)
    {
      OnlyNewRun(t, start, first, end, next, a, b);
    }
  }

  lemma NewEarliest(t: Space, start: nat, first: nat, end: nat, next: nat, selected: nat, size: nat)
    requires t.NoneFree(start, first) && t.Run(first, end) && end <= next && t.NoneFree(end, next)
    requires selected <= start <= first && EarliestLargest(t, start, selected, size)
    ensures if Measured(t, first, end) > size then EarliestLargest(t, next, first, Measured(t, first, end))
            else EarliestLargest(t, next, selected, size)
  {
    hide Measured;
    NewSeen(t, start, first, end, next, size);
    if Measured(t, first, end) > size {
      forall a, b | t.Run(a, b) && a < first
        ensures Measured(t, a, b) < Measured(t, first, end)
      {
        OnlyNewRun(t, start, first, end, next, a, b);
      }
    }
  }

  /** At the end of the scan every run has been seen. */
  lemma AllSeen(t: Space, start: nat, a: int, b: int)
    requires start <= t.hi + 1 && t.NoneFree(start, t.hi + 1) && t.Run(a, b)
    ensures a < start
  {
    assert t.Free(a);
  }

  lemma SeenAll(t: Space, start: nat, size: nat)
    requires start <= t.hi + 1 && t.NoneFree(start, t.hi + 1) && SeenAtMost(t, start, size)
    ensures forall a, b :: t.Run(a, b) ==> Measured(t, a, b) <= size
  {
    forall a, b | t.Run(a, b)
      ensures Measured(t, a, b) <= size
    {
      AllSeen(t, start, a, b);
    }
  }

  lemma EarliestOfAll(t: Space, start: nat, selected: nat, size: nat)
    requires start <= t.hi + 1 && t.NoneFree(start, t.hi + 1) && EarliestLargest(t, start, selected, size)
    ensures forall a, b :: t.Run(a, b) ==> Measured(t, a, b) <= size
    ensures forall a, b :: t.Run(a, b) && a < selected ==> Measured(t, a, b) < size
  {
    SeenAll(t, start, size);
  }

  /** What is left of the range has nothing free and nothing gone past. */
  lemma ScanEnd(t: Space, start: nat)
    requires Scanning(t, start, 0)
    ensures CountFree(t, t.hi + 1) == CountFree(t, start) && CountRuns(t, t.hi + 1) == CountRuns(t, start)
    ensures CountOver(t, t.hi + 1) == CountOver(t, start)
  {
    hide CountFree, CountRuns, CountOver;
    CountNone(t, start, t.hi + 1);
    forall x | start <= x < t.hi + 1
      ensures !Over(t, x)
    {
      assert x > start ==> !t.Free(x - 1);
    }
    CountOverNone(t, start, t.hi + 1);
  }

  // ---------- when the answers are right ----------

  /** [a, b) is a longest run. */
  ghost predicate Longest(t: Space, a: int, b: int) {
    t.Run(a, b) && forall c, d :: t.Run(c, d) ==> d - c <= b - a
  }

  /** What FindFreeBlocks reports as the longest run, from the largest measure of all runs. */
  ghost predicate LargestMeasure(t: Space, size: nat) {
    (forall a, b :: t.Run(a, b) ==> Measured(t, a, b) <= size) && Attained(t, size)
  }

  /** A size other than zero is the measure of some run. */
  ghost predicate Attained(t: Space, size: nat) { size > 0 ==> exists a, b :: t.Run(a, b) && Measured(t, a, b) == size }

  lemma AttainedBy(t: Space, a: int, b: int)
    requires t.Run(a, b) && Measured(t, a, b) >= 0
    ensures Attained(t, Measured(t, a, b))
  {}

  /** The reported length is that of the longest run if and only if no longest run is gone past. */
  lemma LongestExact(t: Space, size: nat, a: int, b: int)
    requires LargestMeasure(t, size) && Longest(t, a, b)
    ensures size == b - a <==> forall c, d :: Longest(t, c, d) ==> !Over(t, d)
  {
    hide Over;
    assert Measured(t, a, b) <= size;
    var c, d :| t.Run(c, d) && Measured(t, c, d) == size;
    if forall c, d :: Longest(t, c, d) ==> !Over(t, d) {
      assert d - c == b - a ==> Longest(t, c, d);
    }
    if exists c, d :: Longest(t, c, d) && Over(t, d) {
      var c, d :| Longest(t, c, d) && Over(t, d);
      assert Measured(t, c, d) <= size && b - a <= d - c;
    }
  }

  /** [a, b) is the earliest longest run. */
  ghost predicate EarliestLongest(t: Space, a: int, b: int) {
    Longest(t, a, b) && forall c, d :: t.Run(c, d) && c < a ==> d - c < b - a
  }

  /** What FindFirstInLargest selects: the start of the earliest run with the largest measure. */
  ghost predicate Selected(t: Space, selected: nat, end: nat) {
    && t.Run(selected, end)
    && (forall a, b :: t.Run(a, b) ==> Measured(t, a, b) <= Measured(t, selected, end))
    && (forall a, b :: t.Run(a, b) && a < selected ==> Measured(t, a, b) < Measured(t, selected, end))
  }

  /** A run whose measure competes with that of the earliest longest run [a, b). */
  ghost predicate Competes(t: Space, a: int, b: int, c: int, d: int) {
    t.Run(c, d) && Over(t, d) && (d - c == b - a || (d - c == b - a - 1 && c < a))
  }

  /** The selected run is the earliest longest one if and only if that one is gone past itself, or
      no other longest run is and no earlier run that is one sector shorter. */
  lemma SelectedExact(t: Space, selected: nat, end: nat, a: int, b: int)
    requires Selected(t, selected, end) && EarliestLongest(t, a, b)
    ensures selected == a <==> Over(t, b) || forall c, d :: !Competes(t, a, b, c, d)
  {
    hide Over;
    assert Measured(t, a, b) <= Measured(t, selected, end);
    assert t.Run(selected, end) && end - selected <= b - a;
    if selected == a {
      SameRun(t, a, b, end);
      forall c, d | !Over(t, b)
        ensures !Competes(t, a, b, c, d)
      {
        assert t.Run(c, d) ==> Measured(t, c, d) <= b - a;
        assert t.Run(c, d) && c < a ==> Measured(t, c, d) < b - a;
      }
    } else {
      assert selected > a ==> Measured(t, a, b) < Measured(t, selected, end);
      assert selected < a ==> end - selected < b - a;
      assert Competes(t, a, b, selected, end);
    }
  }

  lemma SameRun(t: Space, a: int, b: int, c: int)
    requires t.Run(a, b) && t.Run(a, c)
    ensures b == c
  {
    assert b < c ==> t.Free(b);
    assert c < b ==> t.Free(c);
  }

  /** The runs of the table below, which has 40..50 occupied in the range 34..57. */
  lemma TwoRuns(t: Space)
    requires t.lo == 34 && t.hi == 57 && forall x :: t.Occupied(x) <==> 40 <= x <= 50
    ensures t.Run(34, 40) && t.Run(51, 58) && forall c, d :: t.Run(c, d) ==> (c, d) in {(34, 40), (51, 58)}
  {
    assert forall x :: t.Free(x) <==> 34 <= x < 40 || 51 <= x < 58;
    forall c, d | t.Run(c, d)
      ensures (c, d) in {(34, 40), (51, 58)}
    {
      assert t.Free(c) && t.Free(d - 1);
      assert c == 34 || c == 51;
      SameRun(t, c, d, if c == 34 then 40 else 58);
    }
  }

  /** A shorter run is selected: with 41..50 before 40..40 in the array, the run of six sectors before
      them wins against the run of seven behind them. */
  lemma ShorterSelected(a: Part, b: Part)
    requires a.IsUsed() && b.IsUsed() && a.firstLBA == a.lastLBA == 40 && b.firstLBA == 41 && b.lastLBA == 50
    ensures var t := Space([b, a], 34, 57);
      t.WellFormed() && Selected(t, 34, 40) && EarliestLongest(t, 51, 58) && Competes(t, 51, 58, 34, 40)
  {
    var t := Space([b, a], 34, 57);
    assert t.parts[0] == b && t.parts[1] == a;
    forall x
      ensures t.Occupied(x) <==> 40 <= x <= 50
    {
      assert 40 <= x <= 50 ==> Covers(t.parts[0], x) || Covers(t.parts[1], x);
    }
    TwoRuns(t);
    assert Over(t, 40) && !Over(t, 58) by {
      assert t.Free(39);
      assert !PassedOver(t, 0);
      assert PassedOver(t, 1);
    }
  }
}
