/** From a legal table to the disk and back: how CreateExtended arranges the entries, and when
    what WriteMBRData leaves on the disk reads back as the same partitions. */
module MbrLayout {
  import opened MbrTable
  import opened MbrChain
  import opened Rearranging

  // ---------- rearranging ----------

  /** The same included partitions, each as often. */
  ghost predicate SameIncluded(s: seq<Part>, t: seq<Part>) {
    forall p: Part :: p.Included() ==> multiset(s)[p] == multiset(t)[p]
  }

  lemma SameInRearranged(r: seq<Part>, u: seq<Part>, t: seq<Part>)
    requires SameIncluded(r, u) && multiset(u) == multiset(t)
    ensures SameIncluded(r, t)
  {}

  lemma {:induction false} CountConcat(s: seq<Part>, t: seq<Part>, f: Part -> bool)
    ensures Count(s + t, f) == Count(s, f) + Count(t, f)
    decreases |t|
  {
    if t == [] {
      assert s + t == s;
    } else {
      var n := |t| - 1;
      assert (s + t)[..|s + t| - 1] == s + t[..n];
      CountConcat(s, t[..n], f);
    }
  }

  /** Counting does not depend on the order. */
  lemma {:induction false} CountRearranged(s: seq<Part>, t: seq<Part>, f: Part -> bool)
    requires multiset(s) == multiset(t)
    ensures Count(s, f) == Count(t, f)
    decreases |s|
  {
    if s == [] {
      assert |multiset(t)| == 0;
    } else {
      var n := |s| - 1;
      var p := s[n];
      assert p in multiset(s);
      var i :| 0 <= i < |t| && t[i] == p;
      Removed(t, i);
      Removed(s, n);
      CountRemoved(t, i, f);
      assert s[..n] == s[..n] + s[n + 1..];
      CountRearranged(s[..n], t[..i] + t[i + 1..], f);
    }
  }

  lemma CountRemoved(s: seq<Part>, i: nat, f: Part -> bool)
    requires i < |s|
    ensures Count(s, f) == Count(s[..i] + s[i + 1..], f) + (if f(s[i]) then 1 else 0)
  {
    hide Count;
    SplitAt(s, i);
    CountPieces(s[..i], s[i], s[i + 1..], f);
  }

  lemma CountPieces(a: seq<Part>, p: Part, b: seq<Part>, f: Part -> bool)
    ensures Count(a + [p] + b, f) == Count(a + b, f) + (if f(p) then 1 else 0)
  {
    hide Count;
    CountConcat(a, b, f);
    CountConcat(a + [p], b, f);
    CountConcat(a, [p], f);
    CountOne(p, f);
  }

  lemma CountOne(p: Part, f: Part -> bool)
    ensures Count([p], f) == if f(p) then 1 else 0
  {
    assert [p][..0] == [];
  }

  lemma {:induction false} CountPositive(s: seq<Part>, f: Part -> bool)
    ensures Count(s, f) > 0 <==> exists i :: 0 <= i < |s| && f(s[i])
    ensures Count(s, f) == |s| <==> forall i :: 0 <= i < |s| ==> f(s[i])
  {
    if s != [] {
      var n := |s| - 1;
      CountPositive(s[..n], f);
      assert forall i :: 0 <= i < n ==> s[..n][i] == s[i];
      if exists i :: 0 <= i < |s| && f(s[i]) {
        var i :| 0 <= i < |s| && f(s[i]);
        assert i < n ==> f(s[..n][i]);
      }
      if exists i :: 0 <= i < n && f(s[..n][i]) {
        var i :| 0 <= i < n && f(s[..n][i]);
        assert f(s[i]);
      }
      if forall i :: 0 <= i < |s| ==> f(s[i]) {
        forall i | 0 <= i < n ensures f(s[..n][i]) { assert f(s[i]); }
      }
      if (forall i :: 0 <= i < n ==> f(s[..n][i])) && f(s[n]) {
        forall i | 0 <= i < |s| ensures f(s[i]) { assert i < n ==> f(s[..n][i]); }
      }
    }
  }

  lemma TidyRearranged(t: seq<Part>, u: seq<Part>)
    requires Tidy(t) && multiset(t) == multiset(u)
    ensures Tidy(u)
  {
    assert |multiset(u)| == |u| && |multiset(t)| == |t|;
    forall i | 0 <= i < |u|
      ensures TidyPart(u[i])
    {
      assert u[i] in multiset(u);
    }
  }

  lemma NoOverlapsRearranged(t: seq<Part>, u: seq<Part>)
    requires NoOverlaps(t) && multiset(t) == multiset(u)
    ensures NoOverlaps(u)
  {
    forall i, j | 0 <= i < j < |u| && u[i].Included() && u[j].Included()
      ensures !Overlap(u[i], u[j])
    {
      var a, b := TwoPlaces(u, t, i, j);
      assert a < b ==> !Overlap(t[a], t[b]);
      assert b < a ==> !Overlap(t[b], t[a]);
    }
  }

  /** The span of the logicals does not depend on the order either. */
  lemma SpanRearranged(t: seq<Part>, u: seq<Part>)
    requires Tidy(t) && multiset(t) == multiset(u)
    ensures FirstLogical(t) == FirstLogical(u) && LastLogical(t) == LastLogical(u) && (HasLogical(t) <==> HasLogical(u))
  {
    hide FirstLogical, LastLogical;
    TidyRearranged(t, u);
    SpanWithin(t, u);
    SpanWithin(u, t);
  }

  lemma SpanWithin(t: seq<Part>, u: seq<Part>)
    requires Tidy(t) && Tidy(u) && multiset(t) == multiset(u)
    ensures HasLogical(t) ==> HasLogical(u) && FirstLogical(u) <= FirstLogical(t) && LastLogical(t) <= LastLogical(u)
    ensures !HasLogical(t) ==> FirstLogical(t) == UINT32_MAX && LastLogical(t) == 0
  {
    hide FirstLogical, LastLogical;
    FirstLogicalMeaning(t);
    FirstLogicalMeaning(u);
    if HasLogical(t) {
      var i :| 0 <= i < |t| && t[i].role == Logical && t[i].first == FirstLogical(t);
      var j :| 0 <= j < |t| && t[j].role == Logical && t[j].Last() == LastLogical(t);
      assert t[i] in multiset(t) && t[j] in multiset(t);
      var a :| 0 <= a < |u| && u[a] == t[i];
      var b :| 0 <= b < |u| && u[b] == t[j];
    }
  }

  // ---------- the arrangement ----------

  /** MBRPart::operator<. */
  predicate Precedes(p: Part, q: Part) {
    if p.length != 0 && q.length != 0 then p.first < q.first else q.first < p.first
  }

  /** Empty entries, and no others, start on sector 0. */
  predicate Sortable(p: Part) { p.first == 0 <==> p.length == 0 }

  /** The comparison is an order on such entries. */
  lemma PrecedesOrders()
    ensures Orders(Precedes, Sortable)
  {}

  /** It is none on others: a partition on sector 0 precedes one after it, but neither precedes nor
      follows an empty entry, which the other one precedes. */
  lemma PrecedesDisorders(p: Part, q: Part, e: Part)
    requires p.length > 0 && p.first == 0 && q.length > 0 && q.first > 0 && e.length == 0 && e.first == 0
    ensures Precedes(p, q) && Precedes(q, e) && !Precedes(p, e) && !Precedes(e, p)
    ensures !Orders(Precedes, (x: Part) => true)
  {
    var any := (x: Part) => true;
    assert any(p) && any(q) && any(e) && !Precedes(e, q);
  }

  /** Primaries and empty entries in the first four slots, no primary after them, and the rest in
      order of their first sector if there are logicals. */
  predicate Arranged(u: seq<Part>) {
    && |u| == MAX_MBR_PARTS
    && (forall i :: 0 <= i < 4 ==> u[i].role == Primary || u[i].length == 0)
    && (forall i :: 4 <= i < |u| ==> u[i].role != Primary)
    && (HasLogical(u) ==> Ordered(u[4..], Precedes))
  }

  /** The extended partition, with its length cut to 32 bits. */
  function Extended(t: seq<Part>): Part {
    Part(0, 0x0f, (FirstLogical(t) - 1) % TWO32, (LastLogical(t) - FirstLogical(t) + 2) % TWO32, Primary)
  }

  /** The number of sectors of the extended partition is a multiple of 2^32. */
  predicate CutToNothing(t: seq<Part>) { (LastLogical(t) - FirstLogical(t) + 2) % TWO32 == 0 }

  /** A slot for the extended partition. */
  predicate Spare(u: seq<Part>, k: nat) { k < 4 && k < |u| && u[k].length == 0 }

  /** On a legal table the extended partition covers exactly the sectors from the first EBR to the
      last logical sector, if and only if their number fits 32 bits; it then holds every logical
      with its EBR, and touches no primary. */
  lemma ExtendedExact(t: seq<Part>, diskSize: nat)
    requires Tidy(t) && Legal(t, diskSize) && HasLogical(t)
    ensures (forall s: int :: Extended(t).Has(s) <==> FirstLogical(t) - 1 <= s <= LastLogical(t))
            <==> LastLogical(t) - FirstLogical(t) + 2 <= UINT32_MAX
    ensures forall i, s: nat :: 0 <= i < |t| && t[i].role == Primary && FirstLogical(t) - 1 <= s <= LastLogical(t) ==>
      !t[i].Has(s)
    ensures forall i :: 0 <= i < |t| && t[i].role == Logical ==>
      FirstLogical(t) <= t[i].first && t[i].Last() <= LastLogical(t)
  {
    hide FirstLogical, LastLogical, Legal;
    FirstLogicalMeaning(t);
    var x := Extended(t);
    var lo, hi := FirstLogical(t) - 1, LastLogical(t);
    assert x.first == lo;
    if hi - lo + 1 <= UINT32_MAX {
      assert x.length == hi - lo + 1;
    } else {
      assert x.length <= UINT32_MAX;
      assert !x.Has(hi);
    }
    forall i, s: nat | 0 <= i < |t| && t[i].role == Primary && lo <= s <= hi
      ensures !t[i].Has(s)
    {
      ExtendedApart(t, diskSize, i, s);
    }
  }

  // ---------- the logicals in order ----------

  function Logicals(s: seq<Part>): (l: seq<Part>)
    ensures |l| <= |s|
  {
    if s == [] then []
    else Logicals(s[..|s| - 1]) + (if s[|s| - 1].role == Logical then [s[|s| - 1]] else [])
  }

  lemma {:induction false} LogicalsCount(s: seq<Part>, p: Part)
    ensures multiset(Logicals(s))[p] == if p.role == Logical then multiset(s)[p] else 0
  {
    if s != [] {
      var n := |s| - 1;
      LogicalsCount(s[..n], p);
      assert s == s[..n] + [s[n]];
    }
  }

  /** A logical's place among the logicals is the number of logicals before it. */
  lemma {:induction false} LogicalsAt(s: seq<Part>, a: nat)
    requires a < |s| && s[a].role == Logical
    ensures |Logicals(s[..a])| < |Logicals(s)| && Logicals(s)[|Logicals(s[..a])|] == s[a]
  {
    var n := |s| - 1;
    if a < n {
      LogicalsAt(s[..n], a);
      assert s[..n][..a] == s[..a];
    }
  }

  lemma {:induction false} LogicalsSkip(s: seq<Part>, a: nat, b: nat)
    requires a <= b <= |s| && forall i :: a <= i < b ==> s[i].role != Logical
    ensures Logicals(s[..b]) == Logicals(s[..a])
    decreases b
  {
    if a < b {
      LogicalsSkip(s, a, b - 1);
      assert s[..b][..b - 1] == s[..b - 1];
    }
  }

  /** Where the logicals are. */
  lemma {:induction false} LogicalsPlaces(s: seq<Part>) returns (places: seq<nat>)
    ensures |places| == |Logicals(s)|
    ensures forall i :: 0 <= i < |places| ==>
      places[i] < |s| && Logicals(s)[i] == s[places[i]] && s[places[i]].role == Logical
    ensures forall i, j :: 0 <= i < j < |places| ==> places[i] < places[j]
  {
    if s == [] {
      places := [];
    } else {
      var n := |s| - 1;
      places := LogicalsPlaces(s[..n]);
      assert forall i :: 0 <= i < n ==> s[..n][i] == s[i];
      if s[n].role == Logical {
        places := places + [n];
      }
    }
  }

  /** In an arranged legal table the logicals come in ascending order. */
  lemma LogicalsAscend(u: seq<Part>)
    requires Tidy(u) && Arranged(u) && NoOverlaps(u)
    ensures var l := Logicals(u[4..]); forall i, j :: 0 <= i < j < |l| ==> l[i].first < l[j].first
    ensures var l := Logicals(u[4..]); forall i :: 0 <= i < |l| ==> TidyPart(l[i]) && l[i].role == Logical
  {
    hide Logicals;
    var s := u[4..];
    var l := Logicals(s);
    var places := LogicalsPlaces(s);
    forall i | 0 <= i < |l|
      ensures l[i] == u[places[i] + 4] && TidyPart(l[i]) && l[i].role == Logical
    {
      assert s[places[i]] == u[places[i] + 4];
    }
    forall i, j | 0 <= i < j < |l|
      ensures l[i].first < l[j].first
    {
      var a, b := places[i], places[j];
      assert HasLogical(u) by { assert u[a + 4].role == Logical; }
      assert !Precedes(s[b], s[a]);
      assert !Overlap(u[a + 4], u[b + 4]);
    }
  }

  /** The first of the ordered logicals starts the span. */
  lemma FirstOfLogicals(u: seq<Part>)
    requires Tidy(u) && Arranged(u) && NoOverlaps(u)
    ensures var l := Logicals(u[4..]);
            if HasLogical(u) then l != [] && l[0].first == FirstLogical(u) else l == []
  {
    hide FirstLogical, LastLogical, Logicals;
    var s := u[4..];
    var l := Logicals(s);
    FirstLogicalMeaning(u);
    LogicalsAscend(u);
    var places := LogicalsPlaces(s);
    if l != [] {
      assert s[places[0]] == u[places[0] + 4];
    }
    if HasLogical(u) {
      var f :| 0 <= f < |u| && u[f].role == Logical && u[f].first == FirstLogical(u);
      assert f >= 4 && s[f - 4] == u[f];
      LogicalsCount(s, u[f]);
      assert u[f] in multiset(s);
      assert u[f] in multiset(l);
      var j :| 0 <= j < |l| && l[j] == u[f];
      assert l[0].first <= l[j].first;
    }
  }

  // ---------- round trips ----------

  /** What WriteMBRData leaves on the disk for an arranged table u whose spare slot k was given to
      the extended partition. */
  ghost predicate Written(disk: seq<Sector>, u: seq<Part>, k: nat)
    requires |u| == MAX_MBR_PARTS
  {
    var l := Logicals(u[4..]);
    if l == [] then Saved(disk, u[..4], l, 4)
    else
      k < 4 &&
      var main := u[k := Extended(u)][..4];
      && disk != [] && Chained(disk, Extended(u).first, l)
      && (Extended(u).first > 0 ==> Saved(disk, main, l, k))
      && (Extended(u).first == 0 ==> disk[0].records[2].kind == 0 && disk[0].records[3].kind == 0)
  }

  /** No logical partition has its EBR in sector 0. */
  predicate EbrsAfterMbr(t: seq<Part>) { forall i :: 0 <= i < |t| && t[i].role == Logical ==> t[i].first >= 2 }

  ghost predicate RoundTrips(disk: seq<Sector>, t: seq<Part>) {
    Ends(disk, Primaries(disk), 3, 0, MAX_MBR_PARTS) && SameIncluded(ReadTable(disk, MAX_MBR_PARTS), t)
  }

  /** Writing a legal table and reading it back gives the same partitions if and only if no EBR
      falls on the boot record itself. */
  lemma RoundTripExact(disk: seq<Sector>, t: seq<Part>, u: seq<Part>, k: nat)
    requires Tidy(t) && NoOverlaps(t) && multiset(t) == multiset(u) && Arranged(u)
    requires HasLogical(t) ==> Spare(u, k)
    requires Written(disk, u, k)
    ensures RoundTrips(disk, t) <==> EbrsAfterMbr(t)
  {
    if EbrsAfterMbr(t) {
      Faithful(disk, t, u, k);
    } else {
      Overwritten(disk, t, u, k);
    }
  }

  lemma FromTable(t: seq<Part>, u: seq<Part>, i: nat)
    requires |u| == MAX_MBR_PARTS && multiset(t) == multiset(u) && i < |Logicals(u[4..])|
    ensures Logicals(u[4..])[i] in t
  {
    hide Logicals;
    var p := Logicals(u[4..])[i];
    LogicalsCount(u[4..], p);
    assert p in multiset(Logicals(u[4..]));
    assert p in u[4..];
    assert p in multiset(u);
  }

  lemma Faithful(disk: seq<Sector>, t: seq<Part>, u: seq<Part>, k: nat)
    requires Tidy(t) && NoOverlaps(t) && multiset(t) == multiset(u) && Arranged(u)
    requires HasLogical(t) ==> Spare(u, k)
    requires Written(disk, u, k) && EbrsAfterMbr(t)
    ensures RoundTrips(disk, t)
  {
    hide FirstLogical, LastLogical, Logicals, ReadTable, Ends, Saved, Chained, NoOverlaps, SameIncluded;
    TidyRearranged(t, u);
    NoOverlapsRearranged(t, u);
    SpanRearranged(t, u);
    LogicalsAscend(u);
    FirstOfLogicals(u);
    FirstLogicalMeaning(u);
    var l := Logicals(u[4..]);
    forall i | 0 <= i < |l|
      ensures l[i].first >= 2
    {
      FromTable(t, u, i);
    }
    assert Ascending(l);
    if l == [] {
      ReadsBack(disk, u[..4], l, 4);
      Gathered(u, u[..4], l);
      SameInRearranged(ReadTable(disk, MAX_MBR_PARTS), u, t);
    } else {
      var main := u[k := Extended(u)][..4];
      ReadsBack(disk, main, l, k);
      assert main[k := BLANK] == u[k := BLANK][..4];
      Gathered(u, main[k := BLANK], l);
      SameInRearranged(ReadTable(disk, MAX_MBR_PARTS), u, t);
    }
  }

  /** The primaries of the first four slots and the logicals after them are all that is included. */
  lemma Gathered(u: seq<Part>, main: seq<Part>, l: seq<Part>)
    requires Tidy(u) && Arranged(u) && l == Logicals(u[4..]) && |main| == 4
    requires forall i :: 0 <= i < 4 ==> main[i] == u[i] || (main[i] == BLANK && u[i].length == 0)
    ensures SameIncluded(main + l + Blanks(MAX_MBR_PARTS - 4 - |l|), u)
  {
    hide Logicals;
    forall p: Part | p.Included()
      ensures multiset(main + l + Blanks(MAX_MBR_PARTS - 4 - |l|))[p] == multiset(u)[p]
    {
      GatheredOne(u, main, l, Blanks(MAX_MBR_PARTS - 4 - |l|), p);
    }
  }

  lemma GatheredOne(u: seq<Part>, main: seq<Part>, l: seq<Part>, rest: seq<Part>, p: Part)
    requires |u| == MAX_MBR_PARTS && Arranged(u) && l == Logicals(u[4..]) && |main| == 4 && p.Included()
    requires forall i :: 0 <= i < 4 ==> (main[i] == p <==> u[i] == p)
    requires p !in rest
    ensures multiset(main + l + rest)[p] == multiset(u)[p]
  {
    hide Logicals, Ordered;
    assert u == u[..4] + u[4..];
    LogicalsCount(u[4..], p);
    Alike(main, u[..4], p);
    if p.role == Primary {
      assert p !in u[4..];
    }
  }

  lemma {:induction false} Alike(a: seq<Part>, b: seq<Part>, p: Part)
    requires |a| == |b| && forall i :: 0 <= i < |a| ==> (a[i] == p <==> b[i] == p)
    ensures multiset(a)[p] == multiset(b)[p]
  {
    if a != [] {
      var n := |a| - 1;
      Alike(a[..n], b[..n], p);
      assert a == a[..n] + [a[n]] && b == b[..n] + [b[n]];
    }
  }

  lemma {:induction false} WalkKeeps(disk: seq<Sector>, ext: nat, r: Reader, fuel: nat, i: nat)
    requires i < r.partNum && i < |r.parts|
    ensures var e := Walk(disk, ext, r, fuel); |e.parts| == |r.parts| && e.parts[i] == r.parts[i]
    decreases fuel
  {
    if fuel > 0 && r.Running() {
      var s := ReadStep(disk, ext, r);
      if s.Running() {
        WalkKeeps(disk, ext, s, fuel - 1, i);
      }
    }
  }

  /** A logical that starts in sector 1 has its EBR written over the boot record, and reads back as
      a primary. */
  lemma Overwritten(disk: seq<Sector>, t: seq<Part>, u: seq<Part>, k: nat)
    requires Tidy(t) && NoOverlaps(t) && multiset(t) == multiset(u) && Arranged(u)
    requires HasLogical(t) ==> Spare(u, k)
    requires Written(disk, u, k) && !EbrsAfterMbr(t)
    ensures !SameIncluded(ReadTable(disk, MAX_MBR_PARTS), t)
  {
    hide FirstLogical, LastLogical, Logicals, Walk, NoOverlaps;
    TidyRearranged(t, u);
    NoOverlapsRearranged(t, u);
    SpanRearranged(t, u);
    LogicalsAscend(u);
    FirstOfLogicals(u);
    FirstLogicalMeaning(t);
    var l := Logicals(u[4..]);
    var i :| 0 <= i < |t| && t[i].role == Logical && t[i].first < 2;
    assert l != [] && l[0].first == 1;
    assert Link(disk, 0, l, 0);
    var p := Load(disk[0].records[0]);
    assert p.role == Primary && p.first == 1 && !IsExtended(p.kind);
    FirstSlotStays(disk);
    var r := ReadTable(disk, MAX_MBR_PARTS);
    assert r[0] == p && p in multiset(r);
    if p in multiset(t) {
      var j :| 0 <= j < |t| && t[j] == p;
      OnlyOneAtOne(t, i, j);
    }
    assert multiset(r)[p] != multiset(t)[p];
  }

  lemma OnlyOneAtOne(t: seq<Part>, i: nat, j: nat)
    requires i < |t| && j < |t| && i != j && t[i].Included() && t[j].Included() && t[i].length > 0 && t[j].length > 0
    requires t[i].first == t[j].first
    ensures !NoOverlaps(t)
  {
    assert Overlap(t[i], t[j]) && Overlap(t[j], t[i]);
  }

  /** The first slot of the boot record, if it is no extended partition, is read as it is. */
  lemma FirstSlotStays(disk: seq<Sector>)
    requires Signed(disk) && !IsExtended(disk[0].records[0].kind)
    requires disk[0].records[2].kind == 0 && disk[0].records[3].kind == 0
    ensures var r := ReadTable(disk, MAX_MBR_PARTS); |r| > 0 && r[0] == Load(disk[0].records[0])
  {
    hide Walk;
    var t := Primaries(disk);
    assert ReadTable(disk, MAX_MBR_PARTS) == ReadExtended(disk, t, 3, 1, MAX_MBR_PARTS);
    if IsExtended(t[1].kind) {
      var r := Begin(t, 4, t[1].first);
      var e := Walk(disk, t[1].first, r, MAX_MBR_PARTS);
      WalkSize(disk, t[1].first, r, MAX_MBR_PARTS);
      forall i | 0 <= i < 4
        ensures e.parts[i] == t[i]
      {
        WalkKeeps(disk, t[1].first, r, MAX_MBR_PARTS, i);
      }
      NothingExtended(disk, e.parts[1 := BLANK], Outcome(e), 2);
    } else {
      NothingExtended(disk, t, 3, 1);
    }
  }
}
