/** Which partitions repairing an MBR table (gdisk/basicmbr.cc) keeps. */
module MbrKept {
  import opened MbrTable
  import opened MbrLayout
  import opened MbrRepair

  // ---------- what keeps an entry from being primary ----------

  /** The last sector is the boot record, or the one before a logical. */
  predicate BeforeLogical(t: seq<Part>, p: Part) {
    p.Last() == 0 || exists j :: 0 <= j < |t| && t[j].role == Logical && t[j].first == p.Last() + 1
  }

  /** Strictly within the span of the logicals. */
  predicate AmongLogicals(t: seq<Part>, p: Part) { FirstLogical(t) < p.first && p.Last() < LastLogical(t) }

  predicate Barred(t: seq<Part>, p: Part) { BeforeLogical(t, p) || AmongLogicals(t, p) }

  predicate LeftOut(p: Part) { p.length > 0 && p.role == Omitted }

  lemma {:induction false} EbrBefore(t: seq<Part>, sector: nat, diskSize: nat, n: nat)
    requires n <= |t| && UsedAs(t, sector, diskSize, n) == Ebr
    ensures sector == 0 || exists j :: 0 <= j < |t| && t[j].role == Logical && t[j].first == sector + 1
  {
    if n > 0 && UsedAs(t, sector, diskSize, n - 1) == Ebr {
      EbrBefore(t, sector, diskSize, n - 1);
    } else if n > 0 {
      assert sector > 0 ==> t[n - 1].role == Logical && t[n - 1].first == sector + 1;
    }
  }

  /** An entry that cannot be primary is barred, or there is no slot for it. */
  lemma NoFlag(t: seq<Part>, i: nat, diskSize: nat)
    requires i < |t| && t[i].length > 0 && !PrimaryFlag(t, i, diskSize)
    ensures Barred(t, t[i]) || NumPrimaries(t) >= 4
  {
    hide UsedAs, FirstLogical, LastLogical, NumPrimaries;
    if EndsOnEbr(t, i, diskSize) {
      EbrBefore(t, t[i].Last(), diskSize, |t|);
    }
  }

  // ---------- adding primaries ----------

  /** Some omitted entries have become primary, and nothing else has changed. */
  predicate Promoted(t: seq<Part>, u: seq<Part>) {
    && |t| == |u|
    && forall i :: 0 <= i < |t| ==> u[i] == t[i] || (t[i].role == Omitted && u[i] == t[i].(role := Primary))
  }

  lemma {:induction false} PromotedSpan(t: seq<Part>, u: seq<Part>)
    requires Promoted(t, u)
    ensures FirstLogical(u) == FirstLogical(t) && LastLogical(u) == LastLogical(t)
    ensures Count(t, isPrimary) <= Count(u, isPrimary)
  {
    if t != [] {
      PromotedSpan(t[..|t| - 1], u[..|u| - 1]);
    }
  }

  lemma PromotedBars(t: seq<Part>, u: seq<Part>, p: Part)
    requires Promoted(t, u)
    ensures Barred(u, p) <==> Barred(t, p)
    ensures NumPrimaries(t) <= NumPrimaries(u)
  {
    hide FirstLogical, LastLogical, Count;
    PromotedSpan(t, u);
    if BeforeLogical(t, p) && p.Last() != 0 {
      var j :| 0 <= j < |t| && t[j].role == Logical && t[j].first == p.Last() + 1;
      assert u[j] == t[j];
    }
    if HasLogical(t) {
      var j :| 0 <= j < |t| && t[j].length > 0 && t[j].role == Logical;
      assert u[j] == t[j];
    }
  }

  /** One more primary takes one more slot. */
  lemma OnePrimaryMore(t: seq<Part>, i: nat)
    requires i < |t| && LeftOut(t[i])
    ensures NumPrimaries(t[i := t[i].(role := Primary)]) == NumPrimaries(t) + 1
  {
    hide NumPrimaries;
    var u := t[i := t[i].(role := Primary)];
    OnePrimaryLess(u, i);
    assert u[i := u[i].(role := Omitted)] == t;
  }

  /** Why an entry may be left out although a slot is free: it is barred, or it was, or no slot was
      free, when entry 0 had the role it has in base. */
  predicate Excused(t: seq<Part>, base: seq<Part>, p: Part) {
    Barred(t, p) || Barred(base, p) || NumPrimaries(base) >= 4
  }

  /** Four slots are in use, or every entry left out has an excuse. */
  predicate Saturated(t: seq<Part>, base: seq<Part>) {
    NumPrimaries(t) >= 4 || forall i :: 0 <= i < |t| && LeftOut(t[i]) ==> Excused(t, base, t[i])
  }

  /** The entries from i on that have no flag have an excuse, as those before i that are left out. */
  ghost predicate Filling(t: seq<Part>, flags: seq<bool>, base: seq<Part>, i: nat)
    requires |flags| == |t|
  {
    && EmptyOmitted(t) && (forall j :: 0 <= j < |t| && flags[j] ==> t[j].length > 0)
    && (NumPrimaries(t) >= 4
        || forall j :: 0 <= j < |t| && LeftOut(t[j]) && (j < i || !flags[j]) ==> Excused(t, base, t[j]))
  }

  lemma PromotedFilling(t: seq<Part>, flags: seq<bool>, base: seq<Part>, diskSize: nat, i: nat)
    requires |flags| == |t| && i < |t| && LeftOut(t[i]) && Filling(t, flags, base, i) && NumPrimaries(t) < 4
    ensures var u := t[i := t[i].(role := Primary)];
            Filling(u, PrimaryFlags(u, diskSize), base, i + 1) && Promoted(t, u)
  {
    hide NumPrimaries, Barred, PrimaryFlag;
    var u := t[i := t[i].(role := Primary)];
    FlagsOfSome(u, diskSize);
    assert Promoted(t, u);
    if NumPrimaries(u) < 4 {
      forall j | 0 <= j < |u| && LeftOut(u[j]) && (j < i + 1 || !PrimaryFlags(u, diskSize)[j])
        ensures Excused(u, base, u[j])
      {
        if j < i {
          PromotedBars(t, u, t[j]);
          assert Excused(t, base, t[j]);
        } else {
          NoFlag(u, j, diskSize);
        }
      }
    }
  }

  lemma {:induction false} FillSaturates(t: seq<Part>, flags: seq<bool>, base: seq<Part>, diskSize: nat, i: nat)
    requires |flags| == |t| && i <= |t| && Filling(t, flags, base, i)
    ensures var v := Fill(t, flags, diskSize, i, NumPrimaries(t)); Saturated(v, base) && Promoted(t, v)
    decreases |t| - i
  {
    hide NumPrimaries, Excused, PrimaryFlags;
    if NumPrimaries(t) < 4 && i < |t| {
      if t[i].role == Omitted && flags[i] {
        var u := t[i := t[i].(role := Primary)];
        PromotedFilling(t, flags, base, diskSize, i);
        OnePrimaryMore(t, i);
        FillSaturates(u, PrimaryFlags(u, diskSize), base, diskSize, i + 1);
        PromotedAgain(t, u, Fill(u, PrimaryFlags(u, diskSize), diskSize, i + 1, NumPrimaries(u)));
      } else {
        FillSaturates(t, flags, base, diskSize, i + 1);
      }
    }
  }

  lemma PromotedAgain(t: seq<Part>, u: seq<Part>, v: seq<Part>)
    requires Promoted(t, u) && Promoted(u, v)
    ensures Promoted(t, v)
  {}

  /** MaximizePrimaries, when the flags are up to date: four slots are in use afterwards, or every
      entry left out ends before a logical or lies strictly within the logicals. */
  lemma FreshFill(t: seq<Part>, diskSize: nat)
    requires EmptyOmitted(t)
    ensures
      var v := Fill(t, PrimaryFlags(t, diskSize), diskSize, 0, NumPrimaries(t));
      NumPrimaries(v) >= 4 || forall i :: 0 <= i < |v| && LeftOut(v[i]) ==> Barred(v, v[i])
  {
    hide NumPrimaries, Barred, PrimaryFlag, Fill;
    var flags := PrimaryFlags(t, diskSize);
    FlagsOfSome(t, diskSize);
    forall j | 0 <= j < |t| && LeftOut(t[j]) && !flags[j]
      ensures Barred(t, t[j]) || NumPrimaries(t) >= 4
    {
      NoFlag(t, j, diskSize);
    }
    FillSaturates(t, flags, t, diskSize, 0);
    var v := Fill(t, flags, diskSize, 0, NumPrimaries(t));
    forall i | 0 <= i < |v| && LeftOut(v[i])
      ensures Barred(v, v[i]) || NumPrimaries(v) >= 4
    {
      PromotedBars(t, v, v[i]);
      assert NumPrimaries(v) < 4 ==> Excused(v, t, v[i]);
    }
  }

  /** Four slots are in use, or every entry left out is barred. */
  predicate Filled(t: seq<Part>) {
    NumPrimaries(t) >= 4 || forall i :: 0 <= i < |t| && LeftOut(t[i]) ==> Barred(t, t[i])
  }

  /** The first entry from i on that MaximizePrimaries would add. */
  function FirstAdded(t: seq<Part>, flags: seq<bool>, i: nat): (c: nat)
    requires |flags| == |t| && i <= |t|
    ensures i <= c <= |t| && (c < |t| ==> t[c].role == Omitted && flags[c])
    ensures forall j :: i <= j < c ==> t[j].role != Omitted || !flags[j]
    decreases |t| - i
  {
    if i == |t| || (t[i].role == Omitted && flags[i]) then i else FirstAdded(t, flags, i + 1)
  }

  /** Nothing is added before that entry. */
  lemma {:induction false} FillSkips(t: seq<Part>, flags: seq<bool>, diskSize: nat, i: nat, n: nat)
    requires |flags| == |t| && i <= |t|
    ensures Fill(t, flags, diskSize, i, n) == Fill(t, flags, diskSize, FirstAdded(t, flags, i), n)
    decreases |t| - i
  {
    hide PrimaryFlags;
    if n < 4 && i < |t| && !(t[i].role == Omitted && flags[i]) {
      FillSkips(t, flags, diskSize, i + 1, n);
    }
  }

  lemma {:induction false} FillPromotes(t: seq<Part>, flags: seq<bool>, diskSize: nat, i: nat, n: nat)
    requires |flags| == |t| && i <= |t|
    ensures var v := Fill(t, flags, diskSize, i, n); Promoted(t, v) && forall j :: 0 <= j < i ==> v[j] == t[j]
    decreases |t| - i
  {
    hide PrimaryFlags;
    if n < 4 && i < |t| {
      if t[i].role == Omitted && flags[i] {
        var u := t[i := t[i].(role := Primary)];
        FillPromotes(u, PrimaryFlags(u, diskSize), diskSize, i + 1, n + 1);
        PromotedAgain(t, u, Fill(u, PrimaryFlags(u, diskSize), diskSize, i + 1, n + 1));
      } else {
        FillPromotes(t, flags, diskSize, i + 1, n);
      }
    }
  }

  /** MaximizePrimaries with any flags, exactly: it fills the table if and only if four slots are in use
      afterwards, or no entry before the first one it adds is left out without being barred. */
  lemma FilledExactly(t: seq<Part>, flags: seq<bool>, diskSize: nat)
    requires |flags| == |t| && EmptyOmitted(t) && forall j :: 0 <= j < |t| && flags[j] ==> t[j].length > 0
    ensures
      var v := Fill(t, flags, diskSize, 0, NumPrimaries(t));
      Filled(v) <==> NumPrimaries(v) >= 4
                     || forall i :: 0 <= i < FirstAdded(t, flags, 0) && LeftOut(t[i]) ==> Barred(t, t[i])
  {
    hide NumPrimaries, Barred, PrimaryFlag, Fill, FirstAdded;
    var c, n := FirstAdded(t, flags, 0), NumPrimaries(t);
    var v := Fill(t, flags, diskSize, 0, n);
    FillSkips(t, flags, diskSize, 0, n);
    FillPromotes(t, flags, diskSize, c, n);
    forall p: Part
      ensures Barred(v, p) <==> Barred(t, p)
    {
      PromotedBars(t, v, p);
    }
    if NumPrimaries(v) < 4 && forall i :: 0 <= i < c && LeftOut(t[i]) ==> Barred(t, t[i]) {
      PromotedBars(t, v, BLANK);
      RestFilled(t, flags, diskSize, c);
    }
  }

  /** From the first entry added on the flags are up to date. */
  lemma RestFilled(t: seq<Part>, flags: seq<bool>, diskSize: nat, c: nat)
    requires |flags| == |t| && EmptyOmitted(t) && NumPrimaries(t) < 4 && c <= |t|
    requires c < |t| ==> LeftOut(t[c]) && flags[c]
    requires forall i :: 0 <= i < c && LeftOut(t[i]) ==> Barred(t, t[i])
    ensures Filled(Fill(t, flags, diskSize, c, NumPrimaries(t)))
  {
    hide NumPrimaries, Barred, PrimaryFlag;
    if c < |t| {
      var u := t[c := t[c].(role := Primary)];
      var upToDate := PrimaryFlags(u, diskSize);
      OnePrimaryMore(t, c);
      FlagsOfSome(u, diskSize);
      forall j | 0 <= j < |u| && LeftOut(u[j]) && (j < c + 1 || !upToDate[j])
        ensures Barred(u, u[j]) || NumPrimaries(u) >= 4
      {
        if j < c {
          PromotedBars(t, u, t[j]);
        } else {
          NoFlag(u, j, diskSize);
        }
      }
      FillSaturates(u, upToDate, u, diskSize, c + 1);
      var v := Fill(u, upToDate, diskSize, c + 1, NumPrimaries(u));
      PromotedBars(u, v, BLANK);
      forall i | 0 <= i < |v| && LeftOut(v[i]) && NumPrimaries(v) < 4
        ensures Barred(v, v[i])
      {
        PromotedBars(u, v, v[i]);
        assert Excused(v, u, v[i]);
      }
    }
  }

  /** In a repair, exactly: the table before the contiguity pass is filled if and only if four slots are
      in use, or no entry before the first one added is left out without being barred. */
  lemma MaximizeExactly(t: seq<Part>, diskSize: nat)
    requires t != [] && diskSize > 0
    ensures
      var k := Fitting(t, diskSize);
      var u, flags := AfterLogicals(k, diskSize), PrimaryFlags(Maximized(k, diskSize, 1), diskSize);
      Filled(Maximize(t, diskSize)) <==>
        NumPrimaries(Maximize(t, diskSize)) >= 4
        || forall i :: 0 <= i < FirstAdded(u, flags, 0) && LeftOut(u[i]) ==> Barred(u, u[i])
  {
    hide NumPrimaries, Barred, Fill, Maximized, Relabeled, FirstAdded, PrimaryFlag;
    var k := Fitting(t, diskSize);
    var m, u := Maximized(k, diskSize, 1), AfterLogicals(k, diskSize);
    MaximizedRest(k, diskSize);
    AfterLogicalsKeeps(k, diskSize);
    RelabeledEach(k, u);
    FlagsOfSome(m, diskSize);
    FilledExactly(u, PrimaryFlags(m, diskSize), diskSize);
  }

  /** In MakeItLegal the flags are not up to date: they were computed when the first entry still had
      the role it came with.  Four slots are in use afterwards, or every entry left out is barred, or
      was with the first entry in that role, or had no slot then. */
  lemma MaximizeSaturates(t: seq<Part>, diskSize: nat)
    requires t != [] && diskSize > 0
    ensures var v := Maximize(t, diskSize); Saturated(v, v[0 := Fitting(t, diskSize)[0]])
  {
    hide NumPrimaries, Barred, PrimaryFlag, Fill, Maximized, Relabeled;
    var k := Fitting(t, diskSize);
    var m, u := Maximized(k, diskSize, 1), AfterLogicals(k, diskSize);
    var flags, v := PrimaryFlags(m, diskSize), Maximize(t, diskSize);
    MaximizedRest(k, diskSize);
    AfterLogicalsKeeps(k, diskSize);
    RelabeledEach(k, u);
    FlagsOfSome(m, diskSize);
    forall j | 0 <= j < |u| && LeftOut(u[j]) && !flags[j]
      ensures Excused(u, m, u[j])
    {
      NoFlag(m, j, diskSize);
      SameBars(m, m[j], u[j]);
    }
    FillSaturates(u, flags, m, diskSize, 0);
    var base := v[0 := k[0]];
    assert Promoted(m, base);
    forall i | 0 <= i < |v| && LeftOut(v[i])
      ensures Excused(v, m, v[i]) ==> Excused(v, base, v[i])
    {
      PromotedBars(m, base, v[i]);
    }
  }

  /** The role of an entry does not bar it. */
  lemma SameBars(t: seq<Part>, p: Part, q: Part)
    requires p == q.(role := p.role)
    ensures Barred(t, p) <==> Barred(t, q)
  {}

  /** Before the first entry gets its role, the others have theirs. */
  lemma MaximizedRest(k: seq<Part>, diskSize: nat)
    requires k != []
    ensures var m, u := Maximized(k, diskSize, 1), AfterLogicals(k, diskSize);
            m[0] == k[0] && u[0] == k[0].(role := u[0].role) && m[1..] == u[1..]
  {
    hide BestRole, NumPrimaries;
    MaximizedFront(k, diskSize, 1);
  }

  lemma {:induction false} MaximizedFront(t: seq<Part>, diskSize: nat, i: nat)
    requires i <= |t|
    ensures forall j :: 0 <= j < i ==> Maximized(t, diskSize, i)[j] == t[j]
    decreases |t| - i
  {
    hide BestRole;
    if i < |t| {
      MaximizedFront(t, diskSize, i + 1);
    }
  }

  // ---------- the whole repair ----------

  lemma {:induction false} ThinnedSpan(t: seq<Part>, u: seq<Part>)
    requires Thinned(t, u)
    ensures FirstLogical(t) <= FirstLogical(u) && LastLogical(u) <= LastLogical(t)
  {
    if t != [] {
      ThinnedSpan(t[..|t| - 1], u[..|u| - 1]);
    }
  }

  /** If the first entry comes omitted, there is no excuse but being barred. */
  lemma FirstOmitted(t: seq<Part>, diskSize: nat)
    requires t != [] && diskSize > 0 && Fitting(t, diskSize)[0].role == Omitted
    ensures var v := Maximize(t, diskSize);
            NumPrimaries(v) >= 4 || forall i :: 0 <= i < |v| && LeftOut(v[i]) ==> Barred(v, v[i])
  {
    hide NumPrimaries, FirstLogical, LastLogical, Maximize, Relabeled;
    var k, v := Fitting(t, diskSize), Maximize(t, diskSize);
    MaximizeSaturates(t, diskSize);
    MaximizeKeeps(t, diskSize);
    RelabeledEach(k, v);
    var base := v[0 := k[0]];
    assert Thinned(v, base);
    ThinnedSpan(v, base);
    ThinnedPrimaries(v, base);
    forall i | 0 <= i < |v| && LeftOut(v[i]) && Excused(v, base, v[i]) && NumPrimaries(v) < 4
      ensures Barred(v, v[i])
    {
      if BeforeLogical(base, v[i]) && v[i].Last() != 0 {
        var j :| 0 <= j < |base| && base[j].role == Logical && base[j].first == v[i].Last() + 1;
        assert v[j] == base[j];
      }
    }
  }

  /** The contiguity pass needs no more slots. */
  lemma JoinedPrimaries(v: seq<Part>, diskSize: nat)
    requires EmptyOmitted(v)
    ensures NumPrimaries(Joined(v, FirstLogical(v), LastLogical(v), diskSize, |v|)) <= NumPrimaries(v)
  {
    hide FirstLogical, LastLogical, Joined;
    var w := Joined(v, FirstLogical(v), LastLogical(v), diskSize, |v|);
    JoinedKeeps(v, FirstLogical(v), LastLogical(v), diskSize, |v|);
    FewerPrimaries(v, w);
    if HasLogical(w) {
      var i :| 0 <= i < |w| && w[i].length > 0 && w[i].role == Logical;
      assert w[i] == v[i].(role := w[i].role);
      if v[i].role != Logical {
        assert v[i].length > 0 && v[i].first <= v[i].Last() <= LastLogical(v);
        SomeLogical(v);
      }
    }
  }

  lemma {:induction false} FewerPrimaries(v: seq<Part>, w: seq<Part>)
    requires |v| == |w| && forall i :: 0 <= i < |v| && w[i].role == Primary ==> w[i] == v[i]
    ensures Count(w, isPrimary) <= Count(v, isPrimary)
  {
    if v != [] {
      FewerPrimaries(v[..|v| - 1], w[..|w| - 1]);
    }
  }

  /** Without logicals the span is empty. */
  lemma {:induction false} SomeLogical(t: seq<Part>)
    requires LastLogical(t) > 0 || FirstLogical(t) < UINT32_MAX
    ensures exists i :: 0 <= i < |t| && t[i].role == Logical
  {
    if t != [] && t[|t| - 1].role != Logical {
      SomeLogical(t[..|t| - 1]);
      var i :| 0 <= i < |t| - 1 && t[..|t| - 1][i].role == Logical;
      assert t[i].role == Logical;
    }
  }

  /** A primary within the span of the logicals, ends included. */
  predicate WithinSpan(v: seq<Part>, p: Part) { FirstLogical(v) <= p.first && p.Last() <= LastLogical(v) }

  /** Which partitions MakeItLegal leaves out: of the entries that fit, only those that overlap a larger
      one (or an equal one earlier in the array), those that were made primary within the span of the
      logicals, and those for which there was no slot or which have an excuse as above.  Here v is
      the table before the contiguity pass. */
  lemma DroppedOnly(t: seq<Part>, diskSize: nat, i: nat)
    requires t != [] && diskSize > 0 && i < |t|
    requires Fitting(t, diskSize)[i].length > 0 && Repair(t, diskSize)[i].role == Omitted
    ensures
      var k, v := Fitting(t, diskSize), Maximize(t, diskSize);
      || Outdone(k, i)
      || NumPrimaries(v) >= 4
      || (v[i].role == Primary && !LogicalsContiguous(v) && WithinSpan(v, k[i]))
      || (v[i].role == Omitted && Excused(v, v[0 := k[0]], k[i]))
  {
    hide Maximize, Joined, Trim, OmitFrom, NumPrimaries, NoOverlaps, Relabeled, OnlyOutdone, FirstLogical, LastLogical,
         LogicalsContiguous, Outdone, Excused;
    var k, v, w := Fitting(t, diskSize), Maximize(t, diskSize), Settle(t, diskSize);
    MaximizeSaturates(t, diskSize);
    MaximizeKeeps(t, diskSize);
    SettleKeeps(t, diskSize);
    RelabeledEach(k, v);
    RelabeledEach(k, w);
    JoinedPrimaries(v, diskSize);
    JoinedKeeps(v, FirstLogical(v), LastLogical(v), diskSize, |v|);
    if v[i].role == Omitted {
      assert k[i] == v[i].(role := k[i].role);
      SameExcuse(v, v[0 := k[0]], v[i], k[i]);
    } else if w[i].role == Omitted {
      assert Settled(v[i], w[i], FirstLogical(v), LastLogical(v));
    } else {
      DroppedLate(k, w, i);
    }
  }

  lemma SameExcuse(t: seq<Part>, base: seq<Part>, p: Part, q: Part)
    requires p == q.(role := p.role)
    ensures Excused(t, base, p) <==> Excused(t, base, q)
  {
    hide NumPrimaries, Barred;
    SameBars(t, p, q);
    SameBars(base, p, q);
  }

  /** The last two passes omit primaries in excess of four, and what is outdone. */
  lemma DroppedLate(k: seq<Part>, w: seq<Part>, i: nat)
    requires Relabeled(k, w) && EmptyOmitted(w) && i < |w| && w[i].role != Omitted
    requires
      var x := if NumPrimaries(w) > 4 then Trim(w, |w|, NumPrimaries(w) - 4) else w;
      OmitFrom(x, 0, 1)[i].role == Omitted
    ensures Outdone(k, i) || NumPrimaries(w) > 4
  {
    hide Trim, OmitFrom, NumPrimaries;
    if NumPrimaries(w) <= 4 {
      OmitKeeps(w, 0, 1);
      assert Outdone(w, i);
      var j :| 0 <= j < |w| && j != i && Overlap(w[i], w[j]) && Outdoes(w, j, i);
      assert w[i] == k[i].(role := w[i].role) && w[j] == k[j].(role := w[j].role);
      assert Overlap(k[i], k[j]) && Outdoes(k, j, i);
    }
  }

  /** A sector in no partition and before no logical is unused. */
  lemma {:induction false} NothingThere(t: seq<Part>, sector: nat, diskSize: nat, n: nat)
    requires n <= |t| && 0 < sector < diskSize
    requires forall j :: 0 <= j < |t| ==> !t[j].Has(sector) && (t[j].role == Logical ==> t[j].first != sector + 1)
    ensures UsedAs(t, sector, diskSize, n) == Unused
  {
    if n > 0 {
      NothingThere(t, sector, diskSize, n - 1);
    }
  }

  lemma {:induction false} JoinedAt(t: seq<Part>, first: nat, last: nat, diskSize: nat, i: nat, n: nat)
    requires i < n <= |t| && t[i].role == Primary && first <= t[i].first && t[i].Last() <= last
    ensures
      var u := Joined(t, first, last, diskSize, i);
      Joined(t, first, last, diskSize, n)[i].role ==
        if UsedAs(u, (t[i].first - 1) % TWO64, diskSize, |u|) == Unused then Logical else Omitted
  {
    hide UsedAs;
    JoinedKeeps(t, first, last, diskSize, i);
    if n > i + 1 {
      JoinedAt(t, first, last, diskSize, i, n - 1);
    }
  }

  /** No two entries overlap, whatever their roles. */
  predicate AllApart(v: seq<Part>) { forall a, b :: 0 <= a < b < |v| ==> !Overlap(v[a], v[b]) }

  /** No logical starts where another partition does. */
  lemma StartsApart(v: seq<Part>, i: nat, j: nat)
    requires AllApart(v) && i < |v| && j < |v| && i != j && v[i].length > 0 && v[j].length > 0
    ensures v[i].first != v[j].first
  {
    assert if i < j then !Overlap(v[i], v[j]) else !Overlap(v[j], v[i]);
  }

  /** Nothing is on the sector before a primary that is apart, or needs it. */
  lemma NothingBefore(v: seq<Part>, u: seq<Part>, i: nat, diskSize: nat)
    requires Gapped(v) && EmptyOmitted(v) && AllApart(v) && Relabeled(v, u) && i < |v| && u[i].role == Primary
    requires 1 < v[i].first <= diskSize && v[i].length > 0
    requires forall j :: 0 <= j < |u| && u[j].role == Logical ==> v[j].length > 0
    ensures UsedAs(u, v[i].first - 1, diskSize, |u|) == Unused
  {
    hide AllApart, UsedAs;
    forall j | 0 <= j < |u|
      ensures !u[j].Has(v[i].first - 1) && (u[j].role == Logical ==> u[j].first != v[i].first)
    {
      assert u[j] == v[j].(role := u[j].role);
      if v[j].length > 0 {
        assert !v[j].Has(v[i].first - 1);
        if j != i {
          StartsApart(v, i, j);
        }
      }
    }
    NothingThere(u, v[i].first - 1, diskSize, |u|);
  }

  /** Among partitions that are apart, the contiguity pass omits nothing: the primaries within the span
      of the logicals become logical. */
  lemma GappedJoins(v: seq<Part>, diskSize: nat, i: nat)
    requires Gapped(v) && EmptyOmitted(v) && AllFit(v, diskSize) && SoundLogicals(v) && AllApart(v)
    requires i < |v| && v[i].role == Primary && WithinSpan(v, v[i]) && diskSize < TWO64
    ensures Joined(v, FirstLogical(v), LastLogical(v), diskSize, |v|)[i].role == Logical
  {
    hide FirstLogical, LastLogical, UsedAs, Joined, AllFit, Gapped, AllApart;
    var first, last := FirstLogical(v), LastLogical(v);
    JoinedAt(v, first, last, diskSize, i, |v|);
    JoinedKeeps(v, first, last, diskSize, i);
    var u := Joined(v, first, last, diskSize, i);
    FitsBelow(v, diskSize, i);
    FirstLogicalMeaning(v);
    SomeLogical(v);
    var l :| 0 <= l < |v| && v[l].role == Logical && v[l].first == first;
    StartsApart(v, i, l);
    NothingBefore(v, u, i, diskSize);
  }

  lemma FitsBelow(v: seq<Part>, diskSize: nat, i: nat)
    requires AllFit(v, diskSize) && i < |v|
    ensures v[i].first <= diskSize
  {}

  // ---------- joining the logicals ----------

  /** Between two sectors, in whichever order they come. */
  predicate Between(x: int, a: int, b: int) { a < x < b || b < x < a }

  /** A primary is in the way of an entry if it starts between the entry and the first EBR. */
  lemma AsideMeaning(t: seq<Part>, i: nat, j: nat)
    requires i < |t| && j < |t| && FirstLogical(t) >= 1
    ensures Aside(t, i, j) <==> !Between(t[j].first, t[i].first, FirstLogical(t) - 1)
  {
    hide FirstLogical;
    assert (FirstLogical(t) - 1) % TWO64 == FirstLogical(t) - 1;
  }

  /** What the test whether an entry can be logical is for: joining the logicals keeps them contiguous,
      if the entry overlaps no primary and does not start right behind the boot record. */
  lemma JoinKeepsContiguous(t: seq<Part>, i: nat, diskSize: nat)
    requires i < |t| && t[i].length > 0 && 1 < t[i].first <= UINT32_MAX && t[i].role != Logical
    requires LogicalsContiguous(t) && MayBeLogical(t, i, diskSize) && SoundLogicals(t) && EmptyOmitted(t)
    requires forall j :: 0 <= j < |t| && j != i && t[j].role == Primary ==> !Overlap(t[i], t[j])
    ensures LogicalsContiguous(t[i := t[i].(role := Logical)])
  {
    hide FirstLogical, LastLogical, UsedAs, Overlap, LogicalsContiguous;
    var u := t[i := t[i].(role := Logical)];
    FirstLogicalMeaning(t);
    FirstLogicalMeaning(u);
    assert u[i].role == Logical;
    forall j | 0 <= j < |u| && u[j].role == Primary
      ensures !(FirstLogical(u) - 1 <= u[j].first <= LastLogical(u))
    {
      assert j != i && u[j] == t[j];
      NotOnEbr(t, i, j, diskSize);
      NotWithinEntry(t, i, j);
      if LastLogical(t) > 0 {
        ContiguousMeans(t, j);
        AsideMeaning(t, i, j);
        assert Aside(t, i, j);
      }
      NewSpan(t, u, i);
    }
    ContiguousSpan(u);
  }

  /** The span after one more entry has become logical. */
  lemma NewSpan(t: seq<Part>, u: seq<Part>, i: nat)
    requires i < |t| && t[i].length > 0 && t[i].first <= UINT32_MAX && t[i].role != Logical
    requires u == t[i := t[i].(role := Logical)] && SoundLogicals(t) && SoundLogicals(u)
    ensures FirstLogical(u) ==
      if LastLogical(t) > 0 && FirstLogical(t) < t[i].first then FirstLogical(t) else t[i].first
    ensures LastLogical(u) == if LastLogical(t) > t[i].Last() then LastLogical(t) else t[i].Last()
  {
    hide FirstLogical, LastLogical;
    FirstLogicalMeaning(t);
    FirstLogicalMeaning(u);
    assert u[i].role == Logical;
    var a :| 0 <= a < |u| && u[a].role == Logical && u[a].first == FirstLogical(u);
    var b :| 0 <= b < |u| && u[b].role == Logical && u[b].Last() == LastLogical(u);
    if exists j :: 0 <= j < |t| && t[j].role == Logical {
      var c :| 0 <= c < |t| && t[c].role == Logical && t[c].first == FirstLogical(t);
      var d :| 0 <= d < |t| && t[d].role == Logical && t[d].Last() == LastLogical(t);
      assert u[c] == t[c] && u[d] == t[d];
    }
  }

  lemma ContiguousMeans(t: seq<Part>, j: nat)
    requires LogicalsContiguous(t) && LastLogical(t) > 0 && FirstLogical(t) >= 1 && j < |t| && t[j].role == Primary
    ensures !(FirstLogical(t) - 1 <= t[j].first <= LastLogical(t))
  {
    hide FirstLogical, LastLogical;
    assert (FirstLogical(t) - 1) % TWO64 == FirstLogical(t) - 1;
  }

  /** No primary starts on the sector that the entry needs for its EBR. */
  lemma NotOnEbr(t: seq<Part>, i: nat, j: nat, diskSize: nat)
    requires i < |t| && j < |t| && 1 < t[i].first <= UINT32_MAX && t[j].role == Primary
    requires MayBeLogical(t, i, diskSize) && EmptyOmitted(t)
    ensures t[j].first != t[i].first - 1
  {
    hide UsedAs, FirstLogical, LastLogical;
    assert (t[i].first - 1) % TWO64 == t[i].first - 1;
    EbrIsFree(t, t[i].first - 1, diskSize, |t|);
  }

  lemma NotWithinEntry(t: seq<Part>, i: nat, j: nat)
    requires i < |t| && j < |t| && t[i].length > 0 && t[j].role == Primary && EmptyOmitted(t) && !Overlap(t[i], t[j])
    ensures !(t[i].first <= t[j].first <= t[i].Last())
  {}

  // ---------- partitions in ascending order ----------

  /** Partitions that fit, in ascending order and apart by a sector or more; no logical comes before a
      primary, and empty entries are omitted. */
  predicate Ascends(t: seq<Part>, diskSize: nat) {
    && EmptyOmitted(t)
    && (forall i :: 0 <= i < |t| ==> !Oversized(t[i], diskSize) && (t[i].length > 0 ==> t[i].first > 0))
    && (forall i, j :: 0 <= i < j < |t| && t[i].length > 0 && t[j].length > 0 ==>
          t[i].Last() + 1 < t[j].first && !(t[i].role == Logical && t[j].role == Primary))
  }

  /** The entries from i on are logical unless empty. */
  predicate LogicalFrom(t: seq<Part>, u: seq<Part>, i: nat) {
    && |u| == |t|
    && (forall j :: 0 <= j < i && j < |t| ==> u[j] == t[j])
    && (forall j :: i <= j < |t| ==> u[j] == t[j].(role := if t[j].length > 0 then Logical else Omitted))
  }

  /** No entry ends before a logical. */
  lemma NoneBefore(t: seq<Part>, u: seq<Part>, i: nat, diskSize: nat)
    requires Ascends(t, diskSize) && Relabeled(t, u) && EmptyOmitted(u) && i < |u| && u[i].length > 0
    ensures !BeforeLogical(u, u[i]) && !EndsOnEbr(u, i, diskSize)
  {
    hide UsedAs;
    forall j | 0 <= j < |u| && u[j].role == Logical
      ensures u[j].first != u[i].Last() + 1
    {
      assert u[j] == t[j].(role := u[j].role) && u[i] == t[i].(role := u[i].role);
      assert t[j].length > 0 && t[i].length > 0;
    }
    if EndsOnEbr(u, i, diskSize) {
      EbrBefore(u, u[i].Last(), diskSize, |u|);
    }
  }

  /** No entry covers the sector before another one. */
  lemma AscendsGapped(t: seq<Part>, u: seq<Part>, diskSize: nat)
    requires Ascends(t, diskSize) && Relabeled(t, u) && EmptyOmitted(u)
    ensures Gapped(u) && SoundLogicals(u)
  {
    forall i | 0 <= i < |u|
      ensures u[i] == t[i].(role := u[i].role) && !Oversized(t[i], diskSize)
    {}
  }

  lemma {:induction false} FreeOrEbr(t: seq<Part>, sector: nat, diskSize: nat, n: nat)
    requires n <= |t| && sector < diskSize && forall j :: 0 <= j < |t| ==> !t[j].Has(sector)
    ensures UsedAs(t, sector, diskSize, n) in {Unused, Ebr}
  {
    if n > 0 {
      FreeOrEbr(t, sector, diskSize, n - 1);
    }
  }

  /** No primary stands between an entry and the logicals after it. */
  lemma NoneBetween(t: seq<Part>, u: seq<Part>, i: nat, diskSize: nat)
    requires Ascends(t, diskSize) && LogicalFrom(t, u, i + 1) && i < |t| && t[i].length > 0
    requires SoundLogicals(u) && LastLogical(u) > 0
    ensures NoPrimaryBetween(u, i)
  {
    hide FirstLogical, LastLogical;
    FirstLogicalMeaning(u);
    SomeLogical(u);
    var l :| 0 <= l < |u| && u[l].role == Logical && u[l].first == FirstLogical(u);
    forall j | 0 <= j < |u| && j != i && u[j].role == Primary
      ensures Aside(u, i, j)
    {
      assert j < i && u[j] == t[j] && t[j].length > 0 && t[l].length > 0;
      assert u[j].first < u[l].first;
    }
  }

  lemma SpaceBefore(u: seq<Part>, i: nat, diskSize: nat)
    requires Gapped(u) && i < |u| && u[i].length > 0 && u[i].first <= diskSize
    ensures u[i].first > 0 && UsedAs(u, u[i].first - 1, diskSize, |u|) in {Unused, Ebr}
  {
    hide UsedAs;
    forall j | 0 <= j < |u|
      ensures !u[j].Has(u[i].first - 1)
    {
      assert u[j].length > 0 ==> !u[j].Has(u[i].first - 1);
    }
    assert u[i].first > 0;
    FreeOrEbr(u, u[i].first - 1, diskSize, |u|);
  }

  lemma NextLogical(t: seq<Part>, u: seq<Part>, i: nat, diskSize: nat)
    requires Ascends(t, diskSize) && LogicalFrom(t, u, i + 1) && i < |t| && t[i].length > 0
    ensures BestRole(u, i, diskSize) == Logical
  {
    hide UsedAs, FirstLogical, LastLogical, EndsOnEbr, NoPrimaryBetween, Gapped, SoundLogicals, BeforeLogical;
    assert u[i] == t[i] && !Oversized(t[i], diskSize);
    FromRelabels(t, u, i + 1);
    NoneBefore(t, u, i, diskSize);
    AscendsGapped(t, u, diskSize);
    SpaceBefore(u, i, diskSize);
    assert (u[i].first - 1) % TWO64 == u[i].first - 1;
    if LastLogical(u) > 0 {
      NoneBetween(t, u, i, diskSize);
    }
  }

  lemma FromRelabels(t: seq<Part>, u: seq<Part>, i: nat)
    requires LogicalFrom(t, u, i) && EmptyOmitted(t)
    ensures Relabeled(t, u) && EmptyOmitted(u)
  {
    forall j | 0 <= j < |t|
      ensures u[j] == t[j].(role := u[j].role) && (t[j].length == 0 ==> u[j].role == Omitted)
    {
      assert j < i || i <= j;
    }
  }

  lemma {:induction false} AscendingLogical(t: seq<Part>, i: nat, diskSize: nat)
    requires Ascends(t, diskSize) && i <= |t| && diskSize > 0
    ensures LogicalFrom(t, Maximized(t, diskSize, i), i)
    decreases |t| - i
  {
    hide BestRole, Ascends;
    if i < |t| {
      AscendingLogical(t, i + 1, diskSize);
      var u := Maximized(t, diskSize, i + 1);
      if t[i].length > 0 {
        NextLogical(t, u, i, diskSize);
      } else {
        EmptyOut(u, i, diskSize);
      }
    }
  }

  lemma {:induction false} FillIdle(t: seq<Part>, flags: seq<bool>, diskSize: nat, i: nat, n: nat)
    requires |flags| == |t| && i <= |t| && forall j :: i <= j < |t| ==> t[j].role != Omitted || !flags[j]
    ensures Fill(t, flags, diskSize, i, n) == t
    decreases |t| - i
  {
    hide PrimaryFlags;
    if n < 4 && i < |t| {
      FillIdle(t, flags, diskSize, i + 1, n);
    }
  }

  /** The first partition can be primary. */
  lemma FirstFlag(t: seq<Part>, m: seq<Part>, diskSize: nat)
    requires t != [] && Ascends(t, diskSize) && LogicalFrom(t, m, 1) && t[0].length > 0
    ensures PrimaryFlag(m, 0, diskSize)
  {
    hide UsedAs, FirstLogical, LastLogical, EndsOnEbr, NumPrimaries, BeforeLogical;
    FromRelabels(t, m, 1);
    NoneBefore(t, m, 0, diskSize);
    AscendsGapped(t, m, diskSize);
    FirstLogicalMeaning(m);
    FewSlots(m);
    if exists j :: 0 <= j < |m| && m[j].role == Logical {
      var l :| 0 <= l < |m| && m[l].role == Logical && m[l].first == FirstLogical(m);
      assert l > 0 ==> t[l].length > 0 && t[0].Last() + 1 < t[l].first;
    } else {
      assert !Oversized(t[0], diskSize);
    }
  }

  /** One primary and some logicals need at most two slots. */
  lemma FewSlots(m: seq<Part>)
    requires m != [] && forall j :: 1 <= j < |m| ==> m[j].role != Primary
    ensures NumPrimaries(m) <= 2
  {
    hide NumPrimaries;
    var u := m[0 := m[0].(role := Omitted)];
    NoPrimaries(u);
    if isPrimary(m[0]) {
      OnePrimaryLess(m, 0);
    } else {
      NoPrimariesButEmpty(m);
    }
  }

  lemma NoPrimariesButEmpty(m: seq<Part>)
    requires forall j :: 0 <= j < |m| ==> !isPrimary(m[j])
    ensures NumPrimaries(m) <= 1
  {
    CountPositive(m, isPrimary);
  }

  /** The first partition primary and all others logical. */
  predicate FirstThenLogicals(t: seq<Part>, r: seq<Part>) {
    && |r| == |t|
    && forall i :: 0 <= i < |t| ==>
         r[i] == t[i].(role := if t[i].length == 0 then Omitted else if i == 0 then Primary else Logical)
  }

  lemma AscendingMaximized(t: seq<Part>, diskSize: nat)
    requires t != [] && diskSize > 0 && Ascends(t, diskSize) && t[0].length > 0
    ensures FirstThenLogicals(t, Maximize(t, diskSize))
  {
    hide Maximized, Ascends, NumPrimaries, PrimaryFlags, Fill;
    assert Fitting(t, diskSize) == t by { AscendsFits(t, diskSize); }
    AscendingLogical(t, 0, diskSize);
    AscendingLogical(t, 1, diskSize);
    var m, all := Maximized(t, diskSize, 1), Maximized(t, diskSize, 0);
    NoPrimaries(all);
    var u, v := AfterLogicals(t, diskSize), all[0 := all[0].(role := Primary)];
    assert u == all[0 := all[0].(role := Omitted)];
    FewSlots(u);
    FirstFlag(t, m, diskSize);
    OneFilled(u, PrimaryFlags(m, diskSize), v, diskSize, NumPrimaries(u));
  }

  lemma OneFilled(u: seq<Part>, flags: seq<bool>, v: seq<Part>, diskSize: nat, n: nat)
    requires u != [] && |flags| == |u| && flags[0] && LeftOut(u[0]) && v == u[0 := u[0].(role := Primary)] && n < 3
    requires forall j :: 1 <= j < |u| ==> u[j].role != Omitted || u[j].length == 0
    ensures Fill(u, flags, diskSize, 0, n) == v
  {
    hide EndsOnEbr, MayBePrimary;
    FillIdle(v, PrimaryFlags(v, diskSize), diskSize, 1, n + 1);
  }

  lemma AscendsFits(t: seq<Part>, diskSize: nat)
    requires Ascends(t, diskSize)
    ensures forall i :: 0 <= i < |t| ==> !Oversized(t[i], diskSize)
  {}

  lemma {:induction false} OmitsNothing(t: seq<Part>, i: nat, j: nat)
    requires i < j && forall a, b :: 0 <= a < b < |t| ==> !Overlap(t[a], t[b])
    ensures OmitFrom(t, i, j) == t
    decreases |t| - i, |t| - j
  {
    if i < |t| {
      if j >= |t| {
        OmitsNothing(t, i + 1, i + 2);
      } else {
        OmitsNothing(t, i, j + 1);
      }
    }
  }

  lemma AscendsApart(t: seq<Part>, v: seq<Part>, diskSize: nat)
    requires Ascends(t, diskSize) && FirstThenLogicals(t, v)
    ensures AllApart(v)
  {}

  /** A table whose partitions come in ascending order, apart from each other, is never thinned: the
      repair makes the first one primary and all the others logical, which is legal. */
  lemma AscendingKept(t: seq<Part>, diskSize: nat)
    requires t != [] && diskSize > 0 && Ascends(t, diskSize) && t[0].length > 0
    ensures FirstThenLogicals(t, Repair(t, diskSize)) && Legal(Repair(t, diskSize), diskSize)
  {
    hide Maximize, Ascends, NumPrimaries, LogicalsContiguous, OmitFrom, Joined, Trim, Legal, Gapped;
    var v := Maximize(t, diskSize);
    AscendingMaximized(t, diskSize);
    FewSlots(v);
    AscendingContiguous(t, v, diskSize);
    AscendsApart(t, v, diskSize);
    OmitsNothing(v, 0, 1);
    AscendsFits(t, diskSize);
    assert Fitting(t, diskSize) == t;
    GappedItself(t, diskSize);
    GappedIsRepaired(t, diskSize);
  }

  lemma GappedItself(t: seq<Part>, diskSize: nat)
    requires Ascends(t, diskSize)
    ensures Gapped(t)
  {
    hide Gapped;
    AscendsGapped(t, t, diskSize);
  }

  lemma AscendingContiguous(t: seq<Part>, v: seq<Part>, diskSize: nat)
    requires t != [] && Ascends(t, diskSize) && FirstThenLogicals(t, v) && t[0].length > 0
    ensures LogicalsContiguous(v)
  {
    hide FirstLogical, LastLogical, LogicalsContiguous, Gapped;
    AscendsGapped(t, v, diskSize);
    FirstLogicalMeaning(v);
    if LastLogical(v) > 0 {
      SomeLogical(v);
      var l :| 0 <= l < |v| && v[l].role == Logical && v[l].first == FirstLogical(v);
      assert l > 0 && t[l].length > 0 && t[0].Last() + 1 < t[l].first;
      ContiguousSpan(v);
    } else {
      NoSpan(v);
    }
  }
}
