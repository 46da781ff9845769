/** What repairing an MBR table (gdisk/basicmbr.cc) keeps and establishes: entries only change
    their role, and the passes together leave a table without overlaps that fits. */
module MbrRepair {
  import opened MbrTable
  import opened MbrLayout

  const isLogical: Part -> bool := (p: Part) => p.role == Logical

  /** The same entries, with other roles. */
  predicate Relabeled(t: seq<Part>, u: seq<Part>) {
    |t| == |u| && forall i :: 0 <= i < |t| ==> u[i] == t[i].(role := u[i].role)
  }

  /** The same entries, some of them omitted. */
  predicate Thinned(t: seq<Part>, u: seq<Part>) {
    |t| == |u| && forall i :: 0 <= i < |t| ==> u[i] == t[i] || u[i] == t[i].(role := Omitted)
  }

  /** Too big for the disk or for 32-bit sector numbers. */
  predicate Oversized(p: Part, diskSize: nat) {
    p.first > diskSize || p.Last() > diskSize || p.first > UINT32_MAX || p.length > UINT32_MAX
  }

  /** Empty entries are omitted and cannot become primary. */
  predicate EmptiesOut(t: seq<Part>, canBePrimary: seq<bool>) {
    |t| == |canBePrimary| && forall i :: 0 <= i < |t| && t[i].length == 0 ==> t[i].role == Omitted && !canBePrimary[i]
  }

  predicate NoEmptyPrimary(t: seq<Part>) {
    forall i :: 0 <= i < |t| && t[i].role == Primary ==> t[i].length > 0
  }

  /** A primary between first and last is no longer one, and nothing else has changed. */
  predicate Settled(before: Part, after: Part, first: nat, last: nat) {
    if before.role == Primary && first <= before.first && before.Last() <= last then after.role != Primary
    else after == before
  }

  lemma LegalIsRepaired(t: seq<Part>, diskSize: nat)
    requires Legal(t, diskSize)
    ensures NoOverlaps(t) && NumPrimaries(t) <= 4 && AllFit(t, diskSize)
  {}

  lemma RelabeledSize(t: seq<Part>, u: seq<Part>)
    requires Relabeled(t, u)
    ensures |t| == |u|
  {}

  lemma RelabeledEach(t: seq<Part>, u: seq<Part>)
    requires Relabeled(t, u)
    ensures |t| == |u| && forall i :: 0 <= i < |t| ==> u[i] == t[i].(role := u[i].role)
  {}

  lemma RelabeledAgain(t: seq<Part>, u: seq<Part>, v: seq<Part>)
    requires Relabeled(t, u) && Relabeled(u, v)
    ensures Relabeled(t, v) && |v| == |t|
  {
    forall i | 0 <= i < |t|
      ensures v[i] == t[i].(role := v[i].role)
    {
      assert u[i] == t[i].(role := u[i].role) && v[i] == u[i].(role := v[i].role);
    }
  }

  lemma ThinnedRelabels(t: seq<Part>, u: seq<Part>, v: seq<Part>)
    requires Relabeled(t, u) && Thinned(u, v)
    ensures Relabeled(t, v) && |v| == |t|
  {
    forall i | 0 <= i < |t|
      ensures v[i] == t[i].(role := v[i].role)
    {
      assert u[i] == t[i].(role := u[i].role);
    }
  }

  lemma RelabeledFits(t: seq<Part>, u: seq<Part>, diskSize: nat)
    requires Relabeled(t, u) && AllFit(t, diskSize)
    ensures AllFit(u, diskSize) && (AllStorable(t) ==> AllStorable(u))
  {
    forall i | 0 <= i < |u|
      ensures u[i].first <= diskSize && u[i].Last() <= diskSize
      ensures u[i].first == t[i].first && u[i].length == t[i].length
    {
      assert u[i] == t[i].(role := u[i].role);
    }
  }

  lemma {:induction false} ThinnedCount(t: seq<Part>, u: seq<Part>)
    requires Thinned(t, u)
    ensures Count(u, isPrimary) <= Count(t, isPrimary)
  {
    if t != [] {
      ThinnedCount(t[..|t| - 1], u[..|u| - 1]);
    }
  }

  /** Omitting entries needs no more primary slots. */
  lemma ThinnedPrimaries(t: seq<Part>, u: seq<Part>)
    requires Thinned(t, u)
    ensures NumPrimaries(u) <= NumPrimaries(t)
  {
    ThinnedCount(t, u);
    if HasLogical(u) {
      var i :| 0 <= i < |u| && u[i].length > 0 && u[i].role == Logical;
      assert t[i] == u[i];
    }
  }

  /** Omitting one primary frees one slot. */
  lemma OnePrimaryLess(t: seq<Part>, i: nat)
    requires i < |t| && isPrimary(t[i])
    ensures NumPrimaries(t[i := t[i].(role := Omitted)]) == NumPrimaries(t) - 1
  {
    var u := t[i := t[i].(role := Omitted)];
    CountRemoved(t, i, isPrimary);
    CountRemoved(u, i, isPrimary);
    assert u[..i] + u[i + 1..] == t[..i] + t[i + 1..];
    assert HasLogical(u) <==> HasLogical(t) by {
      if HasLogical(t) {
        var j :| 0 <= j < |t| && t[j].length > 0 && t[j].role == Logical;
        assert u[j] == t[j];
      }
      if HasLogical(u) {
        var j :| 0 <= j < |u| && u[j].length > 0 && u[j].role == Logical;
        assert t[j] == u[j];
      }
    }
  }

  lemma NoPrimaries(t: seq<Part>)
    requires forall i :: 0 <= i < |t| ==> t[i].role != Primary
    ensures NumPrimaries(t) <= 1
  {
    CountPositive(t, isPrimary);
  }

  // ---------- what an entry could be ----------

  /** Entry j does not stand between entry i and the logicals. */
  predicate Aside(t: seq<Part>, i: nat, j: nat)
    requires i < |t| && j < |t|
  {
    var firstEbr := (FirstLogical(t) - 1) % TWO64;
    !(t[j].first < t[i].first && firstEbr < t[j].first) && !(t[j].first > t[i].first && firstEbr > t[j].first)
  }

  /** No primary stands between the entry and the logicals. */
  predicate NoPrimaryBetween(t: seq<Part>, i: nat)
    requires i < |t|
  {
    forall j :: 0 <= j < |t| && j != i && t[j].role == Primary ==> Aside(t, i, j)
  }

  /** The entry can be logical: the sector before it is free, and it joins the other logicals. */
  predicate MayBeLogical(t: seq<Part>, i: nat, diskSize: nat)
    requires i < |t|
  {
    && UsedAs(t, (t[i].first - 1) % TWO64, diskSize, |t|) in {Ebr, Unused}
    && (LastLogical(t) > 0 ==> NoPrimaryBetween(t, i))
  }

  /** The entry can be primary: a slot is left for it, and it is not among the logicals. */
  predicate MayBePrimary(t: seq<Part>, i: nat)
    requires i < |t|
  {
    && (NumPrimaries(t) >= 4 && t[i].role != Primary ==>
          t[i].role == Logical && Count(t, isLogical) == 1 && NumPrimaries(t) == 4)
    && !(t[i].first > FirstLogical(t) && t[i].Last() < LastLogical(t))
  }

  /** The entry's last sector is needed for an EBR. */
  predicate EndsOnEbr(t: seq<Part>, i: nat, diskSize: nat)
    requires i < |t|
  {
    UsedAs(t, t[i].Last(), diskSize, |t|) == Ebr
  }

  /** On a disk that is not empty every empty entry counts as ending on the boot record. */
  lemma EmptyEndsOnEbr(t: seq<Part>, i: nat, diskSize: nat)
    requires i < |t| && t[i].length == 0 && diskSize > 0
    ensures EndsOnEbr(t, i, diskSize)
  {
    BootRecord(t, diskSize, |t|);
  }

  lemma {:induction false} BootRecord(t: seq<Part>, diskSize: nat, n: nat)
    requires 0 < n <= |t| && diskSize > 0
    ensures UsedAs(t, 0, diskSize, n) == Ebr
  {
    if n > 1 {
      BootRecord(t, diskSize, n - 1);
    } else {
      assert UsedAs(t, 0, diskSize, 0) == Unused;
    }
  }

  // ---------- the passes ----------

  /** What MaximizeLogicals makes of one entry. */
  function BestRole(t: seq<Part>, i: nat, diskSize: nat): Inclusion
    requires i < |t|
  {
    if EndsOnEbr(t, i, diskSize) then Omitted
    else if MayBeLogical(t, i, diskSize) then Logical
    else if MayBePrimary(t, i) then Primary
    else Omitted
  }

  /** The entries from i on given their best role, the last one first. */
  function Maximized(t: seq<Part>, diskSize: nat, i: nat): (u: seq<Part>)
    requires i <= |t|
    ensures |u| == |t|
    decreases |t| - i
  {
    if i == |t| then t
    else
      var u := Maximized(t, diskSize, i + 1);
      u[i := u[i].(role := BestRole(u, i, diskSize))]
  }

  /** MaximizeLogicals: the entry with the lowest number is left out again if it is logical and
      a primary slot is to spare. */
  function AfterLogicals(t: seq<Part>, diskSize: nat): (u: seq<Part>)
    requires t != []
    ensures |u| == |t|
  {
    var u := Maximized(t, diskSize, 0);
    if NumPrimaries(u) < 4 && u[0].role == Logical then u[0 := u[0].(role := Omitted)] else u
  }

  predicate PrimaryFlag(t: seq<Part>, i: nat, diskSize: nat)
    requires i < |t|
  {
    !EndsOnEbr(t, i, diskSize) && t[i].length > 0 && MayBePrimary(t, i)
  }

  function PrimaryFlags(t: seq<Part>, diskSize: nat): (flags: seq<bool>)
    ensures |flags| == |t| && forall i :: 0 <= i < |t| ==> (flags[i] <==> PrimaryFlag(t, i, diskSize))
  {
    seq(|t|, i requires 0 <= i < |t| => PrimaryFlag(t, i, diskSize))
  }

  /** From entry i on, omitted entries that can be primary become primary while n is below four;
      the flags are brought up to date after each. */
  function Fill(t: seq<Part>, flags: seq<bool>, diskSize: nat, i: nat, n: nat): (u: seq<Part>)
    requires |flags| == |t| && i <= |t|
    ensures |u| == |t|
    decreases |t| - i
  {
    if n >= 4 || i == |t| then t
    else if t[i].role == Omitted && flags[i] then
      var u := t[i := t[i].(role := Primary)];
      Fill(u, PrimaryFlags(u, diskSize), diskSize, i + 1, n + 1)
    else Fill(t, flags, diskSize, i + 1, n)
  }

  /** The first n entries, with primaries between first and last made logical or omitted. */
  function Joined(t: seq<Part>, first: nat, last: nat, diskSize: nat, n: nat): (u: seq<Part>)
    requires n <= |t|
    ensures |u| == |t|
  {
    if n == 0 then t
    else
      var u := Joined(t, first, last, diskSize, n - 1);
      var p := u[n - 1];
      if p.role == Primary && first <= p.first && p.Last() <= last then
        u[n - 1 := p.(role := if UsedAs(u, (p.first - 1) % TWO64, diskSize, |u|) == Unused then Logical else Omitted)]
      else u
  }

  /** Among the first k entries, the last primaries are omitted until there is no excess. */
  function Trim(t: seq<Part>, k: nat, excess: int): (u: seq<Part>)
    requires k <= |t|
    ensures |u| == |t|
    decreases k
  {
    if excess <= 0 || k == 0 then t
    else if t[k - 1].role == Primary then Trim(t[k - 1 := t[k - 1].(role := Omitted)], k - 1, excess - 1)
    else Trim(t, k - 1, excess)
  }

  /** One comparison of OmitOverlaps. */
  function OmitSmaller(t: seq<Part>, i: nat, j: nat): (u: seq<Part>)
    requires i < j < |t|
    ensures |u| == |t|
  {
    if t[i].Included() && Overlap(t[i], t[j]) then
      var k := if t[i].length < t[j].length then i else j;
      t[k := t[k].(role := Omitted)]
    else t
  }

  /** The comparisons of OmitOverlaps from the pair (i, j) on. */
  function OmitFrom(t: seq<Part>, i: nat, j: nat): (u: seq<Part>)
    requires i < j
    ensures |u| == |t|
    decreases |t| - i, |t| - j
  {
    if i >= |t| then t
    else if j >= |t| then OmitFrom(t, i + 1, i + 2)
    else OmitFrom(OmitSmaller(t, i, j), i, j + 1)
  }

  /** The entries that fit, the others blank. */
  function Fitting(t: seq<Part>, diskSize: nat): (u: seq<Part>)
    ensures |u| == |t| && forall i :: 0 <= i < |t| ==> u[i] == if Oversized(t[i], diskSize) then BLANK else t[i]
  {
    seq(|t|, i requires 0 <= i < |t| => if Oversized(t[i], diskSize) then BLANK else t[i])
  }

  /** The passes of MakeItLegal before the primaries are counted. */
  function Settle(t: seq<Part>, diskSize: nat): (w: seq<Part>)
    requires t != []
    ensures |w| == |t|
  {
    var v := Maximize(t, diskSize);
    if LogicalsContiguous(v) then v else Joined(v, FirstLogical(v), LastLogical(v), diskSize, |v|)
  }

  function Maximize(t: seq<Part>, diskSize: nat): (v: seq<Part>)
    requires t != []
    ensures |v| == |t|
  {
    var k := Fitting(t, diskSize);
    var u := AfterLogicals(k, diskSize);
    Fill(u, PrimaryFlags(Maximized(k, diskSize, 1), diskSize), diskSize, 0, NumPrimaries(u))
  }

  /** MakeItLegal on a table that is not legal. */
  function Repair(t: seq<Part>, diskSize: nat): (r: seq<Part>)
    requires t != []
    ensures |r| == |t|
  {
    var w := Settle(t, diskSize);
    OmitFrom(if NumPrimaries(w) > 4 then Trim(w, |w|, NumPrimaries(w) - 4) else w, 0, 1)
  }

  /** The primaries from k on are omitted, and nothing else has changed. */
  predicate TrimmedFrom(t: seq<Part>, u: seq<Part>, k: nat) {
    && |t| == |u|
    && forall i :: 0 <= i < |t| ==> u[i] == if i >= k && t[i].role == Primary then t[i].(role := Omitted) else t[i]
  }

  /** Some overlapping entry is larger, or as large and earlier in the array. */
  predicate Outdone(t: seq<Part>, i: nat)
    requires i < |t|
  {
    exists j :: 0 <= j < |t| && j != i && Overlap(t[i], t[j]) && Outdoes(t, j, i)
  }

  predicate Outdoes(t: seq<Part>, j: nat, i: nat)
    requires i < |t| && j < |t|
  {
    t[j].length > t[i].length || (t[j].length == t[i].length && j < i)
  }

  // ---------- what the passes keep and establish ----------

  /** Two entries are not both included and overlapping. */
  predicate Compatible(p: Part, q: Part) { p.Included() && q.Included() ==> !Overlap(p, q) }

  /** The pairs before (i, j) are settled. */
  predicate PairsDone(t: seq<Part>, i: nat, j: nat) {
    && (forall a, b :: 0 <= a < i && a < b < |t| ==> Compatible(t[a], t[b]))
    && (forall b :: i < b < j && b < |t| && i < |t| ==> Compatible(t[i], t[b]))
  }

  /** Every entry that changed was outdone. */
  predicate OnlyOutdone(t: seq<Part>, u: seq<Part>) {
    |t| == |u| && forall k :: 0 <= k < |t| && u[k] != t[k] ==> Outdone(t, k)
  }

  lemma OmitSmallerKeeps(t: seq<Part>, i: nat, j: nat)
    requires i < j < |t| && PairsDone(t, i, j)
    ensures var u := OmitSmaller(t, i, j); Thinned(t, u) && OnlyOutdone(t, u) && PairsDone(u, i, j + 1)
  {
    var u := OmitSmaller(t, i, j);
    if u != t {
      assert Overlap(t[i], t[j]) && Overlap(t[j], t[i]);
      assert if t[i].length < t[j].length then Outdoes(t, j, i) else Outdoes(t, i, j);
      assert Outdone(t, if t[i].length < t[j].length then i else j);
    }
  }

  lemma ThinnedAgain(t: seq<Part>, u: seq<Part>, v: seq<Part>)
    requires Thinned(t, u) && Thinned(u, v)
    ensures Thinned(t, v)
    ensures OnlyOutdone(t, u) && OnlyOutdone(u, v) ==> OnlyOutdone(t, v)
  {
    forall k | 0 <= k < |t| && OnlyOutdone(t, u) && OnlyOutdone(u, v) && v[k] != t[k]
      ensures Outdone(t, k)
    {
      if u[k] == t[k] {
        var j :| 0 <= j < |u| && j != k && Overlap(u[k], u[j]) && Outdoes(u, j, k);
        assert Overlap(t[k], t[j]) && Outdoes(t, j, k);
      }
    }
  }

  /** OmitOverlaps only omits, only what is outdone, and leaves no overlaps. */
  lemma {:induction false} OmitKeeps(t: seq<Part>, i: nat, j: nat)
    requires i < j && PairsDone(t, i, j)
    ensures var u := OmitFrom(t, i, j); Thinned(t, u) && OnlyOutdone(t, u) && NoOverlaps(u)
    decreases |t| - i, |t| - j
  {
    hide OmitSmaller, Outdone;
    if i >= |t| {
      assert forall a, b :: 0 <= a < b < |t| ==> Compatible(t[a], t[b]);
    } else if j >= |t| {
      OmitKeeps(t, i + 1, i + 2);
    } else {
      var u := OmitSmaller(t, i, j);
      OmitSmallerKeeps(t, i, j);
      OmitKeeps(u, i, j + 1);
      ThinnedAgain(t, u, OmitFrom(u, i, j + 1));
    }
  }

  /** TrimPrimaries leaves exactly four slots in use. */
  lemma {:induction false} TrimKeeps(t: seq<Part>, k: nat, excess: nat)
    requires k <= |t| && NoEmptyPrimary(t) && NumPrimaries(t) == 4 + excess
    requires forall j :: k <= j < |t| ==> t[j].role != Primary || excess == 0
    ensures var u := Trim(t, k, excess); Thinned(t, u) && NumPrimaries(u) == 4
    decreases k
  {
    hide NumPrimaries;
    if excess > 0 {
      if k == 0 {
        NoPrimaries(t);
      } else if t[k - 1].role == Primary {
        OnePrimaryLess(t, k - 1);
        var u := t[k - 1 := t[k - 1].(role := Omitted)];
        TrimKeeps(u, k - 1, excess - 1);
        ThinnedAgain(t, u, Trim(u, k - 1, excess - 1));
      } else {
        TrimKeeps(t, k - 1, excess);
      }
    }
  }

  predicate EmptyOmitted(t: seq<Part>) { forall i :: 0 <= i < |t| && t[i].length == 0 ==> t[i].role == Omitted }

  lemma {:induction false} MaximizedKeeps(t: seq<Part>, diskSize: nat, i: nat)
    requires i <= |t| && diskSize > 0
    ensures var u := Maximized(t, diskSize, i);
            Relabeled(t, u) && forall j :: i <= j < |t| && u[j].length == 0 ==> u[j].role == Omitted
    decreases |t| - i
  {
    hide BestRole;
    if i < |t| {
      MaximizedKeeps(t, diskSize, i + 1);
      var u := Maximized(t, diskSize, i + 1);
      if u[i].length == 0 {
        EmptyOut(u, i, diskSize);
      }
    }
  }

  lemma EmptyOut(t: seq<Part>, i: nat, diskSize: nat)
    requires i < |t| && t[i].length == 0 && diskSize > 0
    ensures BestRole(t, i, diskSize) == Omitted
  {
    hide UsedAs;
    EmptyEndsOnEbr(t, i, diskSize);
  }

  lemma {:induction false} FillKeeps(t: seq<Part>, flags: seq<bool>, diskSize: nat, i: nat, n: nat)
    requires |flags| == |t| && i <= |t| && EmptyOmitted(t) && forall j :: 0 <= j < |t| && flags[j] ==> t[j].length > 0
    ensures var u := Fill(t, flags, diskSize, i, n); Relabeled(t, u) && EmptyOmitted(u)
    decreases |t| - i
  {
    hide PrimaryFlags;
    if n < 4 && i < |t| {
      if t[i].role == Omitted && flags[i] {
        var u := t[i := t[i].(role := Primary)];
        FlagsOfSome(u, diskSize);
        FillKeeps(u, PrimaryFlags(u, diskSize), diskSize, i + 1, n + 1);
        RelabeledAgain(t, u, Fill(u, PrimaryFlags(u, diskSize), diskSize, i + 1, n + 1));
      } else {
        FillKeeps(t, flags, diskSize, i + 1, n);
      }
    }
  }

  lemma FlagsOfSome(t: seq<Part>, diskSize: nat)
    ensures forall j :: 0 <= j < |t| && PrimaryFlags(t, diskSize)[j] ==> t[j].length > 0
  {
    hide EndsOnEbr, MayBePrimary;
  }

  lemma {:induction false} JoinedKeeps(t: seq<Part>, first: nat, last: nat, diskSize: nat, n: nat)
    requires n <= |t|
    ensures
      var u := Joined(t, first, last, diskSize, n);
      && Relabeled(t, u) && (forall i :: 0 <= i < n ==> Settled(t[i], u[i], first, last))
      && (forall i :: n <= i < |t| ==> u[i] == t[i])
      && forall i :: 0 <= i < |t| && u[i].role == Logical ==>
        t[i].role == Logical || (first <= t[i].first && t[i].Last() <= last)
  {
    hide UsedAs;
    if n > 0 {
      JoinedKeeps(t, first, last, diskSize, n - 1);
    }
  }

  lemma MaximizeKeeps(t: seq<Part>, diskSize: nat)
    requires t != [] && diskSize > 0
    ensures var v := Maximize(t, diskSize); Relabeled(Fitting(t, diskSize), v) && EmptyOmitted(v)
  {
    hide Maximized, Fill, PrimaryFlags, NumPrimaries, Relabeled, EmptyOmitted;
    var k := Fitting(t, diskSize);
    AfterLogicalsKeeps(k, diskSize);
    var u, flags := AfterLogicals(k, diskSize), PrimaryFlags(Maximized(k, diskSize, 1), diskSize);
    FlagsOfSome(Maximized(k, diskSize, 1), diskSize);
    MaximizedKeeps(k, diskSize, 1);
    RelabeledEach(k, Maximized(k, diskSize, 1));
    RelabeledEach(k, u);
    FillKeeps(u, flags, diskSize, 0, NumPrimaries(u));
    RelabeledAgain(k, u, Maximize(t, diskSize));
  }

  lemma AfterLogicalsKeeps(k: seq<Part>, diskSize: nat)
    requires k != [] && diskSize > 0
    ensures var u := AfterLogicals(k, diskSize); Relabeled(k, u) && EmptyOmitted(u)
  {
    hide Maximized, NumPrimaries;
    MaximizedKeeps(k, diskSize, 0);
  }

  lemma SettleKeeps(t: seq<Part>, diskSize: nat)
    requires t != [] && diskSize > 0
    ensures var w := Settle(t, diskSize); Relabeled(Fitting(t, diskSize), w) && EmptyOmitted(w)
  {
    hide Maximize, Joined, LogicalsContiguous, FirstLogical, LastLogical;
    var v := Maximize(t, diskSize);
    MaximizeKeeps(t, diskSize);
    JoinedKeeps(v, FirstLogical(v), LastLogical(v), diskSize, |v|);
    RelabeledAgain(Fitting(t, diskSize), v, v);
    var j := Joined(v, FirstLogical(v), LastLogical(v), diskSize, |v|);
    RelabeledAgain(Fitting(t, diskSize), v, j);
    forall i | 0 <= i < |j| && j[i].length == 0
      ensures j[i].role == Omitted
    {
      assert j[i] == v[i].(role := j[i].role) && Settled(v[i], j[i], FirstLogical(v), LastLogical(v));
    }
  }

  /** What repairing always achieves: entries that fit change only their role, no two included
      partitions overlap, four primary slots are enough, and everything fits. */
  lemma RepairKeeps(t: seq<Part>, diskSize: nat)
    requires t != [] && diskSize > 0
    ensures
      var r := Repair(t, diskSize);
      && Relabeled(Fitting(t, diskSize), r) && Thinned(Settle(t, diskSize), r) && EmptyOmitted(r)
      && NoOverlaps(r) && NumPrimaries(r) <= 4 && AllFit(r, diskSize) && AllStorable(r)
  {
    hide Settle, Trim, OmitFrom, NumPrimaries, NoOverlaps, Relabeled, OnlyOutdone;
    var w := Settle(t, diskSize);
    SettleKeeps(t, diskSize);
    if NumPrimaries(w) > 4 {
      TrimKeeps(w, |w|, NumPrimaries(w) - 4);
    }
    var x := if NumPrimaries(w) > 4 then Trim(w, |w|, NumPrimaries(w) - 4) else w;
    OmitKeeps(x, 0, 1);
    var r := OmitFrom(x, 0, 1);
    ThinnedAgain(w, x, r);
    ThinnedPrimaries(x, r);
    ThinnedRelabels(Fitting(t, diskSize), w, r);
    FittingFits(t, diskSize);
    RelabeledFits(Fitting(t, diskSize), r, diskSize);
  }

  /** Both numbers of every entry fit the 32-bit fields of a record. */
  predicate AllStorable(t: seq<Part>) {
    forall i :: 0 <= i < |t| ==> t[i].first < 0x1_0000_0000 && t[i].length < 0x1_0000_0000
  }

  /** What is deleted is what cannot be stored or does not fit the disk, and nothing else. */
  lemma FittingFits(t: seq<Part>, diskSize: nat)
    ensures AllFit(Fitting(t, diskSize), diskSize) && AllStorable(Fitting(t, diskSize))
    ensures AllFit(t, diskSize) && AllStorable(t) ==> Fitting(t, diskSize) == t
  {}

  // ---------- when the result is legal ----------

  /** No partition covers the sector before another one's start, or starts on sector 0. */
  predicate Gapped(t: seq<Part>) {
    forall i, j :: 0 <= i < |t| && 0 <= j < |t| && t[i].length > 0 && t[j].length > 0 ==>
      t[i].first > 0 && !t[j].Has(t[i].first - 1)
  }

  /** Repairing a table whose partitions all have a free sector before them makes it legal, however
      they overlap and whatever roles they have. */
  lemma GappedIsRepaired(t: seq<Part>, diskSize: nat)
    requires t != [] && diskSize > 0 && Gapped(Fitting(t, diskSize))
    ensures Legal(Repair(t, diskSize), diskSize)
  {
    hide Settle, Repair, NumPrimaries, NoOverlaps, AllFit, LogicalsContiguous, SpaceBeforeLogicals, Gapped, Relabeled,
         Thinned;
    RepairKeeps(t, diskSize);
    var k, w, r := Fitting(t, diskSize), Settle(t, diskSize), Repair(t, diskSize);
    GappedRelabeled(k, r);
    RepairSound(t, diskSize);
    SpaceFound(r, diskSize);
    StaysContiguous(t, diskSize);
  }

  /** A primary left among the logicals of the result would overlap the last one. */
  lemma StaysContiguous(t: seq<Part>, diskSize: nat)
    requires t != [] && diskSize > 0 && Gapped(Fitting(t, diskSize))
    ensures LogicalsContiguous(Repair(t, diskSize))
  {
    hide Maximize, Joined, Repair, NumPrimaries, NoOverlaps, AllFit, LogicalsContiguous, Gapped, Relabeled, Thinned,
         FirstLogical, LastLogical;
    var v, w, r := Maximize(t, diskSize), Settle(t, diskSize), Repair(t, diskSize);
    RepairKeeps(t, diskSize);
    RepairSound(t, diskSize);
    GappedRelabeled(Fitting(t, diskSize), r);
    FirstLogicalMeaning(r);
    SpanShrinks(t, diskSize);
    NoneLeft(v, w, r, diskSize);
  }

  /** The logicals of the result lie within the span they had before the contiguity pass. */
  lemma SpanShrinks(t: seq<Part>, diskSize: nat)
    requires t != [] && diskSize > 0 && Gapped(Fitting(t, diskSize))
    ensures var v, r := Maximize(t, diskSize), Repair(t, diskSize);
            forall i :: 0 <= i < |r| && r[i].role == Logical ==>
              FirstLogical(v) <= r[i].first && r[i].Last() <= LastLogical(v)
  {
    hide Maximize, Repair, Joined, NumPrimaries, NoOverlaps, AllFit, LogicalsContiguous, Gapped, FirstLogical,
         LastLogical;
    var v, w, r := Maximize(t, diskSize), Settle(t, diskSize), Repair(t, diskSize);
    RepairKeeps(t, diskSize);
    RepairSound(t, diskSize);
    FirstLogicalMeaning(v);
    JoinedKeeps(v, FirstLogical(v), LastLogical(v), diskSize, |v|);
    forall i | 0 <= i < |r| && r[i].role == Logical
      ensures FirstLogical(v) <= r[i].first && r[i].Last() <= LastLogical(v)
    {
      assert r[i] == w[i];
      RelabeledAt(v, w, i, diskSize);
    }
  }

  lemma RelabeledAt(v: seq<Part>, w: seq<Part>, i: nat, diskSize: nat)
    requires i < |v| == |w|
    requires w == v || w == Joined(v, FirstLogical(v), LastLogical(v), diskSize, |v|)
    ensures w[i] == v[i].(role := w[i].role)
    ensures w[i].role == Logical ==>
      v[i].role == Logical || (FirstLogical(v) <= v[i].first && v[i].Last() <= LastLogical(v))
    ensures w == Joined(v, FirstLogical(v), LastLogical(v), diskSize, |v|) && w[i].role == Primary ==>
      w[i] == v[i] && !(FirstLogical(v) <= v[i].first && v[i].Last() <= LastLogical(v))
  {
    hide Joined, FirstLogical, LastLogical;
    JoinedKeeps(v, FirstLogical(v), LastLogical(v), diskSize, |v|);
  }

  lemma NoneLeft(v: seq<Part>, w: seq<Part>, r: seq<Part>, diskSize: nat)
    requires |v| == |w| == |r| && Thinned(w, r) && EmptyOmitted(r)
    requires if LogicalsContiguous(v) then w == v else w == Joined(v, FirstLogical(v), LastLogical(v), diskSize, |v|)
    requires Gapped(r) && NoOverlaps(r) && SoundLogicals(r) && SoundLogicals(v)
    requires forall i :: 0 <= i < |r| && r[i].role == Logical ==>
      FirstLogical(v) <= r[i].first && r[i].Last() <= LastLogical(v)
    ensures LogicalsContiguous(r)
  {
    hide Joined, FirstLogical, LastLogical, Gapped, NoOverlaps, Thinned, EmptyOmitted, LogicalsContiguous;
    FirstLogicalMeaning(r);
    FirstLogicalMeaning(v);
    if LastLogical(r) > 0 {
      var f :| 0 <= f < |r| && r[f].role == Logical && r[f].first == FirstLogical(r);
      var l :| 0 <= l < |r| && r[l].role == Logical && r[l].Last() == LastLogical(r);
      forall i | 0 <= i < |r| && r[i].role == Primary
        ensures !(FirstLogical(r) - 1 <= r[i].first <= LastLogical(r))
      {
        PrimaryOutside(v, w, r, i, f, l, diskSize);
      }
      ContiguousSpan(r);
    } else {
      NoSpan(r);
    }
  }

  lemma ContiguousSpan(r: seq<Part>)
    requires 1 <= FirstLogical(r)
    requires forall i :: 0 <= i < |r| && r[i].role == Primary ==> !(FirstLogical(r) - 1 <= r[i].first <= LastLogical(r))
    ensures LogicalsContiguous(r)
  {
    hide FirstLogical, LastLogical;
    assert (FirstLogical(r) - 1) % TWO64 == FirstLogical(r) - 1;
  }

  lemma NoSpan(r: seq<Part>)
    requires LastLogical(r) == 0
    ensures LogicalsContiguous(r)
  {}

  lemma PrimaryOutside(v: seq<Part>, w: seq<Part>, r: seq<Part>, i: nat, f: nat, l: nat, diskSize: nat)
    requires |v| == |w| == |r| && Thinned(w, r) && EmptyOmitted(r) && i < |r| && f < |r| && l < |r|
    requires if LogicalsContiguous(v) then w == v else w == Joined(v, FirstLogical(v), LastLogical(v), diskSize, |v|)
    requires Gapped(r) && NoOverlaps(r)
    requires r[i].role == Primary && r[f].role == Logical && r[l].role == Logical
    requires 1 <= FirstLogical(v) <= r[f].first && r[l].Last() <= LastLogical(v)
    ensures !(r[f].first - 1 <= r[i].first <= r[l].Last())
  {
    hide Joined, FirstLogical, LastLogical, NoOverlaps;
    assert r[i] == w[i] && r[i].length > 0 && r[f].length > 0 && r[l].length > 0;
    RelabeledAt(v, w, i, diskSize);
    assert !r[i].Has(r[f].first - 1) && !r[i].Has(r[l].first - 1);
    OnlyBeyond(r, i, l);
  }

  /** A primary that starts within the last logical overlaps it. */
  lemma OnlyBeyond(r: seq<Part>, i: nat, l: nat)
    requires i < |r| && l < |r| && r[i].role == Primary && r[l].role == Logical && r[i].length > 0 && r[l].length > 0
    requires NoOverlaps(r)
    ensures !(r[l].first <= r[i].first <= r[l].Last())
  {
    assert Overlap(r[i], r[l]) == Overlap(r[l], r[i]);
  }

  lemma GappedRelabeled(t: seq<Part>, u: seq<Part>)
    requires Gapped(t) && Relabeled(t, u)
    ensures Gapped(u)
  {
    forall i, j | 0 <= i < |u| && 0 <= j < |u| && u[i].length > 0 && u[j].length > 0
      ensures u[i].first > 0 && !u[j].Has(u[i].first - 1)
    {
      assert u[i] == t[i].(role := u[i].role) && u[j] == t[j].(role := u[j].role);
    }
  }

  /** Logicals among entries that fit are sound. */
  lemma RelabeledSound(t: seq<Part>, diskSize: nat, u: seq<Part>)
    requires Relabeled(Fitting(t, diskSize), u) && EmptyOmitted(u) && Gapped(Fitting(t, diskSize))
    ensures SoundLogicals(u)
  {
    var k := Fitting(t, diskSize);
    forall i | 0 <= i < |u| && u[i].role == Logical
      ensures u[i].length > 0 && 1 <= u[i].first <= UINT32_MAX
    {
      assert u[i] == k[i].(role := u[i].role);
      assert k[i].length > 0;
      assert !Oversized(t[i], diskSize);
    }
  }

  lemma RepairSound(t: seq<Part>, diskSize: nat)
    requires t != [] && diskSize > 0 && Gapped(Fitting(t, diskSize))
    ensures SoundLogicals(Repair(t, diskSize)) && SoundLogicals(Settle(t, diskSize))
    ensures SoundLogicals(Maximize(t, diskSize))
  {
    hide Settle, Repair, Maximize, Gapped, Relabeled, Thinned, SoundLogicals, EmptyOmitted;
    RepairKeeps(t, diskSize);
    SettleKeeps(t, diskSize);
    MaximizeKeeps(t, diskSize);
    RelabeledSound(t, diskSize, Repair(t, diskSize));
    RelabeledSound(t, diskSize, Settle(t, diskSize));
    RelabeledSound(t, diskSize, Maximize(t, diskSize));
  }

  /** Every logical then has its EBR. */
  lemma SpaceFound(r: seq<Part>, diskSize: nat)
    requires Gapped(r) && SoundLogicals(r) && AllFit(r, diskSize) && diskSize > 0
    ensures SpaceBeforeLogicals(r, diskSize)
  {
    hide UsedAs;
    forall i | 0 <= i < |r| && r[i].first > 0 && r[i].role == Logical
      ensures UsedAs(r, r[i].first - 1, diskSize, |r|) == Ebr
    {
      if r[i].first == 1 {
        BootRecord(r, diskSize, |r|);
      } else {
        EbrFound(r, i, diskSize, |r|);
      }
    }
  }

  lemma {:induction false} EbrFound(r: seq<Part>, i: nat, diskSize: nat, n: nat)
    requires Gapped(r) && i < |r| && r[i].role == Logical && r[i].length > 0 && 1 < r[i].first <= diskSize && n <= |r|
    ensures UsedAs(r, r[i].first - 1, diskSize, n) == if i < n then Ebr else UsedAs(r, r[i].first - 1, diskSize, n)
    ensures UsedAs(r, r[i].first - 1, diskSize, n) in {Unused, Ebr}
  {
    if n > 0 {
      EbrFound(r, i, diskSize, n - 1);
      var p := r[n - 1];
      if p.length > 0 {
        assert !p.Has(r[i].first - 1);
      }
    }
  }
}
