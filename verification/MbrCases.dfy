/** Tables with a few entries followed by empty ones: the empty entries change no answer, and
    some legal tables show where the checks of gdisk/basicmbr.cc fall short. */
module MbrCases {
  import opened MbrTable
  import opened MbrChain
  import opened MbrLayout
  import opened MbrRepair
  import opened MbrKept

  /** A table that begins with the given entries and is empty otherwise. */
  function Padded(s: seq<Part>, n: nat): (t: seq<Part>)
    ensures |t| == |s| + n && t[..|s|] == s
    ensures forall i :: 0 <= i < |s| ==> t[i] == s[i]
    ensures forall i :: |s| <= i < |t| ==> t[i] == BLANK
  {
    s + Blanks(n)
  }

  lemma {:induction false} UsedAsPrefix(s: seq<Part>, t: seq<Part>, sector: nat, diskSize: nat, n: nat)
    requires n <= |s| <= |t| && t[..|s|] == s
    ensures UsedAs(t, sector, diskSize, n) == UsedAs(s, sector, diskSize, n)
  {
    if n > 0 {
      UsedAsPrefix(s, t, sector, diskSize, n - 1);
      assert t[n - 1] == t[..|s|][n - 1];
    }
  }

  lemma {:induction false} UsedAsPadded(s: seq<Part>, n: nat, sector: nat, diskSize: nat, k: nat)
    requires s != [] && sector > 0 && k <= n
    ensures UsedAs(Padded(s, n), sector, diskSize, |s| + k) == UsedAs(s, sector, diskSize, |s|)
    decreases k
  {
    var t := Padded(s, n);
    if k == 0 {
      UsedAsPrefix(s, t, sector, diskSize, |s|);
    } else {
      UsedAsPadded(s, n, sector, diskSize, k - 1);
      assert t[|s| + k - 1] == BLANK;
      if sector >= diskSize {
        OffDisk(s, sector, diskSize, |s|);
      }
    }
  }

  lemma {:induction false} OffDisk(s: seq<Part>, sector: nat, diskSize: nat, n: nat)
    requires 0 < n <= |s| && sector >= diskSize
    ensures UsedAs(s, sector, diskSize, n) == Invalid
  {
    if n > 1 {
      OffDisk(s, sector, diskSize, n - 1);
    } else {
      assert UsedAs(s, sector, diskSize, 0) == Unused;
    }
  }

  lemma {:induction false} SpanPadded(s: seq<Part>, n: nat)
    ensures FirstLogical(Padded(s, n)) == FirstLogical(s) && LastLogical(Padded(s, n)) == LastLogical(s)
    ensures Count(Padded(s, n), isPrimary) == Count(s, isPrimary)
    decreases n
  {
    var t := Padded(s, n);
    if n == 0 {
      assert t == s;
    } else {
      SpanPadded(s, n - 1);
      assert t[..|t| - 1] == Padded(s, n - 1) && t[|t| - 1] == BLANK;
    }
  }

  lemma PrimariesPadded(s: seq<Part>, n: nat)
    ensures NumPrimaries(Padded(s, n)) == NumPrimaries(s) && (HasLogical(Padded(s, n)) <==> HasLogical(s))
  {
    var t := Padded(s, n);
    SpanPadded(s, n);
    if HasLogical(s) {
      var i :| 0 <= i < |s| && s[i].length > 0 && s[i].role == Logical;
      assert t[i] == s[i];
    }
    if HasLogical(t) {
      var i :| 0 <= i < |t| && t[i].length > 0 && t[i].role == Logical;
      assert i < |s|;
    }
  }

  /** Legality is a matter of the entries that are not empty. */
  lemma LegalPadded(s: seq<Part>, n: nat, diskSize: nat)
    requires s != [] && diskSize > 0 && forall i :: 0 <= i < |s| ==> s[i].first > 0
    ensures Legal(Padded(s, n), diskSize) <==> Legal(s, diskSize)
  {
    hide Count, FirstLogical, LastLogical, UsedAs;
    var t := Padded(s, n);
    PrimariesPadded(s, n);
    SpanPadded(s, n);
    forall i | 0 <= i < |s|
      ensures UsedAs(t, s[i].first - 1, diskSize, |t|) == UsedAs(s, s[i].first - 1, diskSize, |s|)
    {
      if s[i].first == 1 {
        BootRecord(s, diskSize, |s|);
        BootRecord(t, diskSize, |t|);
      } else {
        UsedAsPadded(s, n, s[i].first - 1, diskSize, n);
      }
    }
    assert NoOverlaps(t) <==> NoOverlaps(s) by {
      assert forall i :: |s| <= i < |t| ==> !t[i].Included();
      if !NoOverlaps(s) {
        var i, j :| 0 <= i < j < |s| && s[i].Included() && s[j].Included() && Overlap(s[i], s[j]);
        assert t[i] == s[i] && t[j] == s[j];
      }
    }
    assert AllFit(t, diskSize) <==> AllFit(s, diskSize) by {
      if !AllFit(s, diskSize) {
        var i :| 0 <= i < |s| && !(s[i].first <= diskSize && s[i].Last() <= diskSize);
        assert t[i] == s[i];
      }
    }
    SpacePadded(s, t, diskSize);
    ContiguousPadded(s, t);
  }

  lemma SpacePadded(s: seq<Part>, t: seq<Part>, diskSize: nat)
    requires |s| <= |t| && (forall i :: 0 <= i < |s| ==> t[i] == s[i]) && forall i :: |s| <= i < |t| ==> t[i] == BLANK
    requires forall i :: 0 <= i < |s| ==> s[i].first > 0
    requires forall i :: 0 <= i < |s| ==>
      UsedAs(t, s[i].first - 1, diskSize, |t|) == UsedAs(s, s[i].first - 1, diskSize, |s|)
    ensures SpaceBeforeLogicals(t, diskSize) <==> SpaceBeforeLogicals(s, diskSize)
  {
    hide UsedAs;
    if !SpaceBeforeLogicals(s, diskSize) {
      var i :| 0 <= i < |s| && s[i].first > 0 && s[i].role == Logical
               && UsedAs(s, s[i].first - 1, diskSize, |s|) != Ebr;
      assert t[i] == s[i];
    }
  }

  lemma ContiguousPadded(s: seq<Part>, t: seq<Part>)
    requires |s| <= |t| && (forall i :: 0 <= i < |s| ==> t[i] == s[i]) && forall i :: |s| <= i < |t| ==> t[i] == BLANK
    requires FirstLogical(s) == FirstLogical(t) && LastLogical(s) == LastLogical(t)
    ensures LogicalsContiguous(t) <==> LogicalsContiguous(s)
  {
    hide FirstLogical, LastLogical;
    if !LogicalsContiguous(s) {
      var i :| 0 <= i < |s| && s[i].role == Primary && (FirstLogical(s) - 1) % TWO64 <= s[i].first <= LastLogical(s);
      assert t[i] == s[i];
    }
  }

  lemma TidyPadded(s: seq<Part>, n: nat)
    requires |s| + n == MAX_MBR_PARTS && forall i :: 0 <= i < |s| ==> TidyPart(s[i])
    ensures Tidy(Padded(s, n))
  {}

  // ---------- legal tables that do not keep the promise ----------

  /** One logical in the first sector after the boot record is legal, and can be written. */
  lemma SectorOneIsLegal()
    ensures var t := Padded([Part(0, 0x83, 1, 100, Logical)], 127);
            Tidy(t) && Roomy(t) && Legal(t, 1000) && !EbrsAfterMbr(t)
  {
    var p := Part(0, 0x83, 1, 100, Logical);
    var t := Padded([p], 127);
    TidyPadded([p], 127);
    OneEntryLegal(p, 1000);
    LegalPadded([p], 127, 1000);
    assert t[0] == p;
    RoomyPadded([p], 127);
  }

  /** A table of one entry is legal if the entry fits the disk and is no logical in sector 0. */
  lemma OneEntryLegal(p: Part, diskSize: nat)
    requires 0 < p.first && 0 < p.length && p.first + p.length - 1 <= diskSize
    ensures Legal([p], diskSize)
  {
    var s := [p];
    assert s[..0] == [];
    assert Count(s, isPrimary) <= 1;
    if p.role == Logical {
      var sector := p.first - 1;
      assert UsedAs(s, sector, diskSize, 0) == Unused;
      assert UsedAs(s, sector, diskSize, 1) == Ebr;
    }
  }

  lemma RoomyPadded(s: seq<Part>, n: nat)
    requires |s| <= 4 && n >= 8
    ensures Roomy(Padded(s, n))
  {
    var t := Padded(s, n);
    CountPositive(t[4..], Vacant);
    assert forall i :: 0 <= i < |t[4..]| ==> t[4..][i] == BLANK;
    assert Count(t[4..], Vacant) == |t[4..]| >= 4;
  }

  /** The fit test accepts a partition that ends on the sector after the last one: on a table that
      passes it a partition lies on the disk if and only if it does not end there. */
  lemma FitTest(t: seq<Part>, i: nat, diskSize: nat)
    requires AllFit(t, diskSize) && i < |t| && t[i].length > 0
    ensures (forall sector: int :: t[i].Has(sector) ==> sector < diskSize) <==> t[i].Last() != diskSize
  {
    assert t[i].Has(t[i].Last());
  }

  /** ... and such a table can be legal. */
  lemma PastTheEndIsLegal()
    ensures var t := Padded([Part(0, 0x07, 2, 999, Primary)], 127);
            Tidy(t) && Legal(t, 1000) && t[0].Has(1000)
  {
    var p := Part(0, 0x07, 2, 999, Primary);
    TidyPadded([p], 127);
    OneEntryLegal(p, 1000);
    LegalPadded([p], 127, 1000);
  }

  /** Two logicals more than 32 bits apart are legal, and their extended partition is too short. */
  lemma WideSpanIsLegal()
    ensures var t := Padded([Part(0, 0x83, 2, 100, Logical), Part(0, 0x83, UINT32_MAX, 100, Logical)], 126);
            && Tidy(t) && Legal(t, 0x2_0000_0000) && HasLogical(t)
            && !(forall s: int :: Extended(t).Has(s) <==> FirstLogical(t) - 1 <= s <= LastLogical(t))
  {
    var p, q := Part(0, 0x83, 2, 100, Logical), Part(0, 0x83, UINT32_MAX, 100, Logical);
    var s := [p, q];
    var t := Padded(s, 126);
    TidyPadded(s, 126);
    TwoLogicalsLegal(p, q, 0x2_0000_0000);
    LegalPadded(s, 126, 0x2_0000_0000);
    assert t[0] == p;
    SpanPadded(s, 126);
    TwoLogicalsSpan(p, q);
    ExtendedExact(t, 0x2_0000_0000);
  }

  /** Two logicals that span exactly 2^32 sectors with the first EBR are legal, and the length of
      their extended partition is cut to 0. */
  lemma CutIsLegal()
    ensures var t := Padded([Part(0, 0x83, 2, 100, Logical), Part(0, 0x83, UINT32_MAX, 2, Logical)], 126);
            Tidy(t) && Roomy(t) && Legal(t, 0x2_0000_0000) && HasLogical(t) && CutToNothing(t)
  {
    var p, q := Part(0, 0x83, 2, 100, Logical), Part(0, 0x83, UINT32_MAX, 2, Logical);
    var s := [p, q];
    TidyPadded(s, 126);
    RoomyPadded(s, 126);
    TwoLogicalsLegal(p, q, 0x2_0000_0000);
    LegalPadded(s, 126, 0x2_0000_0000);
    assert Padded(s, 126)[0] == p;
    SpanPadded(s, 126);
    TwoLogicalsSpan(p, q);
  }

  lemma TwoLogicalsSpan(p: Part, q: Part)
    requires p.role == q.role == Logical && p.length > 0 && q.length > 0 && p.Last() < q.first <= UINT32_MAX
    ensures FirstLogical([p, q]) == p.first && LastLogical([p, q]) == q.Last()
  {
    var s := [p, q];
    assert s[..1] == [p] && [p][..0] == [];
    assert FirstLogical([p]) == p.first && LastLogical([p]) == p.Last();
  }

  lemma TwoLogicalsLegal(p: Part, q: Part, diskSize: nat)
    requires p.role == q.role == Logical && p.length > 0 && q.length > 0 && 1 < p.first
    requires p.Last() + 1 < q.first <= UINT32_MAX
    requires q.Last() < diskSize
    ensures Legal([p, q], diskSize)
  {
    var s := [p, q];
    assert s[..1] == [p] && [p][..0] == [];
    assert Count([p], isPrimary) == 0 && Count(s, isPrimary) == 0;
    forall i | 0 <= i < 2
      ensures UsedAs(s, s[i].first - 1, diskSize, 2) == Ebr
    {
      var sector := s[i].first - 1;
      assert UsedAs(s, sector, diskSize, 0) == Unused;
      assert UsedAs(s, sector, diskSize, 1) == if i == 0 then Ebr else Unused;
    }
  }

  // ---------- a repair that fails ----------

  /** Entries with sectors, none of which starts right after the boot record. */
  predicate Solid(s: seq<Part>) {
    s != [] && forall i :: 0 <= i < |s| ==> s[i].length > 0 && 1 < s[i].first <= UINT32_MAX
  }

  /** Empty entries do not change what the others can be. */
  lemma RolesPadded(s: seq<Part>, n: nat, diskSize: nat, i: nat)
    requires Solid(s) && i < |s|
    ensures var t := Padded(s, n);
            && BestRole(t, i, diskSize) == BestRole(s, i, diskSize)
            && (PrimaryFlag(t, i, diskSize) <==> PrimaryFlag(s, i, diskSize))
  {
    hide UsedAs, FirstLogical, LastLogical, NumPrimaries;
    var t := Padded(s, n);
    assert t[i] == s[i];
    SpanPadded(s, n);
    PrimariesPadded(s, n);
    LogicalsPadded(s, n);
    assert (s[i].first - 1) % TWO64 == s[i].first - 1;
    UsedAsPadded(s, n, s[i].first - 1, diskSize, n);
    UsedAsPadded(s, n, s[i].Last(), diskSize, n);
    assert EndsOnEbr(t, i, diskSize) <==> EndsOnEbr(s, i, diskSize);
    BetweenPadded(s, t, i);
  }

  lemma {:induction false} LogicalsPadded(s: seq<Part>, n: nat)
    ensures Count(Padded(s, n), isLogical) == Count(s, isLogical)
    decreases n
  {
    var t := Padded(s, n);
    if n == 0 {
      assert t == s;
    } else {
      LogicalsPadded(s, n - 1);
      assert t[..|t| - 1] == Padded(s, n - 1) && t[|t| - 1] == BLANK;
    }
  }

  lemma BetweenPadded(s: seq<Part>, t: seq<Part>, i: nat)
    requires i < |s| <= |t| && (forall k :: 0 <= k < |s| ==> t[k] == s[k]) && forall k :: |s| <= k < |t| ==>
      t[k] == BLANK
    requires FirstLogical(s) == FirstLogical(t)
    ensures NoPrimaryBetween(t, i) <==> NoPrimaryBetween(s, i)
  {
    hide FirstLogical;
    if !NoPrimaryBetween(s, i) {
      var j :| 0 <= j < |s| && j != i && s[j].role == Primary && !Aside(s, i, j);
      assert t[j] == s[j] && t[i] == s[i];
      assert !Aside(t, i, j);
    }
  }

  lemma {:induction false} BlanksMaximized(s: seq<Part>, n: nat, diskSize: nat, i: nat)
    requires |s| <= i <= |s| + n && diskSize > 0
    ensures Maximized(Padded(s, n), diskSize, i) == Padded(s, n)
    decreases |s| + n - i
  {
    hide BestRole;
    var t := Padded(s, n);
    if i < |t| {
      BlanksMaximized(s, n, diskSize, i + 1);
      EmptyOut(t, i, diskSize);
      assert t[i] == t[i].(role := Omitted);
      assert t == t[i := t[i]];
    }
  }

  lemma {:induction false} MaximizedPadded(s: seq<Part>, n: nat, diskSize: nat, i: nat)
    requires Solid(s) && i <= |s| && diskSize > 0
    ensures Solid(Maximized(s, diskSize, i))
    ensures Maximized(Padded(s, n), diskSize, i) == Padded(Maximized(s, diskSize, i), n)
    decreases |s| - i
  {
    hide BestRole;
    if i == |s| {
      BlanksMaximized(s, n, diskSize, i);
    } else {
      MaximizedPadded(s, n, diskSize, i + 1);
      var u := Maximized(s, diskSize, i + 1);
      RolesPadded(u, n, diskSize, i);
      assert Padded(u, n)[i := u[i].(role := BestRole(u, i, diskSize))]
          == Padded(u[i := u[i].(role := BestRole(u, i, diskSize))], n);
    }
  }

  /** The flags of a padded table: those of its entries, and none for the empty ones. */
  ghost predicate FlagsPadded(flags: seq<bool>, own: seq<bool>, n: nat) {
    |flags| == |own| + n && flags[..|own|] == own && forall i :: |own| <= i < |flags| ==> !flags[i]
  }

  lemma PaddedFlags(s: seq<Part>, n: nat, diskSize: nat)
    requires Solid(s)
    ensures FlagsPadded(PrimaryFlags(Padded(s, n), diskSize), PrimaryFlags(s, diskSize), n)
  {
    hide EndsOnEbr, MayBePrimary;
    forall i | 0 <= i < |s|
      ensures PrimaryFlags(Padded(s, n), diskSize)[i] == PrimaryFlags(s, diskSize)[i]
    {
      RolesPadded(s, n, diskSize, i);
    }
  }

  lemma {:induction false} FillPadded(s: seq<Part>, n: nat, flags: seq<bool>, own: seq<bool>, diskSize: nat, i: nat,
                                      k: nat)
    requires Solid(s) && |own| == |s| && FlagsPadded(flags, own, n) && i <= |s| + n
    ensures Solid(if i <= |s| then Fill(s, own, diskSize, i, k) else s)
    ensures Fill(Padded(s, n), flags, diskSize, i, k) == Padded(if i <= |s| then Fill(s, own, diskSize, i, k) else s, n)
    decreases |s| + n - i
  {
    hide PrimaryFlags;
    var t := Padded(s, n);
    if k < 4 && i < |t| {
      if i < |s| {
        assert flags[i] == flags[..|own|][i];
      }
      if t[i].role == Omitted && flags[i] {
        var u := s[i := s[i].(role := Primary)];
        assert t[i := t[i].(role := Primary)] == Padded(u, n);
        PaddedFlags(u, n, diskSize);
        FillPadded(u, n, PrimaryFlags(Padded(u, n), diskSize), PrimaryFlags(u, diskSize), diskSize, i + 1, k + 1);
      } else {
        FillPadded(s, n, flags, own, diskSize, i + 1, k);
      }
    }
  }

  /** Up to the contiguity pass, repairing a padded table is repairing its entries. */
  lemma MaximizePadded(s: seq<Part>, n: nat, diskSize: nat)
    requires Solid(s) && diskSize > 0 && forall i :: 0 <= i < |s| ==> !Oversized(s[i], diskSize)
    ensures Maximize(Padded(s, n), diskSize) == Padded(Maximize(s, diskSize), n) && Solid(Maximize(s, diskSize))
  {
    hide Maximized, Fill, PrimaryFlags, NumPrimaries;
    var t := Padded(s, n);
    assert Fitting(s, diskSize) == s && Fitting(t, diskSize) == t;
    MaximizedPadded(s, n, diskSize, 0);
    MaximizedPadded(s, n, diskSize, 1);
    var m := Maximized(s, diskSize, 0);
    PrimariesPadded(m, n);
    var u := AfterLogicals(s, diskSize);
    assert AfterLogicals(t, diskSize) == Padded(u, n);
    PrimariesPadded(u, n);
    PaddedFlags(Maximized(s, diskSize, 1), n, diskSize);
    FillPadded(u, n, PrimaryFlags(Padded(Maximized(s, diskSize, 1), n), diskSize),
               PrimaryFlags(Maximized(s, diskSize, 1), diskSize), diskSize, 0, NumPrimaries(u));
  }

  lemma {:induction false} JoinsNothing(t: seq<Part>, first: nat, last: nat, diskSize: nat, n: nat)
    requires n <= |t| && forall i :: 0 <= i < |t| && t[i].role == Primary ==>
      !(first <= t[i].first && t[i].Last() <= last)
    ensures Joined(t, first, last, diskSize, n) == t
  {
    hide UsedAs;
    if n > 0 {
      JoinsNothing(t, first, last, diskSize, n - 1);
    }
  }

  /** Three partitions on a disk of 23 sectors, the third in the sector between the other two. */
  function Three(a: Inclusion, b: Inclusion, c: Inclusion): (s: seq<Part>)
    ensures |s| == 3 && Solid(s)
  {
    [Part(0, 0x83, 9, 5, a), Part(0, 0x83, 15, 8, b), Part(0, 0x83, 14, 1, c)]
  }

  lemma ThreeUnfolded(a: Inclusion, b: Inclusion, c: Inclusion)
    ensures var s := Three(a, b, c);
            && NumPrimaries(s) == (if a == Primary then 1 else 0) + (if b == Primary then 1 else 0)
                                  + (if c == Primary then 1 else 0)
                                  + (if a == Logical || b == Logical || c == Logical then 1 else 0)
            && FirstLogical(s) == (if a == Logical then 9 else if c == Logical then 14 else if b == Logical then 15
                                   else UINT32_MAX)
            && LastLogical(s) == (if b == Logical then 22 else if c == Logical then 14 else if a == Logical then 13
                                  else 0)
  {
    var s := Three(a, b, c);
    var s2, s1 := s[..2], s[..1];
    assert s2[..1] == s1 && s1[..0] == [];
    assert Count(s1, isPrimary) == if a == Primary then 1 else 0;
    assert Count(s2, isPrimary) == Count(s1, isPrimary) + if b == Primary then 1 else 0;
    assert FirstLogical(s1) == (if a == Logical then 9 else UINT32_MAX)
           && LastLogical(s1) == if a == Logical then 13 else 0;
    assert FirstLogical(s2) == if a == Logical then 9 else if b == Logical then 15 else UINT32_MAX;
    assert LastLogical(s2) == if b == Logical then 22 else if a == Logical then 13 else 0;
    assert a == Logical ==> s[0].role == Logical;
    assert b == Logical ==> s[1].role == Logical;
    assert c == Logical ==> s[2].role == Logical;
  }

  /** How the loop of SectorUsedAs goes on. */
  function Next(p: Part, sector: nat, before: Usage): Usage {
    if before == Unused || before == Ebr then UsedBy(p, sector, 23, before) else before
  }

  lemma ThreeUsed(s: seq<Part>, sector: nat)
    requires |s| == 3
    ensures UsedAs(s, sector, 23, 3) == Next(s[2], sector, Next(s[1], sector, Next(s[0], sector, Unused)))
  {
    assert UsedAs(s, sector, 23, 0) == Unused;
    assert UsedAs(s, sector, 23, 1) == Next(s[0], sector, Unused);
    assert UsedAs(s, sector, 23, 2) == Next(s[1], sector, UsedAs(s, sector, 23, 1));
  }

  /** MaximizeLogicals leaves the third partition out, and then the first one. */
  lemma ThreeMaximized()
    ensures Maximized(Three(Logical, Logical, Primary), 23, 1) == Three(Logical, Logical, Omitted)
    ensures AfterLogicals(Three(Logical, Logical, Primary), 23) == Three(Omitted, Logical, Omitted)
  {
    hide UsedAs, NumPrimaries, FirstLogical, LastLogical;
    var s, u := Three(Logical, Logical, Primary), Three(Logical, Logical, Omitted);
    ThreeUnfolded(Logical, Logical, Primary);
    ThreeUnfolded(Logical, Logical, Omitted);
    ThreeUsed(s, 14);
    ThreeUsed(s, 13);
    assert BestRole(s, 2, 23) == Omitted;
    assert Maximized(s, 23, 2) == s[2 := s[2].(role := Omitted)] == u;
    ThreeUsed(u, 22);
    ThreeUsed(u, 14);
    assert BestRole(u, 1, 23) == Logical;
    assert Maximized(s, 23, 1) == u[1 := u[1].(role := Logical)] == u;
    ThreeUsed(u, 13);
    ThreeUsed(u, 8);
    assert BestRole(u, 0, 23) == Logical;
    assert Maximized(s, 23, 0) == u[0 := u[0].(role := Logical)] == u;
    assert u[0 := u[0].(role := Omitted)] == Three(Omitted, Logical, Omitted);
  }

  /** MaximizePrimaries brings both back as primaries. */
  lemma ThreeFilled()
    ensures Maximize(Three(Logical, Logical, Primary), 23) == Three(Primary, Logical, Primary)
  {
    hide UsedAs, NumPrimaries, FirstLogical, LastLogical, PrimaryFlags, Maximized, AfterLogicals;
    var s, u := Three(Logical, Logical, Primary), Three(Omitted, Logical, Omitted);
    assert Fitting(s, 23) == s;
    ThreeMaximized();
    ThreeUnfolded(Omitted, Logical, Omitted);
    var v, w := Three(Primary, Logical, Omitted), Three(Primary, Logical, Primary);
    ThreeFlags();
    var f, g := PrimaryFlags(Three(Logical, Logical, Omitted), 23), PrimaryFlags(v, 23);
    assert u[0 := u[0].(role := Primary)] == v && v[2 := v[2].(role := Primary)] == w;
    assert Fill(v, g, 23, 2, 2) == w;
    assert Fill(v, g, 23, 1, 2) == w;
    assert Fill(u, f, 23, 0, 1) == w;
  }

  lemma ThreeFlags()
    ensures PrimaryFlags(Three(Logical, Logical, Omitted), 23)[0]
    ensures PrimaryFlags(Three(Primary, Logical, Omitted), 23)[2]
  {
    hide UsedAs, NumPrimaries, FirstLogical, LastLogical;
    var u, v := Three(Logical, Logical, Omitted), Three(Primary, Logical, Omitted);
    ThreeUnfolded(Logical, Logical, Omitted);
    ThreeUnfolded(Primary, Logical, Omitted);
    ThreeUsed(u, 13);
    ThreeUsed(v, 14);
    assert PrimaryFlag(u, 0, 23) && PrimaryFlag(v, 2, 23);
  }

  /** Repairing need not make a table legal: here it ends with a primary on the sector that the
      logical after it needs for its EBR, and with that primary in the span of the logicals. */
  lemma RepairCanFail()
    ensures var t := Padded(Three(Logical, Logical, Primary), 125);
            && !Legal(t, 23) && Repair(t, 23) == Padded(Three(Primary, Logical, Primary), 125)
            && !Legal(Repair(t, 23), 23)
            && !LogicalsContiguous(Repair(t, 23)) && !SpaceBeforeLogicals(Repair(t, 23), 23)
  {
    hide Legal, Three, LogicalsContiguous, SpaceBeforeLogicals, Repair;
    NoRoom(Logical);
    NoRoom(Primary);
    NotContiguous();
    Unchanged();
    IllegalFor(Padded(Three(Logical, Logical, Primary), 125), 23);
    IllegalFor(Padded(Three(Primary, Logical, Primary), 125), 23);
  }

  lemma IllegalFor(t: seq<Part>, diskSize: nat)
    requires !SpaceBeforeLogicals(t, diskSize)
    ensures !Legal(t, diskSize)
  {}

  /** The third partition as a primary takes the second one's EBR. */
  lemma NoRoom(a: Inclusion)
    ensures !SpaceBeforeLogicals(Padded(Three(a, Logical, Primary), 125), 23)
  {
    hide UsedAs;
    var s := Three(a, Logical, Primary);
    var t := Padded(s, 125);
    ThreeUsed(s, 14);
    UsedAsPadded(s, 125, 14, 23, 125);
    assert t[1] == s[1] && UsedAs(t, t[1].first - 1, 23, |t|) != Ebr;
  }

  lemma NotContiguous()
    ensures !LogicalsContiguous(Padded(Three(Primary, Logical, Primary), 125))
  {
    hide FirstLogical, LastLogical, NumPrimaries;
    var w := Three(Primary, Logical, Primary);
    var r := Padded(w, 125);
    ThreeUnfolded(Primary, Logical, Primary);
    SpanPadded(w, 125);
    assert r[2] == w[2];
  }

  /** The last passes find nothing to do. */
  lemma Unchanged()
    ensures Repair(Padded(Three(Logical, Logical, Primary), 125), 23) == Padded(Three(Primary, Logical, Primary), 125)
  {
    hide NumPrimaries, FirstLogical, LastLogical, Maximize, Repair, LogicalsContiguous, Padded;
    var s, w := Three(Logical, Logical, Primary), Three(Primary, Logical, Primary);
    MaximizePadded(s, 125, 23);
    ThreeFilled();
    ThreeUnfolded(Primary, Logical, Primary);
    SpanPadded(w, 125);
    PrimariesPadded(w, 125);
    NotContiguous();
    Spread(w, 125);
    NotWithin(w, 125, 15, 22);
    PassesIdle(Padded(s, 125), Padded(w, 125), 23);
  }

  /** Nothing to join, to trim or to omit. */
  lemma PassesIdle(t: seq<Part>, v: seq<Part>, diskSize: nat)
    requires t != [] && Maximize(t, diskSize) == v && NumPrimaries(v) <= 4
    requires forall i :: 0 <= i < |v| && v[i].role == Primary ==>
      !(FirstLogical(v) <= v[i].first && v[i].Last() <= LastLogical(v))
    requires forall a, b :: 0 <= a < b < |v| ==> !Overlap(v[a], v[b])
    ensures Repair(t, diskSize) == v
  {
    hide NumPrimaries, FirstLogical, LastLogical, Maximize, Joined, OmitFrom, LogicalsContiguous, Overlap;
    JoinsNothing(v, FirstLogical(v), LastLogical(v), diskSize, |v|);
    OmitsNothing(v, 0, 1);
  }

  lemma NotWithin(s: seq<Part>, n: nat, first: nat, last: nat)
    requires forall i :: 0 <= i < |s| && s[i].role == Primary ==> !(first <= s[i].first && s[i].Last() <= last)
    ensures var t := Padded(s, n);
            forall i :: 0 <= i < |t| && t[i].role == Primary ==> !(first <= t[i].first && t[i].Last() <= last)
  {}

  lemma Spread(s: seq<Part>, n: nat)
    requires forall a, b :: 0 <= a < b < |s| ==> !Overlap(s[a], s[b])
    ensures var t := Padded(s, n); forall a, b :: 0 <= a < b < |t| ==> !Overlap(t[a], t[b])
  {}
}
