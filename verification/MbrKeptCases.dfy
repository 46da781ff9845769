/** What repairing does to three tables of four partitions: two that keep them all in the four primary
    slots, and one that loses a partition for which there is a slot. */
module MbrKeptCases {
  import opened MbrTable
  import opened MbrLayout
  import opened MbrRepair
  import opened MbrKept
  import opened MbrCases

  // ---------- tables of four entries, evaluated ----------

  function One(b: bool): nat { if b then 1 else 0 }

  function Lower(p: Part, least: nat): nat { if p.role == Logical && p.first < least then p.first else least }

  function Upper(p: Part, most: nat): nat { if p.role == Logical && p.Last() > most then p.Last() else most }

  lemma FourUnfolded(s: seq<Part>)
    requires |s| == 4 && Solid(s)
    ensures FirstLogical(s) == Lower(s[3], Lower(s[2], Lower(s[1], Lower(s[0], UINT32_MAX))))
    ensures LastLogical(s) == Upper(s[3], Upper(s[2], Upper(s[1], Upper(s[0], 0))))
  {
    var s3, s2, s1 := s[..3], s[..2], s[..1];
    assert s3[..2] == s2 && s2[..1] == s1 && s1[..0] == [];
    assert FirstLogical(s1) == Lower(s[0], UINT32_MAX) && LastLogical(s1) == Upper(s[0], 0);
    assert FirstLogical(s2) == Lower(s[1], FirstLogical(s1)) && LastLogical(s2) == Upper(s[1], LastLogical(s1));
    assert FirstLogical(s3) == Lower(s[2], FirstLogical(s2)) && LastLogical(s3) == Upper(s[2], LastLogical(s2));
  }

  lemma FourCounted(s: seq<Part>, f: Part -> bool)
    requires |s| == 4
    ensures Count(s, f) == One(f(s[0])) + One(f(s[1])) + One(f(s[2])) + One(f(s[3]))
  {
    var s3, s2, s1 := s[..3], s[..2], s[..1];
    assert s3[..2] == s2 && s2[..1] == s1 && s1[..0] == [];
    assert Count(s1, f) == One(f(s[0]));
    assert Count(s2, f) == Count(s1, f) + One(f(s[1]));
    assert Count(s3, f) == Count(s2, f) + One(f(s[2]));
  }

  lemma FourSlots(s: seq<Part>)
    requires |s| == 4 && Solid(s)
    ensures NumPrimaries(s) ==
      One(s[0].role == Primary) + One(s[1].role == Primary) + One(s[2].role == Primary) + One(s[3].role == Primary)
      + One(s[0].role == Logical || s[1].role == Logical || s[2].role == Logical || s[3].role == Logical)
    ensures Count(s, isLogical) ==
      One(s[0].role == Logical) + One(s[1].role == Logical) + One(s[2].role == Logical) + One(s[3].role == Logical)
  {
    FourCounted(s, isPrimary);
    FourCounted(s, isLogical);
    assert s[0].length > 0 && s[1].length > 0 && s[2].length > 0 && s[3].length > 0;
  }

  const SIZE: nat := 30

  /** How the loop of SectorUsedAs goes on. */
  function Then(p: Part, sector: nat, before: Usage): Usage {
    if before == Unused || before == Ebr then UsedBy(p, sector, SIZE, before) else before
  }

  lemma FourUsed(s: seq<Part>, sector: nat)
    requires |s| == 4
    ensures UsedAs(s, sector, SIZE, 4) ==
      Then(s[3], sector, Then(s[2], sector, Then(s[1], sector, Then(s[0], sector, Unused))))
  {
    assert UsedAs(s, sector, SIZE, 0) == Unused;
    assert UsedAs(s, sector, SIZE, 1) == Then(s[0], sector, Unused);
    assert UsedAs(s, sector, SIZE, 2) == Then(s[1], sector, UsedAs(s, sector, SIZE, 1));
    assert UsedAs(s, sector, SIZE, 3) == Then(s[2], sector, UsedAs(s, sector, SIZE, 2));
  }

  /** Everything BestRole and the flags ask about entry i. */
  lemma FourFacts(s: seq<Part>, i: nat)
    requires |s| == 4 && Solid(s) && i < 4 && s[i].first > 1
    ensures UsedAs(s, s[i].Last(), SIZE, 4) ==
      Then(s[3], s[i].Last(), Then(s[2], s[i].Last(), Then(s[1], s[i].Last(), Then(s[0], s[i].Last(), Unused))))
    ensures (s[i].first - 1) % TWO64 == s[i].first - 1
    ensures
      var b := s[i].first - 1;
      UsedAs(s, b, SIZE, 4) == Then(s[3], b, Then(s[2], b, Then(s[1], b, Then(s[0], b, Unused))))
  {
    hide UsedAs;
    FourUsed(s, s[i].Last());
    FourUsed(s, s[i].first - 1);
  }

  // ---------- four partitions kept ----------

  /** Four partitions on a disk of 30 sectors, the last three next to each other. */
  function Packed(a: Inclusion, b: Inclusion, c: Inclusion, d: Inclusion): (s: seq<Part>)
    ensures |s| == 4 && Solid(s)
  {
    [Part(0, 0x83, 3, 4, a), Part(0, 0x83, 16, 4, b), Part(0, 0x83, 20, 6, c), Part(0, 0x83, 26, 4, d)]
  }

  /** The roles that MaximizeLogicals gives them, from the last one to the first. */
  lemma PackedBest()
    ensures BestRole(Packed(Primary, Primary, Logical, Primary), 3, SIZE) == Primary
    ensures BestRole(Packed(Primary, Primary, Logical, Primary), 2, SIZE) == Primary
    ensures BestRole(Packed(Primary, Primary, Primary, Primary), 1, SIZE) == Logical
    ensures BestRole(Packed(Primary, Logical, Primary, Primary), 0, SIZE) == Logical
    ensures PrimaryFlag(Packed(Primary, Logical, Primary, Primary), 0, SIZE)
  {
    hide UsedAs, NumPrimaries, FirstLogical, LastLogical, Count;
    var s, t := Packed(Primary, Primary, Logical, Primary), Packed(Primary, Primary, Primary, Primary);
    FourUnfolded(s);
    FourSlots(s);
    FourFacts(s, 3);
    FourFacts(s, 2);
    FourUnfolded(t);
    FourFacts(t, 1);
    var u := Packed(Primary, Logical, Primary, Primary);
    FourUnfolded(u);
    FourSlots(u);
    FourFacts(u, 0);
  }

  lemma PackedSteps()
    ensures
      var s := Packed(Primary, Primary, Logical, Primary);
      && Maximized(s, SIZE, 1) == Packed(Primary, Logical, Primary, Primary)
      && Maximized(s, SIZE, 0) == Packed(Logical, Logical, Primary, Primary)
  {
    hide BestRole, PrimaryFlag;
    var s := Packed(Primary, Primary, Logical, Primary);
    PackedBest();
    assert Maximized(s, SIZE, 4) == s;
    assert Maximized(s, SIZE, 3) == s;
    assert Maximized(s, SIZE, 2) == Packed(Primary, Primary, Primary, Primary);
    assert Maximized(s, SIZE, 1) == Packed(Primary, Logical, Primary, Primary);
  }

  lemma PackedMaximized()
    ensures Maximize(Packed(Primary, Primary, Logical, Primary), SIZE) == Packed(Primary, Logical, Primary, Primary)
  {
    hide BestRole, NumPrimaries, PrimaryFlag, Maximized;
    var s, v := Packed(Primary, Primary, Logical, Primary), Packed(Primary, Logical, Primary, Primary);
    assert Fitting(s, SIZE) == s;
    PackedBest();
    PackedSteps();
    FourSlots(Packed(Logical, Logical, Primary, Primary));
    var u := Packed(Omitted, Logical, Primary, Primary);
    assert AfterLogicals(s, SIZE) == u;
    FourSlots(u);
    assert u[0 := u[0].(role := Primary)] == v;
    assert Fill(u, PrimaryFlags(v, SIZE), SIZE, 0, 3) == v;
  }

  /** Four partitions of which one lacks room for an EBR: all are kept, three of them as primaries in
      the slots that are left beside the extended partition. */
  lemma FourKept()
    ensures var t := Padded(Packed(Primary, Primary, Logical, Primary), 124);
            && !Legal(t, SIZE) && Repair(t, SIZE) == Padded(Packed(Primary, Logical, Primary, Primary), 124)
            && Legal(Repair(t, SIZE), SIZE)
  {
    hide Repair, Legal;
    PackedIllegal();
    PackedRepaired();
    PackedLegal();
  }

  lemma PackedIllegal()
    ensures !Legal(Padded(Packed(Primary, Primary, Logical, Primary), 124), SIZE)
  {
    hide UsedAs, Legal;
    var s := Packed(Primary, Primary, Logical, Primary);
    FourFacts(s, 2);
    assert !SpaceBeforeLogicals(s, SIZE);
    IllegalFor(s, SIZE);
    LegalPadded(s, 124, SIZE);
  }

  lemma PackedLegal()
    ensures Legal(Padded(Packed(Primary, Logical, Primary, Primary), 124), SIZE)
  {
    hide UsedAs, Legal;
    var s := Packed(Primary, Logical, Primary, Primary);
    FourFacts(s, 1);
    FourLegal(s, 1);
  }

  /** Four entries that are apart, one of them logical with a sector before it and no primary in it. */
  lemma FourLegal(s: seq<Part>, l: nat)
    requires |s| == 4 && Solid(s) && AllApart(s) && l < 4 && s[l].role == Logical
    requires forall i :: 0 <= i < 4 ==> s[i].Last() <= SIZE && (i != l ==> s[i].role != Logical)
    requires UsedAs(s, s[l].first - 1, SIZE, 4) == Ebr
    requires forall i :: 0 <= i < 4 && i != l ==> !(s[l].first - 1 <= s[i].first <= s[l].Last())
    ensures Legal(Padded(s, 124), SIZE)
  {
    hide Legal, UsedAs, Overlap, Padded;
    FourApart(s);
    FourContiguous(s, l);
    FourSpaced(s, l);
    FourCount(s, l);
    FourTogether(s);
    LegalPadded(s, 124, SIZE);
  }

  lemma FourTogether(s: seq<Part>)
    requires NoOverlaps(s) && NumPrimaries(s) <= 4 && LogicalsContiguous(s) && AllFit(s, SIZE)
    requires SpaceBeforeLogicals(s, SIZE)
    ensures Legal(s, SIZE)
  {}

  lemma FourApart(s: seq<Part>)
    requires |s| == 4 && AllApart(s) && Solid(s) && forall i :: 0 <= i < 4 ==> s[i].Last() <= SIZE
    ensures NoOverlaps(s) && AllFit(s, SIZE)
  {
    hide Overlap;
  }

  lemma FourSpaced(s: seq<Part>, l: nat)
    requires |s| == 4 && l < 4 && s[l].first > 0 && UsedAs(s, s[l].first - 1, SIZE, 4) == Ebr
    requires forall i :: 0 <= i < 4 && i != l ==> s[i].role != Logical
    ensures SpaceBeforeLogicals(s, SIZE)
  {
    hide UsedAs;
  }

  lemma FourCount(s: seq<Part>, l: nat)
    requires |s| == 4 && Solid(s) && l < 4 && s[l].role == Logical
    ensures NumPrimaries(s) <= 4
  {
    hide NumPrimaries;
    FourSlots(s);
  }

  lemma FourContiguous(s: seq<Part>, l: nat)
    requires |s| == 4 && Solid(s) && l < 4 && s[l].role == Logical
    requires forall i :: 0 <= i < 4 && i != l ==> s[i].role != Logical
    requires forall i :: 0 <= i < 4 && i != l ==> !(s[l].first - 1 <= s[i].first <= s[l].Last())
    ensures LogicalsContiguous(s)
  {
    hide FirstLogical, LastLogical;
    FourSpan(s, l);
    ContiguousSpan(s);
  }

  lemma FourSpan(s: seq<Part>, l: nat)
    requires |s| == 4 && Solid(s) && l < 4 && s[l].role == Logical
    requires forall i :: 0 <= i < 4 && i != l ==> s[i].role != Logical
    ensures FirstLogical(s) == s[l].first && LastLogical(s) == s[l].Last()
  {
    hide FirstLogical, LastLogical;
    FourUnfolded(s);
  }

  lemma PackedRepaired()
    ensures Repair(Padded(Packed(Primary, Primary, Logical, Primary), 124), SIZE)
         == Padded(Packed(Primary, Logical, Primary, Primary), 124)
  {
    hide Maximize, Repair, Padded, NumPrimaries, FirstLogical, LastLogical;
    var s, v := Packed(Primary, Primary, Logical, Primary), Packed(Primary, Logical, Primary, Primary);
    MaximizePadded(s, 124, SIZE);
    PackedMaximized();
    LaterPassesIdle(s, v, 16, 19);
  }

  /** After MaximizePrimaries nothing is left to do when nothing overlaps and no primary is among
      the logicals. */
  lemma LaterPassesIdle(s: seq<Part>, v: seq<Part>, first: nat, last: nat)
    requires |s| == |v| == 4 && Solid(v) && Maximize(Padded(s, 124), SIZE) == Padded(v, 124)
    requires first == Lower(v[3], Lower(v[2], Lower(v[1], Lower(v[0], UINT32_MAX))))
    requires last == Upper(v[3], Upper(v[2], Upper(v[1], Upper(v[0], 0))))
    requires forall i :: 0 <= i < 4 && v[i].role == Primary ==> !(first <= v[i].first && v[i].Last() <= last)
    requires forall a, b :: 0 <= a < b < 4 ==> !Overlap(v[a], v[b])
    requires exists i :: 0 <= i < 4 && v[i].role != Primary
    ensures Repair(Padded(s, 124), SIZE) == Padded(v, 124)
  {
    hide Maximize, Repair, Padded, NumPrimaries, FirstLogical, LastLogical, Overlap;
    FourUnfolded(v);
    FourSlots(v);
    SpanPadded(v, 124);
    PrimariesPadded(v, 124);
    Spread(v, 124);
    NotWithin(v, 124, first, last);
    PassesIdle(Padded(s, 124), Padded(v, 124), SIZE);
  }

  // ---------- the first partition as the only logical ----------

  /** Four partitions next to each other, in ascending order. */
  function InRow(a: Inclusion, b: Inclusion, c: Inclusion, d: Inclusion): (s: seq<Part>)
    ensures |s| == 4 && Solid(s)
  {
    [Part(0, 0x83, 2, 2, a), Part(0, 0x83, 4, 2, b), Part(0, 0x83, 6, 2, c), Part(0, 0x83, 8, 2, d)]
  }

  lemma InRowBest()
    ensures BestRole(InRow(Logical, Logical, Primary, Primary), 3, SIZE) == Primary
    ensures BestRole(InRow(Logical, Logical, Primary, Primary), 2, SIZE) == Primary
    ensures BestRole(InRow(Logical, Logical, Primary, Primary), 1, SIZE) == Primary
    ensures BestRole(InRow(Logical, Primary, Primary, Primary), 0, SIZE) == Logical
  {
    hide UsedAs, NumPrimaries, FirstLogical, LastLogical, Count;
    var s, t := InRow(Logical, Logical, Primary, Primary), InRow(Logical, Primary, Primary, Primary);
    FourUnfolded(s);
    FourSlots(s);
    FourFacts(s, 3);
    FourFacts(s, 2);
    FourFacts(s, 1);
    FourUnfolded(t);
    FourFacts(t, 0);
  }

  lemma InRowMaximized()
    ensures Maximize(InRow(Logical, Logical, Primary, Primary), SIZE) == InRow(Logical, Primary, Primary, Primary)
  {
    hide BestRole, NumPrimaries, PrimaryFlag;
    var s, v := InRow(Logical, Logical, Primary, Primary), InRow(Logical, Primary, Primary, Primary);
    assert Fitting(s, SIZE) == s;
    InRowBest();
    assert Maximized(s, SIZE, 4) == s;
    assert Maximized(s, SIZE, 3) == s;
    assert Maximized(s, SIZE, 2) == s;
    assert Maximized(s, SIZE, 1) == v;
    assert Maximized(s, SIZE, 0) == v;
    FourSlots(v);
    assert AfterLogicals(s, SIZE) == v;
  }

  /** When the four slots are taken, the first partition stays logical. */
  lemma FirstStaysLogical()
    ensures var t := Padded(InRow(Logical, Logical, Primary, Primary), 124);
            && !Legal(t, SIZE) && Repair(t, SIZE) == Padded(InRow(Logical, Primary, Primary, Primary), 124)
            && Legal(Repair(t, SIZE), SIZE)
  {
    hide Repair, Legal;
    InRowIllegal();
    InRowRepaired();
    InRowLegal();
  }

  lemma InRowIllegal()
    ensures !Legal(Padded(InRow(Logical, Logical, Primary, Primary), 124), SIZE)
  {
    hide UsedAs, Legal;
    var s := InRow(Logical, Logical, Primary, Primary);
    FourFacts(s, 1);
    assert !SpaceBeforeLogicals(s, SIZE);
    IllegalFor(s, SIZE);
    LegalPadded(s, 124, SIZE);
  }

  lemma InRowLegal()
    ensures Legal(Padded(InRow(Logical, Primary, Primary, Primary), 124), SIZE)
  {
    hide UsedAs, Legal;
    var s := InRow(Logical, Primary, Primary, Primary);
    FourFacts(s, 0);
    FourLegal(s, 0);
  }

  lemma InRowRepaired()
    ensures Repair(Padded(InRow(Logical, Logical, Primary, Primary), 124), SIZE)
         == Padded(InRow(Logical, Primary, Primary, Primary), 124)
  {
    hide Maximize, Repair, Padded, NumPrimaries, FirstLogical, LastLogical;
    var s, v := InRow(Logical, Logical, Primary, Primary), InRow(Logical, Primary, Primary, Primary);
    MaximizePadded(s, 124, SIZE);
    InRowMaximized();
    assert v[0].role != Primary;
    LaterPassesIdle(s, v, 2, 3);
  }

  // ---------- a partition lost ----------

  /** Four partitions in a row at the start of the disk, the last one first in the array. */
  function Crammed(a: Inclusion, b: Inclusion, c: Inclusion, d: Inclusion): (s: seq<Part>)
    ensures |s| == 4 && Solid(s)
  {
    [Part(0, 0x83, 5, 2, a), Part(0, 0x83, 4, 1, b), Part(0, 0x83, 2, 1, c), Part(0, 0x83, 3, 1, d)]
  }

  /** The second one cannot be primary while the first one, still logical, stretches the span over it. */
  lemma CrammedBest()
    ensures BestRole(Crammed(Logical, Logical, Primary, Primary), 3, SIZE) == Primary
    ensures BestRole(Crammed(Logical, Logical, Primary, Primary), 2, SIZE) == Logical
    ensures BestRole(Crammed(Logical, Logical, Logical, Primary), 1, SIZE) == Omitted
    ensures BestRole(Crammed(Logical, Omitted, Logical, Primary), 0, SIZE) == Primary
    ensures !PrimaryFlag(Crammed(Logical, Omitted, Logical, Primary), 1, SIZE)
  {
    hide UsedAs, NumPrimaries, FirstLogical, LastLogical, Count;
    var s, t := Crammed(Logical, Logical, Primary, Primary), Crammed(Logical, Logical, Logical, Primary);
    FourUnfolded(s);
    FourSlots(s);
    FourFacts(s, 3);
    FourFacts(s, 2);
    FourUnfolded(t);
    FourSlots(t);
    FourFacts(t, 1);
    var u := Crammed(Logical, Omitted, Logical, Primary);
    FourUnfolded(u);
    FourSlots(u);
    FourFacts(u, 0);
    FourFacts(u, 1);
    CrammedBetween();
  }

  lemma CrammedBetween()
    ensures NoPrimaryBetween(Crammed(Logical, Logical, Primary, Primary), 2)
    ensures !NoPrimaryBetween(Crammed(Logical, Omitted, Logical, Primary), 0)
  {
    hide FirstLogical, LastLogical;
    var s, u := Crammed(Logical, Logical, Primary, Primary), Crammed(Logical, Omitted, Logical, Primary);
    FourUnfolded(s);
    FourUnfolded(u);
    assert u[3].role == Primary && !Aside(u, 0, 3);
  }

  lemma CrammedMaximized()
    ensures Maximize(Crammed(Logical, Logical, Primary, Primary), SIZE) == Crammed(Primary, Omitted, Logical, Primary)
  {
    hide BestRole, NumPrimaries, PrimaryFlag;
    var s, v := Crammed(Logical, Logical, Primary, Primary), Crammed(Primary, Omitted, Logical, Primary);
    assert Fitting(s, SIZE) == s;
    CrammedBest();
    assert Maximized(s, SIZE, 4) == s;
    assert Maximized(s, SIZE, 3) == s;
    assert Maximized(s, SIZE, 2) == Crammed(Logical, Logical, Logical, Primary);
    var m := Crammed(Logical, Omitted, Logical, Primary);
    assert Maximized(s, SIZE, 1) == m;
    assert Maximized(s, SIZE, 0) == v;
    assert AfterLogicals(s, SIZE) == v;
    FourSlots(v);
    FillIdle(v, PrimaryFlags(m, SIZE), SIZE, 0, 3);
  }

  /** A partition is lost although a primary slot is free for it and nothing bars it: the table that
      the repair ends with is legal, and stays legal with that partition as a primary. */
  lemma PartitionLost()
    ensures
      var t, r := Padded(Crammed(Logical, Logical, Primary, Primary), 124),
                  Padded(Crammed(Primary, Omitted, Logical, Primary), 124);
      && !Legal(t, SIZE) && Repair(t, SIZE) == r && Legal(r, SIZE)
      && NumPrimaries(r) == 3 && LeftOut(r[1]) && !Barred(r, r[1])
      && Legal(r[1 := r[1].(role := Primary)], SIZE)
  {
    hide Repair, Legal, NumPrimaries, Barred;
    CrammedIllegal();
    CrammedRepaired();
    CrammedLegal(Omitted);
    CrammedLegal(Primary);
    CrammedFree();
    var r := Padded(Crammed(Primary, Omitted, Logical, Primary), 124);
    assert r[1 := r[1].(role := Primary)] == Padded(Crammed(Primary, Primary, Logical, Primary), 124);
  }

  lemma CrammedIllegal()
    ensures !Legal(Padded(Crammed(Logical, Logical, Primary, Primary), 124), SIZE)
  {
    hide UsedAs, Legal;
    var s := Crammed(Logical, Logical, Primary, Primary);
    FourFacts(s, 0);
    assert !SpaceBeforeLogicals(s, SIZE);
    IllegalFor(s, SIZE);
    LegalPadded(s, 124, SIZE);
  }

  lemma CrammedLegal(b: Inclusion)
    requires b != Logical
    ensures Legal(Padded(Crammed(Primary, b, Logical, Primary), 124), SIZE)
  {
    hide UsedAs, Legal;
    var s := Crammed(Primary, b, Logical, Primary);
    FourFacts(s, 2);
    FourLegal(s, 2);
  }

  lemma CrammedFree()
    ensures var r := Padded(Crammed(Primary, Omitted, Logical, Primary), 124);
            NumPrimaries(r) == 3 && LeftOut(r[1]) && !Barred(r, r[1])
  {
    hide NumPrimaries, FirstLogical, LastLogical;
    var s := Crammed(Primary, Omitted, Logical, Primary);
    var r := Padded(s, 124);
    FourUnfolded(s);
    FourSlots(s);
    SpanPadded(s, 124);
    PrimariesPadded(s, 124);
    assert r[1] == s[1];
    forall j | 0 <= j < |r| && r[j].role == Logical
      ensures r[j].first != r[1].Last() + 1
    {
      assert j < 4 && r[j] == s[j];
    }
  }

  lemma CrammedRepaired()
    ensures Repair(Padded(Crammed(Logical, Logical, Primary, Primary), 124), SIZE)
         == Padded(Crammed(Primary, Omitted, Logical, Primary), 124)
  {
    hide Maximize, Repair, Padded, NumPrimaries, FirstLogical, LastLogical;
    var s, v := Crammed(Logical, Logical, Primary, Primary), Crammed(Primary, Omitted, Logical, Primary);
    MaximizePadded(s, 124, SIZE);
    CrammedMaximized();
    assert v[1].role != Primary;
    LaterPassesIdle(s, v, 2, 2);
  }
}
