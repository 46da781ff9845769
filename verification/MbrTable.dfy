/** MBR partition tables as gdisk/basicmbr.cc and gdisk/mbrpart.cc see them: primaries and
    logicals in one array of 128 entries, and what makes such an array a legal layout. */
module MbrTable {

  const MAX_MBR_PARTS: nat := 128
  const UINT32_MAX: nat := 0xFFFF_FFFF
  const TWO64: nat := 0x1_0000_0000_0000_0000

  datatype Inclusion = Omitted | Primary | Logical

  /** What a sector is used for. */
  datatype Usage = Unused | AsPrimary | AsLogical | Ebr | Invalid

  datatype Part = Part(status: nat, kind: nat, first: nat, length: nat, role: Inclusion) {
    /** GetLastLBA. */
    function Last(): nat { if length > 0 then first + length - 1 else 0 }

    predicate Included() { role != Omitted }

    /** The sector lies in the partition. */
    predicate Has(sector: int) { length > 0 && first <= sector <= Last() }
  }

  const BLANK := Part(0, 0, 0, 0, Omitted)

  predicate IsExtended(kind: nat) { kind == 0x05 || kind == 0x0f || kind == 0x85 }

  /** DoTheyOverlap. */
  predicate Overlap(p: Part, q: Part) {
    p.length > 0 && q.length > 0 && ((p.first <= q.Last()) != (p.Last() < q.first))
  }

  /** Overlapping is having a sector in common. */
  lemma OverlapMeansShared(p: Part, q: Part)
    ensures Overlap(p, q) <==> exists s: int :: p.Has(s) && q.Has(s)
  {
    if Overlap(p, q) {
      var s := if p.first <= q.first then q.first else p.first;
      assert p.Has(s) && q.Has(s);
    }
  }

  // ---------- queries ----------

  function Count(s: seq<Part>, f: Part -> bool): (n: nat)
    ensures n <= |s|
  {
    if s == [] then 0 else Count(s[..|s| - 1], f) + (if f(s[|s| - 1]) then 1 else 0)
  }

  const isPrimary: Part -> bool := (p: Part) => p.length > 0 && p.role == Primary

  predicate HasLogical(t: seq<Part>) { exists i :: 0 <= i < |t| && t[i].length > 0 && t[i].role == Logical }

  /** Primary slots needed, with one for the extended partition. */
  function NumPrimaries(t: seq<Part>): nat { Count(t, isPrimary) + (if HasLogical(t) then 1 else 0) }

  /** The first sector of any logical partition, UINT32_MAX if there is none. */
  function FirstLogical(t: seq<Part>): (r: nat)
    ensures r <= UINT32_MAX
  {
    if t == [] then UINT32_MAX
    else
      var p, rest := t[|t| - 1], FirstLogical(t[..|t| - 1]);
      if p.role == Logical && p.first < rest then p.first else rest
  }

  /** The last sector of any logical partition, 0 if there is none. */
  function LastLogical(t: seq<Part>): nat {
    if t == [] then 0
    else
      var p, rest := t[|t| - 1], LastLogical(t[..|t| - 1]);
      if p.role == Logical && p.Last() > rest then p.Last() else rest
  }

  function AsUsage(i: Inclusion): Usage {
    match i case Omitted => Unused case Primary => AsPrimary case Logical => AsLogical
  }

  /** One round of the loop in SectorUsedAs. */
  function UsedBy(p: Part, sector: nat, diskSize: nat, before: Usage): Usage {
    if sector >= diskSize then Invalid
    else if sector == 0 || (p.first == sector + 1 && p.role == Logical) then Ebr
    else if p.first <= sector <= p.Last() then AsUsage(p.role)
    else before
  }

  /** SectorUsedAs over the first n entries. */
  function UsedAs(t: seq<Part>, sector: nat, diskSize: nat, n: nat): Usage
    requires n <= |t|
  {
    if n == 0 then Unused
    else
      var before := UsedAs(t, sector, diskSize, n - 1);
      if before == Unused || before == Ebr then UsedBy(t[n - 1], sector, diskSize, before) else before
  }

  /** A sector counted as EBR is on the disk and in no included partition. */
  lemma {:induction false} EbrIsFree(t: seq<Part>, sector: nat, diskSize: nat, n: nat)
    requires n <= |t| && UsedAs(t, sector, diskSize, n) in {Unused, Ebr} && sector > 0
    ensures forall i :: 0 <= i < n && t[i].Included() ==> !t[i].Has(sector)
    ensures n > 0 ==> sector < diskSize
  {
    if n > 0 {
      EbrIsFree(t, sector, diskSize, n - 1);
    }
  }

  // ---------- legality ----------

  predicate NoOverlaps(t: seq<Part>) {
    forall i, j :: 0 <= i < j < |t| && t[i].Included() && t[j].Included() ==> !Overlap(t[i], t[j])
  }

  /** No primary starts between the first EBR and the end of the logicals. */
  predicate LogicalsContiguous(t: seq<Part>) {
    LastLogical(t) > 0 ==>
      forall i :: 0 <= i < |t| && t[i].role == Primary ==>
        !((FirstLogical(t) - 1) % TWO64 <= t[i].first <= LastLogical(t))
  }

  predicate AllFit(t: seq<Part>, diskSize: nat) {
    forall i :: 0 <= i < |t| ==> t[i].first <= diskSize && t[i].Last() <= diskSize
  }

  predicate SpaceBeforeLogicals(t: seq<Part>, diskSize: nat) {
    forall i :: 0 <= i < |t| && t[i].first > 0 && t[i].role == Logical ==>
      UsedAs(t, t[i].first - 1, diskSize, |t|) == Ebr
  }

  predicate Legal(t: seq<Part>, diskSize: nat) {
    && NoOverlaps(t) && NumPrimaries(t) <= 4 && LogicalsContiguous(t)
    && AllFit(t, diskSize) && SpaceBeforeLogicals(t, diskSize)
  }

  // ---------- tables the writer is meant for ----------

  /** Included entries are not empty, empty ones start at 0 and of the others only primaries may,
      numbers fit 32 bits, and no data partition or empty entry has an extended type. */
  predicate TidyPart(p: Part) {
    && (p.Included() ==> p.length > 0)
    && (p.length == 0 ==> p.first == 0)
    && (p.first == 0 ==> p.length == 0 || p.role == Primary)
    && p.first <= UINT32_MAX && p.length <= UINT32_MAX
    && (p.Included() || p.length == 0 ==> p.kind !in {0x05, 0x0f, 0x85})
  }

  predicate Tidy(t: seq<Part>) {
    |t| == MAX_MBR_PARTS && forall i :: 0 <= i < |t| ==> TidyPart(t[i])
  }

  predicate Displaced(p: Part) { p.length > 0 && p.role != Primary }

  predicate Vacant(p: Part) { p.length == 0 && p.role == Omitted }

  /** There is an empty entry in the logical space for every non-primary in the first four. */
  predicate Roomy(t: seq<Part>)
    requires |t| >= 4
  {
    Count(t[..4], Displaced) <= Count(t[4..], Vacant)
  }

  /** Every logical has sectors, and starts after sector 0 and within 32 bits. */
  predicate SoundLogicals(t: seq<Part>) {
    forall i :: 0 <= i < |t| && t[i].role == Logical ==> t[i].length > 0 && 1 <= t[i].first <= UINT32_MAX
  }

  lemma {:induction false} FirstLogicalMeaning(t: seq<Part>)
    requires SoundLogicals(t)
    ensures forall i :: 0 <= i < |t| && t[i].role == Logical ==>
      FirstLogical(t) <= t[i].first && t[i].Last() <= LastLogical(t)
    ensures (exists i :: 0 <= i < |t| && t[i].role == Logical) ==>
      && (exists i :: 0 <= i < |t| && t[i].role == Logical && t[i].first == FirstLogical(t))
      && (exists i :: 0 <= i < |t| && t[i].role == Logical && t[i].Last() == LastLogical(t))
      && 1 <= FirstLogical(t) <= LastLogical(t)
    ensures !(exists i :: 0 <= i < |t| && t[i].role == Logical) ==> FirstLogical(t) == UINT32_MAX && LastLogical(t) == 0
  {
    if t != [] {
      var n := |t| - 1;
      var rest := t[..n];
      FirstLogicalMeaning(rest);
      var p := t[n];
      assert forall i :: 0 <= i < n ==> t[i] == rest[i];
      if exists i :: 0 <= i < n && t[i].role == Logical {
        var i :| 0 <= i < n && rest[i].role == Logical && rest[i].first == FirstLogical(rest);
        var j :| 0 <= j < n && rest[j].role == Logical && rest[j].Last() == LastLogical(rest);
        assert t[i] == rest[i] && t[j] == rest[j];
      }
    }
  }

  /** On a legal table the extended partition that spans the first EBR to the last logical sector
      touches no primary. */
  lemma ExtendedApart(t: seq<Part>, diskSize: nat, i: nat, sector: nat)
    requires Tidy(t) && Legal(t, diskSize) && HasLogical(t) && i < |t| && t[i].role == Primary
    requires FirstLogical(t) - 1 <= sector <= LastLogical(t)
    ensures !t[i].Has(sector)
  {
    hide FirstLogical, LastLogical, UsedAs, Count, NoOverlaps, AllFit;
    FirstLogicalMeaning(t);
    var f :| 0 <= f < |t| && t[f].role == Logical && t[f].first == FirstLogical(t);
    var ebr: nat := FirstLogical(t) - 1;
    if ebr > 0 {
      EbrIsFree(t, ebr, diskSize, |t|);
    }
  }

  /** On a legal table every EBR is on the disk and in no included partition, and no two logicals
      share one. */
  lemma EbrsApart(t: seq<Part>, diskSize: nat, i: nat, j: nat)
    requires Tidy(t) && Legal(t, diskSize) && i < |t| && j < |t| && t[i].role == Logical && t[j].Included()
    requires t[i].first > 1
    ensures t[i].first - 1 < diskSize && !t[j].Has(t[i].first - 1)
    ensures i != j ==> t[i].first != t[j].first
  {
    EbrIsFree(t, t[i].first - 1, diskSize, |t|);
    if i != j && t[i].first == t[j].first {
      OverlapMeansShared(t[i], t[j]);
      OverlapMeansShared(t[j], t[i]);
      assert t[i].Has(t[i].first) && t[j].Has(t[i].first);
      assert Overlap(t[i], t[j]) && Overlap(t[j], t[i]);
    }
  }
}
