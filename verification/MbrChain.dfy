/** The linked list of extended boot records (EBRs) that holds the logical partitions of an MBR
    disk: the reader as a machine that follows it, and what it finds on a chain as written. */
module MbrChain {
  import opened MbrTable

  const MBR_SIGNATURE: nat := 0xAA55
  const TWO32: nat := 0x1_0000_0000

  // ---------- disks ----------

  /** A partition record as stored in a boot record. */
  datatype Record = Record(status: nat, kind: nat, first: nat, length: nat)

  type Quad = s: seq<Record> | |s| == 4
    witness [Record(0, 0, 0, 0), Record(0, 0, 0, 0), Record(0, 0, 0, 0), Record(0, 0, 0, 0)]

  /** A sector, seen as a boot record. */
  datatype Sector = Sector(records: Quad, signature: nat)

  /** StoreInStruct. */
  function Store(p: Part): Record { Record(p.status, p.kind, p.first, p.length) }

  /** Assignment from a record. */
  function Load(r: Record): Part {
    Part(r.status, r.kind, r.first, r.length, if r.length > 0 then Primary else Omitted)
  }

  // ---------- the reader ----------

  /** The variables of ReadLogicalParts. */
  datatype Reader = Reader(parts: seq<Part>, partNum: int, offset: nat, seen: seq<nat>, another: bool, ok: bool) {
    predicate Running() { another && ok && 0 <= partNum < MAX_MBR_PARTS }
  }

  function Zeros(n: nat): (s: seq<nat>)
    ensures |s| == n && forall i :: 0 <= i < n ==> s[i] == 0
  {
    if n == 0 then [] else Zeros(n - 1) + [0]
  }

  /** How often a place is among those visited. */
  function Hits(seen: seq<nat>, offset: nat): (n: nat)
    ensures n == 0 <==> offset !in seen
  {
    if seen == [] then 0 else Hits(seen[1..], offset) + (if seen[0] == offset then 1 else 0)
  }

  /** One round of the reader's loop. */
  function ReadStep(disk: seq<Sector>, ext: nat, r: Reader): Reader {
    var hits := Hits(r.seen, r.offset);
    var n := r.partNum - hits;
    var seen := if 0 <= n < |r.seen| then r.seen[n := r.offset] else r.seen;
    if hits > 0 || r.offset >= |disk| || disk[r.offset].signature != MBR_SIGNATURE || !(0 <= n < |r.parts|) then
      r.(partNum := n, seen := seen, ok := false)
    else
      var ebr := disk[r.offset].records;
      if IsExtended(ebr[0].kind) then
        r.(partNum := n, seen := seen, offset := ext + ebr[0].first)
      else
        var p := Load(ebr[0]).(first := (ebr[0].first + r.offset) % TWO32, role := Logical);
        var parts := r.parts[n := p];
        if ebr[1].first != 0 && n < MAX_MBR_PARTS - 1 then
          r.(parts := parts, partNum := n + 1, seen := seen, offset := ext + ebr[1].first)
        else
          r.(parts := parts, partNum := n, seen := seen, another := false)
  }

  /** The reader after at most fuel rounds. */
  function Walk(disk: seq<Sector>, ext: nat, r: Reader, fuel: nat): Reader
    decreases fuel
  {
    if fuel == 0 || !r.Running() then r else Walk(disk, ext, ReadStep(disk, ext, r), fuel - 1)
  }

  /** The reader before its first round. */
  function Begin(parts: seq<Part>, partNum: int, ext: nat): Reader {
    Reader(parts, partNum, ext, Zeros(MAX_MBR_PARTS), true, true)
  }

  // ---------- following a chain ----------

  /** Logical partitions in ascending order, each with room for an EBR other than sector 0. */
  predicate Ascending(l: seq<Part>) {
    && (forall i :: 0 <= i < |l| ==>
          2 <= l[i].first <= UINT32_MAX && l[i].length > 0 && l[i].role == Logical && l[i].kind !in {0x05, 0x0f, 0x85})
    && (forall i, j :: 0 <= i < j < |l| ==> l[i].first < l[j].first)
  }

  /** What the EBR before the j-th logical says. */
  predicate Link(disk: seq<Sector>, ext: nat, l: seq<Part>, j: nat)
    requires j < |l|
  {
    var at := l[j].first - 1;
    && 0 <= at < |disk| && disk[at].signature == MBR_SIGNATURE
    && disk[at].records[0] == Store(l[j]).(first := 1)
    && disk[at].records[1].first == if j + 1 < |l| then l[j + 1].first - ext - 1 else 0
  }

  predicate Chained(disk: seq<Sector>, ext: nat, l: seq<Part>) {
    forall j :: 0 <= j < |l| ==> Link(disk, ext, l, j)
  }

  /** The reader after j rounds on a chain: the first j logicals are in place. */
  ghost predicate Midway(r: Reader, parts: seq<Part>, l: seq<Part>, j: nat, n: nat)
    requires j < |l| && n + |l| <= |parts|
  {
    && r.parts == parts[..n] + l[..j] + parts[n + j..]
    && r.partNum == n + j && r.offset == l[j].first - 1 && r.another && r.ok
    && |r.seen| == MAX_MBR_PARTS && forall i :: 0 <= i < |r.seen| ==> r.seen[i] == 0 || r.seen[i] < l[j].first - 1
  }

  lemma MidwayStep(disk: seq<Sector>, ext: nat, r: Reader, parts: seq<Part>, l: seq<Part>, j: nat, n: nat)
    requires j < |l| && n + |l| <= |parts| == MAX_MBR_PARTS && Midway(r, parts, l, j, n)
    requires Ascending(l) && Link(disk, ext, l, j) && ext == l[0].first - 1
    ensures r.Running()
    ensures j + 1 < |l| ==> Midway(ReadStep(disk, ext, r), parts, l, j + 1, n)
    ensures j + 1 == |l| ==>
      var e := ReadStep(disk, ext, r);
      !e.Running() && e.ok && e.partNum == n + |l| - 1 && e.parts == parts[..n] + l + parts[n + |l|..]
  {
    assert Hits(r.seen, r.offset) == 0;
    var e := ReadStep(disk, ext, r);
    var p := Load(disk[r.offset].records[0]).(first := l[j].first, role := Logical);
    assert p == l[j];
    assert l[j].first % TWO32 == l[j].first;
    assert e.parts == r.parts[n + j := l[j]];
    assert e.parts == parts[..n] + l[..j + 1] + parts[n + j + 1..];
    if j + 1 < |l| {
      assert l[0].first <= l[j].first < l[j + 1].first;
    } else {
      assert l[..j + 1] == l;
    }
  }

  /** From any point of the chain the reader goes on to its end. */
  lemma {:induction false} ChainFollowed(disk: seq<Sector>, ext: nat, r: Reader, parts: seq<Part>, l: seq<Part>, j: nat,
                                         n: nat, fuel: nat)
    requires j < |l| && n + |l| <= |parts| == MAX_MBR_PARTS && Midway(r, parts, l, j, n)
    requires Ascending(l) && Chained(disk, ext, l) && ext == l[0].first - 1 && fuel >= |l| - j
    ensures var e := Walk(disk, ext, r, fuel);
            !e.Running() && e.ok && e.partNum == n + |l| - 1 && e.parts == parts[..n] + l + parts[n + |l|..]
    decreases |l| - j
  {
    hide ReadStep, Midway;
    MidwayStep(disk, ext, r, parts, l, j, n);
    if j + 1 < |l| {
      ChainFollowed(disk, ext, ReadStep(disk, ext, r), parts, l, j + 1, n, fuel - 1);
    }
  }

  /** A chain written for some logicals reads back as those logicals, in the slots from n on. */
  lemma ChainRead(disk: seq<Sector>, ext: nat, parts: seq<Part>, l: seq<Part>, n: nat, fuel: nat)
    requires 0 < |l| && n + |l| <= |parts| == MAX_MBR_PARTS
    requires Ascending(l) && Chained(disk, ext, l) && ext == l[0].first - 1 && fuel >= |l|
    ensures var e := Walk(disk, ext, Begin(parts, n, ext), fuel);
            !e.Running() && e.ok && e.partNum == n + |l| - 1 && e.parts == parts[..n] + l + parts[n + |l|..]
  {
    assert parts == parts[..n] + l[..0] + parts[n..];
    ChainFollowed(disk, ext, Begin(parts, n, ext), parts, l, 0, n, fuel);
  }

  // ---------- chains that never end ----------

  /** A boot record that points straight to another one. */
  predicate IsHop(disk: seq<Sector>, a: nat) {
    a < |disk| && disk[a].signature == MBR_SIGNATURE && disk[a].records[0].kind in {0x05, 0x0f, 0x85}
  }

  /** Where k hops lead. */
  function Orbit(disk: seq<Sector>, ext: nat, a: nat, k: nat): nat {
    if k == 0 then a
    else
      var b := Orbit(disk, ext, a, k - 1);
      if b < |disk| then ext + disk[b].records[0].first else b
  }

  /** The k-th place is a hop to another one, away from sector 0: nothing stops the reader there. */
  predicate HopsOn(disk: seq<Sector>, ext: nat, a: nat, k: nat) {
    var b := Orbit(disk, ext, a, k);
    b > 0 && IsHop(disk, b) && Orbit(disk, ext, a, k + 1) != b
  }

  /** Hops lead to hops for ever. */
  ghost predicate Stuck(disk: seq<Sector>, ext: nat, a: nat) { forall k: nat :: HopsOn(disk, ext, a, k) }

  /** What the guard against loops remembers: the places of logicals, which are no hops, and of the
      hops only the last one. */
  ghost predicate Guarded(disk: seq<Sector>, ext: nat, r: Reader) {
    && |r.parts| == |r.seen| == MAX_MBR_PARTS && 1 <= r.partNum < MAX_MBR_PARTS
    && r.seen[0] == 0
    && (forall i :: 0 <= i < |r.seen| && i != r.partNum ==> r.seen[i] == 0 || !IsHop(disk, r.seen[i]))
    && (forall i :: r.partNum < i < |r.seen| ==> r.seen[i] == 0)
    && (r.seen[r.partNum] == 0 || Orbit(disk, ext, r.seen[r.partNum], 1) == r.offset)
  }

  lemma BeginGuarded(disk: seq<Sector>, ext: nat, parts: seq<Part>, n: nat)
    requires |parts| == MAX_MBR_PARTS && 1 <= n < MAX_MBR_PARTS
    ensures Guarded(disk, ext, Begin(parts, n, ext)) && Begin(parts, n, ext).Running()
  {}

  lemma {:induction false} OrbitShift(disk: seq<Sector>, ext: nat, a: nat, k: nat)
    ensures Orbit(disk, ext, a, k + 1) == Orbit(disk, ext, Orbit(disk, ext, a, 1), k)
  {
    if k > 0 {
      OrbitShift(disk, ext, a, k - 1);
    }
  }

  lemma StuckNext(disk: seq<Sector>, ext: nat, a: nat)
    requires Stuck(disk, ext, a)
    ensures Stuck(disk, ext, Orbit(disk, ext, a, 1))
  {
    hide Orbit;
    forall k: nat
      ensures HopsOn(disk, ext, Orbit(disk, ext, a, 1), k)
    {
      OrbitShift(disk, ext, a, k);
      OrbitShift(disk, ext, a, k + 1);
      assert HopsOn(disk, ext, a, k + 1);
    }
  }

  /** One round of a guarded reader: it stops, or goes on to the next slot, or hops. */
  lemma GuardedStep(disk: seq<Sector>, ext: nat, r: Reader)
    requires Guarded(disk, ext, r) && r.Running()
    ensures
      var s := ReadStep(disk, ext, r);
      s.Running() ==>
        && Guarded(disk, ext, s)
        && r.offset > 0 && r.offset != r.seen[r.partNum]
        && (if IsHop(disk, r.offset) then s.partNum == r.partNum && s.offset == Orbit(disk, ext, r.offset, 1)
            else s.partNum == r.partNum + 1)
        && s.offset == ext + disk[r.offset].records[if IsHop(disk, r.offset) then 0 else 1].first
    ensures HopsOn(disk, ext, r.offset, 0) ==> ReadStep(disk, ext, r).Running()
  {
    var s := ReadStep(disk, ext, r);
    assert Orbit(disk, ext, r.offset, 0) == r.offset;
    if HopsOn(disk, ext, r.offset, 0) {
      assert r.offset !in r.seen;
    }
    if s.Running() {
      assert r.offset !in r.seen;
      assert s.seen == r.seen[r.partNum := r.offset];
    }
  }

  /** A reader at a place from which hops lead on for ever never stops. */
  lemma {:induction false} StuckRuns(disk: seq<Sector>, ext: nat, r: Reader, fuel: nat)
    requires Guarded(disk, ext, r) && r.Running() && Stuck(disk, ext, r.offset)
    ensures Walk(disk, ext, r, fuel).Running()
    decreases fuel
  {
    hide ReadStep, Guarded, Orbit;
    if fuel > 0 {
      assert HopsOn(disk, ext, r.offset, 0);
      GuardedStep(disk, ext, r);
      OrbitStart(disk, ext, r.offset);
      StuckNext(disk, ext, r.offset);
      StuckRuns(disk, ext, ReadStep(disk, ext, r), fuel - 1);
    }
  }

  lemma OrbitStart(disk: seq<Sector>, ext: nat, a: nat)
    ensures Orbit(disk, ext, a, 0) == a
  {}

  lemma {:induction false} WalkOn(disk: seq<Sector>, ext: nat, r: Reader, m: nat, n: nat)
    ensures Walk(disk, ext, r, m + n) == Walk(disk, ext, Walk(disk, ext, r, m), n)
    decreases m
  {
    hide ReadStep;
    if m > 0 && r.Running() {
      WalkOn(disk, ext, ReadStep(disk, ext, r), m - 1, n);
    }
  }

  lemma {:induction false} WalkGuarded(disk: seq<Sector>, ext: nat, r: Reader, k: nat)
    requires Guarded(disk, ext, r)
    ensures Walk(disk, ext, r, k).Running() ==> Guarded(disk, ext, Walk(disk, ext, r, k))
    decreases k
  {
    hide ReadStep, Guarded;
    if k > 0 && r.Running() {
      GuardedStep(disk, ext, r);
      if ReadStep(disk, ext, r).Running() {
        WalkGuarded(disk, ext, ReadStep(disk, ext, r), k - 1);
      }
    }
  }

  /** No state that the reader comes to is stuck. */
  ghost predicate NeverStuck(disk: seq<Sector>, ext: nat, r: Reader) {
    forall k: nat :: Walk(disk, ext, r, k).Running() ==> !Stuck(disk, ext, Walk(disk, ext, r, k).offset)
  }

  lemma NeverStuckNext(disk: seq<Sector>, ext: nat, r: Reader)
    requires NeverStuck(disk, ext, r) && r.Running()
    ensures NeverStuck(disk, ext, ReadStep(disk, ext, r)) && !Stuck(disk, ext, r.offset)
  {
    hide ReadStep, Stuck;
    assert Walk(disk, ext, r, 0) == r;
    forall k: nat | Walk(disk, ext, ReadStep(disk, ext, r), k).Running()
      ensures !Stuck(disk, ext, Walk(disk, ext, ReadStep(disk, ext, r), k).offset)
    {
      assert Walk(disk, ext, r, k + 1) == Walk(disk, ext, ReadStep(disk, ext, r), k);
    }
  }

  /** The other way round: a reader that never comes to such a place stops.  The hops from where it
      is end after k more, and each logical takes a new slot. */
  lemma {:induction false} Finish(disk: seq<Sector>, ext: nat, r: Reader, k: nat) returns (fuel: nat)
    requires Guarded(disk, ext, r) && r.Running() && NeverStuck(disk, ext, r) && !HopsOn(disk, ext, r.offset, k)
    ensures !Walk(disk, ext, r, fuel).Running()
    decreases MAX_MBR_PARTS - r.partNum, k
  {
    hide ReadStep, Guarded, Orbit, HopsOn;
    var s := ReadStep(disk, ext, r);
    GuardedStep(disk, ext, r);
    NeverStuckNext(disk, ext, r);
    if !s.Running() {
      fuel := 1;
    } else if !IsHop(disk, r.offset) {
      NeverStuckNext(disk, ext, s);
      var j: nat :| !HopsOn(disk, ext, s.offset, j);
      InBounds(disk, ext, s);
      var f := Finish(disk, ext, s, j);
      fuel := f + 1;
    } else if k == 0 {
      SelfHop(disk, ext, r);
      fuel := 2;
    } else {
      HopsOnNext(disk, ext, r.offset, k);
      var f := Finish(disk, ext, s, k - 1);
      fuel := f + 1;
    }
  }

  lemma InBounds(disk: seq<Sector>, ext: nat, r: Reader)
    requires Guarded(disk, ext, r)
    ensures 1 <= r.partNum < MAX_MBR_PARTS
  {}

  lemma HopsOnNext(disk: seq<Sector>, ext: nat, a: nat, k: nat)
    requires k > 0
    ensures HopsOn(disk, ext, a, k) <==> HopsOn(disk, ext, Orbit(disk, ext, a, 1), k - 1)
  {
    hide Orbit;
    OrbitShift(disk, ext, a, k - 1);
    OrbitShift(disk, ext, a, k);
  }

  /** A hop to itself is caught one round later. */
  lemma SelfHop(disk: seq<Sector>, ext: nat, r: Reader)
    requires Guarded(disk, ext, r) && r.Running() && ReadStep(disk, ext, r).Running()
    requires IsHop(disk, r.offset) && !HopsOn(disk, ext, r.offset, 0)
    ensures !Walk(disk, ext, r, 2).Running()
  {
    var s := ReadStep(disk, ext, r);
    GuardedStep(disk, ext, r);
    assert Orbit(disk, ext, r.offset, 0) == r.offset;
    assert s.offset == r.offset;
    assert s.seen[s.partNum] == s.offset;
    assert Walk(disk, ext, r, 2) == Walk(disk, ext, s, 1);
    GuardedStep(disk, ext, s);
    assert Walk(disk, ext, s, 1) == Walk(disk, ext, ReadStep(disk, ext, s), 0);
  }

  /** The reader runs for ever if and only if it comes to a place from which hops lead on for ever. */
  lemma RunsForeverExactly(disk: seq<Sector>, ext: nat, r: Reader)
    requires Guarded(disk, ext, r) && r.Running()
    ensures (forall fuel: nat :: Walk(disk, ext, r, fuel).Running()) <==> !NeverStuck(disk, ext, r)
  {
    hide ReadStep, Guarded, Orbit, HopsOn;
    if NeverStuck(disk, ext, r) {
      NeverStuckNext(disk, ext, r);
      var k: nat :| !HopsOn(disk, ext, r.offset, k);
      var fuel := Finish(disk, ext, r, k);
    } else {
      var k: nat :| Walk(disk, ext, r, k).Running() && Stuck(disk, ext, Walk(disk, ext, r, k).offset);
      WalkGuarded(disk, ext, r, k);
      forall fuel: nat
        ensures Walk(disk, ext, r, fuel).Running()
      {
        if fuel < k {
          WalkOn(disk, ext, r, fuel, k - fuel);
          Stopped(disk, ext, Walk(disk, ext, r, fuel), k - fuel);
        } else {
          WalkOn(disk, ext, r, k, fuel - k);
          StuckRuns(disk, ext, Walk(disk, ext, r, k), fuel - k);
        }
      }
    }
  }

  lemma Stopped(disk: seq<Sector>, ext: nat, r: Reader, fuel: nat)
    ensures !r.Running() ==> Walk(disk, ext, r, fuel) == r
  {}

  /** Whether hops lead on for ever shows within as many hops as there are sectors. */
  lemma StuckDecided(disk: seq<Sector>, ext: nat, a: nat)
    ensures Stuck(disk, ext, a) <==> forall k: nat :: k <= |disk| ==> HopsOn(disk, ext, a, k)
  {
    hide Orbit;
    if forall k: nat :: k <= |disk| ==> HopsOn(disk, ext, a, k) {
      forall k: nat | k <= |disk|
        ensures Orbit(disk, ext, a, k) < |disk|
      {
        assert HopsOn(disk, ext, a, k);
      }
      var i, j := Revisited(disk, ext, a, |disk| + 1);
      forall k: nat
        ensures HopsOn(disk, ext, a, k)
      {
        HopsOnAgain(disk, ext, a, i, j, k);
      }
    }
  }

  /** More places than sectors: one comes twice. */
  lemma Revisited(disk: seq<Sector>, ext: nat, a: nat, n: nat) returns (i: nat, j: nat)
    requires n > |disk| && forall k: nat :: k < n ==> Orbit(disk, ext, a, k) < |disk|
    ensures i < j < n && Orbit(disk, ext, a, i) == Orbit(disk, ext, a, j)
  {
    hide Orbit;
    if forall i: nat, j: nat :: i < j < n ==> Orbit(disk, ext, a, i) != Orbit(disk, ext, a, j) {
      VisitedCount(disk, ext, a, n);
      BelowCount(|disk|);
      Smaller(Visited(disk, ext, a, n), Below(|disk|));
    } else {
      i, j :| i < j < n && Orbit(disk, ext, a, i) == Orbit(disk, ext, a, j);
    }
  }

  ghost function Visited(disk: seq<Sector>, ext: nat, a: nat, n: nat): set<nat> {
    set k: nat | k < n :: Orbit(disk, ext, a, k)
  }

  ghost function Below(n: nat): (s: set<nat>)
    ensures forall x: nat :: x < n <==> x in s
  {
    if n == 0 then {} else Below(n - 1) + {n - 1}
  }

  lemma {:induction false} BelowCount(n: nat)
    ensures |Below(n)| == n
  {
    if n > 0 {
      BelowCount(n - 1);
    }
  }

  lemma {:induction false} VisitedCount(disk: seq<Sector>, ext: nat, a: nat, n: nat)
    requires forall i: nat, j: nat :: i < j < n ==> Orbit(disk, ext, a, i) != Orbit(disk, ext, a, j)
    ensures |Visited(disk, ext, a, n)| == n
  {
    hide Orbit;
    if n > 0 {
      VisitedCount(disk, ext, a, n - 1);
      assert Visited(disk, ext, a, n) == Visited(disk, ext, a, n - 1) + {Orbit(disk, ext, a, n - 1)};
    }
  }

  lemma Smaller(a: set<nat>, b: set<nat>)
    requires a <= b
    ensures |a| <= |b|
  {
    assert b == a + (b - a);
  }

  /** Once a place has come again, everything after it does. */
  lemma {:induction false} HopsOnAgain(disk: seq<Sector>, ext: nat, a: nat, i: nat, j: nat, k: nat)
    requires i < j <= |disk| && Orbit(disk, ext, a, i) == Orbit(disk, ext, a, j)
    requires forall n: nat :: n <= |disk| ==> HopsOn(disk, ext, a, n)
    ensures HopsOn(disk, ext, a, k)
    decreases k
  {
    hide Orbit;
    if k > |disk| {
      Periodic(disk, ext, a, i, j, k);
      Periodic(disk, ext, a, i, j, k + 1);
      HopsOnAgain(disk, ext, a, i, j, k - (j - i));
    }
  }

  lemma {:induction false} Periodic(disk: seq<Sector>, ext: nat, a: nat, i: nat, j: nat, k: nat)
    requires i < j <= k && Orbit(disk, ext, a, i) == Orbit(disk, ext, a, j)
    ensures Orbit(disk, ext, a, k) == Orbit(disk, ext, a, k - (j - i))
    decreases k
  {
    if k > j {
      Periodic(disk, ext, a, i, j, k - 1);
    }
  }

  /** Two boot records that point straight to each other keep the reader running for ever. */
  lemma HopsNeverEnd(disk: seq<Sector>, ext: nat, r: Reader, a: nat, b: nat, fuel: nat)
    requires IsHop(disk, a) && IsHop(disk, b) && Orbit(disk, ext, a, 1) == b && Orbit(disk, ext, b, 1) == a
    requires a != b && a > 0 && b > 0
    requires Guarded(disk, ext, r) && r.Running() && r.offset == a
    ensures Walk(disk, ext, r, fuel).Running()
  {
    hide Guarded, ReadStep, Walk;
    forall k: nat
      ensures HopsOn(disk, ext, a, k)
    {
      TwoCycle(disk, ext, a, b, k);
      TwoCycle(disk, ext, a, b, k + 1);
    }
    StuckRuns(disk, ext, r, fuel);
  }

  lemma {:induction false} TwoCycle(disk: seq<Sector>, ext: nat, a: nat, b: nat, k: nat)
    requires Orbit(disk, ext, a, 1) == b && Orbit(disk, ext, b, 1) == a
    ensures Orbit(disk, ext, a, k) == if k % 2 == 0 then a else b
    decreases k
  {
    if k > 1 {
      OrbitShift(disk, ext, a, k - 1);
      OrbitShift(disk, ext, b, k - 2);
      TwoCycle(disk, ext, a, b, k - 2);
    }
  }

  /** On a disk where every sequence of hops leads out of the hops every walk ends. */
  lemma NoHopsEnds(disk: seq<Sector>, ext: nat, parts: seq<Part>, n: nat) returns (fuel: nat)
    requires |parts| == MAX_MBR_PARTS && n >= 1
    requires forall a: nat :: a < |disk| ==> !Stuck(disk, ext, a)
    ensures !Walk(disk, ext, Begin(parts, n, ext), fuel).Running()
  {
    hide ReadStep, Guarded, Orbit;
    var r := Begin(parts, n, ext);
    if n >= MAX_MBR_PARTS {
      fuel := 0;
    } else {
      BeginGuarded(disk, ext, parts, n);
      forall a: nat
        ensures !Stuck(disk, ext, a)
      {
        OrbitStart(disk, ext, a);
        assert a >= |disk| ==> !HopsOn(disk, ext, a, 0);
      }
      assert NeverStuck(disk, ext, r);
      RunsForeverExactly(disk, ext, r);
      fuel :| !Walk(disk, ext, r, fuel).Running();
    }
  }

  // ---------- the whole table ----------

  function Abs(x: int): nat { if x < 0 then -x else x }

  function Blanks(n: nat): (s: seq<Part>)
    ensures |s| == n && forall i :: 0 <= i < n ==> s[i] == BLANK
  {
    if n == 0 then [] else Blanks(n - 1) + [BLANK]
  }

  /** The value ReadLogicalParts returns: negative when something was wrong. */
  function Outcome(r: Reader): int { if r.ok then r.partNum else -r.partNum }

  /** The logicals of the extended partitions in slots i to 3, which are then dropped. */
  function ReadExtended(disk: seq<Sector>, t: seq<Part>, logicalNum: int, i: nat, fuel: nat): seq<Part>
    requires |t| == MAX_MBR_PARTS && i <= 4
    decreases 4 - i
  {
    if i == 4 then t
    else if IsExtended(t[i].kind) then
      var r := Walk(disk, t[i].first, Begin(t, Abs(logicalNum) + 1, t[i].first), fuel);
      WalkSize(disk, t[i].first, Begin(t, Abs(logicalNum) + 1, t[i].first), fuel);
      ReadExtended(disk, r.parts[i := BLANK], Outcome(r), i + 1, fuel)
    else ReadExtended(disk, t, logicalNum, i + 1, fuel)
  }

  lemma {:induction false} WalkSize(disk: seq<Sector>, ext: nat, r: Reader, fuel: nat)
    ensures |Walk(disk, ext, r, fuel).parts| == |r.parts|
    decreases fuel
  {
    if fuel > 0 && r.Running() {
      WalkSize(disk, ext, ReadStep(disk, ext, r), fuel - 1);
    }
  }

  /** Every walk of ReadExtended ends within the fuel. */
  predicate Ends(disk: seq<Sector>, t: seq<Part>, logicalNum: int, i: nat, fuel: nat)
    requires |t| == MAX_MBR_PARTS && i <= 4
    decreases 4 - i
  {
    if i == 4 then true
    else if IsExtended(t[i].kind) then
      var r := Walk(disk, t[i].first, Begin(t, Abs(logicalNum) + 1, t[i].first), fuel);
      WalkSize(disk, t[i].first, Begin(t, Abs(logicalNum) + 1, t[i].first), fuel);
      !r.Running() && Ends(disk, r.parts[i := BLANK], Outcome(r), i + 1, fuel)
    else Ends(disk, t, logicalNum, i + 1, fuel)
  }

  /** The four entries of the boot record, and nothing else yet. */
  function Primaries(disk: seq<Sector>): (t: seq<Part>)
    ensures |t| == MAX_MBR_PARTS
  {
    if disk == [] then Blanks(MAX_MBR_PARTS)
    else
      var q := disk[0].records;
      [Load(q[0]), Load(q[1]), Load(q[2]), Load(q[3])] + Blanks(MAX_MBR_PARTS - 4)
  }

  predicate Signed(disk: seq<Sector>) { disk != [] && disk[0].signature == MBR_SIGNATURE }

  /** The table ReadMBRData finds. */
  function ReadTable(disk: seq<Sector>, fuel: nat): (t: seq<Part>) {
    if Signed(disk) then ReadExtended(disk, Primaries(disk), 3, 0, fuel) else Primaries(disk)
  }

  /** A boot record with the given four entries, of which the k-th stands for the chain. */
  predicate Saved(disk: seq<Sector>, main: seq<Part>, l: seq<Part>, k: nat) {
    && |main| == 4 && Signed(disk)
    && (forall i :: 0 <= i < 4 ==> disk[0].records[i] == Store(main[i]))
    && (forall i :: 0 <= i < 4 && i != k ==>
          main[i].kind !in {0x05, 0x0f, 0x85} && (main[i].role == if main[i].length > 0 then Primary else Omitted))
    && (if l == [] then k == 4
        else && k < 4 && main[k].kind in {0x05, 0x0f, 0x85} && main[k].first == l[0].first - 1
             && Chained(disk, main[k].first, l))
  }

  /** What was saved is what is read, in the same slots; the extended partition is dropped. */
  lemma ReadsBack(disk: seq<Sector>, main: seq<Part>, l: seq<Part>, k: nat)
    requires Saved(disk, main, l, k) && Ascending(l) && 4 + |l| <= MAX_MBR_PARTS
    ensures Ends(disk, Primaries(disk), 3, 0, MAX_MBR_PARTS)
    ensures ReadTable(disk, MAX_MBR_PARTS) ==
            (if k < 4 then main[k := BLANK] else main) + l + Blanks(MAX_MBR_PARTS - 4 - |l|)
  {
    hide Walk, Chained, Ascending, ReadExtended, Ends, Blanks, Signed;
    var t := Primaries(disk);
    LoadedSlots(disk, main, l, k);
    var rest := Blanks(MAX_MBR_PARTS - 4 - |l|);
    if l == [] {
      assert t == main + l + rest;
      NothingExtended(disk, t, 3, 0);
    } else {
      ChainRead(disk, main[k].first, t, l, 4, MAX_MBR_PARTS);
      var e := Walk(disk, t[k].first, Begin(t, 4, t[k].first), MAX_MBR_PARTS);
      var after := e.parts[k := BLANK];
      assert after == main[k := BLANK] + l + rest;
      OneExtended(disk, t, k, 0, after, e);
    }
  }

  /** A boot record with two extended partitions, each standing for a chain. */
  predicate SavedTwice(disk: seq<Sector>, main: seq<Part>, l: seq<Part>, m: seq<Part>, j: nat, k: nat) {
    && |main| == 4 && Signed(disk) && j < k < 4 && l != [] && m != []
    && (forall i :: 0 <= i < 4 ==> disk[0].records[i] == Store(main[i]))
    && (forall i :: 0 <= i < 4 && i != j && i != k ==>
          main[i].kind !in {0x05, 0x0f, 0x85} && (main[i].role == if main[i].length > 0 then Primary else Omitted))
    && main[j].kind in {0x05, 0x0f, 0x85} && main[j].first == l[0].first - 1 && Chained(disk, main[j].first, l)
    && main[k].kind in {0x05, 0x0f, 0x85} && main[k].first == m[0].first - 1 && Chained(disk, main[k].first, m)
  }

  /** Both chains are read, the second one into the slots behind the first. */
  lemma ReadsBackTwice(disk: seq<Sector>, main: seq<Part>, l: seq<Part>, m: seq<Part>, j: nat, k: nat)
    requires SavedTwice(disk, main, l, m, j, k) && Ascending(l) && Ascending(m) && 4 + |l| + |m| <= MAX_MBR_PARTS
    ensures
      var r := ReadTable(disk, MAX_MBR_PARTS);
      && |r| == MAX_MBR_PARTS
      && forall i :: 0 <= i < MAX_MBR_PARTS ==> r[i] == SlotOf(main, l, m, j, k, i)
  {
    hide Walk, Chained, Ascending, ReadExtended, Signed, Primaries, SlotOf, Inserted;
    var t := Primaries(disk);
    LoadedTwice(disk, main, l, m, j, k);
    var u := Inserted(t, j, 4, l);
    var v := Inserted(u, k, 4 + |l|, m);
    SkipSlots(disk, t, 3, 0, j);
    OneChain(disk, t, 3, j, l);
    SkipSlots(disk, u, 3 + |l|, j + 1, k);
    OneChain(disk, u, 3 + |l|, k, m);
    SkipSlots(disk, v, 3 + |l| + |m|, k + 1, 4);
    LastSlot(disk, v, 3 + |l| + |m|);
    InsertedTwice(t, main, l, m, j, k);
  }

  /** A chain put into the slots from n on, and the slot k that led to it dropped. */
  function Inserted(t: seq<Part>, k: nat, n: nat, l: seq<Part>): (u: seq<Part>)
    requires |t| == MAX_MBR_PARTS && k < 4 <= n && n + |l| <= MAX_MBR_PARTS
    ensures |u| == MAX_MBR_PARTS
    ensures forall i :: 0 <= i < MAX_MBR_PARTS ==>
      u[i] == if i == k then BLANK else if n <= i < n + |l| then l[i - n] else t[i]
  {
    (t[..n] + l + t[n + |l|..])[k := BLANK]
  }

  /** What slot i holds after both chains have been read. */
  function SlotOf(main: seq<Part>, l: seq<Part>, m: seq<Part>, j: nat, k: nat, i: nat): Part
    requires |main| == 4
  {
    if i == j || i == k then BLANK
    else if i < 4 then main[i]
    else if i < 4 + |l| then l[i - 4]
    else if i < 4 + |l| + |m| then m[i - 4 - |l|]
    else BLANK
  }

  lemma InsertedTwice(t: seq<Part>, main: seq<Part>, l: seq<Part>, m: seq<Part>, j: nat, k: nat)
    requires |t| == MAX_MBR_PARTS && |main| == 4 && j < k < 4 && 4 + |l| + |m| <= MAX_MBR_PARTS
    requires (forall i :: 0 <= i < 4 && i != j && i != k ==> t[i] == main[i])
    requires forall i :: 4 <= i < MAX_MBR_PARTS ==> t[i] == BLANK
    ensures
      var r := Inserted(Inserted(t, j, 4, l), k, 4 + |l|, m);
      forall i :: 0 <= i < MAX_MBR_PARTS ==> r[i] == SlotOf(main, l, m, j, k, i)
  {
    hide Inserted;
  }

  /** An extended partition whose chain is read in full. */
  lemma OneChain(disk: seq<Sector>, t: seq<Part>, logicalNum: nat, k: nat, l: seq<Part>)
    requires |t| == MAX_MBR_PARTS && k < 4 && t[k].kind in {0x05, 0x0f, 0x85}
    requires l != [] && Ascending(l) && t[k].first == l[0].first - 1 && Chained(disk, t[k].first, l)
    requires logicalNum >= 3 && logicalNum + 1 + |l| <= MAX_MBR_PARTS
    ensures ReadExtended(disk, t, logicalNum, k, MAX_MBR_PARTS) ==
      ReadExtended(disk, Inserted(t, k, logicalNum + 1, l), logicalNum + |l|, k + 1, MAX_MBR_PARTS)
  {
    hide Walk, Chained, Ascending, ReadExtended;
    ChainRead(disk, t[k].first, t, l, logicalNum + 1, MAX_MBR_PARTS);
    ExtendedSlot(disk, t, logicalNum, k);
  }

  lemma LoadedTwice(disk: seq<Sector>, main: seq<Part>, l: seq<Part>, m: seq<Part>, j: nat, k: nat)
    requires SavedTwice(disk, main, l, m, j, k)
    ensures var t := Primaries(disk);
            && (forall i :: 0 <= i < 4 && i != j && i != k ==> t[i] == main[i])
            && (forall i :: 0 <= i < 4 ==> t[i].first == main[i].first && t[i].kind == main[i].kind)
            && (forall i :: 4 <= i < MAX_MBR_PARTS ==> t[i] == BLANK)
  {
    hide Chained;
    var t := Primaries(disk);
    forall i | 0 <= i < 4
      ensures t[i] == Load(disk[0].records[i])
    {
      assert i == 0 || i == 1 || i == 2 || i == 3;
    }
  }

  lemma {:induction false} SkipSlots(disk: seq<Sector>, t: seq<Part>, logicalNum: int, i: nat, k: nat)
    requires |t| == MAX_MBR_PARTS && i <= k <= 4 && forall x :: i <= x < k ==> t[x].kind !in {0x05, 0x0f, 0x85}
    ensures ReadExtended(disk, t, logicalNum, i, MAX_MBR_PARTS) == ReadExtended(disk, t, logicalNum, k, MAX_MBR_PARTS)
    decreases k - i
  {
    if i < k {
      SkipSlots(disk, t, logicalNum, i + 1, k);
    }
  }

  lemma ExtendedSlot(disk: seq<Sector>, t: seq<Part>, logicalNum: int, k: nat)
    requires |t| == MAX_MBR_PARTS && k < 4 && t[k].kind in {0x05, 0x0f, 0x85}
    ensures
      var e := Walk(disk, t[k].first, Begin(t, Abs(logicalNum) + 1, t[k].first), MAX_MBR_PARTS);
      && |e.parts| == MAX_MBR_PARTS
      && ReadExtended(disk, t, logicalNum, k, MAX_MBR_PARTS) ==
         ReadExtended(disk, e.parts[k := BLANK], Outcome(e), k + 1, MAX_MBR_PARTS)
  {
    hide Walk;
    WalkSize(disk, t[k].first, Begin(t, Abs(logicalNum) + 1, t[k].first), MAX_MBR_PARTS);
  }

  lemma LastSlot(disk: seq<Sector>, t: seq<Part>, logicalNum: int)
    requires |t| == MAX_MBR_PARTS
    ensures ReadExtended(disk, t, logicalNum, 4, MAX_MBR_PARTS) == t
  {}

  lemma LoadedSlots(disk: seq<Sector>, main: seq<Part>, l: seq<Part>, k: nat)
    requires Saved(disk, main, l, k)
    ensures var t := Primaries(disk);
            && (forall i :: 0 <= i < 4 && i != k ==> t[i] == main[i])
            && (k < 4 ==> t[k].first == main[k].first && t[k].kind == main[k].kind)
            && (forall i :: 4 <= i < MAX_MBR_PARTS ==> t[i] == BLANK)
  {
    hide Chained;
    var t := Primaries(disk);
    forall i | 0 <= i < 4
      ensures t[i] == Load(disk[0].records[i])
    {
      assert i == 0 || i == 1 || i == 2 || i == 3;
    }
  }

  lemma {:induction false} NothingExtended(disk: seq<Sector>, t: seq<Part>, logicalNum: int, i: nat)
    requires |t| == MAX_MBR_PARTS && i <= 4 && forall j :: i <= j < 4 ==> !IsExtended(t[j].kind)
    ensures ReadExtended(disk, t, logicalNum, i, MAX_MBR_PARTS) == t && Ends(disk, t, logicalNum, i, MAX_MBR_PARTS)
    decreases 4 - i
  {
    if i < 4 {
      NothingExtended(disk, t, logicalNum, i + 1);
    }
  }

  lemma {:induction false} OneExtended(disk: seq<Sector>, t: seq<Part>, k: nat, i: nat, after: seq<Part>, e: Reader)
    requires |t| == |after| == MAX_MBR_PARTS && i <= k < 4 && IsExtended(t[k].kind)
    requires forall j :: i <= j < 4 && j != k ==> !IsExtended(t[j].kind)
    requires forall j :: k < j < 4 ==> after[j] == t[j]
    requires e == Walk(disk, t[k].first, Begin(t, 4, t[k].first), MAX_MBR_PARTS) && !e.Running()
    requires |e.parts| == MAX_MBR_PARTS && after == e.parts[k := BLANK]
    ensures ReadExtended(disk, t, 3, i, MAX_MBR_PARTS) == after && Ends(disk, t, 3, i, MAX_MBR_PARTS)
    decreases 4 - i
  {
    hide Walk;
    if i == k {
      NothingExtended(disk, after, Outcome(e), k + 1);
    } else {
      OneExtended(disk, t, k, i + 1, after, e);
    }
  }

  // ---------- the other slots of the boot record ----------

  /** No place has been recorded twice. */
  predicate Distinct(seen: seq<nat>) {
    forall i, j :: 0 <= i < j < |seen| && seen[i] == seen[j] ==> seen[i] == 0
  }

  lemma {:induction false} HitsOnce(seen: seq<nat>, offset: nat)
    requires Distinct(seen) && offset > 0
    ensures Hits(seen, offset) <= 1
  {
    if seen != [] {
      assert Distinct(seen[1..]) by {
        assert forall i :: 0 <= i < |seen[1..]| ==> seen[1..][i] == seen[i + 1];
      }
      HitsOnce(seen[1..], offset);
    }
  }

  /** A reader that started behind the first four slots. */
  ghost predicate Behind(r: Reader) {
    && |r.parts| == |r.seen| == MAX_MBR_PARTS && r.offset > 0
    && (if r.Running() then Distinct(r.seen) && r.partNum >= 4 else r.partNum >= 3)
  }

  lemma BehindStep(disk: seq<Sector>, ext: nat, r: Reader)
    requires Behind(r) && r.Running() && ext > 0
    ensures var s := ReadStep(disk, ext, r); Behind(s) && s.parts[..4] == r.parts[..4]
  {
    HitsOnce(r.seen, r.offset);
    var hits := Hits(r.seen, r.offset);
    if hits == 0 {
      assert Distinct(r.seen[r.partNum := r.offset]);
    }
  }

  lemma {:induction false} BehindWalk(disk: seq<Sector>, ext: nat, r: Reader, fuel: nat)
    requires Behind(r) && ext > 0
    ensures var e := Walk(disk, ext, r, fuel); Behind(e) && e.parts[..4] == r.parts[..4]
    decreases fuel
  {
    hide ReadStep, Behind;
    if fuel > 0 && r.Running() {
      BehindStep(disk, ext, r);
      BehindWalk(disk, ext, ReadStep(disk, ext, r), fuel - 1);
    }
  }

  lemma {:induction false} SlotsKept(disk: seq<Sector>, t: seq<Part>, logicalNum: int, i: nat, fuel: nat)
    requires |t| == MAX_MBR_PARTS && i <= 4 && Abs(logicalNum) >= 3
    requires forall j :: i <= j < 4 && IsExtended(t[j].kind) ==> t[j].first > 0
    ensures
      var r := ReadExtended(disk, t, logicalNum, i, fuel);
      && |r| == MAX_MBR_PARTS
      && forall j :: 0 <= j < 4 ==> r[j] == if i <= j && IsExtended(t[j].kind) then BLANK else t[j]
    decreases 4 - i
  {
    hide Walk;
    if i < 4 {
      if IsExtended(t[i].kind) {
        var b := Begin(t, Abs(logicalNum) + 1, t[i].first);
        var e := Walk(disk, t[i].first, b, fuel);
        BehindWalk(disk, t[i].first, b, fuel);
        assert forall j :: 0 <= j < 4 ==> e.parts[j] == e.parts[..4][j] && t[j] == t[..4][j];
        SlotsKept(disk, e.parts[i := BLANK], Outcome(e), i + 1, fuel);
      } else {
        SlotsKept(disk, t, logicalNum, i + 1, fuel);
      }
    }
  }

  /** On every disk whose extended partitions start after sector 0, chains or not: the slots of the
      boot record stay as they are, but for those of the three extended types, which are dropped. */
  lemma OtherSlotsStay(disk: seq<Sector>, fuel: nat, j: nat)
    requires Signed(disk) && j < 4
    requires forall i :: 0 <= i < 4 && disk[0].records[i].kind in {0x05, 0x0f, 0x85} ==> disk[0].records[i].first > 0
    ensures
      var r, t := disk[0].records[j], ReadTable(disk, fuel);
      |t| == MAX_MBR_PARTS && t[j] == if r.kind in {0x05, 0x0f, 0x85} then BLANK else Load(r)
  {
    hide ReadExtended, Blanks;
    var t := Primaries(disk);
    forall i | 0 <= i < 4
      ensures t[i] == Load(disk[0].records[i])
    {
      assert i == 0 || i == 1 || i == 2 || i == 3;
    }
    SlotsKept(disk, t, 3, 0, fuel);
  }
}
