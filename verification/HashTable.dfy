/** The open-addressing table of src/gondar.cc: double hashing over a prime number of slots,
    numbered from 1, behaves as a map from strings to slot numbers. */
module HashTable {
  import DivMod
  import Primes

  /** A C string without its terminator, as signed character codes. */
  type Text = seq<int>

  /** A char pointer. */
  datatype Pointer = Null | To(text: Text)

  /** One slot; used holds the first hash index of the stored string, or 0. */
  datatype Entry = Entry(used: nat, str: Text)

  const EMPTY := Entry(0, [])

  // ---------- hashing ----------

  /** The sdbm hash in 32-bit arithmetic. */
  function Sdbm(s: Text): (r: nat)
    ensures r < Primes.TWO32
  {
    if s == [] then 0
    else
      var r := Sdbm(s[..|s| - 1]);
      (s[|s| - 1] + r * 64 + r * 65536 - r) % Primes.TWO32
  }

  /** The first slot tried. */
  function First(s: Text, size: nat): (h: nat)
    requires size > 0
    ensures 1 <= h <= size
  {
    var r := if Sdbm(s) == 0 then 1 else Sdbm(s);
    if r % size == 0 then 1 else r % size
  }

  /** The second hash function; in a one-slot table size - 2 wraps around. */
  function Stride(h: nat, size: nat): (d: nat)
    requires size == 1 || size >= 3
  {
    1 + h % (if size == 1 then Primes.TWO32 - 1 else size - 2)
  }

  /** One step of the probe: back by the stride, wrapping below slot 1. */
  function Back(size: nat, d: nat, idx: nat): (r: nat)
    requires d <= size
  {
    if idx <= d then size + idx - d else idx - d
  }

  // ---------- the probe sequence ----------

  /** The slot tried after j collisions. */
  function Probe(size: nat, h: nat, j: nat): (r: nat)
    requires size >= 5 && 1 <= h <= size
    ensures 1 <= r <= size
  {
    if j == 0 then h else Back(size, Stride(h, size), Probe(size, h, j - 1))
  }

  /** Stepping back j times is subtracting j strides modulo the size. */
  lemma {:induction false} ProbeResidue(size: nat, h: nat, j: nat)
    requires size >= 5 && 1 <= h <= size
    ensures Primes.Divides(size, h - j * Stride(h, size) - Probe(size, h, j))
  {
    hide Primes.Divides;
    var d := Stride(h, size);
    if j == 0 {
      Primes.DividesProduct(size, 0);
    } else {
      ProbeResidue(size, h, j - 1);
      var before, after := Probe(size, h, j - 1), Probe(size, h, j);
      assert j * d == (j - 1) * d + d;
      var k := if before <= d then 1 else 0;
      Primes.DividesProduct(size, k);
      Primes.DividesSum(size, h - (j - 1) * d - before, k * size);
      assert h - (j - 1) * d - before - k * size == h - j * d - after;
    }
  }

  /** Two slots that differ by a multiple of the size are the same slot. */
  lemma SameSlot(size: nat, a: nat, b: nat)
    requires 1 <= a <= size && 1 <= b <= size && Primes.Divides(size, a - b)
    ensures a == b
  {
    if a >= b {
      DivMod.SmallDiv(a - b, size);
    } else {
      DivMod.QuotientUnique(a - b, size, -1, size + a - b);
    }
  }

  /** With a prime size no slot is tried twice within size attempts. */
  lemma ProbesDistinct(size: nat, h: nat, i: nat, j: nat)
    requires size >= 5 && Primes.Prime(size) && 1 <= h <= size && i < j < size
    ensures Probe(size, h, i) != Probe(size, h, j)
  {
    hide Probe, Primes.Divides;
    var d := Stride(h, size);
    ProbeResidue(size, h, i);
    ProbeResidue(size, h, j);
    var a, b := Probe(size, h, i), Probe(size, h, j);
    Primes.DividesSum(size, h - i * d - a, h - j * d - b);
    assert (j - i) * d == j * d - i * d;
    assert a == b ==> Primes.Returns(size, d, j - i);
    Primes.PrimeStride(size, d, j - i);
  }

  /** The attempt after the last one is the first slot again. */
  lemma ProbeComesBack(size: nat, h: nat)
    requires size >= 5 && 1 <= h <= size
    ensures Probe(size, h, size) == h
  {
    hide Probe, Primes.Divides;
    var d := Stride(h, size);
    ProbeResidue(size, h, size);
    var r := Probe(size, h, size);
    Primes.DividesProduct(size, d);
    Primes.DividesSum(size, h - size * d - r, d * size);
    assert h - size * d - r + d * size == h - r;
    SameSlot(size, h, r);
  }

  /** The slots tried in the first n attempts. */
  ghost function Tried(size: nat, h: nat, n: nat): set<nat>
    requires size >= 5 && 1 <= h <= size
  {
    set j: nat | j < n :: Probe(size, h, j)
  }

  predicate IsSlot(i: nat, size: nat) { 1 <= i <= size }

  ghost function Slots(size: nat): set<nat> { set i: nat | i <= size && IsSlot(i, size) }

  lemma {:induction false} SlotCount(size: nat)
    ensures |Slots(size)| == size
  {
    if size == 0 {
      assert Slots(0) == {};
    } else {
      SlotCount(size - 1);
      assert Slots(size) == Slots(size - 1) + {size};
    }
  }

  lemma {:induction false} TriedCount(size: nat, h: nat, n: nat)
    requires size >= 5 && Primes.Prime(size) && 1 <= h <= size && n <= size
    ensures |Tried(size, h, n)| == n
  {
    hide Probe, Primes.Prime;
    if n > 0 {
      TriedCount(size, h, n - 1);
      assert Tried(size, h, n) == Tried(size, h, n - 1) + {Probe(size, h, n - 1)};
      forall i: nat | i < n - 1
        ensures Probe(size, h, i) != Probe(size, h, n - 1)
      {
        ProbesDistinct(size, h, i, n - 1);
      }
    }
  }

  lemma SameSize(a: set<nat>, b: set<nat>)
    requires a <= b && |a| == |b|
    ensures a == b
  {
    assert |b - a| == |b| - |a|;
  }

  /** The first size attempts visit every slot, each exactly once. */
  lemma ProbesCover(size: nat, h: nat, slot: nat) returns (j: nat)
    requires size >= 5 && Primes.Prime(size) && 1 <= h <= size && 1 <= slot <= size
    ensures j < size && Probe(size, h, j) == slot
    ensures forall i: nat :: i < size && Probe(size, h, i) == slot ==> i == j
  {
    TriedCount(size, h, size);
    SlotCount(size);
    var tried, slots := Tried(size, h, size), Slots(size);
    assert tried <= slots;
    SameSize(tried, slots);
    assert IsSlot(slot, size) && slot in tried;
    j :| j < size && Probe(size, h, j) == slot;
    forall i: nat | i < size && i != j
      ensures Probe(size, h, i) != slot
    {
      if i < j { ProbesDistinct(size, h, i, j); } else { ProbesDistinct(size, h, j, i); }
    }
  }

  // ---------- tables ----------

  /** The strings stored, by slot. */
  ghost function Names(t: seq<Entry>): map<nat, Text> {
    map i: nat | i < |t| && t[i].used != 0 :: t[i].str
  }

  ghost predicate Injective(names: map<nat, Text>) {
    forall i, j :: i in names && j in names && names[i] == names[j] ==> i == j
  }

  /** A size htab_create can produce. */
  ghost predicate GoodSize(size: nat) { size == 1 || (Primes.Prime(size) && size >= 5) }

  /** Every attempt before the j-th hits a used slot. */
  ghost predicate Blocked(t: seq<Entry>, size: nat, h: nat, j: nat)
    requires size >= 5 && |t| == size + 1 && 1 <= h <= size
  {
    forall k: nat :: k < j ==> t[Probe(size, h, k)].used != 0
  }

  /** The probe for the string stored in slot i gets there. */
  ghost predicate Reached(t: seq<Entry>, size: nat, i: nat)
    requires size >= 5 && |t| == size + 1 && 1 <= i <= size
  {
    exists j: nat :: j < size && Probe(size, First(t[i].str, size), j) == i
      && Blocked(t, size, First(t[i].str, size), j)
  }

  ghost predicate WellFormed(t: seq<Entry>, size: nat) {
    && GoodSize(size)
    && |t| == size + 1 && t[0].used == 0
    && (forall i :: 1 <= i <= size && t[i].used != 0 ==> t[i].used == First(t[i].str, size))
    && (size >= 5 ==> forall i :: 1 <= i <= size && t[i].used != 0 ==> Reached(t, size, i))
    && Injective(Names(t))
  }

  /** Storing a new string where its probe first finds a free slot keeps the table well formed. */
  lemma Stored(t: seq<Entry>, size: nat, s: Text, n: nat)
    requires WellFormed(t, size) && size >= 5 && s !in Names(t).Values
    requires n < size && Blocked(t, size, First(s, size), n) && t[Probe(size, First(s, size), n)].used == 0
    ensures var idx := Probe(size, First(s, size), n); var u := t[idx := Entry(First(s, size), s)];
            WellFormed(u, size) && Names(u) == Names(t)[idx := s] && |Names(u)| == |Names(t)| + 1
  {
    hide First, Probe, Injective, Primes.Prime;
    var h := First(s, size);
    var idx := Probe(size, h, n);
    var u := t[idx := Entry(h, s)];
    assert Names(u) == Names(t)[idx := s];
    assert Names(u).Keys == Names(t).Keys + {idx};
    forall i | 1 <= i <= size && u[i].used != 0
      ensures Reached(u, size, i)
    {
      if i == idx {
        assert Blocked(u, size, h, n);
      } else {
        assert Reached(t, size, i);
        var g := First(t[i].str, size);
        var j: nat :| j < size && Probe(size, g, j) == i && Blocked(t, size, g, j);
        assert Blocked(u, size, g, j);
      }
    }
    InjectiveExtended(Names(t), idx, s);
  }

  /** A string not met before the first free slot of its probe is nowhere in the table. */
  lemma NotStored(t: seq<Entry>, size: nat, s: Text, n: nat)
    requires WellFormed(t, size) && size >= 5 && n < size
    requires t[Probe(size, First(s, size), n)].used == 0
    requires forall k: nat :: k < n ==> t[Probe(size, First(s, size), k)].str != s
    ensures s !in Names(t).Values
  {
    hide First, Probe;
    forall i | i in Names(t)
      ensures Names(t)[i] != s
    {
      assert Reached(t, size, i);
      var g := First(t[i].str, size);
      var j: nat :| j < size && Probe(size, g, j) == i && Blocked(t, size, g, j);
      assert t[i].str == s ==> j < n;
    }
  }

  lemma NamesInSlots(t: seq<Entry>, size: nat)
    requires |t| == size + 1 && t[0].used == 0
    ensures Names(t).Keys <= Slots(size) && |Names(t)| <= size
    ensures |Names(t)| == size <==> forall i :: 1 <= i <= size ==> t[i].used != 0
  {
    SlotCount(size);
    var keys, slots := Names(t).Keys, Slots(size);
    assert keys <= slots;
    assert slots == keys + (slots - keys);
    assert |slots| == |keys| + |slots - keys|;
    if |slots - keys| == 0 {
      forall i | 1 <= i <= size
        ensures t[i].used != 0
      {
        assert IsSlot(i, size) && i in slots;
      }
    } else {
      var i :| i in slots - keys;
      assert t[i].used == 0;
    }
  }

  /** A probe that came back to its start has met every slot. */
  lemma AllVisited(t: seq<Entry>, size: nat, s: Text)
    requires WellFormed(t, size) && size >= 5
    requires forall k: nat :: k < size ==>
      t[Probe(size, First(s, size), k)].used != 0 && t[Probe(size, First(s, size), k)].str != s
    ensures |Names(t)| == size && s !in Names(t).Values
  {
    hide First, Probe;
    forall i | 1 <= i <= size
      ensures t[i].used != 0 && t[i].str != s
    {
      var j := ProbesCover(size, First(s, size), i);
    }
    NamesInSlots(t, size);
  }

  /** The first n attempts for s found other strings. */
  ghost predicate Passed(t: seq<Entry>, size: nat, s: Text, n: nat)
    requires size >= 5 && |t| == size + 1
  {
    forall k: nat :: k < n ==> var e := t[Probe(size, First(s, size), k)]; e.used != 0 && e.str != s
  }

  lemma PassedNone(t: seq<Entry>, size: nat, s: Text)
    requires size >= 5 && |t| == size + 1
    ensures Passed(t, size, s, 0) && Probe(size, First(s, size), 0) == First(s, size)
  {}

  lemma PassedNext(t: seq<Entry>, size: nat, s: Text, n: nat)
    requires size >= 5 && |t| == size + 1 && Passed(t, size, s, n)
    requires var e := t[Probe(size, First(s, size), n)]; e.used != 0 && e.str != s
    ensures Passed(t, size, s, n + 1)
    ensures var h := First(s, size); Probe(size, h, n + 1) == Back(size, Stride(h, size), Probe(size, h, n))
  {}

  /** A search that ended, at a free slot or back at its start, decides whether s is stored and
      whether there is room. */
  lemma Searched(t: seq<Entry>, size: nat, s: Text, n: nat)
    requires WellFormed(t, size) && size >= 5 && n <= size && Passed(t, size, s, n)
    requires n < size ==> t[Probe(size, First(s, size), n)].used == 0
    ensures s !in Names(t).Values && (|Names(t)| == size <==> n == size)
    ensures Blocked(t, size, First(s, size), n)
  {
    hide First, Probe;
    NamesInSlots(t, size);
    if n == size {
      AllVisited(t, size, s);
    } else {
      NotStored(t, size, s, n);
    }
  }

  lemma Basics(t: seq<Entry>, size: nat)
    requires WellFormed(t, size)
    ensures (size == 1 || size >= 5) && (size != 1 ==> Primes.Prime(size)) && |t| == size + 1 && t[0].used == 0
    ensures forall i :: 1 <= i <= size && t[i].used != 0 ==> t[i].used == First(t[i].str, size)
  {}

  /** The first slot is the hash modulo the size, never 0. */
  lemma FirstOf(s: Text, size: nat)
    requires size > 0
    ensures var r := if Sdbm(s) == 0 then 1 else Sdbm(s);
            First(s, size) == if r % size == 0 then 1 else r % size
  {}

  lemma Met(t: seq<Entry>, idx: nat)
    requires idx < |t| && t[idx].used != 0
    ensures idx in Names(t) && Names(t)[idx] == t[idx].str && t[idx].str in Names(t).Values
  {}

  /** The one-slot table. */
  lemma Single(t: seq<Entry>, s: Text)
    requires WellFormed(t, 1) && (t[1].used == 0 || t[1].str != s)
    ensures s !in Names(t).Values && |Names(t)| == (if t[1].used == 0 then 0 else 1)
    ensures t[1].used == 0 ==> var u := t[1 := Entry(1, s)];
            WellFormed(u, 1) && Names(u) == Names(t)[1 := s] && |Names(u)| == 1
  {
    assert Names(t) == if t[1].used == 0 then map[] else map[1 := t[1].str];
    assert Names(t[1 := Entry(1, s)]) == map[1 := s];
  }

  // ---------- which slot ----------

  /** The string as a number in base 65599, the last character the lowest digit. */
  function InBase65599(s: Text): int {
    if s == [] then 0 else InBase65599(s[..|s| - 1]) * 65599 + s[|s| - 1]
  }

  /** The hash is that number modulo 2^32. */
  lemma {:induction false} SdbmIs(s: Text)
    ensures Sdbm(s) == InBase65599(s) % Primes.TWO32
  {
    if s != [] {
      var front, c := InBase65599(s[..|s| - 1]), s[|s| - 1];
      SdbmIs(s[..|s| - 1]);
      SameResidue(front, Sdbm(s[..|s| - 1]), c);
    }
  }

  lemma SameResidue(x: int, r: nat, c: int)
    requires r == x % Primes.TWO32
    ensures (c + r * 64 + r * 65536 - r) % Primes.TWO32 == (x * 65599 + c) % Primes.TWO32
  {
    var q := x / Primes.TWO32;
    assert x == q * Primes.TWO32 + r;
    var y := r * 65599 + c;
    assert x * 65599 + c == (q * 65599 + y / Primes.TWO32) * Primes.TWO32 + y % Primes.TWO32;
    DivMod.QuotientUnique(x * 65599 + c, Primes.TWO32, q * 65599 + y / Primes.TWO32, y % Primes.TWO32);
  }

  /** The first slot is the hash modulo the size, and slot 1 when that is 0. */
  lemma FirstIs(s: Text, size: nat)
    requires size > 0
    ensures var v := InBase65599(s) % Primes.TWO32; First(s, size) == if v % size == 0 then 1 else v % size
  {
    SdbmIs(s);
    if size > 1 {
      DivMod.SmallDiv(1, size);
      DivMod.SmallDiv(0, size);
    }
  }

  /** Slot x is j strides before slot h, modulo the size; the stride depends on h alone. */
  predicate Lands(size: nat, h: nat, j: nat, x: nat)
    requires size >= 5
  {
    1 <= x <= size && Primes.Divides(size, h - j * (1 + h % (size - 2)) - x)
  }

  /** The probe comes to that slot and no other. */
  lemma LandsIsProbe(size: nat, h: nat, j: nat, x: nat)
    requires size >= 5 && 1 <= h <= size
    ensures Lands(size, h, j, x) <==> x == Probe(size, h, j)
  {
    hide Probe, Primes.Divides;
    ProbeResidue(size, h, j);
    var p, b := Probe(size, h, j), h - j * (1 + h % (size - 2));
    if Lands(size, h, j, x) {
      Primes.DividesSum(size, b - x, b - p);
      SameSlot(size, p, x);
    }
  }

  /** r is the first slot of the probe that no stored string has. */
  ghost predicate FirstFree(size: nat, names: map<nat, Text>, s: Text, r: nat)
    requires size >= 5
  {
    exists j: nat ::
      && j < size && Lands(size, First(s, size), j, r) && r !in names
      && forall i: nat, x: nat :: i < j && Lands(size, First(s, size), i, x) ==> x in names
  }

  lemma FoundFree(t: seq<Entry>, size: nat, s: Text, n: nat)
    requires size >= 5 && |t| == size + 1 && n < size && Passed(t, size, s, n)
    requires t[Probe(size, First(s, size), n)].used == 0
    ensures FirstFree(size, Names(t), s, Probe(size, First(s, size), n))
  {
    hide Probe, Lands, First;
    var h := First(s, size);
    LandsIsProbe(size, h, n, Probe(size, h, n));
    forall i: nat, x: nat | i < n && Lands(size, h, i, x)
      ensures x in Names(t)
    {
      LandsIsProbe(size, h, i, x);
    }
  }

  // ---------- runs of calls ----------

  /** What one call does: a known string gets its slot; a new one gets a slot of its own while
      there is room, and 0 when there is none. */
  ghost predicate Answer(size: nat, before: map<nat, Text>, s: Text, r: nat, after: map<nat, Text>) {
    if s in before.Values then r in before && before[r] == s && after == before
    else if |before| < size then 1 <= r <= size && r !in before && after == before[r := s]
    else r == 0 && after == before
  }

  /** A run of calls from a table holding names[0]. */
  ghost predicate Run(size: nat, names: seq<map<nat, Text>>, calls: seq<Text>, results: seq<nat>) {
    && |results| == |calls| && |names| == |calls| + 1
    && names[0] == map[]
    && forall i :: 0 <= i < |calls| ==> Answer(size, names[i], calls[i], results[i], names[i + 1])
  }

  /** One of the first i calls was given slot n. */
  ghost predicate Given(results: seq<nat>, i: nat, n: nat)
    requires i <= |results|
  {
    exists k :: 0 <= k < i && results[k] == n
  }

  /** What holds after i calls: what was stored is what the calls named, under their results. */
  ghost predicate Recorded(size: nat, names: map<nat, Text>, calls: seq<Text>, results: seq<nat>, i: nat)
    requires i <= |calls| == |results|
  {
    && Injective(names) && 0 !in names && |names| <= size
    && (forall k :: 0 <= k < i && results[k] != 0 ==> results[k] in names && names[results[k]] == calls[k])
    && (forall n :: n in names ==> Given(results, i, n))
    && (forall k :: 0 <= k < i && results[k] == 0 ==> |names| == size && calls[k] !in names.Values)
  }

  lemma {:induction false} RunRecorded(size: nat, names: seq<map<nat, Text>>, calls: seq<Text>, results: seq<nat>,
                                       i: nat)
    requires Run(size, names, calls, results) && i <= |calls|
    ensures Recorded(size, names[i], calls, results, i)
  {
    if i > 0 {
      RunRecorded(size, names, calls, results, i - 1);
      assert Answer(size, names[i - 1], calls[i - 1], results[i - 1], names[i]);
      AnswerRecorded(size, names[i - 1], calls, results, i - 1, names[i]);
    }
  }

  lemma AnswerRecorded(size: nat, before: map<nat, Text>, calls: seq<Text>, results: seq<nat>, i: nat, after: map<nat,
                       Text>)
    requires i < |calls| == |results| && Recorded(size, before, calls, results, i)
    requires Answer(size, before, calls[i], results[i], after)
    ensures Recorded(size, after, calls, results, i + 1)
  {
    hide Injective, Given;
    forall n | n in after
      ensures Given(results, i + 1, n)
    {
      assert n in before ==> Given(results, i, n);
      GivenStep(results, i, n);
    }
    if calls[i] !in before.Values && |before| < size {
      NameAdded(size, before, calls, results, i, after);
    }
  }

  /** A call that stores a new string. */
  lemma NameAdded(size: nat, before: map<nat, Text>, calls: seq<Text>, results: seq<nat>, i: nat, after: map<nat, Text>)
    requires i < |calls| == |results| && Recorded(size, before, calls, results, i)
    requires calls[i] !in before.Values && |before| < size && results[i] != 0 && results[i] !in before
    requires after == before[results[i] := calls[i]]
    requires forall n :: n in after ==> Given(results, i + 1, n)
    ensures Recorded(size, after, calls, results, i + 1)
  {
    hide Injective, Given;
    InjectiveExtended(before, results[i], calls[i]);
    assert after.Keys == before.Keys + {results[i]};
    assert forall k :: 0 <= k < i ==> results[k] != 0;
    assert results[i] in after && after[results[i]] == calls[i];
  }

  lemma GivenStep(results: seq<nat>, i: nat, n: nat)
    requires i < |results| && (Given(results, i, n) || results[i] == n)
    ensures Given(results, i + 1, n)
  {}

  lemma InjectiveExtended(names: map<nat, Text>, r: nat, s: Text)
    requires Injective(names) && s !in names.Values
    ensures Injective(names[r := s])
  {
    forall n | n in names
      ensures names[n] != s
    {
      assert names[n] in names.Values;
    }
  }

  /** The table as its callers see it, over any run of calls from an empty table: two calls that
      got a slot got the same slot exactly when they named the same string, a string once refused
      or once accepted stays so, and only a new string in a full table is refused. */
  lemma MapOverRuns(size: nat, names: seq<map<nat, Text>>, calls: seq<Text>, results: seq<nat>, i: nat, j: nat)
    requires Run(size, names, calls, results) && i < |calls| && j < |calls|
    ensures results[i] != 0 && results[j] != 0 ==> (results[i] == results[j] <==> calls[i] == calls[j])
    ensures calls[i] == calls[j] ==> results[i] == results[j]
    ensures results[i] == 0 <==> |names[i]| == size && calls[i] !in names[i].Values
  {
    hide Recorded;
    RunRecorded(size, names, calls, results, i);
    assert Recorded(size, names[i], calls, results, i) && Answer(size, names[i], calls[i], results[i], names[i + 1]);
    RunRecorded(size, names, calls, results, |calls|);
    var last := names[|calls|];
    assert Recorded(size, last, calls, results, |calls|);
    SlotKnown(size, last, calls, results, i);
    SlotKnown(size, last, calls, results, j);
  }

  /** What a record says of one call. */
  lemma SlotKnown(size: nat, names: map<nat, Text>, calls: seq<Text>, results: seq<nat>, i: nat)
    requires i < |calls| == |results| && Recorded(size, names, calls, results, |calls|)
    ensures Injective(names)
    ensures if results[i] == 0 then calls[i] !in names.Values
            else results[i] in names && names[results[i]] == calls[i] && calls[i] in names.Values
  {}

  lemma FoundAnswer(t: seq<Entry>, size: nat, idx: nat)
    requires idx < |t| && t[idx].used != 0
    ensures Answer(size, Names(t), t[idx].str, idx, Names(t))
  {
    Met(t, idx);
  }

  /** Storing s at idx is the right answer to a call for it. */
  ghost predicate Grown(t: seq<Entry>, size: nat, s: Text, idx: nat)
    requires size > 0
  {
    && 1 <= idx < |t|
    && var u := t[idx := Entry(First(s, size), s)];
       WellFormed(u, size) && |Names(u)| == |Names(t)| + 1 && Answer(size, Names(t), s, idx, Names(u))
  }

  /** What a search without success means: the table is full, or the string goes where it ended. */
  lemma NewAnswer(t: seq<Entry>, size: nat, s: Text, idx: nat, n: nat)
    requires WellFormed(t, size)
    requires size >= 5 ==>
      n <= size && idx == Probe(size, First(s, size), n) && Passed(t, size, s, n) && (n < size ==> t[idx].used == 0)
    requires size == 1 ==> if t[1].used == 0 then idx == 1 else t[1].str != s
    ensures |Names(t)| >= size ==> Answer(size, Names(t), s, 0, Names(t))
    ensures |Names(t)| < size ==> Grown(t, size, s, idx)
  {
    hide Probe, Passed, Primes.Prime, Sdbm;
    NamesInSlots(t, size);
    if size >= 5 {
      Searched(t, size, s, n);
      if n < size {
        Stored(t, size, s, n);
      }
    } else {
      Single(t, s);
    }
  }

  lemma RoomLeft(t: seq<Entry>, size: nat, s: Text, n: nat)
    requires WellFormed(t, size) && size >= 5 && n <= size && Passed(t, size, s, n) && |Names(t)| < size
    requires n < size ==> t[Probe(size, First(s, size), n)].used == 0
    ensures n < size
  {
    hide Probe, Passed, Names;
    Searched(t, size, s, n);
  }

  // ---------- the table itself ----------

  /** n is the first odd number from nel on that the primality test accepts, and 1 if there is none. */
  ghost predicate FirstAccepted(nel: nat, n: nat) {
    && Primes.Accepted(n)
    && (n == 1 || nel <= n) && NoneAccepted(nel, if n == 1 && nel > 1 then Primes.TWO32 else n)
  }

  /** No odd number from nel up to, not including, n is accepted. */
  ghost predicate NoneAccepted(nel: nat, n: nat) {
    forall p: nat :: nel <= p < n && p % 2 == 1 ==> !Primes.Accepted(p)
  }

  /** The search of htab_create; past the largest 32-bit number it wraps around to 1. */
  method NextSize(nel: nat) returns (n: nat)
    requires nel < Primes.TWO32
    ensures FirstAccepted(nel, n) && GoodSize(n) && n % 2 == 1 && n < Primes.TWO32
  {
    hide Primes.Accepted;
    n := if nel % 2 == 0 then nel + 1 else nel;
    var accepted := Primes.IsPrime(n);
    ghost var wrapped := false;
    while !accepted
      invariant n < Primes.TWO32 && n % 2 == 1
      invariant accepted <==> Primes.Accepted(n)
      invariant !wrapped ==> nel <= n && NoneAccepted(nel, n)
      invariant wrapped ==> accepted && n == 1 && NoneAccepted(nel, Primes.TWO32)
      decreases if accepted then 0 else Primes.TWO32 - n
    {
      wrapped := n + 2 >= Primes.TWO32;
      n := (n + 2) % Primes.TWO32;
      accepted := Primes.IsPrime(n);
      OneAccepted();
    }
    AcceptedSize(n);
  }

  lemma OneAccepted()
    ensures Primes.Accepted(1)
  {}

  lemma AcceptedSize(n: nat)
    requires n % 2 == 1
    ensures Primes.Accepted(n) ==> GoodSize(n)
  {
    hide Primes.Square32;
  }

  class Htab {
    var table: array?<Entry>
    var size: nat
    var filled: nat

    ghost predicate Valid()
      reads this, table
    {
      table != null ==> WellFormed(table[..], size) && filled == |Names(table[..])|
    }

    ghost function Contents(): map<nat, Text>
      reads this, table
    {
      if table == null then map[] else Names(table[..])
    }

    /** The zero-initialised structure. */
    constructor ()
      ensures Valid() && table == null
    {
      table := null;
      size, filled := 0, 0;
    }

    /** htab_create: refuses a table that exists already; otherwise an empty table whose size is
        the first odd number from nel on that the primality test accepts, and 1 if there is none. */
    method Create(nel: nat) returns (ok: bool)
      requires Valid() && nel < Primes.TWO32
      modifies this
      ensures Valid() && (ok <==> old(table) == null)
      ensures !ok ==> table == old(table) && size == old(size) && filled == old(filled)
      ensures ok ==> table != null && fresh(table) && GoodSize(size) && filled == 0 && Contents() == map[]
      ensures ok ==> FirstAccepted(nel, size)
    {
      if table != null {
        return false;
      }
      var n := NextSize(nel);
      size := n;
      filled := 0;
      table := new Entry[size + 1](_ => EMPTY);
      assert Names(table[..]) == map[];
      ok := true;
    }

    /** The search of htab_hash: the slot that holds the string, or else a free slot where it
        belongs, or else, in a full table, neither. */
    method Search(text: Text, hval: nat) returns (idx: nat, found: bool, ghost n: nat)
      requires table != null && WellFormed(table[..], size) && hval == First(text, size)
      ensures found ==> 1 <= idx <= size && table[idx].used != 0 && table[idx].str == text
      ensures !found && size >= 5 ==>
        && n <= size && idx == Probe(size, hval, n) && Passed(table[..], size, text, n)
        && (n < size ==> table[idx].used == 0)
      ensures !found && size == 1 ==> if table[1].used == 0 then idx == 1 else table[1].str != text
    {
      hide First, Sdbm, Probe, WellFormed, Passed, Names, Blocked, Primes.Prime;
      ghost var t := table[..];
      Basics(t, size);
      idx, found, n := hval, false, 0;
      if size >= 5 {
        PassedNone(t, size, text);
      }
      if table[idx].used != 0 {
        if table[idx].used == hval && text == table[idx].str {
          found := true;
          return;
        }
        var hval2 := Stride(hval, size);
        while true
          invariant 1 <= idx <= size && table[idx].used != 0 && table[idx].str != text
          invariant size >= 5 ==> n < size && idx == Probe(size, hval, n) && Passed(t, size, text, n)
          invariant size == 1 ==> idx == 1
          decreases size - n
        {
          if size >= 5 {
            PassedNext(t, size, text, n);
          }
          if idx <= hval2 {
            idx := size + idx - hval2;
          } else {
            idx := idx - hval2;
          }
          n := n + 1;
          if idx == hval {
            if size >= 5 && n < size { ProbesDistinct(size, hval, 0, n); }
            break;
          }
          if size >= 5 {
            ProbeComesBack(size, hval);
          }
          if table[idx].used == hval && text == table[idx].str {
            found := true;
            return;
          }
          if table[idx].used == 0 {
            break;
          }
        }
      }
    }

    /** htab_hash: the map's behaviour, whatever collides. */
    method Hash(str: Pointer) returns (r: nat)
      requires Valid()
      modifies table
      modifies this`filled
      ensures Valid()
      ensures table == null || str == Null ==> r == 0 && Contents() == old(Contents())
      ensures table != null && str != Null ==> Answer(size, old(Contents()), str.text, r, Contents())
      ensures table != null && str != Null && size >= 5 && r != 0 && str.text !in old(Contents()).Values ==>
        FirstFree(size, old(Contents()), str.text, r)
    {
      if table == null || str == Null {
        return 0;
      }
      hide First, Sdbm, Probe, WellFormed, Passed, Names, Answer, GoodSize, FirstFree;
      ghost var t := table[..];
      Basics(t, size);
      var text := str.text;
      var hval := FirstIndex(text);
      var idx, found, n := Search(text, hval);
      if found {
        FoundAnswer(t, size, idx);
        Met(t, idx);
        return idx;
      }
      NewAnswer(t, size, text, idx, n);
      if filled >= size {
        return 0;
      }
      if size >= 5 {
        RoomLeft(t, size, text, n);
        FoundFree(t, size, text, n);
      }
      table[idx] := Entry(hval, text);
      assert table[..] == t[idx := Entry(hval, text)];
      filled := filled + 1;
      return idx;
    }

    /** The first part of htab_hash: the slot to try first. */
    method FirstIndex(text: Text) returns (hval: nat)
      requires size > 0
      ensures hval == First(text, size)
    {
      hide First, Sdbm;
      var sum := SdbmOf(text);
      if sum == 0 {
        sum := sum + 1;
      }
      hval := sum % size;
      if hval == 0 {
        hval := hval + 1;
      }
      FirstOf(text, size);
    }

    /** The running sum of htab_hash. */
    method SdbmOf(s: Text) returns (r: nat)
      ensures r == Sdbm(s)
    {
      r := 0;
      for i := 0 to |s|
        invariant r == Sdbm(s[..i])
      {
        assert s[..i + 1][..i] == s[..i];
        r := (s[i] + r * 64 + r * 65536 - r) % Primes.TWO32;
      }
      assert s[..|s|] == s;
    }
  }
}
