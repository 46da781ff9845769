/** Rearrangements of a sequence, and putting an element into its place in an ordered one. */
module Rearranging {

  lemma SplitAt<T>(s: seq<T>, i: nat)
    requires i < |s|
    ensures s == s[..i] + [s[i]] + s[i + 1..]
  {}

  lemma Removed<T>(s: seq<T>, i: nat)
    requires i < |s|
    ensures multiset(s[..i] + s[i + 1..]) == multiset(s) - multiset{s[i]}
  {
    assert s == s[..i] + [s[i]] + s[i + 1..];
  }

  /** What is left when one place is taken out is what the other places hold. */
  lemma OtherPlaces<T>(s: seq<T>, i: nat, p: T)
    requires i < |s|
    ensures p in multiset(s[..i] + s[i + 1..]) <==> exists j :: 0 <= j < |s| && j != i && s[j] == p
  {
    var rest := s[..i] + s[i + 1..];
    if p in rest {
      var c :| 0 <= c < |rest| && rest[c] == p;
      assert s[if c < i then c else c + 1] == p;
    }
    if j :| 0 <= j < |s| && j != i && s[j] == p {
      assert rest[if j < i then j else j - 1] == p;
    }
  }

  /** Two entries at different places come from different places of a rearrangement. */
  lemma TwoPlaces<T>(u: seq<T>, t: seq<T>, i: nat, j: nat) returns (a: nat, b: nat)
    requires multiset(u) == multiset(t) && i < |u| && j < |u| && i != j
    ensures a < |t| && b < |t| && a != b && t[a] == u[i] && t[b] == u[j]
  {
    assert u[i] in multiset(u);
    a :| 0 <= a < |t| && t[a] == u[i];
    Removed(t, a);
    Removed(u, i);
    OtherPlaces(u, i, u[j]);
    OtherPlaces(t, a, u[j]);
    assert u[j] in multiset(t[..a] + t[a + 1..]);
    b :| 0 <= b < |t| && b != a && t[b] == u[j];
  }

  // ---------- ordered sequences ----------

  /** No element precedes an earlier one. */
  predicate Ordered<T(!new)>(s: seq<T>, precedes: (T, T) -> bool) {
    forall i, j :: 0 <= i < j < |s| ==> !precedes(s[j], s[i])
  }

  /** A comparison that sorting can rely on, among elements of one kind. */
  ghost predicate Orders<T(!new)>(precedes: (T, T) -> bool, kind: T -> bool) {
    && (forall a, b :: kind(a) && kind(b) && precedes(a, b) ==> !precedes(b, a))
    && (forall a, b, c :: kind(a) && kind(b) && kind(c) && !precedes(b, a) && !precedes(c, b) ==> !precedes(c, a))
  }

  ghost predicate All<T(!new)>(s: seq<T>, kind: T -> bool) { forall i :: 0 <= i < |s| ==> kind(s[i]) }

  /** Puts an element into an ordered sequence, behind those it does not precede. */
  function Insert<T(!new, ==)>(sorted: seq<T>, p: T, precedes: (T, T) -> bool, ghost kind: T -> bool): (r: seq<T>)
    requires Orders(precedes, kind) && Ordered(sorted, precedes) && kind(p) && All(sorted, kind)
    ensures Ordered(r, precedes) && All(r, kind) && multiset(r) == multiset(sorted) + multiset{p}
  {
    if sorted == [] then [p]
    else
      var n := |sorted| - 1;
      if !precedes(p, sorted[n]) then
        InsertLast(sorted, p, precedes, kind);
        sorted + [p]
      else
        assert sorted == sorted[..n] + [sorted[n]];
        var front := Insert(sorted[..n], p, precedes, kind);
        InsertFront(sorted, front, p, precedes, kind);
        front + [sorted[n]]
  }

  lemma InsertLast<T(!new)>(sorted: seq<T>, p: T, precedes: (T, T) -> bool, kind: T -> bool)
    requires Orders(precedes, kind) && Ordered(sorted, precedes) && kind(p) && All(sorted, kind)
    requires sorted != [] && !precedes(p, sorted[|sorted| - 1])
    ensures Ordered(sorted + [p], precedes) && All(sorted + [p], kind)
  {
    var n := |sorted| - 1;
    assert kind(sorted[n]);
    forall i | 0 <= i <= n
      ensures !precedes(p, sorted[i])
    {
      assert kind(sorted[i]);
      assert i < n ==> !precedes(sorted[n], sorted[i]);
    }
  }

  lemma InsertFront<T(!new)>(sorted: seq<T>, front: seq<T>, p: T, precedes: (T, T) -> bool, kind: T -> bool)
    requires Orders(precedes, kind) && Ordered(sorted, precedes) && kind(p) && All(sorted, kind)
    requires sorted != [] && precedes(p, sorted[|sorted| - 1]) && Ordered(front, precedes) && All(front, kind)
    requires multiset(front) == multiset(sorted[..|sorted| - 1]) + multiset{p}
    ensures var r := front + [sorted[|sorted| - 1]]; Ordered(r, precedes) && All(r, kind)
  {
    var n := |sorted| - 1;
    assert kind(sorted[n]);
    forall i | 0 <= i < |front|
      ensures !precedes(sorted[n], front[i])
    {
      assert front[i] in multiset(front);
      if front[i] != p {
        assert front[i] in sorted[..n];
      }
    }
  }
}
