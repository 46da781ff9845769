/** The list of disk spaces that cgdisk displays (gdisk/gptcurses.cc): a doubly linked list of
    partitions and gaps, re-sorted in place each time a gap is added while the list is walked. */
module Spaces {
  import opened GptFormat
  import FreeSpace

  /** A partition or a gap.  Its extent is fixed when it is made; only its links change.  A
      partition carries its number, a gap -1. */
  class Space {
    const firstLBA: nat
    const lastLBA: nat
    const partNum: int
    var nextSpace: Space?
    var prevSpace: Space?

    constructor (first: nat, last: nat, num: int)
      ensures firstLBA == first && lastLBA == last && partNum == num
      ensures nextSpace == null && prevSpace == null
    {
      firstLBA, lastLBA, partNum := first, last, num;
      nextSpace, prevSpace := null, null;
    }
  }

  // ---------- chains ----------

  predicate Distinct(s: seq<Space>) { forall i, j :: 0 <= i < j < |s| ==> s[i] != s[j] }

  /** The nodes of s are linked to each other in order, both ways, and to nothing else. */
  ghost predicate Chain(s: seq<Space>)
    reads s
  {
    && Distinct(s)
    && (|s| > 0 ==> s[0].prevSpace == null && s[|s| - 1].nextSpace == null)
    && (forall i {:trigger s[i].prevSpace} :: 1 <= i < |s| ==> s[i].prevSpace == s[i - 1])
    && (forall i {:trigger s[i].nextSpace} :: 0 <= i < |s| - 1 ==> s[i].nextSpace == s[i + 1])
  }

  function Head(s: seq<Space>): Space? { if s == [] then null else s[0] }

  function Last(s: seq<Space>): Space? { if s == [] then null else s[|s| - 1] }

  function Without(s: seq<Space>, k: nat): seq<Space>
    requires k < |s|
  {
    s[..k] + s[k + 1..]
  }

  /** Ascending by first sector. */
  predicate Ascending(s: seq<Space>) { forall i, j :: 0 <= i < j < |s| ==> s[i].firstLBA <= s[j].firstLBA }

  lemma WithoutFacts(s: seq<Space>, k: nat)
    requires k < |s| && Distinct(s)
    ensures
      var t := Without(s, k);
      && |t| == |s| - 1 && Distinct(t)
      && (forall i :: 0 <= i < k ==> t[i] == s[i]) && (forall i :: k <= i < |t| ==> t[i] == s[i + 1])
  {}

  class SpaceList {
    var firstSpace: Space?
    var lastSpace: Space?
    var numSpaces: int
    ghost var nodes: seq<Space>

    ghost predicate Valid()
      reads this, nodes
    {
      Chain(nodes) && firstSpace == Head(nodes) && lastSpace == Last(nodes) && numSpaces == |nodes|
    }

    constructor ()
      ensures Valid() && nodes == []
    {
      firstSpace, lastSpace, numSpaces, nodes := null, null, 0, [];
    }

    /** Take a node out of the chain it is in; the list's own ends follow if they were that node. */
    method UnlinkSpace(theSpace: Space, ghost s: seq<Space>, ghost k: nat)
      requires Chain(s) && k < |s| && s[k] == theSpace
      modifies `firstSpace, `lastSpace, `numSpaces, s
      ensures Chain(Without(s, k)) && theSpace.nextSpace == null && theSpace.prevSpace == null
      ensures numSpaces == old(numSpaces) - 1
      ensures firstSpace == if old(firstSpace) == theSpace then old(theSpace.nextSpace) else old(firstSpace)
      ensures lastSpace == if old(lastSpace) == theSpace then old(theSpace.prevSpace) else old(lastSpace)
    {
      hide Without;
      WithoutFacts(s, k);
      assert theSpace.prevSpace == (if k == 0 then null else s[k - 1]);
      assert theSpace.nextSpace == (if k == |s| - 1 then null else s[k + 1]);
      if theSpace.prevSpace != null {
        theSpace.prevSpace.nextSpace := theSpace.nextSpace;
      }
      if theSpace.nextSpace != null {
        theSpace.nextSpace.prevSpace := theSpace.prevSpace;
      }
      if theSpace == firstSpace {
        firstSpace := theSpace.nextSpace;
      }
      if theSpace == lastSpace {
        lastSpace := theSpace.prevSpace;
      }
      theSpace.nextSpace := null;
      theSpace.prevSpace := null;
      numSpaces := numSpaces - 1;
    }

    /** Put a node after the last one of the list's chain. */
    method LinkToEnd(theSpace: Space, ghost s: seq<Space>)
      requires Chain(s) && firstSpace == Head(s) && lastSpace == Last(s) && theSpace !in s
      modifies `firstSpace, `lastSpace, `numSpaces, s, theSpace
      ensures Chain(s + [theSpace]) && firstSpace == Head(s + [theSpace]) && lastSpace == theSpace
      ensures numSpaces == old(numSpaces) + 1
    {
      if lastSpace == null {
        firstSpace, lastSpace := theSpace, theSpace;
        theSpace.nextSpace := null;
        theSpace.prevSpace := null;
      } else {
        theSpace.prevSpace := lastSpace;
        theSpace.nextSpace := null;
        lastSpace.nextSpace := theSpace;
        lastSpace := theSpace;
      }
      numSpaces := numSpaces + 1;
    }

    /** Find the node with the smallest first sector in a chain, the earlier one on a tie. */
    method FindEarliest(oldFirst: Space, ghost s: seq<Space>) returns (earliest: Space, ghost k: nat)
      requires Chain(s) && s != [] && oldFirst == s[0]
      ensures k < |s| && earliest == s[k] && forall i :: 0 <= i < |s| ==> earliest.firstLBA <= s[i].firstLBA
    {
      earliest, k := oldFirst, 0;
      var current: Space? := oldFirst;
      ghost var c := 0;
      while current != null
        invariant 0 <= c <= |s| && current == (if c < |s| then s[c] else null)
        invariant k < |s| && earliest == s[k] && forall i :: 0 <= i < c ==> earliest.firstLBA <= s[i].firstLBA
        decreases |s| - c
      {
        if current.firstLBA < earliest.firstLBA {
          earliest, k := current, c;
        }
        current := current.nextSpace;
        c := c + 1;
      }
    }

    /** One turn of the sort: the earliest node of the old chain goes to the end of the new. */
    method MoveEarliest(oldFirst: Space, ghost rest: seq<Space>, ghost done: seq<Space>)
      returns (next: Space?, ghost k: nat)
      requires Chain(rest) && Chain(done) && rest != [] && oldFirst == rest[0] && Apart(rest, done)
      requires firstSpace == Head(done) && lastSpace == Last(done)
      modifies `firstSpace, `lastSpace, `numSpaces, rest, done
      ensures k < |rest| && forall i :: 0 <= i < |rest| ==> rest[k].firstLBA <= rest[i].firstLBA
      ensures Chain(Without(rest, k)) && Chain(done + [rest[k]]) && next == Head(Without(rest, k))
      ensures firstSpace == Head(done + [rest[k]]) && lastSpace == Last(done + [rest[k]])
      ensures numSpaces == old(numSpaces)
    {
      hide Without, Chain, Distinct, Apart;
      var earliest, index := FindEarliest(oldFirst, rest);
      k := index;
      StillApart(rest, done, k);
      assert earliest.nextSpace == (if k == |rest| - 1 then null else rest[k + 1]) by { ChainNext(rest, k); }
      next := if oldFirst == earliest then earliest.nextSpace else oldFirst;
      assert next == Head(Without(rest, k));
      UnlinkSpace(earliest, rest, k);
      LinkToEnd(earliest, done);
    }

    /** Selection sort in place: take the earliest node out of the old chain and put it at the
        end of the new one until the old chain is empty. */
    method SortSpaces()
      requires Valid()
      modifies this, nodes
      ensures Valid() && Ascending(nodes) && multiset(nodes) == multiset(old(nodes))
    {
      hide Without, Ascending, Below;
      var oldFirst := firstSpace;
      ghost var rest, done := nodes, [];
      SortStart(nodes);
      firstSpace, lastSpace := null, null;
      while oldFirst != null
        invariant Chain(rest) && Chain(done) && oldFirst == Head(rest)
        invariant firstSpace == Head(done) && lastSpace == Last(done) && numSpaces == |rest| + |done|
        invariant Sorting(rest, done, old(nodes))
        decreases |rest|
      {
        ghost var k;
        oldFirst, k := MoveEarliest(oldFirst, rest, done);
        TakeOut(rest, done, k, old(nodes));
        done := done + [rest[k]];
        rest := Without(rest, k);
      }
      assert rest == [];
      nodes := done;
    }

    /** Add a gap and sort again; in a list already in order it lands in its place. */
    method AddEmptySpace(first: nat, last: nat, ghost k: nat, ghost lo: nat, ghost hi: nat) returns (ghost gap: Space)
      requires Valid() && Separate(nodes, lo, hi) && k <= |nodes| && lo <= first <= last <= hi
      requires (k > 0 ==> nodes[k - 1].lastLBA < first) && (k < |nodes| ==> last < nodes[k].firstLBA)
      modifies this, nodes
      ensures Valid() && nodes == Splice(old(nodes), k, [gap]) && fresh(gap)
      ensures IsGap(gap, first, last) && Separate(nodes, lo, hi)
    {
      hide Increasing, Ascending, Chain, Separate, Splice;
      var tempSpace := new Space(first, last, -1);
      gap := tempSpace;
      ghost var before := nodes;
      LinkToEnd(tempSpace, nodes);
      nodes := nodes + [tempSpace];
      InsertedSeparate(before, gap, k, lo, hi);
      SortSpaces();
      SortedUnique(nodes, Splice(before, k, [gap]));
    }

    /** The first test of AddEmptySpaces: a gap before the first space. */
    method VisitFirst(current: Space, lo: nat, hi: nat, ghost c: nat) returns (ghost gap: seq<Space>)
      requires Valid() && c < |nodes| && nodes[c] == current && Separate(nodes, lo, hi)
      modifies this, nodes
      ensures Valid() && nodes == Splice(old(nodes), c, gap) && Separate(nodes, lo, hi)
      ensures if c == 0 && lo < current.firstLBA then |gap| == 1 && IsGap(gap[0], lo, current.firstLBA - 1)
              else gap == []
      ensures forall x :: x in gap ==> fresh(x)
    {
      gap := [];
      hide Chain, Separate, Splice;
      NodeFacts(nodes, c, lo, hi);
      SpliceNothing(nodes, c);
      if current == firstSpace && current.firstLBA > lo {
        ghost var g := AddEmptySpace(lo, current.firstLBA - 1, 0, lo, hi);
        gap := [g];
      }
    }

    /** The second test: a gap after the last space. */
    method VisitLast(current: Space, lo: nat, hi: nat, ghost c: nat) returns (ghost gap: seq<Space>)
      requires Valid() && c < |nodes| && nodes[c] == current && Separate(nodes, lo, hi)
      modifies this, nodes
      ensures Valid() && nodes == old(nodes) + gap && Separate(nodes, lo, hi)
      ensures if c == |old(nodes)| - 1 && current.lastLBA < hi then |gap| == 1 && IsGap(gap[0], current.lastLBA + 1, hi)
              else gap == []
      ensures forall x :: x in gap ==> fresh(x)
    {
      hide Chain, Separate, Splice;
      NodeFacts(nodes, c, lo, hi);
      gap := [];
      if current == lastSpace && current.lastLBA < hi {
        ghost var before := nodes;
        ghost var g := AddEmptySpace(current.lastLBA + 1, hi, |nodes|, lo, hi);
        gap := [g];
        SpliceEnd(before, gap);
      }
    }

    /** The third test: a gap between a space and the one before it. */
    method VisitMiddle(current: Space, lo: nat, hi: nat, ghost c: nat) returns (ghost gap: seq<Space>)
      requires Valid() && c < |nodes| && nodes[c] == current && Separate(nodes, lo, hi)
      modifies this, nodes
      ensures Valid() && nodes == Splice(old(nodes), c, gap) && Separate(nodes, lo, hi)
      ensures if c > 0 && old(nodes)[c - 1].lastLBA + 1 < current.firstLBA
              then |gap| == 1 && IsGap(gap[0], old(nodes)[c - 1].lastLBA + 1, current.firstLBA - 1) else gap == []
      ensures forall x :: x in gap ==> fresh(x)
    {
      gap := [];
      hide Chain, Separate, Splice;
      NodeFacts(nodes, c, lo, hi);
      SpliceNothing(nodes, c);
      if current.prevSpace != null && current.prevSpace.lastLBA < current.firstLBA - 1 {
        ghost var g := AddEmptySpace(current.prevSpace.lastLBA + 1, current.firstLBA - 1, c, lo, hi);
        gap := [g];
      }
    }

    /** One step of the walk in AddEmptySpaces: add the gap before the current space, and the
        one after it if it is the last. */
    method VisitSpace(current: Space, lo: nat, hi: nat, ghost c: nat)
      returns (ghost gap: seq<Space>, ghost tail: seq<Space>)
      requires Valid() && c < |nodes| && nodes[c] == current && Separate(nodes, lo, hi)
      modifies this, nodes
      ensures Valid() && nodes == Splice(old(nodes), c, gap) + tail && Separate(nodes, lo, hi)
      ensures
        var end := EndOf(old(nodes)[..c], lo);
        if end < current.firstLBA then |gap| == 1 && IsGap(gap[0], end, current.firstLBA - 1) else gap == []
      ensures if c == |old(nodes)| - 1 && current.lastLBA < hi
              then |tail| == 1 && IsGap(tail[0], current.lastLBA + 1, hi)
              else tail == []
      ensures forall i :: 0 <= i < |nodes| ==> nodes[i] in old(nodes) || fresh(nodes[i])
    {
      hide Chain, Separate, Splice;
      ghost var before := nodes;
      FirstInRange(before, c, lo, hi);
      ghost var a := VisitFirst(current, lo, hi, c);
      SpliceFacts(before, c, a);
      tail := VisitLast(current, lo, hi, c + |a|);
      assert forall i :: 0 <= i < |nodes| ==> nodes[i] in before || nodes[i] in a || nodes[i] in tail;
      ghost var b := VisitMiddle(current, lo, hi, c + |a|);
      gap := a + b;
      SpliceTwice(before, c, a, b, tail);
      SpliceFacts(before, c, gap);
    }

    /** Add the gaps before, between and after the partitions, walking the list while every
        addition sorts it anew.  Returns how many were added. */
    method AddEmptySpaces(lo: nat, hi: nat) returns (added: nat)
      requires Valid() && lo <= hi && Partitions(nodes, lo, hi)
      modifies this, nodes
      ensures Valid() && Tiling(nodes, lo, hi) && NoTwoGaps(nodes)
      ensures multiset(Parts(nodes)) == multiset(old(nodes)) && numSpaces == old(numSpaces) + added
      ensures forall i :: 0 <= i < |nodes| ==> nodes[i] in old(nodes) || fresh(nodes[i])
    {
      hide Chain, Ascending, Separate, Splice, Tiling, NoTwoGaps, Parts, Partitions;
      added := 0;
      SortSpaces();
      SortedSeparate(nodes, old(nodes), lo, hi);
      if firstSpace == null {
        ghost var gap := AddEmptySpace(lo, hi, 0, lo, hi);
        added := 1;
        WholeGap(gap, lo, hi);
        SpliceEnd([], [gap]);
        assert nodes == [gap];
      } else {
        added := WalkSpaces(lo, hi);
      }
    }

    /** The walk itself, over partitions already in order. */
    method WalkSpaces(lo: nat, hi: nat) returns (added: int)
      requires Valid() && nodes != [] && Separate(nodes, lo, hi) && OnlyParts(nodes)
      modifies this, nodes
      ensures Valid() && Tiling(nodes, lo, hi) && NoTwoGaps(nodes)
      ensures Parts(nodes) == old(nodes) && numSpaces == old(numSpaces) + added && added >= 0
      ensures forall i :: 0 <= i < |nodes| ==> nodes[i] in old(nodes) || fresh(nodes[i])
    {
      hide Chain, Separate, Splice, Tiling, NoTwoGaps, Parts, Walk;
      added := 0;
      ghost var front, rest := [], nodes;
      WalkStart(nodes, lo, hi);
      var current := firstSpace;
      while current != null
        invariant Valid() && Separate(nodes, lo, hi) && nodes == front + rest && current == Head(rest)
        invariant Walk(front, rest, old(nodes), lo, hi) && numSpaces == |old(nodes)| + added && added >= 0
        invariant forall i :: 0 <= i < |nodes| ==> nodes[i] in old(nodes) || fresh(nodes[i])
        decreases |Parts(rest)|, |rest|
      {
        var count := numSpaces;
        ghost var gap, tail := VisitSpace(current, lo, hi, |front|);
        added := added + (numSpaces - count);
        WalkStep(front, rest, gap, tail, old(nodes), lo, hi);
        SpliceMiddle(front, rest, gap, tail);
        front, rest := front + gap + [rest[0]], rest[1..] + tail;
        NextInChain(nodes, front, rest);
        current := current.nextSpace;
      }
      WalkEnd(front, rest, old(nodes), lo, hi);
    }

    method EmptySpaces()
      modifies this
      ensures Valid() && nodes == []
    {
      firstSpace, lastSpace, numSpaces, nodes := null, null, 0, [];
    }

    /** One space per used partition, in array order; the old list is dropped. */
    method MakeSpacesFromParts(parts: seq<Part>)
      modifies this
      ensures Valid() && Shows(nodes, parts) && forall i :: 0 <= i < |nodes| ==> fresh(nodes[i])
    {
      hide Shows, Chain;
      EmptySpaces();
      assert Shows(nodes, parts[..0]) by { ShowsNothing(parts[..0]); }
      for i := 0 to |parts|
        invariant Valid() && Shows(nodes, parts[..i])
        invariant forall k :: 0 <= k < |nodes| ==> fresh(nodes[k])
      {
        ghost var before := nodes;
        if parts[i].IsUsed() {
          var tempSpace := new Space(parts[i].firstLBA, parts[i].lastLBA, i);
          LinkToEnd(tempSpace, nodes);
          nodes := nodes + [tempSpace];
        }
        ShowsNext(before, nodes, parts, i);
      }
      assert parts[..|parts|] == parts;
    }

    /** The whole display list: it tiles the usable sectors exactly, shows every used partition
        once, and never has two gaps in a row. */
    method IdentifySpaces(parts: seq<Part>, lo: nat, hi: nat)
      requires lo <= hi && FreeSpace.Space(parts, lo, hi).WellFormed()
      modifies this
      ensures Valid() && Tiling(nodes, lo, hi) && NoTwoGaps(nodes) && Shows(Parts(nodes), parts)
    {
      hide Shows, Chain, Tiling, NoTwoGaps, Parts, Partitions;
      MakeSpacesFromParts(parts);
      ghost var made := nodes;
      assert Distinct(made) by { ChainDistinct(made); }
      ShownPartitions(made, parts, lo, hi);
      var added := AddEmptySpaces(lo, hi);
      ShowsRearranged(Parts(nodes), made, parts);
    }
  }

  lemma ChainDistinct(s: seq<Space>)
    requires Chain(s)
    ensures Distinct(s)
  {}

  lemma ShowsNothing(parts: seq<Part>)
    requires parts == []
    ensures Shows([], parts)
  {}

  lemma ShowsNext(before: seq<Space>, after: seq<Space>, parts: seq<Part>, i: nat)
    requires i < |parts| && Shows(before, parts[..i])
    requires if parts[i].IsUsed()
             then |after| == |before| + 1 && after[..|before|] == before && after[|before|].partNum == i
                  && after[|before|].firstLBA == parts[i].firstLBA && after[|before|].lastLBA == parts[i].lastLBA
             else after == before
    ensures Shows(after, parts[..i + 1])
  {
    var earlier, later := parts[..i], parts[..i + 1];
    assert forall j :: 0 <= j < i ==> earlier[j] == later[j] == parts[j];
    assert forall k :: 0 <= k < |before| ==> after[k] == before[k];
    forall j | 0 <= j < |later| && later[j].IsUsed()
      ensures exists k :: 0 <= k < |after| && after[k].partNum == j
    {
      if j < i {
        var k :| 0 <= k < |before| && before[k].partNum == j;
        assert after[k].partNum == j;
      } else {
        assert after[|before|].partNum == j;
      }
    }
  }

  /** What a list of partitions shows of a partition array: each used entry once, as it is. */
  predicate Shows(s: seq<Space>, parts: seq<Part>) {
    && (forall k :: 0 <= k < |s| ==> IsShown(s[k], parts))
    && (forall i :: 0 <= i < |parts| && parts[i].IsUsed() ==> exists k :: 0 <= k < |s| && s[k].partNum == i)
    && (forall k, l :: 0 <= k < l < |s| ==> s[k].partNum != s[l].partNum)
  }

  predicate IsShown(x: Space, parts: seq<Part>) {
    && 0 <= x.partNum < |parts| && parts[x.partNum].IsUsed()
    && x.firstLBA == parts[x.partNum].firstLBA && x.lastLBA == parts[x.partNum].lastLBA
  }

  lemma ShownPartitions(s: seq<Space>, parts: seq<Part>, lo: nat, hi: nat)
    requires Shows(s, parts) && FreeSpace.Space(parts, lo, hi).WellFormed()
    ensures Partitions(s, lo, hi)
  {
    forall i, j | 0 <= i < |s| && 0 <= j < |s| && s[i] != s[j]
      ensures s[i].lastLBA < s[j].firstLBA || s[j].lastLBA < s[i].firstLBA
    {
      FreeSpace.ApartSymmetric(FreeSpace.Space(parts, lo, hi), s[i].partNum, s[j].partNum);
    }
  }

  /** A rearrangement shows the same partitions. */
  lemma ShowsRearranged(s: seq<Space>, from: seq<Space>, parts: seq<Part>)
    requires Shows(from, parts) && multiset(s) == multiset(from) && Distinct(from)
    ensures Shows(s, parts)
  {
    forall k | 0 <= k < |s|
      ensures s[k] in from
    {
      assert s[k] in multiset(s);
    }
    forall i | 0 <= i < |parts| && parts[i].IsUsed()
      ensures exists k :: 0 <= k < |s| && s[k].partNum == i
    {
      var k :| 0 <= k < |from| && from[k].partNum == i;
      assert from[k] in multiset(from);
      assert from[k] in s;
    }
    forall k, l | 0 <= k < l < |s|
      ensures s[k].partNum != s[l].partNum
    {
      OnceOnly(s, from, k, l);
    }
  }

  lemma OnceOnly(s: seq<Space>, from: seq<Space>, k: nat, l: nat)
    requires multiset(s) == multiset(from) && Distinct(from) && k < l < |s|
    ensures s[k] != s[l]
  {
    assert s == s[..l] + [s[l]] + s[l + 1..];
    assert s[k] in s[..l];
    assert s[k] == s[l] ==> multiset(s)[s[l]] >= 2;
    CountOnce(from, s[l]);
  }

  lemma {:induction false} CountOnce(from: seq<Space>, x: Space)
    requires Distinct(from)
    ensures multiset(from)[x] <= 1
  {
    if from != [] {
      var n := |from| - 1;
      assert from == from[..n] + [from[n]];
      CountOnce(from[..n], x);
      if x == from[n] {
        assert x !in from[..n];
      }
    }
  }

  /** A list with more nodes put in at position k. */
  function Splice(s: seq<Space>, k: nat, more: seq<Space>): seq<Space>
    requires k <= |s|
  {
    s[..k] + more + s[k..]
  }

  /** What a node of a list in order knows about its neighbours. */
  lemma NodeFacts(s: seq<Space>, c: nat, lo: nat, hi: nat)
    requires Chain(s) && Separate(s, lo, hi) && c < |s|
    ensures (s[c] == s[0] <==> c == 0) && (s[c] == s[|s| - 1] <==> c == |s| - 1)
    ensures s[c].prevSpace == if c == 0 then null else s[c - 1]
    ensures lo <= s[c].firstLBA <= s[c].lastLBA <= hi && (c > 0 ==> lo <= s[c - 1].lastLBA < s[c].firstLBA)
  {}

  lemma SpliceNothing(s: seq<Space>, k: nat)
    requires k <= |s|
    ensures Splice(s, k, []) == s
  {}

  lemma SpliceEnd(s: seq<Space>, more: seq<Space>)
    ensures Splice(s, |s|, more) == s + more
  {}

  lemma SpliceFacts(s: seq<Space>, k: nat, more: seq<Space>)
    requires k < |s|
    ensures
      var t := Splice(s, k, more);
      && |t| == |s| + |more| && t[k + |more|] == s[k]
      && (more != [] ==> t[k + |more| - 1] == more[|more| - 1])
      && (more == [] && k > 0 ==> t[k - 1] == s[k - 1])
      && (forall i :: 0 <= i < |t| ==> t[i] in s || t[i] in more)
  {}

  lemma SpliceTwice(s: seq<Space>, k: nat, a: seq<Space>, b: seq<Space>, tail: seq<Space>)
    requires k <= |s|
    ensures k + |a| <= |Splice(s, k, a) + tail|
    ensures Splice(Splice(s, k, a) + tail, k + |a|, b) == Splice(s, k, a + b) + tail
  {}

  predicate IsGap(x: Space, first: nat, last: int) { x.firstLBA == first && x.lastLBA == last && x.partNum == -1 }

  /** The sorted part and the rest make up the original nodes, the sorted part first. */
  ghost predicate Sorting(rest: seq<Space>, done: seq<Space>, all: seq<Space>) {
    && Apart(rest, done) && Ascending(done) && Below(done, rest)
    && multiset(rest) + multiset(done) == multiset(all)
    && (forall i :: 0 <= i < |rest| ==> rest[i] in all) && (forall i :: 0 <= i < |done| ==> done[i] in all)
  }

  lemma ChainNext(s: seq<Space>, k: nat)
    requires Chain(s) && k < |s|
    ensures s[k].nextSpace == if k == |s| - 1 then null else s[k + 1]
    ensures Distinct(s)
  {}

  /** A node taken out of one chain is in neither of the two that remain. */
  lemma StillApart(rest: seq<Space>, done: seq<Space>, k: nat)
    requires k < |rest| && Chain(rest) && Apart(rest, done)
    ensures
      var r := Without(rest, k);
      && |r| == |rest| - 1 && (k == 0 && r != [] ==> r[0] == rest[1]) && (k > 0 ==> r[0] == rest[0] != rest[k])
      && rest[k] !in done && (forall i :: 0 <= i < |done| ==> done[i] !in rest)
      && (forall i :: 0 <= i < |r| ==> r[i] !in done && r[i] != rest[k])
  {
    WithoutFacts(rest, k);
    assert forall i :: 0 <= i < |rest| ==> rest[i] in rest;
  }

  lemma SortStart(s: seq<Space>)
    ensures Sorting(s, [], s)
  {}

  predicate Apart(a: seq<Space>, b: seq<Space>) { forall i :: 0 <= i < |b| ==> b[i] !in a }

  predicate Below(a: seq<Space>, b: seq<Space>) {
    forall i, j :: 0 <= i < |a| && 0 <= j < |b| ==> a[i].firstLBA <= b[j].firstLBA
  }

  /** Moving the earliest remaining node to the end of the sorted ones. */
  lemma TakeOut(rest: seq<Space>, done: seq<Space>, k: nat, all: seq<Space>)
    requires k < |rest| && Distinct(rest) && Sorting(rest, done, all)
    requires forall i :: 0 <= i < |rest| ==> rest[k].firstLBA <= rest[i].firstLBA
    ensures |Without(rest, k)| == |rest| - 1 && Sorting(Without(rest, k), done + [rest[k]], all)
  {
    assert rest == rest[..k] + [rest[k]] + rest[k + 1..];
    WithoutFacts(rest, k);
  }

  // ---------- lists in order ----------

  /** Strictly ascending by first sector. */
  predicate Increasing(s: seq<Space>) { forall i, j :: 0 <= i < j < |s| ==> s[i].firstLBA < s[j].firstLBA }

  /** Adding a space between its neighbours. */
  lemma InsertedSeparate(s: seq<Space>, x: Space, k: nat, lo: nat, hi: nat)
    requires Separate(s, lo, hi) && k <= |s| && lo <= x.firstLBA <= x.lastLBA <= hi
    requires (k > 0 ==> s[k - 1].lastLBA < x.firstLBA) && (k < |s| ==> x.lastLBA < s[k].firstLBA)
    ensures var t := Splice(s, k, [x]); Separate(t, lo, hi) && Increasing(t) && multiset(s + [x]) == multiset(t)
  {
    hide Splice;
    var t := Splice(s, k, [x]);
    SpliceOne(s, x, k);
    forall i | 0 <= i < |t|
      ensures lo <= t[i].firstLBA <= t[i].lastLBA <= hi
    {
      assert t[i] == if i < k then s[i] else if i == k then x else s[i - 1];
    }
    forall i, j | 0 <= i < j < |t|
      ensures t[i].lastLBA < t[j].firstLBA
    {
      InsertedPair(s, x, k, i, j, lo, hi);
    }
  }

  lemma SpliceOne(s: seq<Space>, x: Space, k: nat)
    requires k <= |s|
    ensures
      var t := Splice(s, k, [x]);
      && |t| == |s| + 1 && multiset(s + [x]) == multiset(t)
      && (forall i :: 0 <= i < k ==> t[i] == s[i]) && t[k] == x && (forall i :: k < i < |t| ==> t[i] == s[i - 1])
  {
    assert s == s[..k] + s[k..];
  }

  lemma InsertedPair(s: seq<Space>, x: Space, k: nat, i: nat, j: nat, lo: nat, hi: nat)
    requires Separate(s, lo, hi) && k <= |s| && i < j <= |s| && x.firstLBA <= x.lastLBA
    requires (k > 0 ==> s[k - 1].lastLBA < x.firstLBA) && (k < |s| ==> x.lastLBA < s[k].firstLBA)
    ensures |Splice(s, k, [x])| == |s| + 1
    ensures var t := Splice(s, k, [x]); t[i].lastLBA < t[j].firstLBA
  {
    hide Splice;
    SpliceOne(s, x, k);
    var t := Splice(s, k, [x]);
    assert t[i] == (if i < k then s[i] else if i == k then x else s[i - 1]);
    assert t[j] == (if j < k then s[j] else if j == k then x else s[j - 1]);
    assert 0 < k ==> s[k - 1].firstLBA <= s[k - 1].lastLBA;
    assert k < |s| ==> s[k].firstLBA <= s[k].lastLBA;
    assert i < k - 1 ==> s[i].lastLBA < s[k - 1].firstLBA;
    assert k < j - 1 ==> s[k].lastLBA < s[j - 1].firstLBA;
  }

  /** The one sorted arrangement of nodes with different first sectors. */
  lemma {:induction false} SortedUnique(a: seq<Space>, b: seq<Space>)
    requires Ascending(a) && Increasing(b) && multiset(a) == multiset(b)
    ensures a == b
  {
    hide Ascending, Increasing;
    var n := |b|;
    assert |multiset(a)| == |a| && |multiset(b)| == |b|;
    if n > 0 {
      SameLast(a, b);
      DropLast(a);
      DropLast(b);
      SortedUnique(a[..n - 1], b[..n - 1]);
      assert a == a[..n - 1] + [a[n - 1]] && b == b[..n - 1] + [b[n - 1]];
    }
  }

  lemma SameLast(a: seq<Space>, b: seq<Space>)
    requires Ascending(a) && Increasing(b) && multiset(a) == multiset(b) && |a| == |b| > 0
    ensures a[|a| - 1] == b[|b| - 1]
  {
    var n := |b|;
    assert a[n - 1] in multiset(b) && b[n - 1] in multiset(a);
    var j :| 0 <= j < n && b[j] == a[n - 1];
    var i :| 0 <= i < n && a[i] == b[n - 1];
  }

  lemma DropLast(a: seq<Space>)
    requires |a| > 0
    ensures multiset(a[..|a| - 1]) == multiset(a) - multiset{a[|a| - 1]}
    ensures Ascending(a) ==> Ascending(a[..|a| - 1])
    ensures Increasing(a) ==> Increasing(a[..|a| - 1])
  {
    assert a == a[..|a| - 1] + [a[|a| - 1]];
  }

  // ---------- tiling ----------

  /** Spaces in ascending order, none empty, none overlapping, all in lo..hi. */
  predicate Separate(s: seq<Space>, lo: nat, hi: nat) {
    && (forall i :: 0 <= i < |s| ==> lo <= s[i].firstLBA <= s[i].lastLBA <= hi)
    && (forall i, j :: 0 <= i < j < |s| ==> s[i].lastLBA < s[j].firstLBA)
  }

  /** The first sector after a run of spaces that begins at lo. */
  function EndOf(s: seq<Space>, lo: nat): nat { if s == [] then lo else s[|s| - 1].lastLBA + 1 }

  /** The spaces abut, from lo to hi, without overlap or hole. */
  predicate Tiling(s: seq<Space>, lo: nat, hi: nat) {
    Abut(s, lo) && EndOf(s, lo) == hi + 1
  }

  /** Each space begins where the one before it ends, the first at lo. */
  predicate Abut(s: seq<Space>, lo: nat) {
    && (forall i :: 0 <= i < |s| ==> s[i].firstLBA <= s[i].lastLBA)
    && (|s| > 0 ==> s[0].firstLBA == lo)
    && (forall i {:trigger s[i].lastLBA} :: 0 <= i < |s| - 1 ==> s[i].lastLBA + 1 == s[i + 1].firstLBA)
  }

  predicate NoTwoGaps(s: seq<Space>) {
    forall i {:trigger s[i].partNum} :: 0 <= i < |s| - 1 ==> s[i].partNum >= 0 || s[i + 1].partNum >= 0
  }

  /** The partitions of a list, in its order. */
  function Parts(s: seq<Space>): seq<Space> {
    if s == [] then [] else if s[|s| - 1].partNum >= 0 then Parts(s[..|s| - 1]) + [s[|s| - 1]] else Parts(s[..|s| - 1])
  }

  /** A list of partitions only, in lo..hi, no two sharing a sector. */
  predicate Partitions(s: seq<Space>, lo: nat, hi: nat) {
    && (forall i :: 0 <= i < |s| ==> s[i].partNum >= 0 && lo <= s[i].firstLBA <= s[i].lastLBA <= hi)
    && (forall i, j :: 0 <= i < |s| && 0 <= j < |s| && s[i] != s[j] ==>
          s[i].lastLBA < s[j].firstLBA || s[j].lastLBA < s[i].firstLBA)
  }

  predicate OnlyParts(s: seq<Space>) { forall i :: 0 <= i < |s| ==> s[i].partNum >= 0 }

  /** Sorting disjoint partitions puts them one after the other. */
  lemma SortedSeparate(s: seq<Space>, from: seq<Space>, lo: nat, hi: nat)
    requires Ascending(s) && Chain(s) && multiset(s) == multiset(from) && Partitions(from, lo, hi)
    ensures Separate(s, lo, hi) && OnlyParts(s)
    ensures |s| == |from| && forall i :: 0 <= i < |s| ==> s[i] in from
  {
    assert |multiset(s)| == |s| && |multiset(from)| == |from|;
    forall i | 0 <= i < |s|
      ensures s[i] in from
    {
      assert s[i] in multiset(s);
    }
  }

  lemma WholeGap(gap: Space, lo: nat, hi: nat)
    requires IsGap(gap, lo, hi) && lo <= hi
    ensures Tiling([gap], lo, hi) && NoTwoGaps([gap]) && Parts([gap]) == []
  {
    assert Parts([gap][..0]) == [];
  }

  /** The state of the walk: a tiled part behind, then either partitions only, or the one gap
      that ends the disk. */
  predicate Walk(front: seq<Space>, rest: seq<Space>, sorted: seq<Space>, lo: nat, hi: nat) {
    && Abut(front, lo) && NoTwoGaps(front)
    && (front != [] && rest != [] ==> front[|front| - 1].partNum >= 0)
    && (OnlyParts(rest) || (|rest| == 1 && IsGap(rest[0], EndOf(front, lo), hi)))
    && (rest == [] ==> EndOf(front, lo) == hi + 1)
    && Parts(front) + Parts(rest) == sorted
  }

  lemma {:induction false} PartsConcat(a: seq<Space>, b: seq<Space>)
    ensures Parts(a + b) == Parts(a) + Parts(b)
    decreases |b|
  {
    if b == [] {
      assert a + b == a;
    } else {
      assert (a + b)[..|a + b| - 1] == a + b[..|b| - 1];
      PartsConcat(a, b[..|b| - 1]);
    }
  }

  lemma {:induction false} PartsOfParts(s: seq<Space>)
    requires OnlyParts(s)
    ensures Parts(s) == s
  {
    if s != [] {
      PartsOfParts(s[..|s| - 1]);
    }
  }

  lemma PartsOfOne(x: Space)
    ensures Parts([x]) == if x.partNum >= 0 then [x] else []
  {
    assert [x][..0] == [];
  }

  lemma WalkStart(s: seq<Space>, lo: nat, hi: nat)
    requires Separate(s, lo, hi) && OnlyParts(s) && s != []
    ensures Walk([], s, s, lo, hi)
  {
    PartsOfParts(s);
  }

  lemma WalkEnd(front: seq<Space>, rest: seq<Space>, sorted: seq<Space>, lo: nat, hi: nat)
    requires Walk(front, rest, sorted, lo, hi) && rest == []
    ensures Tiling(front + rest, lo, hi) && NoTwoGaps(front + rest) && Parts(front + rest) == sorted
  {
    assert front + rest == front;
  }

  lemma SpliceMiddle(front: seq<Space>, rest: seq<Space>, gap: seq<Space>, tail: seq<Space>)
    requires rest != []
    ensures Splice(front + rest, |front|, gap) + tail == front + gap + [rest[0]] + (rest[1..] + tail)
  {}

  lemma NextInChain(s: seq<Space>, front: seq<Space>, rest: seq<Space>)
    requires Chain(s) && s == front + rest && front != []
    ensures front[|front| - 1].nextSpace == Head(rest)
  {
    assert s[|front| - 1] == front[|front| - 1];
  }

  /** Visiting the next space extends the tiled part over the gap before it and itself. */
  lemma WalkStep(front: seq<Space>, rest: seq<Space>, gap: seq<Space>, tail: seq<Space>, sorted: seq<Space>, lo: nat,
                 hi: nat)
    requires rest != [] && Walk(front, rest, sorted, lo, hi) && Separate(front + rest, lo, hi)
    requires
      var end := EndOf((front + rest)[..|front|], lo);
      if end < rest[0].firstLBA then |gap| == 1 && IsGap(gap[0], end, rest[0].firstLBA - 1) else gap == []
    requires if |rest| == 1 && rest[0].lastLBA < hi then |tail| == 1 && IsGap(tail[0], rest[0].lastLBA + 1, hi)
             else tail == []
    ensures Walk(front + gap + [rest[0]], rest[1..] + tail, sorted, lo, hi)
    ensures |Parts(rest[1..] + tail)| < |Parts(rest)|
            || (|Parts(rest[1..] + tail)| == |Parts(rest)| && |rest[1..] + tail| < |rest|)
  {
    hide Parts, Abut, NoTwoGaps, Separate;
    assert (front + rest)[..|front|] == front;
    var f, r := front + gap + [rest[0]], rest[1..] + tail;
    WalkParts(front, rest, gap, tail);
    InOrderFacts(front, rest, lo, hi);
    AbutStep(front, gap, rest[0], lo);
    assert OnlyParts(r) || (|r| == 1 && IsGap(r[0], EndOf(f, lo), hi));
  }

  lemma InOrderFacts(front: seq<Space>, rest: seq<Space>, lo: nat, hi: nat)
    requires rest != [] && Separate(front + rest, lo, hi)
    ensures EndOf(front, lo) <= rest[0].firstLBA <= rest[0].lastLBA <= hi
    ensures |rest| > 1 ==> rest[0].lastLBA < hi
  {
    var s, c := front + rest, |front|;
    assert s[c] == rest[0] && (c > 0 ==> s[c - 1] == front[c - 1]) && (|rest| > 1 ==> s[c + 1] == rest[1]);
  }

  /** A space, and the gap before it if there is one, continue a tiling. */
  lemma AbutStep(front: seq<Space>, gap: seq<Space>, x: Space, lo: nat)
    requires Abut(front, lo) && NoTwoGaps(front) && EndOf(front, lo) <= x.firstLBA <= x.lastLBA
    requires front != [] ==> front[|front| - 1].partNum >= 0
    requires
      var end := EndOf(front, lo);
      if end < x.firstLBA then |gap| == 1 && IsGap(gap[0], end, x.firstLBA - 1) else gap == []
    requires x.partNum >= 0 || gap == []
    ensures Abut(front + gap + [x], lo) && NoTwoGaps(front + gap + [x])
  {
    hide Abut, NoTwoGaps;
    AppendSpace(front, x, lo);
    if gap != [] {
      AppendSpace(front, gap[0], lo);
      assert gap == [gap[0]];
      AppendSpace(front + gap, x, lo);
    } else {
      assert front + gap == front;
    }
  }

  lemma AppendSpace(s: seq<Space>, x: Space, lo: nat)
    requires Abut(s, lo) && NoTwoGaps(s)
    ensures x.firstLBA == EndOf(s, lo) <= x.lastLBA ==> Abut(s + [x], lo)
    ensures s == [] || s[|s| - 1].partNum >= 0 || x.partNum >= 0 ==> NoTwoGaps(s + [x])
  {
    var t := s + [x];
    assert forall i :: 0 <= i < |s| ==> t[i] == s[i];
  }

  lemma WalkParts(front: seq<Space>, rest: seq<Space>, gap: seq<Space>, tail: seq<Space>)
    requires rest != [] && (gap == [] || (|gap| == 1 && gap[0].partNum < 0))
    requires (tail == [] || (|tail| == 1 && tail[0].partNum < 0))
    ensures
      var f, r := front + gap + [rest[0]], rest[1..] + tail;
      && Parts(f) + Parts(r) == Parts(front) + Parts(rest)
      && Parts(rest) == (if rest[0].partNum >= 0 then [rest[0]] else []) + Parts(r)
  {
    hide Parts;
    PartsOfGap(gap);
    PartsOfGap(tail);
    PartsOfOne(rest[0]);
    PartsConcat(front + gap, [rest[0]]);
    PartsConcat(front, gap);
    PartsConcat(rest[1..], tail);
    PartsConcat([rest[0]], rest[1..]);
    assert rest == [rest[0]] + rest[1..];
  }

  lemma PartsOfGap(gap: seq<Space>)
    requires gap == [] || (|gap| == 1 && gap[0].partNum < 0)
    ensures Parts(gap) == []
  {
    if gap != [] {
      PartsOfOne(gap[0]);
      assert gap == [gap[0]];
    }
  }

  /** The space at c begins no earlier than the ones before it end. */
  lemma FirstInRange(s: seq<Space>, c: nat, lo: nat, hi: nat)
    requires Separate(s, lo, hi) && c < |s|
    ensures EndOf(s[..c], lo) <= s[c].firstLBA
  {}
}
