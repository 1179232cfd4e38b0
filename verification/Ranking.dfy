/**
 Sorting by a rank, and the k lowest-ranked elements of a set as brute force would find
 them. The routing table and the crawl rank nodes by their distance to a target.
 */
module Ranking {
  import opened Collections

  ghost predicate Ranked<T>(s: seq<T>, rank: T -> int) {
    forall i, j :: 0 <= i < j < |s| ==> rank(s[i]) <= rank(s[j])
  }

  /** No two elements have the same rank. */
  ghost predicate Separates<T(!new)>(u: set<T>, rank: T -> int) {
    forall x, y :: x in u && y in u && rank(x) == rank(y) ==> x == y
  }

  // --------------------------------------------------------------- sorting

  /** Put x behind every element of no higher rank, as a stable sort does with a newcomer at the end. */
  function Insert<T>(s: seq<T>, x: T, rank: T -> int): (r: seq<T>)
    ensures |r| == |s| + 1
  {
    if s == [] || rank(x) < rank(s[0]) then [x] + s
    else [s[0]] + Insert(s[1..], x, rank)
  }

  /** sorted(s, key=rank). */
  function Sort<T>(s: seq<T>, rank: T -> int): (r: seq<T>)
    ensures |r| == |s|
  {
    if s == [] then [] else Insert(Sort(s[..|s| - 1], rank), s[|s| - 1], rank)
  }

  lemma {:induction false} InsertElements<T>(s: seq<T>, x: T, rank: T -> int)
    ensures Elements(Insert(s, x, rank)) == Elements(s) + {x}
    ensures NoDuplicates(s) && x !in s ==> NoDuplicates(Insert(s, x, rank))
  {
    if s == [] || rank(x) < rank(s[0]) {
    } else {
      var rest := Insert(s[1..], x, rank);
      InsertElements(s[1..], x, rank);
      HeadElements(s);
      HeadElements([s[0]] + rest);
      if NoDuplicates(s) && x !in s {
        assert s == [s[0]] + s[1..];
        assert s[0] !in Elements(s[1..]) + {x};
        JoinDistinct([s[0]], rest);
      }
    }
  }

  lemma {:induction false} InsertRanked<T>(s: seq<T>, x: T, rank: T -> int)
    requires Ranked(s, rank)
    ensures Ranked(Insert(s, x, rank), rank)
  {
    if s != [] && rank(x) >= rank(s[0]) {
      var rest := Insert(s[1..], x, rank);
      InsertRanked(s[1..], x, rank);
      InsertElements(s[1..], x, rank);
      forall y | y in rest ensures rank(s[0]) <= rank(y) {
        assert y in Elements(rest);
        assert y in Elements(s[1..]) || y == x;
      }
    }
  }

  lemma {:induction false} SortCorrect<T>(s: seq<T>, rank: T -> int)
    ensures Ranked(Sort(s, rank), rank) && Elements(Sort(s, rank)) == Elements(s)
    ensures NoDuplicates(s) ==> NoDuplicates(Sort(s, rank))
  {
    if s != [] {
      var init, x := s[..|s| - 1], s[|s| - 1];
      assert s == init + [x];
      SortCorrect(init, rank);
      InsertRanked(Sort(init, rank), x, rank);
      InsertElements(Sort(init, rank), x, rank);
      assert forall y :: y in Sort(init, rank) <==> y in Elements(Sort(init, rank));
      assert forall y :: y in init <==> y in Elements(init);
    }
  }

  /** Sorting a sorted list with a newcomer at the end inserts the newcomer. */
  lemma SortSnoc<T>(s: seq<T>, x: T, rank: T -> int)
    requires Ranked(s, rank)
    ensures Sort(s + [x], rank) == Insert(s, x, rank)
  {
    assert (s + [x])[..|s|] == s;
    SortSorted(s, rank);
  }

  lemma {:induction false} SortSorted<T>(s: seq<T>, rank: T -> int)
    requires Ranked(s, rank)
    ensures Sort(s, rank) == s
  {
    hide Insert;
    if s != [] {
      var init, x := s[..|s| - 1], s[|s| - 1];
      SortSorted(init, rank);
      InsertLast(init, x, rank);
      assert s == init + [x];
    }
  }

  lemma {:induction false} InsertLast<T>(s: seq<T>, x: T, rank: T -> int)
    requires forall y :: y in s ==> rank(y) <= rank(x)
    ensures Insert(s, x, rank) == s + [x]
  {
    if s != [] {
      InsertLast(s[1..], x, rank);
      assert s == [s[0]] + s[1..];
    }
  }

  // ------------------------------------------- the brute-force reference

  ghost predicate IsLowest<T>(u: set<T>, rank: T -> int, x: T) {
    x in u && forall y :: y in u ==> rank(x) <= rank(y)
  }

  lemma {:induction false} LowestExists<T>(u: set<T>, rank: T -> int)
    requires u != {}
    ensures exists x :: IsLowest(u, rank, x)
    decreases u
  {
    var x :| x in u;
    var rest := u - {x};
    assert u == rest + {x};
    if rest == {} {
      assert IsLowest(u, rank, x);
    } else {
      LowestExists(rest, rank);
      var y :| IsLowest(rest, rank, y);
      assert IsLowest(u, rank, if rank(x) < rank(y) then x else y);
    }
  }

  ghost function Lowest<T>(u: set<T>, rank: T -> int): (x: T)
    requires u != {}
    ensures IsLowest(u, rank, x)
  {
    LowestExists(u, rank);
    var x :| IsLowest(u, rank, x);
    x
  }

  /** The k lowest-ranked elements of u, lowest first, found one by one. */
  ghost function Nearest<T>(u: set<T>, rank: T -> int, k: nat): (r: seq<T>) {
    if k == 0 || u == {} then []
    else [Lowest(u, rank)] + Nearest(u - {Lowest(u, rank)}, rank, k - 1)
  }

  /** s[:k]. */
  function Cut<T>(s: seq<T>, k: nat): (r: seq<T>) {
    if |s| <= k then s else s[..k]
  }

  lemma NearestStep<T(!new)>(u: set<T>, rank: T -> int, k: nat, x: T)
    requires Separates(u, rank) && k > 0 && IsLowest(u, rank, x)
    ensures Nearest(u, rank, k) == [x] + Nearest(u - {x}, rank, k - 1)
  {
    assert x == Lowest(u, rank);
  }

  lemma TailKeeps<T>(s: seq<T>, rank: T -> int)
    requires Ranked(s, rank) && NoDuplicates(s) && s != []
    ensures Ranked(s[1..], rank) && NoDuplicates(s[1..])
    ensures Elements(s[1..]) == Elements(s) - {s[0]}
    ensures IsLowest(Elements(s), rank, s[0])
  {
    assert s == [s[0]] + s[1..];
  }

  lemma CutTail<T>(s: seq<T>, k: nat)
    requires k > 0 && s != []
    ensures Cut(s, k) == [s[0]] + Cut(s[1..], k - 1)
  {
  }

  /** A sorted list, cut at k, is what brute force finds. */
  lemma {:induction false} SortedIsNearest<T(!new)>(s: seq<T>, rank: T -> int, k: nat)
    requires Ranked(s, rank) && NoDuplicates(s) && Separates(Elements(s), rank)
    ensures Cut(s, k) == Nearest(Elements(s), rank, k)
    decreases k
  {
    if s == [] {
      assert Elements(s) == {};
    } else if k > 0 {
      TailKeeps(s, rank);
      NearestStep(Elements(s), rank, k, s[0]);
      SortedIsNearest(s[1..], rank, k - 1);
      CutTail(s, k);
    }
  }

  /** Every element of v ranks below every element of u outside v. */
  ghost predicate Below<T(!new)>(u: set<T>, v: set<T>, rank: T -> int) {
    forall x, y :: x in v && y in u && y !in v ==> rank(x) < rank(y)
  }

  /** Enough elements that rank below all the others are all that matters. */
  lemma {:induction false} NearestOfBelow<T(!new)>(u: set<T>, v: set<T>, rank: T -> int, k: nat)
    requires v <= u && Separates(u, rank) && k <= |v| && Below(u, v, rank)
    ensures Nearest(u, rank, k) == Nearest(v, rank, k)
    decreases k
  {
    if k > 0 {
      var x := Lowest(v, rank);
      assert IsLowest(u, rank, x);
      NearestStep(u, rank, k, x);
      NearestStep(v, rank, k, x);
      assert |v - {x}| == |v| - 1;
      NearestOfBelow(u - {x}, v - {x}, rank, k - 1);
    }
  }

  lemma {:induction false} NearestMembers<T>(u: set<T>, rank: T -> int, k: nat)
    ensures Elements(Nearest(u, rank, k)) <= u
    decreases k
  {
    if k > 0 && u != {} {
      var x := Lowest(u, rank);
      NearestMembers(u - {x}, rank, k - 1);
      ElementsJoin([x], Nearest(u - {x}, rank, k - 1));
    }
  }

  /** The k lowest lie in every part that is large enough and ranks below the rest. */
  lemma NearestInPart<T(!new)>(u: set<T>, v: set<T>, rank: T -> int, k: nat)
    requires v <= u && Separates(u, rank) && (v == u || (k <= |v| && Below(u, v, rank)))
    ensures Elements(Nearest(u, rank, k)) <= v
  {
    NearestMembers(v, rank, k);
    if v != u { NearestOfBelow(u, v, rank, k); }
  }

  /** A part of u that holds the k lowest of u has the same k lowest. */
  lemma {:induction false} NearestThinned<T(!new)>(u: set<T>, v: set<T>, rank: T -> int, k: nat)
    requires v <= u && Separates(u, rank) && forall x :: x in Nearest(u, rank, k) ==> x in v
    ensures Nearest(v, rank, k) == Nearest(u, rank, k)
    decreases k
  {
    if k > 0 && u != {} {
      var x := Lowest(u, rank);
      var rest := Nearest(u - {x}, rank, k - 1);
      assert Nearest(u, rank, k) == [x] + rest;
      NearestMembers(u - {x}, rank, k - 1);
      forall y | y in rest ensures y in v - {x} {
        assert y in Elements(rest) && y in [x] + rest;
      }
      assert x in [x] + rest && IsLowest(v, rank, x);
      NearestStep(v, rank, k, x);
      NearestThinned(u - {x}, v - {x}, rank, k - 1);
    }
  }

  /** With room for everything, the answer holds every element. */
  lemma {:induction false} NearestAll<T>(u: set<T>, rank: T -> int, k: nat)
    requires |u| <= k
    ensures Elements(Nearest(u, rank, k)) == u
    decreases k
  {
    if u != {} {
      var x := Lowest(u, rank);
      NearestAll(u - {x}, rank, k - 1);
      ElementsJoin([x], Nearest(u - {x}, rank, k - 1));
      assert Elements([x]) == {x};
    }
  }

  // ------------------------------------------------------- with equal ranks

  /** The k elements of u that rank lowest: no other element ranks lower than any of them. */
  ghost predicate AreNearest<T(!new)>(s: seq<T>, u: set<T>, rank: T -> int, k: nat) {
    && Ranked(s, rank) && NoDuplicates(s) && Elements(s) <= u && |s| == Min(k, |u|)
    && forall x, y :: x in s && y in u && y !in s ==> rank(x) <= rank(y)
  }

  /** Fewer than j + 1 elements rank below the one in place j. */
  lemma FewBelow<T(!new)>(s: seq<T>, u: set<T>, rank: T -> int, k: nat, j: nat, below: set<T>)
    requires AreNearest(s, u, rank, k) && j < |s| && below <= u && forall x :: x in below ==> rank(x) < rank(s[j])
    ensures |below| <= j
  {
    forall x | x in below ensures x in Elements(s[..j]) {
      assert s[j] in s && x in s;
      var i :| 0 <= i < |s| && s[i] == x;
      assert s[..j][i] == x;
    }
    DistinctCount(s[..j]);
    SubsetSize(below, Elements(s[..j]));
  }

  /** Elements that rank alike may be exchanged, but the ranks are determined. */
  lemma NearestRanks<T(!new)>(s: seq<T>, s': seq<T>, u: set<T>, rank: T -> int, k: nat)
    requires AreNearest(s, u, rank, k) && AreNearest(s', u, rank, k)
    ensures |s'| == |s| && forall i :: 0 <= i < |s| ==> rank(s[i]) == rank(s'[i])
  {
    forall i | 0 <= i < |s| ensures rank(s[i]) == rank(s'[i]) {
      NotLower(s, s', u, rank, k, i);
      NotLower(s', s, u, rank, k, i);
    }
  }

  lemma NotLower<T(!new)>(s: seq<T>, s': seq<T>, u: set<T>, rank: T -> int, k: nat, i: nat)
    requires AreNearest(s, u, rank, k) && AreNearest(s', u, rank, k) && i < |s|
    ensures |s'| == |s| && rank(s[i]) >= rank(s'[i])
  {
    if rank(s[i]) < rank(s'[i]) {
      DistinctCount(s[..i + 1]);
      assert forall x :: x in s[..i + 1] ==> x in Elements(s);
      FewBelow(s', u, rank, k, i, Elements(s[..i + 1]));
    }
  }

  /** The first place with the rank of place j. */
  lemma FirstOfRank<T>(s: seq<T>, rank: T -> int, j: nat) returns (i: nat)
    requires Ranked(s, rank) && j < |s|
    ensures i <= j && rank(s[i]) == rank(s[j]) && forall m :: 0 <= m < i ==> rank(s[m]) < rank(s[j])
  {
    i := j;
    while i > 0 && rank(s[i - 1]) == rank(s[j])
      invariant 0 <= i <= j && rank(s[i]) == rank(s[j])
    {
      i := i - 1;
    }
  }

  lemma PrefixBelow<T>(c: seq<T>, s: seq<T>, u: set<T>, rank: T -> int, i: nat, j: nat)
    requires NoDuplicates(c) && Elements(c) <= u && |c| == |s| && i <= j < |s|
    requires forall m :: 0 <= m < i ==> rank(c[m]) < rank(s[j])
    ensures |Elements(c[..i])| == i && Elements(c[..i]) <= u && c[j] !in c[..i] && forall y :: y in c[..i] ==> y in c
    ensures forall y :: y in Elements(c[..i]) ==> rank(y) < rank(s[j])
  {
    DistinctCount(c[..i]);
    forall y | y in c[..i] ensures y in c && y != c[j] && rank(y) < rank(s[j]) {
      var m :| 0 <= m < i && c[..i][m] == y;
      assert c[m] == y;
    }
  }

  /** Beside a list that ranks place by place no higher than the nearest, nothing ranks below them. */
  lemma NoneBelow<T(!new)>(c: seq<T>, s: seq<T>, u: set<T>, rank: T -> int, k: nat, j: nat, x: T)
    requires AreNearest(s, u, rank, k) && NoDuplicates(c) && Elements(c) <= u && |c| == |s| && j < |s|
    requires forall i :: 0 <= i < |s| ==> rank(c[i]) <= rank(s[i])
    requires x in u && (x !in c || x == c[j])
    ensures rank(x) >= rank(s[j])
  {
    var i := FirstOfRank(s, rank, j);
    PrefixBelow(c, s, u, rank, i, j);
    ElementsAre(c[..i], x);
    hide AreNearest, NoDuplicates, Elements;
    var below := Elements(c[..i]) + {x};
    assert |below| == i + 1;
    if rank(x) < rank(s[j]) {
      FewBelow(s, u, rank, k, i, below);
    }
  }

  lemma ElementsAre<T>(s: seq<T>, x: T)
    ensures x in Elements(s) <==> x in s
  {
  }

  /** Such a list is one of the nearest itself. */
  lemma PointwiseNearest<T(!new)>(c: seq<T>, s: seq<T>, u: set<T>, rank: T -> int, k: nat)
    requires AreNearest(s, u, rank, k) && NoDuplicates(c) && Elements(c) <= u && |c| == |s|
    requires forall i :: 0 <= i < |s| ==> rank(c[i]) <= rank(s[i])
    ensures AreNearest(c, u, rank, k) && forall i :: 0 <= i < |s| ==> rank(c[i]) == rank(s[i])
  {
    forall i | 0 <= i < |s| ensures rank(c[i]) == rank(s[i]) {
      assert c[i] in Elements(c);
      NoneBelow(c, s, u, rank, k, i, c[i]);
    }
    forall x, y | x in c && y in u && y !in c ensures rank(x) <= rank(y) {
      var i :| 0 <= i < |c| && c[i] == x;
      NoneBelow(c, s, u, rank, k, i, y);
    }
  }

  /** The nearest of u stay the nearest of a part of u that holds them, also when others get farther. */
  lemma SmallerUniverse<T(!new)>(s: seq<T>, u: set<T>, v: set<T>, rank: T -> int, farther: T -> int, k: nat)
    requires AreNearest(s, u, rank, k) && v <= u && Elements(s) <= v
    requires forall x :: x in s ==> farther(x) == rank(x)
    requires forall x :: x in v ==> farther(x) >= rank(x)
    ensures AreNearest(s, v, farther, k)
  {
    DistinctCount(s);
    SubsetSize(Elements(s), v);
    SubsetSize(v, u);
    assert forall i :: 0 <= i < |s| ==> s[i] in s;
  }

  /** A sorted list, cut at k, has the nearest of its elements. */
  lemma SortedAreNearest<T(!new)>(s: seq<T>, rank: T -> int, k: nat)
    requires Ranked(s, rank) && NoDuplicates(s)
    ensures AreNearest(Cut(s, k), Elements(s), rank, k)
  {
    DistinctCount(s);
    CutKeeps(s, rank, k);
    hide Ranked, NoDuplicates, Cut;
    forall x, y | x in Cut(s, k) && y in s && y !in Cut(s, k) ensures rank(x) <= rank(y) { CutBelow(s, rank, k, x, y); }
  }

  lemma CutKeeps<T>(s: seq<T>, rank: T -> int, k: nat)
    requires Ranked(s, rank) && NoDuplicates(s)
    ensures var c := Cut(s, k);
            Ranked(c, rank) && NoDuplicates(c) && Elements(c) <= Elements(s) && |c| == Min(k, |s|)
  {
  }

  /** In a sorted list, what is in the cut ranks no higher than what is behind it. */
  lemma CutBelow<T>(s: seq<T>, rank: T -> int, k: nat, x: T, y: T)
    requires Ranked(s, rank) && x in Cut(s, k) && y in s && y !in Cut(s, k)
    ensures rank(x) <= rank(y)
  {
    var c := Cut(s, k);
    var i :| 0 <= i < |c| && c[i] == x;
    var j :| 0 <= j < |s| && s[j] == y;
    assert forall m :: 0 <= m < |c| ==> c[m] == s[m] && c[m] in c;
  }

  /** So has what brute force finds. */
  lemma {:induction false} NearestAreNearest<T(!new)>(u: set<T>, rank: T -> int, k: nat)
    ensures AreNearest(Nearest(u, rank, k), u, rank, k)
    decreases k
  {
    if k > 0 && u != {} {
      var x := Lowest(u, rank);
      NearestAreNearest(u - {x}, rank, k - 1);
      LowestFirst(u, rank, k, x, Nearest(u - {x}, rank, k - 1));
    }
  }

  lemma LowestFirst<T(!new)>(u: set<T>, rank: T -> int, k: nat, x: T, rest: seq<T>)
    requires k > 0 && IsLowest(u, rank, x) && AreNearest(rest, u - {x}, rank, k - 1)
    ensures AreNearest([x] + rest, u, rank, k)
  {
    var s := [x] + rest;
    assert |u - {x}| == |u| - 1;
    assert forall y :: y in rest ==> y in Elements(rest);
    JoinDistinct([x], rest);
    forall y | y in s ensures y in u && rank(x) <= rank(y) { assert y == x || y in rest; }
    assert forall y :: y !in s ==> y != x && y !in rest;
  }
}
