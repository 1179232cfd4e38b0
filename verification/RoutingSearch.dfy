/**
 The search for the nodes nearest to a target: what the widening search of the table
 collects, and why it may stop early.
 */
module RoutingSearch {
  import opened BitStrings
  import opened Collections
  import opened Ranking
  import opened RoutingSpec
  import opened RoutingRuns

  /** The sort key of closest_nodes. Ids differ, so the status that breaks ties is never consulted. */
  function DistanceTo(target: NodeId): (rank: Node -> int) {
    (n: Node) => Distance(n.id, target)
  }

  predicate Candidate(n: Node, exclude: Option<NodeId>) {
    !Bad(n) && (exclude.None? || n.id != exclude.value)
  }

  /** Every node of the table that a search may return. */
  ghost function Candidates(t: Table, exclude: Option<NodeId>): (s: set<Node>) {
    set n | n in AllNodes(t) && Candidate(n, exclude)
  }

  /** The candidates whose id starts with q. */
  ghost function Level(t: Table, exclude: Option<NodeId>, q: string): (s: set<Node>) {
    set n | n in Candidates(t, exclude) && Owns(q, n.id)
  }

  ghost predicate DistinctKeys(s: seq<Node>) {
    forall i, j :: 0 <= i < j < |s| ==> s[i].key != s[j].key
  }

  predicate HasKey(found: seq<Node>, key: Bytes) {
    exists i :: 0 <= i < |found| && found[i].key == key
  }

  // ------------------------------------------------------------ collecting

  /** nodes |= {candidates of one bucket}: a Python set of nodes that compare by public key. */
  function CollectNew(found: seq<Node>, nodes: seq<Node>, exclude: Option<NodeId>): (r: seq<Node>)
    decreases nodes
  {
    if nodes == [] then found
    else if Candidate(nodes[0], exclude) && !HasKey(found, nodes[0].key) then
      CollectNew(found + [nodes[0]], nodes[1..], exclude)
    else CollectNew(found, nodes[1..], exclude)
  }

  /** A candidate that comes before every other candidate of its key. */
  ghost predicate Foremost(order: seq<Node>, exclude: Option<NodeId>, n: Node) {
    exists i :: 0 <= i < |order| && order[i] == n && FirstAt(order, exclude, i)
  }

  ghost predicate FirstAt(order: seq<Node>, exclude: Option<NodeId>, i: nat)
    requires i < |order|
  {
    && Candidate(order[i], exclude)
    && forall j :: 0 <= j < i && Candidate(order[j], exclude) ==> order[j].key != order[i].key
  }

  lemma {:induction false} CollectJoin(found: seq<Node>, a: seq<Node>, b: seq<Node>, exclude: Option<NodeId>)
    ensures CollectNew(found, a + b, exclude) == CollectNew(CollectNew(found, a, exclude), b, exclude)
    decreases a
  {
    hide Candidate, HasKey;
    if a == [] {
      assert a + b == b;
    } else {
      assert (a + b)[1..] == a[1..] + b;
      var take := Candidate(a[0], exclude) && !HasKey(found, a[0].key);
      CollectJoin(if take then found + [a[0]] else found, a[1..], b, exclude);
    }
  }

  /** The list holds, with distinct keys, exactly the foremost candidates, and so every key among the candidates. */
  ghost predicate Holds(found: seq<Node>, order: seq<Node>, exclude: Option<NodeId>) {
    && DistinctKeys(found)
    && (forall n :: n in found <==> Foremost(order, exclude, n))
    && forall n :: n in order && Candidate(n, exclude) ==> HasKey(found, n.key)
  }

  lemma CollectOne(found: seq<Node>, n: Node, exclude: Option<NodeId>)
    ensures CollectNew(found, [n], exclude) ==
            if Candidate(n, exclude) && !HasKey(found, n.key) then found + [n] else found
  {
    assert [n][1..] == [];
  }

  /** What is collected from an order of visits: the first candidate of each key. */
  lemma {:induction false} CollectHolds(order: seq<Node>, exclude: Option<NodeId>)
    ensures Holds(CollectNew([], order, exclude), order, exclude)
    decreases |order|
  {
    if order != [] {
      var m := |order| - 1;
      var init, n := order[..m], order[m];
      assert order == init + [n];
      CollectHolds(init, exclude);
      CollectJoin([], init, [n], exclude);
      CollectOne(CollectNew([], init, exclude), n, exclude);
      HoldsNext(CollectNew([], init, exclude), init, n, exclude);
    }
  }

  lemma HoldsNext(found: seq<Node>, order: seq<Node>, n: Node, exclude: Option<NodeId>)
    requires Holds(found, order, exclude)
    ensures Holds(if Candidate(n, exclude) && !HasKey(found, n.key) then found + [n] else found, order + [n], exclude)
  {
    var take := Candidate(n, exclude) && !HasKey(found, n.key);
    var r := if take then found + [n] else found;
    hide Candidate;
    forall m ensures Foremost(order + [n], exclude, m) <==> Foremost(order, exclude, m) || (take && m == n) {
      ForemostNext(found, order, n, exclude, m);
    }
    hide Foremost;
    forall m | m in order + [n] && Candidate(m, exclude) ensures HasKey(r, m.key) {
      if HasKey(found, m.key) {
        var i :| 0 <= i < |found| && found[i].key == m.key;
        assert r[i].key == m.key;
      } else {
        assert m == n && r[|found|] == n;
      }
    }
  }

  lemma ForemostNext(found: seq<Node>, order: seq<Node>, n: Node, exclude: Option<NodeId>, m: Node)
    requires Holds(found, order, exclude)
    ensures Foremost(order + [n], exclude, m) <==>
            Foremost(order, exclude, m) || (Candidate(n, exclude) && !HasKey(found, n.key) && m == n)
  {
    var more := order + [n];
    hide Candidate;
    forall i | 0 <= i < |order| ensures FirstAt(more, exclude, i) <==> FirstAt(order, exclude, i) {
      assert forall j :: 0 <= j <= i ==> more[j] == order[j];
    }
    if Foremost(order, exclude, m) {
      var i :| 0 <= i < |order| && order[i] == m && FirstAt(order, exclude, i);
      assert more[i] == m && FirstAt(more, exclude, i);
    }
    if HasKey(found, n.key) {
      var i :| 0 <= i < |found| && found[i].key == n.key;
      assert found[i] in found && Foremost(order, exclude, found[i]);
      var j :| 0 <= j < |order| && order[j] == found[i] && FirstAt(order, exclude, j);
      assert more[j].key == n.key;
    } else if Candidate(n, exclude) {
      forall j | 0 <= j < |order| && Candidate(more[j], exclude) ensures more[j].key != n.key {
        assert order[j] in order;
      }
      assert FirstAt(more, exclude, |order|);
    }
  }

  // ------------------------------------------------------- the order of visits

  /** The nodes of the buckets whose prefix starts with q. */
  ghost function Under(t: Table, q: string): (s: set<Node>) {
    set p, n | p in t && q <= p && n in t[p] :: n
  }

  /** m sits in a deeper level around the prefix `own` than n. */
  ghost predicate Deeper(t: Table, own: string, m: Node, n: Node) {
    exists l :: 0 <= l <= |own| && m in Under(t, own[..l]) && n !in Under(t, own[..l])
  }

  ghost predicate SitsAt(t: Table, n: Node, p: string, a: nat) {
    p in t && a < |t[p]| && t[p][a] == n
  }

  /** m sits in a bucket that is listed before that of n, or before n in the same bucket. */
  ghost predicate Earlier(t: Table, m: Node, n: Node) {
    exists p, a: nat, q, b: nat :: SitsAt(t, m, p, a) && SitsAt(t, n, q, b) && (LexLess(p, q) || (p == q && a < b))
  }

  /** A search around `own` visits m before n: in a deeper level, or in the same level and earlier. */
  ghost predicate Ahead(t: Table, own: string, m: Node, n: Node) {
    Deeper(t, own, m, n) || (!Deeper(t, own, n, m) && Earlier(t, m, n))
  }

  /** Of two nodes of a table one is ahead. */
  lemma AheadTotal(t: Table, own: string, m: Node, n: Node)
    requires m in AllNodes(t) && n in AllNodes(t) && m != n
    ensures Ahead(t, own, m, n) || Ahead(t, own, n, m)
  {
    var p :| p in t && m in t[p];
    var q :| q in t && n in t[q];
    var a :| 0 <= a < |t[p]| && t[p][a] == m;
    var b :| 0 <= b < |t[q]| && t[q][b] == n;
    assert SitsAt(t, m, p, a) && SitsAt(t, n, q, b);
    LexTotal(p, q);
    assert a != b || p != q;
  }

  /** Nodes under q come before all others. */
  ghost predicate UnderFirst(order: seq<Node>, t: Table, q: string) {
    forall i :: 0 <= i < |order| && order[i] !in Under(t, q) ==> Under(t, q) <= Elements(order[..i])
  }

  /** In a level nodes come in turn. */
  ghost predicate InTurn(order: seq<Node>, t: Table, own: string) {
    forall m, i :: 0 <= i < |order| && Earlier(t, m, order[i]) && !Deeper(t, own, order[i], m) ==> m in order[..i]
  }

  /** The order of visits of the widening search. */
  ghost predicate Orderly(order: seq<Node>, t: Table, own: string) {
    InTurn(order, t, own) && forall l :: 0 <= l <= |own| ==> UnderFirst(order, t, own[..l])
  }

  lemma AheadComesFirst(order: seq<Node>, t: Table, own: string, m: Node, i: nat)
    requires Orderly(order, t, own) && i < |order| && Ahead(t, own, m, order[i])
    ensures m in order[..i]
  {
    hide Earlier;
    if Deeper(t, own, m, order[i]) {
      var l :| 0 <= l <= |own| && m in Under(t, own[..l]) && order[i] !in Under(t, own[..l]);
      assert UnderFirst(order, t, own[..l]);
      assert m in Elements(order[..i]);
    }
  }

  /** One more level: everything under the narrower prefixes has been visited already. */
  lemma WidenOrderly(order: seq<Node>, visited: seq<Node>, t: Table, own: string, i: nat)
    requires i <= |own| && order <= visited && Elements(visited) == Under(t, own[..i])
    requires forall l :: i < l <= |own| ==> UnderFirst(order, t, own[..l]) && Under(t, own[..l]) <= Elements(order)
    ensures forall l :: i <= l <= |own| ==> UnderFirst(visited, t, own[..l])
    ensures forall l :: i <= l <= |own| ==> Under(t, own[..l]) <= Elements(visited)
  {
    forall l | i <= l <= |own| ensures UnderFirst(visited, t, own[..l]) && Under(t, own[..l]) <= Elements(visited) {
      hide Under;
      forall j | 0 <= j < |visited| && visited[j] !in Under(t, own[..l])
        ensures Under(t, own[..l]) <= Elements(visited[..j])
      {
        assert visited[j] in Elements(visited);
        assert l > i;
        if j < |order| {
          assert visited[..j] == order[..j] && order[j] == visited[j];
        } else {
          assert visited[..j] == order + visited[|order|..j];
        }
      }
      if l > i { assert visited == order + visited[|order|..]; }
    }
  }

  /** Levels wider than the last one hold everything that was visited. */
  lemma OrderlyEnd(order: seq<Node>, t: Table, own: string, level: nat)
    requires level <= |own| && InTurn(order, t, own) && Elements(order) == Under(t, own[..level])
    requires forall l :: level <= l <= |own| ==> UnderFirst(order, t, own[..l])
    ensures Orderly(order, t, own)
  {
    forall l | 0 <= l < level ensures UnderFirst(order, t, own[..l]) {
      UnderShrinks(t, own[..level], own[..l]);
      assert forall i :: 0 <= i < |order| ==> order[i] in Elements(order);
    }
  }

  lemma UnderShrinks(t: Table, p: string, q: string)
    requires q <= p
    ensures Under(t, p) <= Under(t, q)
  {
  }

  /** No node has two places in a table. */
  ghost predicate OnePlace(t: Table) {
    forall p, q, a, b :: p in t && q in t && 0 <= a < |t[p]| && 0 <= b < |t[q]| && t[p][a] == t[q][b] ==>
      p == q && a == b
  }

  lemma InvOnePlace(t: Table, me: NodeId)
    requires Inv(t, me)
    ensures OnePlace(t)
  {
    forall p, q, a, b | p in t && q in t && 0 <= a < |t[p]| && 0 <= b < |t[q]| && t[p][a] == t[q][b]
      ensures p == q && a == b
    {
      if p != q { OneBucket(t, me, p, q, t[p][a]); }
      assert BucketOk(p, t[p], MAX_BUCKET_SIZE);
    }
  }

  /** Since `start`, nodes under q have been visited in turn. */
  ghost predicate InTurnSince(visited: seq<Node>, start: nat, t: Table, q: string) {
    forall m, i :: start <= i < |visited| && Earlier(t, m, visited[i]) && m in Under(t, q) ==> m in visited[..i]
  }

  /** Visiting one more bucket from its first node to its last, after all buckets under q that come before it. */
  lemma VisitBucket(visited: seq<Node>, start: nat, t: Table, q: string, p: string)
    requires OnePlace(t) && InTurnSince(visited, start, t, q) && start <= |visited| && p in t
    requires forall o :: o in t && q <= o && LexLess(o, p) ==> Elements(t[o]) <= Elements(visited)
    ensures InTurnSince(visited + t[p], start, t, q)
  {
    var more := visited + t[p];
    forall m, i | start <= i < |more| && Earlier(t, m, more[i]) && m in Under(t, q) ensures m in more[..i] {
      hide Earlier, Under, OnePlace;
      if i < |visited| {
        assert more[..i] == visited[..i];
      } else {
        var b := i - |visited|;
        EarlierVisited(visited, t, q, p, b, m);
        assert more[..i] == visited + t[p][..b];
      }
    }
  }

  lemma EarlierVisited(visited: seq<Node>, t: Table, q: string, p: string, b: nat, m: Node)
    requires OnePlace(t) && p in t && b < |t[p]| && Earlier(t, m, t[p][b]) && m in Under(t, q)
    requires forall o :: o in t && q <= o && LexLess(o, p) ==> Elements(t[o]) <= Elements(visited)
    ensures m in visited + t[p][..b]
  {
    var o, a: nat, r, d: nat :| SitsAt(t, m, o, a) && SitsAt(t, t[p][b], r, d) && (LexLess(o, r) || (o == r && a < d));
    assert t[r][d] == t[p][b];
    assert r == p && d == b;
    if LexLess(o, p) {
      var u :| u in t && q <= u && m in t[u];
      var c :| 0 <= c < |t[u]| && t[u][c] == t[o][a];
      assert u == o && m in Elements(t[o]);
    } else {
      assert t[p][..b][a] == m;
    }
  }

  /** A level visited in turn after narrower levels. */
  lemma LevelInTurn(order: seq<Node>, visited: seq<Node>, t: Table, own: string, i: nat)
    requires i <= |own| && order <= visited && Elements(visited) == Under(t, own[..i])
    requires InTurn(order, t, own) && InTurnSince(visited, |order|, t, own[..i])
    ensures InTurn(visited, t, own)
  {
    hide Earlier, Under;
    forall m, x | 0 <= x < |visited| && Earlier(t, m, visited[x]) && !Deeper(t, own, visited[x], m)
      ensures m in visited[..x]
    {
      if x < |order| {
        assert visited[x] == order[x] && visited[..x] == order[..x];
      } else {
        assert visited[x] in Elements(visited);
        assert m in Under(t, own[..i]);
      }
    }
  }

  /** The nodes that share the first bits of the target sit in the buckets below that part of its prefix. */
  lemma LevelBuckets(t: Table, me: NodeId, target: NodeId, i: nat, p: string, n: Node)
    requires Inv(t, me) && i <= |Owner(t, me, target)| && p in t && n in t[p]
    ensures Owner(t, me, target)[..i] <= p <==> Owns(Owner(t, me, target)[..i], n.id)
  {
    var own := Owner(t, me, target);
    var q := own[..i];
    OwnerUnique(t, me, target);
    var b := IdToBinaryString(n.id);
    hide IdToBinaryString;
    hide Owner;
    assert p <= b;
    assert q <= b && |p| < |q| ==> p <= q <= own;
  }

  lemma LevelIsBuckets(t: Table, me: NodeId, exclude: Option<NodeId>, target: NodeId, i: nat)
    requires Inv(t, me) && i <= |Owner(t, me, target)|
    ensures var q := Owner(t, me, target)[..i];
            forall n :: n in Level(t, exclude, q) <==> n in Under(t, q) && Candidate(n, exclude)
  {
    var q := Owner(t, me, target)[..i];
    forall p, n | p in t && n in t[p] ensures q <= p <==> Owns(q, n.id) { LevelBuckets(t, me, target, i, p, n); }
  }

  lemma CandidatesSeparate(t: Table, me: NodeId, exclude: Option<NodeId>, target: NodeId)
    requires Inv(t, me)
    ensures Separates(Candidates(t, exclude), DistanceTo(target))
  {
    forall m, n | m in Candidates(t, exclude) && n in Candidates(t, exclude)
                  && DistanceTo(target)(m) == DistanceTo(target)(n)
      ensures m == n
    {
      DistanceInjective(m.id, n.id, target);
      GetFinds(t, me, m);
      GetFinds(t, me, n);
    }
  }

  lemma LevelIsNearer(t: Table, exclude: Option<NodeId>, target: NodeId, i: nat)
    requires i <= ID_BITS
    ensures Below(Candidates(t, exclude), Level(t, exclude, IdToBinaryString(target)[..i]), DistanceTo(target))
  {
    var q := IdToBinaryString(target)[..i];
    forall m, n | m in Level(t, exclude, q) && n in Candidates(t, exclude) && n !in Level(t, exclude, q)
      ensures DistanceTo(target)(m) < DistanceTo(target)(n)
    {
      assert IdToBinaryString(m.id)[..i] == q;
      assert IdToBinaryString(n.id)[..i] != q;
      SharedPrefixIsNearer(m.id, n.id, target, i);
    }
  }

  // ---------------------------------------------------------- the answer

  ghost function KeySet(u: set<Node>): (s: set<Bytes>) {
    set n | n in u :: n.key
  }

  lemma DistinctKeyCount(found: seq<Node>)
    requires DistinctKeys(found)
    ensures |KeySet(Elements(found))| == |found| && NoDuplicates(found)
  {
    var keys := seq(|found|, i requires 0 <= i < |found| => found[i].key);
    DistinctCount(keys);
    forall n | n in found ensures n.key in keys {
      var i :| 0 <= i < |found| && found[i] == n;
      assert keys[i] == n.key;
    }
    assert Elements(keys) == KeySet(Elements(found));
  }

  /** Where the search stops: at the root, or at a level where more than k keys were found. */
  ghost predicate Stopped(t: Table, me: NodeId, exclude: Option<NodeId>, target: NodeId, k: nat,
                          level: nat, order: seq<Node>, found: seq<Node>)
    requires Inv(t, me)
  {
    && level <= |Owner(t, me, target)| && Elements(order) == Under(t, Owner(t, me, target)[..level])
    && found == CollectNew([], order, exclude) && (level == 0 || |found| > k)
  }

  /** What was found are candidates of the last level, with every key there is in it. */
  lemma FoundInLevel(t: Table, me: NodeId, exclude: Option<NodeId>, target: NodeId, k: nat,
                     level: nat, order: seq<Node>, found: seq<Node>)
    requires Inv(t, me) && Stopped(t, me, exclude, target, k, level, order, found)
    ensures Holds(found, order, exclude)
    ensures Elements(found) <= Level(t, exclude, Owner(t, me, target)[..level]) <= Elements(order)
    ensures KeySet(Elements(found)) == KeySet(Level(t, exclude, Owner(t, me, target)[..level]))
  {
    var q := Owner(t, me, target)[..level];
    CollectHolds(order, exclude);
    LevelIsBuckets(t, me, exclude, target, level);
    var lv := Level(t, exclude, q);
    hide Level, Under, Owner, Candidate, Inv;
    assert forall n :: n in Under(t, q) <==> n in order;
    forall n | n in found ensures n in lv {
      var i :| 0 <= i < |order| && order[i] == n && FirstAt(order, exclude, i);
    }
    forall n | n in lv ensures n.key in KeySet(Elements(found)) {
      var i :| 0 <= i < |found| && found[i].key == n.key;
      assert found[i] in Elements(found);
    }
  }

  /** The k nearest candidates all belong to the level at which the search stops. */
  lemma NearestInLevel(t: Table, me: NodeId, exclude: Option<NodeId>, target: NodeId, k: nat,
                       level: nat, order: seq<Node>, found: seq<Node>)
    requires Inv(t, me) && Stopped(t, me, exclude, target, k, level, order, found)
    ensures Elements(Nearest(Candidates(t, exclude), DistanceTo(target), k))
         <= Level(t, exclude, Owner(t, me, target)[..level])
  {
    hide IdToBinaryString, DistanceTo, Nearest, KeySet, CollectNew, Under, Separates, Below;
    var all, rank := Candidates(t, exclude), DistanceTo(target);
    var lv := Level(t, exclude, Owner(t, me, target)[..level]);
    CandidatesSeparate(t, me, exclude, target);
    FoundInLevel(t, me, exclude, target, k, level, order, found);
    OwnerExists(t, me, target);
    hide Owner, Inv;
    assert lv <= all && (level == 0 ==> lv == all);
    DistinctKeyCount(found);
    DistinctCount(found);
    SubsetSize(Elements(found), lv);
    assert Owner(t, me, target)[..level] == IdToBinaryString(target)[..level];
    LevelIsNearer(t, exclude, target, level);
    NearestInPart(all, lv, rank, k);
  }

  /**
   The search gives the brute-force list if and only if each of the k nearest candidates was visited before
   every other candidate of its key. Whatever was visited first, it gives as many candidates as there are keys, up to k.
   */
  lemma SearchExact(t: Table, me: NodeId, exclude: Option<NodeId>, target: NodeId, k: nat,
                    level: nat, order: seq<Node>, found: seq<Node>)
    requires Inv(t, me) && Stopped(t, me, exclude, target, k, level, order, found)
    ensures var all, rank := Candidates(t, exclude), DistanceTo(target);
            var r, nearest := Cut(Sort(found, rank), k), Nearest(all, rank, k);
            && Elements(r) <= all && DistinctKeys(r) && Ranked(r, rank) && |r| == Min(k, |KeySet(all)|)
            && r == Nearest(Elements(found), rank, k)
            && (r == nearest <==> forall n :: n in nearest ==> Foremost(order, exclude, n))
  {
    var all, rank := Candidates(t, exclude), DistanceTo(target);
    FoundInLevel(t, me, exclude, target, k, level, order, found);
    NearestInLevel(t, me, exclude, target, k, level, order, found);
    SearchSize(t, me, exclude, target, k, level, order, found);
    CandidatesSeparate(t, me, exclude, target);
    assert Elements(found) <= all;
    assert forall n :: n in found <==> Foremost(order, exclude, n);
    hide Candidates, DistanceTo, Stopped, Foremost, Level, Inv, Owner;
    DistinctKeyCount(found);
    SortDistinctKeys(found, rank, k);
    ThinnedSearch(all, found, rank, k);
  }

  /** Sorting and cutting a part of u gives the k lowest of u if and only if that part holds them. */
  lemma ThinnedSearch(u: set<Node>, found: seq<Node>, rank: Node -> int, k: nat)
    requires Elements(found) <= u && NoDuplicates(found) && Separates(u, rank)
    ensures var r := Cut(Sort(found, rank), k);
            && Elements(r) <= Elements(found) && |r| == Min(k, |found|)
            && r == Nearest(Elements(found), rank, k)
            && (r == Nearest(u, rank, k) <==> forall n :: n in Nearest(u, rank, k) ==> n in found)
  {
    var r := Cut(Sort(found, rank), k);
    SortCorrect(found, rank);
    SortedIsNearest(Sort(found, rank), rank, k);
    assert forall n :: n in r ==> n in Elements(Sort(found, rank));
    assert forall n :: n in found <==> n in Elements(found);
    hide Sort, Nearest, Ranked, Separates, NoDuplicates;
    if forall n :: n in Nearest(u, rank, k) ==> n in found {
      NearestThinned(u, Elements(found), rank, k);
    }
  }

  lemma SearchSize(t: Table, me: NodeId, exclude: Option<NodeId>, target: NodeId, k: nat,
                   level: nat, order: seq<Node>, found: seq<Node>)
    requires Inv(t, me) && Stopped(t, me, exclude, target, k, level, order, found)
    ensures Min(k, |found|) == Min(k, |KeySet(Candidates(t, exclude))|)
  {
    FoundInLevel(t, me, exclude, target, k, level, order, found);
    DistinctKeyCount(found);
    if level == 0 {
      assert Level(t, exclude, "") == Candidates(t, exclude);
    } else {
      SubsetSize(KeySet(Elements(found)), KeySet(Candidates(t, exclude)));
    }
  }

  lemma SortDistinctKeys(found: seq<Node>, rank: Node -> int, k: nat)
    requires DistinctKeys(found)
    ensures DistinctKeys(Cut(Sort(found, rank), k)) && Ranked(Cut(Sort(found, rank), k), rank)
  {
    SortCorrect(found, rank);
    var s := Sort(found, rank);
    DistinctKeyCount(found);
    forall i, j | 0 <= i < j < |s| ensures s[i].key != s[j].key {
      assert s[i] in Elements(found) && s[j] in Elements(found);
      var a :| 0 <= a < |found| && found[a] == s[i];
      var b :| 0 <= b < |found| && found[b] == s[j];
    }
  }

  // --------------------------------------------- the condition on the table

  /** Each of the nearest candidates is ahead of every other candidate of its key. */
  ghost predicate NearestAhead(t: Table, own: string, all: set<Node>, nearest: seq<Node>) {
    forall m, n :: n in nearest && m in all && m.key == n.key && m != n ==> Ahead(t, own, n, m)
  }

  /** In terms of the table: the search is exact if and only if the nearest candidates are ahead. */
  lemma AheadDecides(t: Table, me: NodeId, exclude: Option<NodeId>, target: NodeId, k: nat,
                     level: nat, order: seq<Node>, found: seq<Node>)
    requires Inv(t, me) && Stopped(t, me, exclude, target, k, level, order, found)
    requires Orderly(order, t, Owner(t, me, target))
    ensures var all, own := Candidates(t, exclude), Owner(t, me, target);
            var nearest := Nearest(all, DistanceTo(target), k);
            Cut(Sort(found, DistanceTo(target)), k) == nearest <==> NearestAhead(t, own, all, nearest)
  {
    SearchExact(t, me, exclude, target, k, level, order, found);
    FoundInLevel(t, me, exclude, target, k, level, order, found);
    NearestInLevel(t, me, exclude, target, k, level, order, found);
    var all, own := Candidates(t, exclude), Owner(t, me, target);
    var nearest := Nearest(all, DistanceTo(target), k);
    assert forall n :: n in nearest ==> n in Elements(nearest);
    OrderIsInTable(t, own[..level], order, exclude);
    OrderDecides(t, own, exclude, all, nearest, order);
  }

  lemma OrderDecides(t: Table, own: string, exclude: Option<NodeId>, all: set<Node>, nearest: seq<Node>,
                     order: seq<Node>)
    requires Orderly(order, t, own) && all <= AllNodes(t)
    requires forall n :: n in all ==> Candidate(n, exclude)
    requires forall n :: n in order && Candidate(n, exclude) ==> n in all
    requires forall n :: n in nearest ==> n in order && n in all
    ensures NearestAhead(t, own, all, nearest) <==> forall n :: n in nearest ==> Foremost(order, exclude, n)
  {
    hide Orderly, Ahead, Foremost, Candidate, AllNodes;
    if NearestAhead(t, own, all, nearest) {
      forall n | n in nearest ensures Foremost(order, exclude, n) { AheadIsForemost(t, own, exclude, order, n); }
    } else {
      var m, n :| n in nearest && m in all && m.key == n.key && m != n && !Ahead(t, own, n, m);
      AheadTotal(t, own, m, n);
      BehindIsMissed(t, own, exclude, order, m, n);
    }
  }

  lemma OrderIsInTable(t: Table, q: string, order: seq<Node>, exclude: Option<NodeId>)
    requires Elements(order) == Under(t, q)
    ensures forall n :: n in order && Candidate(n, exclude) ==> n in Candidates(t, exclude)
  {
    hide Candidate;
    forall n | n in order && Candidate(n, exclude) ensures n in Candidates(t, exclude) {
      assert n in Elements(order);
    }
  }

  lemma AheadIsForemost(t: Table, own: string, exclude: Option<NodeId>, order: seq<Node>, n: Node)
    requires Orderly(order, t, own) && n in order && Candidate(n, exclude)
    requires forall m :: m in order && Candidate(m, exclude) && m.key == n.key && m != n ==> Ahead(t, own, n, m)
    ensures Foremost(order, exclude, n)
  {
    var i := FirstVisit(order, n);
    hide Candidate, Orderly, Ahead;
    forall j | 0 <= j < i && Candidate(order[j], exclude) ensures order[j].key != n.key {
      assert order[j] in order;
      if order[j].key == n.key { AheadComesFirst(order, t, own, n, j); }
    }
    assert FirstAt(order, exclude, i);
  }

  lemma FirstVisit(order: seq<Node>, n: Node) returns (i: nat)
    requires n in order
    ensures i < |order| && order[i] == n && forall j :: 0 <= j < i ==> order[j] != n
  {
    i := 0;
    while order[i] != n
      invariant i < |order| && n in order[i..] && forall j :: 0 <= j < i ==> order[j] != n
      decreases |order| - i
    {
      assert order[i..] == [order[i]] + order[i + 1..];
      i := i + 1;
    }
  }

  lemma BehindIsMissed(t: Table, own: string, exclude: Option<NodeId>, order: seq<Node>, m: Node, n: Node)
    requires Orderly(order, t, own) && Candidate(m, exclude) && m.key == n.key && Ahead(t, own, m, n)
    ensures !Foremost(order, exclude, n)
  {
    hide Candidate, Orderly, Ahead;
    forall i | 0 <= i < |order| && order[i] == n ensures !FirstAt(order, exclude, i) {
      AheadComesFirst(order, t, own, m, i);
      var j :| 0 <= j < i && order[..i][j] == m;
      assert order[j] == m;
    }
  }

  /** Tables with a shared key are reached: one peer seen under two ids is not ahead from two nodes on. */
  lemma SharedKeyIsReached(me: NodeId, a: Node, b: Node, target: NodeId, k: nat)
    requires a.id != b.id && a.key == b.key && !Bad(a) && !Bad(b) && k >= 2
    ensures var t := Run(me, [AddNode(a), AddNode(b)]);
            var all := Candidates(t, None);
            all == {a, b} && !NearestAhead(t, Owner(t, me, target), all, Nearest(all, DistanceTo(target), k))
  {
    hide Run, Inv, Owner, Nearest, Candidates, NearestAhead, DistanceTo;
    var t := Run(me, [AddNode(a), AddNode(b)]);
    TwoAdds(me, a, b);
    TwoCandidates(t, a, b);
    BothNearest(t, Owner(t, me, target), a, b, DistanceTo(target), k);
  }

  lemma BothNearest(t: Table, own: string, a: Node, b: Node, rank: Node -> int, k: nat)
    requires t == map["" := [a, b]] && a != b && a.key == b.key && k >= 2
    ensures !NearestAhead(t, own, {a, b}, Nearest({a, b}, rank, k))
  {
    NearestAll({a, b}, rank, k);
    var nearest := Nearest({a, b}, rank, k);
    assert a in Elements(nearest) && b in Elements(nearest);
    hide Nearest, Elements;
    assert !Ahead(t, own, b, a) by {
      assert t[""][0] == a && t[""][1] == b;
      forall q ensures a in Under(t, q) <==> b in Under(t, q) {
        assert a in t[""] && b in t[""];
        assert a in Under(t, q) <==> q <= "";
      }
    }
  }

  lemma TwoCandidates(t: Table, a: Node, b: Node)
    requires t == map["" := [a, b]] && !Bad(a) && !Bad(b)
    ensures Candidates(t, None) == {a, b}
  {
    var nodes := [a, b];
    assert "" in t && t[""] == nodes && nodes[0] == a && nodes[1] == b;
    assert forall n :: n in AllNodes(t) <==> n in nodes;
  }

  lemma TwoAdds(me: NodeId, a: Node, b: Node)
    requires a.id != b.id
    ensures Run(me, [AddNode(a), AddNode(b)]) == map["" := [a, b]]
  {
    RunNothing(me, a.id);
    FindOther(a, b.id);
    hide Run, Find;
    RunAdd(me, [], [], a);
    assert [] + [AddNode(a)] == [AddNode(a)] && [] + [a] == [a];
    RunAdd(me, [AddNode(a)], [a], b);
    assert [AddNode(a)] + [AddNode(b)] == [AddNode(a), AddNode(b)] && [a] + [b] == [a, b];
  }

  lemma RunNothing(me: NodeId, id: NodeId)
    ensures Run(me, []) == map["" := []] && Find([], id).None?
  {
  }

  lemma FindOther(n: Node, id: NodeId)
    requires n.id != id
    ensures Find([n], id).None?
  {
    assert [n][1..] == [];
  }

  /** An add to a table that is one bucket with room. */
  lemma RunAdd(me: NodeId, ops: seq<Op>, nodes: seq<Node>, n: Node)
    requires Run(me, ops) == map["" := nodes] && |nodes| < MAX_BUCKET_SIZE && Find(nodes, n.id).None?
    ensures Run(me, ops + [AddNode(n)]) == map["" := nodes + [n]]
  {
    hide Run, Add, Find;
    RunOnce(me, ops, AddNode(n));
    FirstAdd(Run(me, ops), me, n);
  }

  lemma RunOnce(me: NodeId, ops: seq<Op>, op: Op)
    ensures Run(me, ops + [op]) == Step(Run(me, ops), me, op)
  {
    assert (ops + [op])[..|ops|] == ops;
  }

  lemma FirstAdd(t: Table, me: NodeId, n: Node)
    requires t.Keys == {""} && Inv(t, me) && |t[""]| < MAX_BUCKET_SIZE && Find(t[""], n.id).None?
    ensures Add(t, me, n).0 == map["" := t[""] + [n]]
  {
    OwnerUnique(t, me, n.id);
    assert |t| == |t.Keys| == 1;
  }
}
