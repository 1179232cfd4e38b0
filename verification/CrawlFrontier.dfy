/**
 The list of nodes a crawl still has to contact, and what is lost by taking in only
 nodes that are better than its first four. Nodes are equal when their keys are.
 */
module CrawlFrontier {
  import opened BitStrings
  import opened Collections
  import opened Ranking
  import opened RoutingSpec
  import opened RoutingSearch

  datatype Todo = Todo(node: Node, puncture: Option<Node>)

  const TOP: nat := 4

  function KeysOf(todo: seq<Todo>): (r: seq<Bytes>)
    ensures |r| == |todo| && forall i :: 0 <= i < |todo| ==> r[i] == todo[i].node.key
  {
    seq(|todo|, i requires 0 <= i < |todo| => todo[i].node.key)
  }

  lemma KeysSnoc(todo: seq<Todo>, t: Todo)
    ensures KeysOf(todo + [t]) == KeysOf(todo) + [t.node.key]
  {
  }

  /** The rank of an entry is that of its node. */
  function TodoRank(rank: Node -> int): (r: Todo -> int) {
    (t: Todo) => rank(t.node)
  }

  /** The entry for a key; the number of entries when there is none. */
  function FindKey(todo: seq<Todo>, key: Bytes): (i: nat)
    ensures i <= |todo|
    ensures i < |todo| ==> todo[i].node.key == key
    ensures forall j :: 0 <= j < i ==> todo[j].node.key != key
  {
    IndexWhere(todo, (t: Todo) => t.node.key == key)
  }

  /** One turn of the loop in add_response. */
  function Consider(todo: seq<Todo>, tried: set<Bytes>, rank: Node -> int, node: Node, puncture: Option<Node>)
    : (r: seq<Todo>) {
    if node.key in tried then todo
    else if |todo| >= TOP && rank(node) > rank(todo[TOP - 1].node) then todo
    else
      var i := FindKey(todo, node.key);
      if i < |todo| then todo[i := todo[i].(puncture := puncture)]
      else Sort(todo + [Todo(node, puncture)], TodoRank(rank))
  }

  /** The first node of a response may be contacted directly; the others are punctured through the sender. */
  function PunctureFor(index: nat, sender: Node): (p: Option<Node>) {
    if index == 0 then None else Some(sender)
  }

  /** add_response: the list after the first `count` nodes of the response. */
  function Absorb(todo: seq<Todo>, tried: set<Bytes>, rank: Node -> int, nodes: seq<Node>, sender: Node, count: nat)
    : (r: seq<Todo>)
    requires count <= |nodes|
  {
    if count == 0 then todo
    else
      var before := Absorb(todo, tried, rank, nodes, sender, count - 1);
      Consider(before, tried, rank, nodes[count - 1], PunctureFor(count - 1, sender))
  }

  // -------------------------------------------------- what the list keeps

  /** Sorted by distance, one entry per key, and nothing that was tried. */
  ghost predicate Frontier(todo: seq<Todo>, tried: set<Bytes>, rank: Node -> int) {
    && Ranked(todo, TodoRank(rank)) && NoDuplicates(KeysOf(todo))
    && forall key :: key in KeysOf(todo) ==> key !in tried
  }

  /** Inserting leaves the rest in place. */
  lemma {:induction false} InsertPosition<T>(s: seq<T>, x: T, rank: T -> int) returns (p: nat)
    ensures p <= |s| && Insert(s, x, rank) == s[..p] + [x] + s[p..]
  {
    p := 0;
    if s != [] && rank(x) >= rank(s[0]) {
      var q := InsertPosition(s[1..], x, rank);
      p := q + 1;
      assert s[..p] == [s[0]] + s[1..][..q] && s[p..] == s[1..][q..];
    }
  }

  lemma DistinctInsert<T>(s: seq<T>, x: T, p: nat)
    requires NoDuplicates(s) && x !in s && p <= |s|
    ensures NoDuplicates(s[..p] + [x] + s[p..]) && Elements(s[..p] + [x] + s[p..]) == Elements(s) + {x}
  {
    var r := s[..p] + [x] + s[p..];
    assert forall i :: 0 <= i < |r| ==> r[i] == if i < p then s[i] else if i == p then x else s[i - 1];
    assert s == s[..p] + s[p..];
  }

  /** The keys of an inserted entry, whatever its distance. */
  lemma InsertKeySet(todo: seq<Todo>, t: Todo, r: Todo -> int)
    requires NoDuplicates(KeysOf(todo)) && t.node.key !in KeysOf(todo)
    ensures NoDuplicates(KeysOf(Insert(todo, t, r)))
    ensures Elements(KeysOf(Insert(todo, t, r))) == Elements(KeysOf(todo)) + {t.node.key}
  {
    var ks := KeysOf(todo);
    hide Insert, NoDuplicates, Elements;
    var p := InsertPosition(todo, t, r);
    DistinctInsert(ks, t.node.key, p);
    assert KeysOf(Insert(todo, t, r)) == ks[..p] + [t.node.key] + ks[p..];
  }

  lemma ConsiderKeeps(todo: seq<Todo>, tried: set<Bytes>, rank: Node -> int, node: Node, puncture: Option<Node>)
    requires Frontier(todo, tried, rank)
    ensures Frontier(Consider(todo, tried, rank, node, puncture), tried, rank)
  {
    var i := FindKey(todo, node.key);
    if node.key in tried || (|todo| >= TOP && rank(node) > rank(todo[TOP - 1].node)) {
    } else if i < |todo| {
      assert KeysOf(todo[i := todo[i].(puncture := puncture)]) == KeysOf(todo);
    } else {
      var t := Todo(node, puncture);
      SortSnoc(todo, t, TodoRank(rank));
      InsertRanked(todo, t, TodoRank(rank));
      InsertKeySet(todo, t, TodoRank(rank));
      var more := Insert(todo, t, TodoRank(rank));
      forall key | key in KeysOf(more) ensures key !in tried {
        assert key in Elements(KeysOf(more));
        assert key in KeysOf(todo) || key == node.key;
      }
    }
  }

  /** Whatever a response holds, the list stays sorted, free of duplicates and disjoint from the nodes tried. */
  lemma {:induction false} AbsorbKeeps(todo: seq<Todo>, tried: set<Bytes>, rank: Node -> int, nodes: seq<Node>,
                                       sender: Node, count: nat)
    requires Frontier(todo, tried, rank) && count <= |nodes|
    ensures Frontier(Absorb(todo, tried, rank, nodes, sender, count), tried, rank)
    decreases count
  {
    if count > 0 {
      AbsorbKeeps(todo, tried, rank, nodes, sender, count - 1);
      ConsiderKeeps(Absorb(todo, tried, rank, nodes, sender, count - 1), tried, rank, nodes[count - 1],
                    PunctureFor(count - 1, sender));
    }
  }

  // ------------------------------------------------- what happens to a node

  ghost function NodesOf(todo: seq<Todo>): (s: set<Node>) {
    set t | t in todo :: t.node
  }

  /** A node is taken in when it was not tried, is not farther than the fourth, and its key is not listed. */
  ghost predicate Taken(todo: seq<Todo>, tried: set<Bytes>, rank: Node -> int, node: Node) {
    && node.key !in tried && node.key !in KeysOf(todo)
    && !(|todo| >= TOP && rank(node) > rank(todo[TOP - 1].node))
  }

  /** The fourth entry is there and nearer than the node. */
  ghost predicate BeyondTop(todo: seq<Todo>, rank: Node -> int, d: int) {
    |todo| >= TOP && d > rank(todo[TOP - 1].node)
  }

  lemma ListedNode(todo: seq<Todo>, key: Bytes) returns (n: Node)
    requires key in KeysOf(todo)
    ensures n in NodesOf(todo) && n.key == key
  {
    var i :| 0 <= i < |todo| && KeysOf(todo)[i] == key;
    assert todo[i] in todo;
    n := todo[i].node;
  }

  lemma NodeIsListed(todo: seq<Todo>, n: Node)
    requires n in NodesOf(todo)
    ensures n.key in KeysOf(todo)
  {
    var t :| t in todo && t.node == n;
    var i :| 0 <= i < |todo| && todo[i] == t;
    assert KeysOf(todo)[i] == n.key;
  }

  /** In a list without duplicates a key has one node. */
  lemma OneNode(todo: seq<Todo>, m: Node, n: Node)
    requires NoDuplicates(KeysOf(todo)) && m in NodesOf(todo) && n in NodesOf(todo) && m.key == n.key
    ensures m == n
  {
    var t :| t in todo && t.node == m;
    var u :| u in todo && u.node == n;
    var i :| 0 <= i < |todo| && todo[i] == t;
    var j :| 0 <= j < |todo| && todo[j] == u;
    assert KeysOf(todo)[i] == KeysOf(todo)[j];
  }

  /** One turn of the loop: a node that is taken joins the list, no entry leaves it, and the fourth moves no farther. */
  lemma ConsiderNodes(todo: seq<Todo>, tried: set<Bytes>, rank: Node -> int, node: Node, puncture: Option<Node>)
    requires Frontier(todo, tried, rank)
    ensures var r := Consider(todo, tried, rank, node, puncture);
            && NodesOf(r) == NodesOf(todo) + (if Taken(todo, tried, rank, node) then {node} else {})
            && forall d :: BeyondTop(todo, rank, d) ==> BeyondTop(r, rank, d)
  {
    var i := FindKey(todo, node.key);
    assert i < |todo| ==> KeysOf(todo)[i] == node.key;
    if node.key in tried || (|todo| >= TOP && rank(node) > rank(todo[TOP - 1].node)) {
    } else if i < |todo| {
      SameNodes(todo, i, puncture);
    } else {
      var t := Todo(node, puncture);
      SortSnoc(todo, t, TodoRank(rank));
      var p := InsertPosition(todo, t, TodoRank(rank));
      InsertNodes(todo, t, p);
      if |todo| >= TOP { InsertBelow(todo, t, TodoRank(rank), TOP - 1); }
    }
  }

  lemma SameNodes(todo: seq<Todo>, i: nat, puncture: Option<Node>)
    requires i < |todo|
    ensures NodesOf(todo[i := todo[i].(puncture := puncture)]) == NodesOf(todo)
  {
    var r := todo[i := todo[i].(puncture := puncture)];
    forall n | n in NodesOf(todo) ensures n in NodesOf(r) {
      var t :| t in todo && t.node == n;
      var j :| 0 <= j < |todo| && todo[j] == t;
      assert r[j] in r;
    }
    forall n | n in NodesOf(r) ensures n in NodesOf(todo) {
      var t :| t in r && t.node == n;
      var j :| 0 <= j < |r| && r[j] == t;
      assert todo[j] in todo;
    }
  }

  lemma InsertNodes(todo: seq<Todo>, t: Todo, p: nat)
    requires p <= |todo|
    ensures NodesOf(todo[..p] + [t] + todo[p..]) == NodesOf(todo) + {t.node}
  {
    assert todo == todo[..p] + todo[p..];
    var r := todo[..p] + [t] + todo[p..];
    assert forall u :: u in r <==> u in todo || u == t;
  }

  /** Inserting moves no element to a lower place. */
  lemma {:induction false} InsertBelow<T>(s: seq<T>, x: T, rank: T -> int, i: nat)
    requires Ranked(s, rank) && i < |s| && rank(x) <= rank(s[i])
    ensures rank(Insert(s, x, rank)[i]) <= rank(s[i])
  {
    if rank(x) >= rank(s[0]) && i > 0 {
      InsertBelow(s[1..], x, rank, i - 1);
    }
  }

  /** No entry leaves the list during a response, and the fourth moves no farther. */
  lemma {:induction false} AbsorbGrows(todo: seq<Todo>, tried: set<Bytes>, rank: Node -> int, nodes: seq<Node>,
                                       sender: Node, i: nat, count: nat)
    requires Frontier(todo, tried, rank) && i <= count <= |nodes|
    ensures var before := Absorb(todo, tried, rank, nodes, sender, i);
            var after := Absorb(todo, tried, rank, nodes, sender, count);
            && NodesOf(before) <= NodesOf(after)
            && forall d :: BeyondTop(before, rank, d) ==> BeyondTop(after, rank, d)
    decreases count
  {
    if i < count {
      AbsorbGrows(todo, tried, rank, nodes, sender, i, count - 1);
      AbsorbKeeps(todo, tried, rank, nodes, sender, count - 1);
      ConsiderNodes(Absorb(todo, tried, rank, nodes, sender, count - 1), tried, rank, nodes[count - 1],
                    PunctureFor(count - 1, sender));
    }
  }

  /** All that the crawl has been told about: the old list and the untried nodes of the response. */
  ghost function Known(todo: seq<Todo>, tried: set<Bytes>, nodes: seq<Node>): (s: set<Node>) {
    NodesOf(todo) + set n | n in nodes && n.key !in tried
  }

  /** The list holds nothing else. */
  lemma {:induction false} AbsorbKnown(todo: seq<Todo>, tried: set<Bytes>, rank: Node -> int, nodes: seq<Node>,
                                       sender: Node, count: nat)
    requires Frontier(todo, tried, rank) && count <= |nodes|
    ensures NodesOf(Absorb(todo, tried, rank, nodes, sender, count)) <= Known(todo, tried, nodes)
    decreases count
  {
    if count > 0 {
      AbsorbKnown(todo, tried, rank, nodes, sender, count - 1);
      AbsorbKeeps(todo, tried, rank, nodes, sender, count - 1);
      assert nodes[count - 1] in nodes;
      ConsiderNodes(Absorb(todo, tried, rank, nodes, sender, count - 1), tried, rank, nodes[count - 1],
                    PunctureFor(count - 1, sender));
    }
  }

  /** A node was tried, is listed, or is farther than the fourth entry. */
  ghost predicate Accounted(todo: seq<Todo>, tried: set<Bytes>, rank: Node -> int, node: Node) {
    node.key in tried || node.key in KeysOf(todo) || BeyondTop(todo, rank, rank(node))
  }

  /** A node that a response names is missing from the list only if four nearer entries are there. */
  lemma NoneNearerMissing(todo: seq<Todo>, tried: set<Bytes>, rank: Node -> int, nodes: seq<Node>, sender: Node, i: nat)
    requires Frontier(todo, tried, rank) && i < |nodes|
    ensures Accounted(Absorb(todo, tried, rank, nodes, sender, |nodes|), tried, rank, nodes[i])
  {
    var before := Absorb(todo, tried, rank, nodes, sender, i);
    var after := Absorb(todo, tried, rank, nodes, sender, |nodes|);
    AbsorbKeeps(todo, tried, rank, nodes, sender, i);
    ConsiderNodes(before, tried, rank, nodes[i], PunctureFor(i, sender));
    AbsorbGrows(todo, tried, rank, nodes, sender, i, |nodes|);
    AbsorbGrows(todo, tried, rank, nodes, sender, i + 1, |nodes|);
    if nodes[i].key in KeysOf(before) {
      var n := ListedNode(before, nodes[i].key);
      NodeIsListed(after, n);
    } else if Taken(before, tried, rank, nodes[i]) {
      NodeIsListed(after, nodes[i]);
    }
  }

  lemma AllAccounted(todo: seq<Todo>, tried: set<Bytes>, rank: Node -> int, nodes: seq<Node>, sender: Node)
    requires Frontier(todo, tried, rank)
    ensures forall i :: 0 <= i < |nodes| ==>
      Accounted(Absorb(todo, tried, rank, nodes, sender, |nodes|), tried, rank, nodes[i])
  {
    forall i | 0 <= i < |nodes|
      ensures Accounted(Absorb(todo, tried, rank, nodes, sender, |nodes|), tried, rank, nodes[i])
    {
      NoneNearerMissing(todo, tried, rank, nodes, sender, i);
    }
  }

  // -------------------------------------------------- whom to puncture through

  /** A node of the response that was not tried and, when it is considered, is not beyond the fourth entry. */
  ghost predicate Passes(todo: seq<Todo>, tried: set<Bytes>, rank: Node -> int, nodes: seq<Node>, sender: Node, i: nat)
    requires i < |nodes|
  {
    nodes[i].key !in tried && !BeyondTop(Absorb(todo, tried, rank, nodes, sender, i), rank, rank(nodes[i]))
  }

  /** Of the first `count` nodes of the response, the last with the key that passes. */
  ghost predicate LastNaming(todo: seq<Todo>, tried: set<Bytes>, rank: Node -> int, nodes: seq<Node>, sender: Node,
                             count: nat, key: Bytes, i: nat)
    requires i < count <= |nodes|
  {
    && nodes[i].key == key && Passes(todo, tried, rank, nodes, sender, i)
    && forall j :: i < j < count && nodes[j].key == key ==> !Passes(todo, tried, rank, nodes, sender, j)
  }

  /**
   The puncture node of an entry is decided by the last place of the response that names its key and passes: none for
   the first place and the sender for any other. An entry that no place names and passes is an old one, unchanged.
   */
  ghost predicate PunctureRight(todo: seq<Todo>, tried: set<Bytes>, rank: Node -> int, nodes: seq<Node>, sender: Node,
                                count: nat, t: Todo)
    requires count <= |nodes|
  {
    && (forall i :: 0 <= i < count && LastNaming(todo, tried, rank, nodes, sender, count, t.node.key, i) ==>
          (t.puncture == None <==> i == 0) && (i > 0 ==> t.puncture == Some(sender)))
    && ((forall i :: 0 <= i < count && nodes[i].key == t.node.key ==> !Passes(todo, tried, rank, nodes, sender, i)) ==>
          t in todo)
  }

  /** One turn of the loop touches the entry of the node that passes, and no other. */
  lemma ConsiderEntry(todo: seq<Todo>, tried: set<Bytes>, rank: Node -> int, node: Node, puncture: Option<Node>,
                      t: Todo)
    requires Frontier(todo, tried, rank) && t in Consider(todo, tried, rank, node, puncture)
    ensures if node.key !in tried && !BeyondTop(todo, rank, rank(node)) && t.node.key == node.key
            then t.puncture == puncture else t in todo
  {
    var r, i := Consider(todo, tried, rank, node, puncture), FindKey(todo, node.key);
    var j :| 0 <= j < |r| && r[j] == t;
    if node.key in tried || BeyondTop(todo, rank, rank(node)) {
    } else if i < |todo| {
      assert j != i ==> KeysOf(todo)[j] != KeysOf(todo)[i];
    } else {
      SortSnoc(todo, Todo(node, puncture), TodoRank(rank));
      var p := InsertPosition(todo, Todo(node, puncture), TodoRank(rank));
      assert r == todo[..p] + [Todo(node, puncture)] + todo[p..];
    }
  }

  lemma {:induction false} PunctureExact(todo: seq<Todo>, tried: set<Bytes>, rank: Node -> int, nodes: seq<Node>,
                                         sender: Node, count: nat, t: Todo)
    requires Frontier(todo, tried, rank) && count <= |nodes|
    requires t in Absorb(todo, tried, rank, nodes, sender, count)
    ensures PunctureRight(todo, tried, rank, nodes, sender, count, t)
    decreases count
  {
    if count > 0 {
      var m := count - 1;
      var before := Absorb(todo, tried, rank, nodes, sender, m);
      AbsorbKeeps(todo, tried, rank, nodes, sender, m);
      ConsiderEntry(before, tried, rank, nodes[m], PunctureFor(m, sender), t);
      var names := Passes(todo, tried, rank, nodes, sender, m) && nodes[m].key == t.node.key;
      if !names { PunctureExact(todo, tried, rank, nodes, sender, m, t); }
      forall i | 0 <= i < count && LastNaming(todo, tried, rank, nodes, sender, count, t.node.key, i)
        ensures t.puncture == PunctureFor(i, sender)
      {
        LastNamed(todo, tried, rank, nodes, sender, m, t.node.key, i);
        assert !names ==> (t.puncture == None <==> i == 0) && (i > 0 ==> t.puncture == Some(sender));
      }
    }
  }

  lemma LastNamed(todo: seq<Todo>, tried: set<Bytes>, rank: Node -> int, nodes: seq<Node>, sender: Node, m: nat,
                  key: Bytes, i: nat)
    requires m < |nodes| && i <= m && LastNaming(todo, tried, rank, nodes, sender, m + 1, key, i)
    ensures if Passes(todo, tried, rank, nodes, sender, m) && nodes[m].key == key then i == m
            else i < m && LastNaming(todo, tried, rank, nodes, sender, m, key, i)
  {
    hide Passes;
  }

  lemma AllPunctured(todo: seq<Todo>, tried: set<Bytes>, rank: Node -> int, nodes: seq<Node>, sender: Node)
    requires Frontier(todo, tried, rank)
    ensures forall t :: t in Absorb(todo, tried, rank, nodes, sender, |nodes|) ==>
      PunctureRight(todo, tried, rank, nodes, sender, |nodes|, t)
  {
    forall t | t in Absorb(todo, tried, rank, nodes, sender, |nodes|)
      ensures PunctureRight(todo, tried, rank, nodes, sender, |nodes|, t)
    {
      PunctureExact(todo, tried, rank, nodes, sender, |nodes|, t);
    }
  }

  // ------------------------------------------------------- the four nearest

  ghost function NodesUnder(known: set<Node>, key: Bytes): (s: set<Node>) {
    set n | n in known && n.key == key
  }

  /** The least distance at which a key is known. */
  ghost function Low(known: set<Node>, rank: Node -> int): (low: Bytes -> int) {
    (key: Bytes) => if NodesUnder(known, key) == {} then 0 else rank(Lowest(NodesUnder(known, key), rank))
  }

  lemma LowIsLeast(known: set<Node>, rank: Node -> int, n: Node)
    requires n in known
    ensures n.key in KeySet(known) && Low(known, rank)(n.key) <= rank(n)
  {
    var under := NodesUnder(known, n.key);
    assert n in under && IsLowest(under, rank, Lowest(under, rank));
  }

  lemma LowIsReached(known: set<Node>, rank: Node -> int, key: Bytes) returns (n: Node)
    requires key in KeySet(known)
    ensures n in known && n.key == key && rank(n) == Low(known, rank)(key)
  {
    var m :| m in known && m.key == key;
    assert m in NodesUnder(known, key);
    n := Lowest(NodesUnder(known, key), rank);
  }

  /** The distances of the first four entries are the four least distances at which keys are known. */
  ghost predicate FourNearest(todo: seq<Todo>, known: set<Node>, rank: Node -> int) {
    var nearest := Nearest(KeySet(known), Low(known, rank), TOP);
    && |Cut(todo, TOP)| == |nearest|
    && forall j :: 0 <= j < |nearest| ==> rank(Cut(todo, TOP)[j].node) == Low(known, rank)(nearest[j])
  }

  /** The list has the node's key under a farther id. */
  ghost predicate ListedFarther(todo: seq<Todo>, rank: Node -> int, node: Node) {
    exists n :: n in NodesOf(todo) && n.key == node.key && rank(n) > rank(node)
  }

  /**
   The branch that fails: when one of the response's nodes is considered, its key already stands in the list, from
   before or from earlier in the same response, under a farther id.
   */
  ghost predicate FartherStays(todo: seq<Todo>, tried: set<Bytes>, rank: Node -> int, nodes: seq<Node>, sender: Node,
                               key: Bytes) {
    exists i :: 0 <= i < |nodes| && nodes[i].key == key &&
                ListedFarther(Absorb(todo, tried, rank, nodes, sender, i), rank, nodes[i])
  }

  /** Four nearest keys, ties broken somehow, none of which meets that branch. */
  ghost predicate Undisturbed(todo: seq<Todo>, tried: set<Bytes>, rank: Node -> int, nodes: seq<Node>, sender: Node,
                              s: seq<Bytes>) {
    var known := Known(todo, tried, nodes);
    && AreNearest(s, KeySet(known), Low(known, rank), TOP)
    && forall key :: key in s ==> !FartherStays(todo, tried, rank, nodes, sender, key)
  }

  /** What becomes of one node of a response: it is in the list, its key was there, or it is beyond the fourth entry. */
  lemma OfferLands(todo: seq<Todo>, tried: set<Bytes>, rank: Node -> int, nodes: seq<Node>, sender: Node, i: nat)
    returns (n: Node)
    requires Frontier(todo, tried, rank) && i < |nodes| && nodes[i].key !in tried
    ensures var before := Absorb(todo, tried, rank, nodes, sender, i);
            var after := Absorb(todo, tried, rank, nodes, sender, |nodes|);
            || BeyondTop(after, rank, rank(nodes[i]))
            || (n == nodes[i] && n in NodesOf(after))
            || (n.key == nodes[i].key && n in NodesOf(before) && n in NodesOf(after) && n in Known(todo, tried, nodes))
  {
    n := nodes[i];
    var before := Absorb(todo, tried, rank, nodes, sender, i);
    AbsorbKeeps(todo, tried, rank, nodes, sender, i);
    AbsorbKnown(todo, tried, rank, nodes, sender, i);
    ConsiderNodes(before, tried, rank, n, PunctureFor(i, sender));
    AbsorbGrows(todo, tried, rank, nodes, sender, i, |nodes|);
    AbsorbGrows(todo, tried, rank, nodes, sender, i + 1, |nodes|);
    if n.key in KeysOf(before) {
      n := ListedNode(before, n.key);
    }
  }

  /** A key that does not meet it is listed at its least distance, or that distance is beyond the fourth entry. */
  lemma KeyAtLow(todo: seq<Todo>, tried: set<Bytes>, rank: Node -> int, nodes: seq<Node>, sender: Node, key: Bytes)
    requires Frontier(todo, tried, rank) && key in KeySet(Known(todo, tried, nodes))
    requires !FartherStays(todo, tried, rank, nodes, sender, key)
    ensures var after := Absorb(todo, tried, rank, nodes, sender, |nodes|);
            var known := Known(todo, tried, nodes);
            BeyondTop(after, rank, Low(known, rank)(key)) || AtLow(after, known, rank, key)
  {
    var known := Known(todo, tried, nodes);
    var m := LowIsReached(known, rank, key);
    if m in NodesOf(todo) {
      AbsorbGrows(todo, tried, rank, nodes, sender, 0, |nodes|);
    } else {
      var i :| 0 <= i < |nodes| && nodes[i] == m;
      var n := OfferLands(todo, tried, rank, nodes, sender, i);
      assert !ListedFarther(Absorb(todo, tried, rank, nodes, sender, i), rank, nodes[i]);
      if n in known { LowIsLeast(known, rank, n); }
    }
  }

  ghost predicate AtLow(todo: seq<Todo>, known: set<Node>, rank: Node -> int, key: Bytes) {
    exists n :: n in NodesOf(todo) && n.key == key && rank(n) == Low(known, rank)(key)
  }

  lemma EntryOf(todo: seq<Todo>, j: nat)
    requires j < |todo|
    ensures todo[j].node in NodesOf(todo)
  {
    assert todo[j] in todo;
  }

  /** In a list in order the distance of a key is that of its entry, and the first four are the four nearest. */
  lemma FirstFour(todo: seq<Todo>, tried: set<Bytes>, rank: Node -> int)
    requires Frontier(todo, tried, rank)
    ensures forall n :: n in NodesOf(todo) ==> Low(NodesOf(todo), rank)(n.key) == rank(n)
    ensures AreNearest(Cut(KeysOf(todo), TOP), KeySet(NodesOf(todo)), Low(NodesOf(todo), rank), TOP)
    ensures |KeySet(NodesOf(todo))| == |todo|
  {
    var known := NodesOf(todo);
    var keys, low := KeysOf(todo), Low(known, rank);
    forall n | n in known ensures low(n.key) == rank(n) {
      LowIsLeast(known, rank, n);
      var m := LowIsReached(known, rank, n.key);
      OneNode(todo, m, n);
    }
    forall j | 0 <= j < |todo| ensures low(keys[j]) == rank(todo[j].node) && keys[j] in KeySet(known) {
      EntryOf(todo, j);
      LowIsLeast(known, rank, todo[j].node);
    }
    forall key | key in KeySet(known) ensures key in keys {
      var n :| n in known && n.key == key;
      NodeIsListed(todo, n);
    }
    assert Elements(keys) == KeySet(known);
    forall i, j | 0 <= i < j < |keys| ensures low(keys[i]) <= low(keys[j]) {
      assert TodoRank(rank)(todo[i]) <= TodoRank(rank)(todo[j]);
    }
    DistinctCount(keys);
    SortedAreNearest(keys, low, TOP);
  }

  /** Undisturbed keys give the four nearest. */
  lemma UndisturbedGives(todo: seq<Todo>, tried: set<Bytes>, rank: Node -> int, nodes: seq<Node>, sender: Node,
                         s: seq<Bytes>)
    requires Frontier(todo, tried, rank) && Undisturbed(todo, tried, rank, nodes, sender, s)
    ensures FourNearest(Absorb(todo, tried, rank, nodes, sender, |nodes|), Known(todo, tried, nodes), rank)
  {
    var known := Known(todo, tried, nodes);
    var after := Absorb(todo, tried, rank, nodes, sender, |nodes|);
    AbsorbKeeps(todo, tried, rank, nodes, sender, |nodes|);
    AbsorbKnown(todo, tried, rank, nodes, sender, |nodes|);
    forall key | key in s
      ensures BeyondTop(after, rank, Low(known, rank)(key)) || AtLow(after, known, rank, key)
    {
      assert key in Elements(s);
      KeyAtLow(todo, tried, rank, nodes, sender, key);
    }
    ListedGive(after, tried, known, rank, s);
  }

  /** Every key of the list is known, at no greater distance than that of its entry. */
  lemma KeptIsKnown(todo: seq<Todo>, known: set<Node>, rank: Node -> int, key: Bytes)
    requires NodesOf(todo) <= known && key in KeySet(NodesOf(todo))
    ensures key in KeySet(known) && Low(NodesOf(todo), rank)(key) >= Low(known, rank)(key)
  {
    var n := LowIsReached(NodesOf(todo), rank, key);
    LowIsLeast(known, rank, n);
  }

  /** None of the four nearest is beyond the fourth entry. */
  lemma NotBeyond(after: seq<Todo>, tried: set<Bytes>, known: set<Node>, rank: Node -> int, s: seq<Bytes>, j: nat)
    requires Frontier(after, tried, rank) && NodesOf(after) <= known && j < |s|
    requires AreNearest(s, KeySet(known), Low(known, rank), TOP)
    ensures !BeyondTop(after, rank, Low(known, rank)(s[j]))
  {
    var low := Low(known, rank);
    if BeyondTop(after, rank, low(s[j])) {
      var c := KeysOf(after)[..TOP];
      forall key | key in c ensures key in KeySet(known) && low(key) < low(s[j]) {
        var i :| 0 <= i < TOP && c[i] == key;
        EntryOf(after, i);
        LowIsLeast(known, rank, after[i].node);
        assert i < TOP - 1 ==> TodoRank(rank)(after[i]) <= TodoRank(rank)(after[TOP - 1]);
      }
      DistinctCount(c);
      FewBelow(s, KeySet(known), low, TOP, j, Elements(c));
    }
  }

  /** A list in order that has the four nearest keys at their least distances, or none nearer, has them in front. */
  lemma ListedGive(after: seq<Todo>, tried: set<Bytes>, known: set<Node>, rank: Node -> int, s: seq<Bytes>)
    requires Frontier(after, tried, rank) && NodesOf(after) <= known
    requires AreNearest(s, KeySet(known), Low(known, rank), TOP)
    requires forall key :: key in s ==> BeyondTop(after, rank, Low(known, rank)(key)) || AtLow(after, known, rank, key)
    ensures FourNearest(after, known, rank)
  {
    var low, kept := Low(known, rank), Low(NodesOf(after), rank);
    FirstFour(after, tried, rank);
    forall key | key in s ensures key in KeySet(NodesOf(after)) && kept(key) == low(key) {
      var j :| 0 <= j < |s| && s[j] == key;
      NotBeyond(after, tried, known, rank, s, j);
      var n :| n in NodesOf(after) && n.key == key && rank(n) == low(key);
      LowIsLeast(NodesOf(after), rank, n);
    }
    forall key | key in KeySet(NodesOf(after)) ensures key in KeySet(known) && kept(key) >= low(key) {
      KeptIsKnown(after, known, rank, key);
    }
    SmallerUniverse(s, KeySet(known), KeySet(NodesOf(after)), low, kept, TOP);
    RanksAgree(after, tried, known, rank, s);
  }

  lemma RanksAgree(after: seq<Todo>, tried: set<Bytes>, known: set<Node>, rank: Node -> int, s: seq<Bytes>)
    requires Frontier(after, tried, rank) && AreNearest(s, KeySet(known), Low(known, rank), TOP)
    requires AreNearest(s, KeySet(NodesOf(after)), Low(NodesOf(after), rank), TOP)
    requires forall key :: key in s ==> Low(NodesOf(after), rank)(key) == Low(known, rank)(key)
    ensures FourNearest(after, known, rank)
  {
    var low, kept := Low(known, rank), Low(NodesOf(after), rank);
    var c, nearest := Cut(KeysOf(after), TOP), Nearest(KeySet(known), low, TOP);
    FirstFour(after, tried, rank);
    NearestAreNearest(KeySet(known), low, TOP);
    hide Frontier, AreNearest, Low, Nearest;
    NearestRanks(c, s, KeySet(NodesOf(after)), kept, TOP);
    NearestRanks(s, nearest, KeySet(known), low, TOP);
    forall j | 0 <= j < |nearest| ensures rank(Cut(after, TOP)[j].node) == low(nearest[j]) {
      EntryOf(after, j);
      assert s[j] in s && c[j] == after[j].node.key;
    }
  }

  /** The four nearest in front come from keys that are undisturbed. */
  lemma NearestAreUndisturbed(todo: seq<Todo>, tried: set<Bytes>, rank: Node -> int, nodes: seq<Node>, sender: Node)
    requires Frontier(todo, tried, rank)
    requires FourNearest(Absorb(todo, tried, rank, nodes, sender, |nodes|), Known(todo, tried, nodes), rank)
    ensures Undisturbed(todo, tried, rank, nodes, sender,
                        Cut(KeysOf(Absorb(todo, tried, rank, nodes, sender, |nodes|)), TOP))
  {
    var known := Known(todo, tried, nodes);
    var low := Low(known, rank);
    var after := Absorb(todo, tried, rank, nodes, sender, |nodes|);
    var c, nearest := Cut(KeysOf(after), TOP), Nearest(KeySet(known), low, TOP);
    AbsorbKeeps(todo, tried, rank, nodes, sender, |nodes|);
    AbsorbKnown(todo, tried, rank, nodes, sender, |nodes|);
    NearestAreNearest(KeySet(known), low, TOP);
    forall j | 0 <= j < |c| ensures c[j] in KeySet(known) && low(c[j]) <= rank(after[j].node) == low(nearest[j]) {
      EntryOf(after, j);
      LowIsLeast(known, rank, after[j].node);
    }
    assert NoDuplicates(c) && forall key :: key in c ==> key in KeySet(known);
    PointwiseNearest(c, nearest, KeySet(known), low, TOP);
    forall j | 0 <= j < |c| ensures !FartherStays(todo, tried, rank, nodes, sender, c[j]) {
      NothingFarther(todo, tried, rank, nodes, sender, j);
    }
  }

  /** An entry at its key's least distance was never passed by a nearer offer. */
  lemma NothingFarther(todo: seq<Todo>, tried: set<Bytes>, rank: Node -> int, nodes: seq<Node>, sender: Node, j: nat)
    requires Frontier(todo, tried, rank) && j < |Absorb(todo, tried, rank, nodes, sender, |nodes|)|
    requires var n := Absorb(todo, tried, rank, nodes, sender, |nodes|)[j].node;
             rank(n) == Low(Known(todo, tried, nodes), rank)(n.key)
    ensures !FartherStays(todo, tried, rank, nodes, sender,
                          Absorb(todo, tried, rank, nodes, sender, |nodes|)[j].node.key)
  {
    var known := Known(todo, tried, nodes);
    var after := Absorb(todo, tried, rank, nodes, sender, |nodes|);
    var n := after[j].node;
    AbsorbKeeps(todo, tried, rank, nodes, sender, |nodes|);
    EntryOf(after, j);
    NodeIsListed(after, n);
    forall i | 0 <= i < |nodes| && nodes[i].key == n.key
      ensures !ListedFarther(Absorb(todo, tried, rank, nodes, sender, i), rank, nodes[i])
    {
      var before := Absorb(todo, tried, rank, nodes, sender, i);
      AbsorbGrows(todo, tried, rank, nodes, sender, i, |nodes|);
      LowIsLeast(known, rank, nodes[i]);
      forall m | m in NodesOf(before) && m.key == n.key ensures rank(m) <= rank(nodes[i]) { OneNode(after, m, n); }
    }
  }

  /**
   What the filter is worth: after any response the distances of the first four entries are the four least at which
   keys are known, if and only if four nearest keys are undisturbed.
   */
  lemma FilterExact(todo: seq<Todo>, tried: set<Bytes>, rank: Node -> int, nodes: seq<Node>, sender: Node)
    requires Frontier(todo, tried, rank)
    ensures FourNearest(Absorb(todo, tried, rank, nodes, sender, |nodes|), Known(todo, tried, nodes), rank)
       <==> exists s :: Undisturbed(todo, tried, rank, nodes, sender, s)
  {
    if FourNearest(Absorb(todo, tried, rank, nodes, sender, |nodes|), Known(todo, tried, nodes), rank) {
      NearestAreUndisturbed(todo, tried, rank, nodes, sender);
    }
    forall s | Undisturbed(todo, tried, rank, nodes, sender, s)
      ensures FourNearest(Absorb(todo, tried, rank, nodes, sender, |nodes|), Known(todo, tried, nodes), rank)
    {
      UndisturbedGives(todo, tried, rank, nodes, sender, s);
    }
  }

  /** In particular when no key is known at two distances. */
  lemma OneDistanceIsExact(todo: seq<Todo>, tried: set<Bytes>, rank: Node -> int, nodes: seq<Node>, sender: Node)
    requires Frontier(todo, tried, rank)
    requires forall m, n :: m in Known(todo, tried, nodes) && n in Known(todo, tried, nodes) && m.key == n.key ==>
      rank(m) == rank(n)
    ensures FourNearest(Absorb(todo, tried, rank, nodes, sender, |nodes|), Known(todo, tried, nodes), rank)
  {
    var known := Known(todo, tried, nodes);
    var s := Nearest(KeySet(known), Low(known, rank), TOP);
    NearestAreNearest(KeySet(known), Low(known, rank), TOP);
    forall key | key in s ensures !FartherStays(todo, tried, rank, nodes, sender, key) {
      assert key in Elements(s);
      var k :| k in known && k.key == key;
      KnownIsUntried(todo, tried, rank, nodes, k);
      forall i | 0 <= i < |nodes| && nodes[i].key == key
        ensures !ListedFarther(Absorb(todo, tried, rank, nodes, sender, i), rank, nodes[i])
      {
        AbsorbKnown(todo, tried, rank, nodes, sender, i);
        assert nodes[i] in nodes && nodes[i] in known;
      }
    }
    UndisturbedGives(todo, tried, rank, nodes, sender, s);
  }

  lemma KnownIsUntried(todo: seq<Todo>, tried: set<Bytes>, rank: Node -> int, nodes: seq<Node>, n: Node)
    requires Frontier(todo, tried, rank) && n in Known(todo, tried, nodes)
    ensures n.key !in tried
  {
    if n in NodesOf(todo) { NodeIsListed(todo, n); }
  }

  /** It does fail: a peer listed alone and named again under a nearer id stays where it was. */
  lemma NearerIdIsMissed(t: Todo, tried: set<Bytes>, rank: Node -> int, node: Node, sender: Node)
    requires t.node.key == node.key && node.key !in tried && rank(node) < rank(t.node)
    ensures Frontier([t], tried, rank)
    ensures !FourNearest(Absorb([t], tried, rank, [node], sender, 1), Known([t], tried, [node]), rank)
  {
    var todo, nodes := [t], [node];
    var known := Known(todo, tried, nodes);
    assert KeysOf(todo) == [node.key];
    assert Absorb(todo, tried, rank, nodes, sender, 0) == todo;
    assert t in todo && nodes[0] == node && t.node in NodesOf(todo) && ListedFarther(todo, rank, nodes[0]);
    assert FartherStays(todo, tried, rank, nodes, sender, node.key);
    forall s ensures !Undisturbed(todo, tried, rank, nodes, sender, s) {
      if AreNearest(s, KeySet(known), Low(known, rank), TOP) {
        assert KeySet(known) == {node.key};
        assert s[0] in Elements(s);
      }
    }
    FilterExact(todo, tried, rank, nodes, sender);
  }
}
