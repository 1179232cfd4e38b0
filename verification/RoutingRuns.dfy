/**
 What adding and removing nodes does to the whole routing table, for one call and
 for every run.
 */
module RoutingRuns {
  import opened BitStrings
  import opened Collections
  import opened RoutingSpec

  /** The nodes of all buckets together. */
  ghost function AllNodes(t: Table): (s: set<Node>) {
    set p, n | p in t && n in t[p] :: n
  }

  /** A table holds a node exactly when `get` finds it, so it holds at most one node per id. */
  lemma GetFinds(t: Table, me: NodeId, n: Node)
    requires Inv(t, me)
    ensures n in AllNodes(t) <==> Get(t, me, n.id) == Some(n)
  {
    OwnerUnique(t, me, n.id);
    var p := Owner(t, me, n.id);
    if n in AllNodes(t) {
      var q :| q in t && n in t[q];
      assert Owns(q, n.id);
      FindUnique(t[p], n);
    }
  }

  lemma GetMisses(t: Table, me: NodeId, id: NodeId)
    requires Inv(t, me)
    ensures Get(t, me, id).None? <==> forall n :: n in AllNodes(t) ==> n.id != id
  {
    forall n | n in AllNodes(t) && n.id == id ensures Get(t, me, id).Some? { GetFinds(t, me, n); }
    if Get(t, me, id).Some? {
      OwnerUnique(t, me, id);
      assert Get(t, me, id).value in AllNodes(t);
    }
  }

  /** No node is in two buckets. */
  lemma OneBucket(t: Table, me: NodeId, p: string, q: string, n: Node)
    requires Inv(t, me) && p in t && q in t && p != q && n in t[p]
    ensures n !in t[q]
  {
    OwnerUnique(t, me, n.id);
  }

  /** Exchanging one bucket exchanges exactly its nodes. */
  lemma ReplaceBucket(t: Table, me: NodeId, p: string, after: seq<Node>)
    requires Inv(t, me) && p in t && BucketOk(p, after, MAX_BUCKET_SIZE)
    ensures Inv(t[p := after], me)
    ensures AllNodes(t[p := after]) == AllNodes(t) - Elements(t[p]) + Elements(after)
  {
    hide Prefixes;
    hide BucketOk;
    var s := t[p := after];
    assert s.Keys == t.Keys;
    forall q, n | q in t && q != p && n in t[q] ensures n !in t[p] { OneBucket(t, me, q, p, n); }
    ReplaceNodes(t, p, after);
  }

  lemma ReplaceNodes(t: Table, p: string, after: seq<Node>)
    requires p in t && forall q, n :: q in t && q != p && n in t[q] ==> n !in t[p]
    ensures AllNodes(t[p := after]) == AllNodes(t) - Elements(t[p]) + Elements(after)
  {
    var s := t[p := after];
    forall n | n in AllNodes(t) && n !in t[p] ensures n in AllNodes(s) {
      var q :| q in t && n in t[q];
      assert n in s[q];
    }
    forall n | n in after ensures n in AllNodes(s) { assert n in s[p]; }
  }

  /** A split moves nodes, and loses none. */
  lemma SplitConserves(t: Table, p: string)
    requires p in t && p + "0" !in t && p + "1" !in t && |p| < ID_BITS
    requires BucketsOk(t)
    ensures AllNodes(SplitAt(t, p)) == AllNodes(t)
  {
    var s := SplitAt(t, p);
    SplitKeys(t, p);
    forall n | n in AllNodes(t) ensures n in AllNodes(s) {
      var q :| q in t && n in t[q];
      if q == p {
        NextBit(p, n.id);
        assert n in s[p + "0"] || n in s[p + "1"];
      } else {
        assert n in s[q];
      }
    }
    forall n | n in AllNodes(s) ensures n in AllNodes(t) {
      var q :| q in s && n in s[q];
      assert n in t[if q == p + "0" || q == p + "1" then p else q];
    }
  }

  lemma NextBit(p: string, id: NodeId)
    requires |p| < ID_BITS && Owns(p, id)
    ensures Owns(p + "0", id) || Owns(p + "1", id)
  {
    var b := IdToBinaryString(id);
    assert b[..|p| + 1] == p + [b[|p|]];
  }

  /** What one call of add does to the nodes of the table; `bucket` is where the newcomer belongs. */
  ghost predicate AddEffect(before: set<Node>, bucket: seq<Node>, known: Option<Node>, node: Node,
                            after: set<Node>, result: Option<Node>, split: bool)
  {
    var lost := before - after;
    match known
    case Some(previous) =>
      // the known node takes the new address; nothing else changes
      var updated := previous.(address := node.address);
      result == Some(updated) && after == before - {previous} + {updated} && !split
    case None =>
      if result.None? then
        // refused: whatever split, no node came or went, and the bucket was full without anyone to give up
        after == before && |bucket| == MAX_BUCKET_SIZE && Evicted(bucket, node) == {}
      else
        // taken: if the bucket was full, its first BAD node and its first other slow node are gone, and no others
        && result == Some(node) && node !in before && after == before - lost + {node}
        && lost == Lost(bucket, MAX_BUCKET_SIZE, node) && |lost| <= 2 && Replaceable(lost, node)
        && (lost != {} ==> !split && |bucket| == MAX_BUCKET_SIZE && lost <= Elements(bucket))
  }

  ghost function BucketOf(t: Table, me: NodeId, id: NodeId): (nodes: seq<Node>)
    requires Inv(t, me)
  {
    OwnerUnique(t, me, id);
    t[Owner(t, me, id)]
  }

  /** The bucket of the node is full, of others than us and without the id, and has no one to give up for it. */
  ghost predicate Refuses(t: Table, me: NodeId, node: Node)
    requires Inv(t, me)
  {
    var bucket := BucketOf(t, me, node.id);
    && !Owns(Owner(t, me, node.id), me) && Find(bucket, node.id).None?
    && |bucket| == MAX_BUCKET_SIZE && Evicted(bucket, node) == {}
  }

  lemma ExchangeElements(all: set<Node>, before: set<Node>, after: set<Node>, gone: set<Node>, come: Node)
    requires before <= all && gone <= before && after == before - gone + {come}
    ensures all - before + after == all - gone + {come}
    ensures come !in all ==> all - (all - before + after) == gone
  {
  }

  /** A table that has not taken the node refuses it. */
  lemma RefusedBy(t: Table, me: NodeId, node: Node)
    requires Inv(t, me) && !Owns(Owner(t, me, node.id), me)
    requires !BucketAdd(Owner(t, me, node.id), BucketOf(t, me, node.id), MAX_BUCKET_SIZE, node).0
    ensures Refuses(t, me, node)
  {
    var p := Owner(t, me, node.id);
    OwnerUnique(t, me, node.id);
    BucketTakes(p, t[p], MAX_BUCKET_SIZE, node);
    BucketAddKeeps(p, t[p], MAX_BUCKET_SIZE, node);
  }

  lemma AddToBucket(t: Table, me: NodeId, node: Node)
    requires Inv(t, me) && BucketAdd(Owner(t, me, node.id), BucketOf(t, me, node.id), MAX_BUCKET_SIZE, node).0
    ensures var (after, result) := Add(t, me, node);
            && Inv(after, me) && after.Keys == t.Keys && result == Get(after, me, node.id)
            && AddEffect(AllNodes(t), BucketOf(t, me, node.id), Get(t, me, node.id), node, AllNodes(after), result,
                         false)
  {
    var p := Owner(t, me, node.id);
    OwnerUnique(t, me, node.id);
    var after := BucketAdd(p, t[p], MAX_BUCKET_SIZE, node).1;
    BucketAddKeeps(p, t[p], MAX_BUCKET_SIZE, node);
    ReplaceBucket(t, me, p, after);
    assert t[p := after].Keys == t.Keys;
    GetMisses(t, me, node.id);
    assert Elements(t[p]) <= AllNodes(t);
    BucketEffect(p, t[p], node, AllNodes(t));
  }

  /** The effect on one bucket is the effect on the table. */
  lemma BucketEffect(p: string, nodes: seq<Node>, node: Node, all: set<Node>)
    requires BucketOk(p, nodes, MAX_BUCKET_SIZE) && Elements(nodes) <= all
    requires BucketAdd(p, nodes, MAX_BUCKET_SIZE, node).0
    requires Find(nodes, node.id).None? ==> node !in all
    ensures var after := BucketAdd(p, nodes, MAX_BUCKET_SIZE, node).1;
            AddEffect(all, nodes, Find(nodes, node.id), node, all - Elements(nodes) + Elements(after),
                      Find(after, node.id), false)
  {
    var after := BucketAdd(p, nodes, MAX_BUCKET_SIZE, node).1;
    match Find(nodes, node.id)
    case Some(known) =>
      BucketUpdateElements(p, nodes, MAX_BUCKET_SIZE, node);
      ExchangeElements(all, Elements(nodes), Elements(after), {known}, known.(address := node.address));
    case None =>
      BucketInsertElements(p, nodes, MAX_BUCKET_SIZE, node);
      ExchangeElements(all, Elements(nodes), Elements(after), Gone(nodes, after), node);
  }

  /** RoutingTable.add conserves nodes, keeps the invariant, and returns what `get` then finds. */
  lemma {:induction false} AddConserves(t: Table, me: NodeId, node: Node)
    requires Inv(t, me)
    ensures var (after, result) := Add(t, me, node);
            && Inv(after, me) && result == Get(after, me, node.id) && Depth(t) <= Depth(after)
            && (after.Keys == t.Keys || Depth(t) < Depth(after))
            && AddEffect(AllNodes(t), BucketOf(t, me, node.id), Get(t, me, node.id), node,
                         AllNodes(after), result, after.Keys != t.Keys)
            && (result.None? <==> Refuses(after, me, node))
    decreases MAX_DEPTH - Depth(t)
  {
    var p := Owner(t, me, node.id);
    OwnerUnique(t, me, node.id);
    if BucketAdd(p, t[p], MAX_BUCKET_SIZE, node).0 {
      AddToBucket(t, me, node);
    } else {
      BucketAddKeeps(p, t[p], MAX_BUCKET_SIZE, node);
      if Owns(p, me) {
        SplitStep(t, me, node);
        AddConserves(SplitAt(t, p), me, node);
      } else {
        RefusedBy(t, me, node);
      }
    }
  }

  /** After the split the newcomer is still unknown, and its bucket has no node that could make room. */
  lemma SplitStep(t: Table, me: NodeId, node: Node)
    requires Inv(t, me)
    requires !BucketAdd(Owner(t, me, node.id), BucketOf(t, me, node.id), MAX_BUCKET_SIZE, node).0
    requires Owner(t, me, node.id) in t && Owns(Owner(t, me, node.id), me)
    ensures var s := SplitAt(t, Owner(t, me, node.id));
            && Inv(s, me) && Depth(s) == Depth(t) + 1 && AllNodes(s) == AllNodes(t)
            && Get(t, me, node.id) == None == Get(s, me, node.id)
            && |BucketOf(t, me, node.id)| == MAX_BUCKET_SIZE && Evicted(BucketOf(t, me, node.id), node) == {}
            && Evicted(BucketOf(s, me, node.id), node) == {}
  {
    var p := Owner(t, me, node.id);
    OwnerUnique(t, me, node.id);
    BucketAddKeeps(p, t[p], MAX_BUCKET_SIZE, node);
    SplitAllowed(t, me, node);
    SplitKeeps(t, me);
    PrefixesSplit(IdToBinaryString(me), Depth(t));
    SplitConserves(t, p);
    var s := SplitAt(t, p);
    GetMisses(t, me, node.id);
    GetMisses(s, me, node.id);
    NoRoom(t[p], node);
    OwnerUnique(s, me, node.id);
    NextBit(p, node.id);
    NoneEvicted(t[p], node);
    NoneEvicted(BucketOf(s, me, node.id), node);
  }

  /** When a full bucket cannot make room, none of its nodes is replaceable. */
  lemma NoRoom(nodes: seq<Node>, node: Node)
    requires |nodes| == MAX_BUCKET_SIZE && |MakeRoom(nodes, MAX_BUCKET_SIZE, node)| >= MAX_BUCKET_SIZE
    ensures forall n :: n in nodes ==> !Bad(n) && !Slow(n, node)
  {
    RemoveFirstNone(nodes, Bad);
    RemoveFirstNone(nodes, n => Slow(n, node));
  }

  lemma NoneEvicted(nodes: seq<Node>, node: Node)
    requires forall n :: n in nodes ==> !Bad(n) && !Slow(n, node)
    ensures Evicted(nodes, node) == {}
  {
  }

  // ------------------------------------------------------------------ runs

  /** The calls that change a table, and the changes other code makes to the nodes in it. */
  datatype Op =
    | AddNode(node: Node)
    | RemoveBadNodes
    | Observe(id: NodeId, failed: nat, rtt: real)

  function Observed(nodes: seq<Node>, id: NodeId, failed: nat, rtt: real): (r: seq<Node>) {
    seq(|nodes|, i requires 0 <= i < |nodes| =>
      if nodes[i].id == id then nodes[i].(failed := failed, rtt := rtt) else nodes[i])
  }

  ghost function Step(t: Table, me: NodeId, op: Op): (r: Table)
    requires Inv(t, me)
  {
    match op
    case AddNode(node) => Add(t, me, node).0
    case RemoveBadNodes => RemoveBad(t)
    case Observe(id, failed, rtt) => map p | p in t :: Observed(t[p], id, failed, rtt)
  }

  lemma RemoveBadKeeps(t: Table, me: NodeId)
    requires Inv(t, me)
    ensures Inv(RemoveBad(t), me)
  {
    hide BucketOk;
    hide Prefixes;
    hide Live;
    var s := RemoveBad(t);
    assert s.Keys == t.Keys;
    forall p | p in s ensures BucketOk(p, s[p], MAX_BUCKET_SIZE) { LiveBucketOk(p, t[p]); }
  }

  lemma LiveBucketOk(p: string, nodes: seq<Node>)
    requires BucketOk(p, nodes, MAX_BUCKET_SIZE)
    ensures BucketOk(p, Live(nodes), MAX_BUCKET_SIZE)
  {
    LiveKeeps(nodes);
  }

  lemma ObservedKeeps(p: string, nodes: seq<Node>, id: NodeId, failed: nat, rtt: real)
    requires BucketOk(p, nodes, MAX_BUCKET_SIZE)
    ensures BucketOk(p, Observed(nodes, id, failed, rtt), MAX_BUCKET_SIZE)
  {
    hide Owns;
    var after := Observed(nodes, id, failed, rtt);
    forall n | n in after ensures Owns(p, n.id) {
      var i :| 0 <= i < |after| && after[i] == n;
      assert nodes[i] in nodes;
    }
  }

  lemma StepKeeps(t: Table, me: NodeId, op: Op)
    requires Inv(t, me)
    ensures Inv(Step(t, me, op), me)
  {
    match op
    case AddNode(node) => AddConserves(t, me, node);
    case RemoveBadNodes => RemoveBadKeeps(t, me);
    case Observe(id, failed, rtt) =>
      var s := Step(t, me, op);
      assert s.Keys == t.Keys;
      forall p | p in s ensures BucketOk(p, s[p], MAX_BUCKET_SIZE) { ObservedKeeps(p, t[p], id, failed, rtt); }
  }

  lemma {:induction false} ObservedFind(nodes: seq<Node>, id: NodeId, failed: nat, rtt: real, other: NodeId)
    ensures Find(Observed(nodes, id, failed, rtt), other) ==
            match Find(nodes, other)
            case None => None
            case Some(n) => Some(if other == id then n.(failed := failed, rtt := rtt) else n)
  {
    if nodes != [] {
      ObservedFind(nodes[1..], id, failed, rtt, other);
      assert Observed(nodes, id, failed, rtt)[1..] == Observed(nodes[1..], id, failed, rtt);
    }
  }

  /** What add and remove_bad_nodes do to the table of a run. */
  lemma StepMeans(t: Table, me: NodeId, op: Op)
    requires Inv(t, me)
    ensures Inv(Step(t, me, op), me)
    ensures op.AddNode? ==>
      var s := Step(t, me, op);
      AddEffect(AllNodes(t), BucketOf(t, me, op.node.id), Get(t, me, op.node.id), op.node,
                AllNodes(s), Get(s, me, op.node.id), s.Keys != t.Keys)
    ensures op.RemoveBadNodes? ==> AllNodes(Step(t, me, op)) == set n | n in AllNodes(t) && n.failed < 2
  {
    StepKeeps(t, me, op);
    match op
    case AddNode(node) => AddConserves(t, me, node);
    case RemoveBadNodes => RemoveBadExact(t);
    case Observe(_, _, _) =>
  }

  /** Failures and round-trip times that other code notes down change the node with that id and no other. */
  lemma ObserveMeans(t: Table, me: NodeId, id: NodeId, failed: nat, rtt: real, other: NodeId)
    requires Inv(t, me)
    ensures Inv(Step(t, me, Observe(id, failed, rtt)), me)
    ensures Get(Step(t, me, Observe(id, failed, rtt)), me, other) ==
            match Get(t, me, other)
            case None => None
            case Some(n) => Some(if other == id then n.(failed := failed, rtt := rtt) else n)
  {
    var s := Step(t, me, Observe(id, failed, rtt));
    StepKeeps(t, me, Observe(id, failed, rtt));
    assert s.Keys == t.Keys && Depth(s) == Depth(t);
    OwnerUnique(t, me, other);
    hide Inv, Find, Observed;
    ObservedFind(t[Owner(t, me, other)], id, failed, rtt, other);
  }

  ghost function Run(me: NodeId, ops: seq<Op>): (t: Table)
    ensures Inv(t, me)
  {
    if ops == [] then
      InitKeeps(me);
      InitTable()
    else
      var before := Run(me, ops[..|ops| - 1]);
      StepKeeps(before, me, ops[|ops| - 1]);
      Step(before, me, ops[|ops| - 1])
  }

  lemma InitKeeps(me: NodeId)
    ensures Inv(InitTable(), me)
  {
    assert Prefixes(IdToBinaryString(me), 0) == {""};
  }

  /**
   After any run: at most 158 buckets of at most 8 nodes, their prefixes are one prefix of our own id and the
   siblings of its bits, are prefix-free and cover every id, and every node is in the one bucket that owns it.
   */
  lemma RunPartition(me: NodeId, ops: seq<Op>, id: NodeId)
    ensures var t := Run(me, ops);
            && |t| <= 158 && t.Keys == Prefixes(IdToBinaryString(me), Depth(t))
            && (forall p :: p in t ==> |p| <= 157 && |t[p]| <= 8)
            && (exists p :: p in t && Owns(p, id))
            && (forall p, q :: p in t && q in t && p <= q ==> p == q)
            && (forall p, n :: p in t && n in t[p] ==> Owns(p, n.id))
  {
    var t := Run(me, ops);
    Partition(t, me, id);
  }

  lemma Partition(t: Table, me: NodeId, id: NodeId)
    requires Inv(t, me)
    ensures |t| <= 158
    ensures forall p :: p in t ==> |p| <= 157 && |t[p]| <= 8
    ensures exists p :: p in t && Owns(p, id)
    ensures forall p, q :: p in t && q in t && p <= q ==> p == q
    ensures forall p, n :: p in t && n in t[p] ==> Owns(p, n.id)
  {
    OwnerUnique(t, me, id);
    hide IdToBinaryString, Owner, Owns;
    forall p | p in t ensures |p| <= 157 {
      assert p in Prefixes(IdToBinaryString(me), Depth(t));
    }
    hide Prefixes;
    forall p, q | p in t && q in t && p <= q ensures p == q {
      PrefixFree(IdToBinaryString(me), Depth(t), p, q);
    }
  }

  /** Bad nodes are the only ones that remove_bad_nodes takes away. */
  lemma RemoveBadExact(t: Table)
    ensures AllNodes(RemoveBad(t)) == set n | n in AllNodes(t) && !Bad(n)
  {
    var s := RemoveBad(t);
    forall n | n in AllNodes(t) && !Bad(n) ensures n in AllNodes(s) {
      var p :| p in t && n in t[p];
      assert n in s[p];
    }
  }
}
