/**
 The routing table as a value: a map from bucket prefixes to the nodes of the bucket,
 in insertion order. The operations of the table are functions on this value; the
 lemmas say what every run of them keeps.
 */
module RoutingSpec {
  import opened BitStrings
  import opened Collections

  const MAX_BUCKET_SIZE: nat := 8

  type Address = (string, int)

  /** A DHT node: `key` is its public key, `rtt` its round-trip time, `failed` its failed queries. */
  datatype Node = Node(id: NodeId, key: Bytes, address: Address, failed: nat, rtt: real)

  type Table = map<string, seq<Node>>

  /** status == NODE_STATUS_BAD. */
  predicate Bad(n: Node) {
    n.failed >= 2
  }

  /** Whether `n` is at least twice as slow as the newcomer. */
  predicate Slow(n: Node, newcomer: Node) {
    newcomer.rtt != 0.0 && n.rtt / newcomer.rtt >= 2.0
  }

  /** Without the division: a newcomer whose round-trip time is not known drives out nobody. */
  lemma SlowMeans(n: Node, newcomer: Node)
    requires newcomer.rtt >= 0.0
    ensures Slow(n, newcomer) <==> newcomer.rtt > 0.0 && n.rtt >= 2.0 * newcomer.rtt
  {
    if newcomer.rtt > 0.0 {
      var q := n.rtt / newcomer.rtt;
      assert n.rtt == q * newcomer.rtt;
      assert q >= 2.0 ==> (q - 2.0) * newcomer.rtt >= 0.0;
      assert q < 2.0 ==> (2.0 - q) * newcomer.rtt > 0.0;
    }
  }

  predicate Owns(prefix: string, id: NodeId) {
    prefix <= IdToBinaryString(id)
  }

  // --------------------------------------------------------------- buckets

  function Find(nodes: seq<Node>, id: NodeId): (r: Option<Node>)
    ensures r.Some? ==> r.value in nodes && r.value.id == id
    ensures r.None? ==> forall n :: n in nodes ==> n.id != id
  {
    if nodes == [] then None
    else if nodes[0].id == id then Some(nodes[0])
    else Find(nodes[1..], id)
  }

  /** Leave out the first node that satisfies p. */
  function RemoveFirst(nodes: seq<Node>, p: Node -> bool): (r: seq<Node>)
    ensures |r| <= |nodes| && forall n :: n in r ==> n in nodes
  {
    if nodes == [] then []
    else if p(nodes[0]) then nodes[1..]
    else [nodes[0]] + RemoveFirst(nodes[1..], p)
  }

  function SetAddress(nodes: seq<Node>, id: NodeId, address: Address): (r: seq<Node>) {
    seq(|nodes|, i requires 0 <= i < |nodes| =>
      if nodes[i].id == id then nodes[i].(address := address) else nodes[i])
  }

  /** A full bucket gives up its first BAD node and then the first node too slow for the newcomer. */
  function MakeRoom(nodes: seq<Node>, maxSize: nat, newcomer: Node): (r: seq<Node>) {
    if |nodes| < maxSize then nodes
    else RemoveFirst(RemoveFirst(nodes, Bad), n => Slow(n, newcomer))
  }

  /** Bucket.add: whether the node was taken, and the nodes afterwards. */
  function BucketAdd(prefix: string, nodes: seq<Node>, maxSize: nat, node: Node): (r: (bool, seq<Node>)) {
    if !Owns(prefix, node.id) then (false, nodes)
    else if Find(nodes, node.id).Some? then (true, SetAddress(nodes, node.id, node.address))
    else
      var room := MakeRoom(nodes, maxSize, node);
      if |room| < maxSize then (true, room + [node]) else (false, room)
  }

  function OwnedBy(prefix: string): (p: Node -> bool) {
    (n: Node) => Owns(prefix, n.id)
  }

  function Owned(prefix: string, nodes: seq<Node>): (r: seq<Node>)
    ensures |r| <= |nodes|
    ensures forall n :: n in r <==> n in nodes && Owns(prefix, n.id)
  {
    FilterMembers(nodes, OwnedBy(prefix));
    Filter(nodes, OwnedBy(prefix))
  }

  predicate NotBad(n: Node) {
    !Bad(n)
  }

  function Live(nodes: seq<Node>): (r: seq<Node>)
    ensures |r| <= |nodes|
    ensures forall n :: n in r <==> n in nodes && !Bad(n)
  {
    FilterMembers(nodes, NotBad);
    Filter(nodes, NotBad)
  }

  ghost predicate DistinctIds(nodes: seq<Node>) {
    forall i, j :: 0 <= i < j < |nodes| ==> nodes[i].id != nodes[j].id
  }

  ghost predicate BucketOk(prefix: string, nodes: seq<Node>, maxSize: nat) {
    && |nodes| <= maxSize && DistinctIds(nodes)
    && forall n :: n in nodes ==> Owns(prefix, n.id)
  }

  /** The nodes that one list has and the other has not. */
  ghost function Gone(before: seq<Node>, after: seq<Node>): (s: set<Node>) {
    set n | n in before && n !in after
  }

  ghost predicate Replaceable(gone: set<Node>, newcomer: Node) {
    forall n :: n in gone ==> Bad(n) || Slow(n, newcomer)
  }

  lemma PrependDistinct(n: Node, rest: seq<Node>)
    requires DistinctIds(rest) && forall m :: m in rest ==> m.id != n.id
    ensures DistinctIds([n] + rest)
  {
  }

  lemma GoneInSteps(a: seq<Node>, b: seq<Node>, c: seq<Node>)
    requires forall n :: n in c ==> n in b
    requires forall n :: n in b ==> n in a
    ensures Gone(a, c) == Gone(a, b) + Gone(b, c)
  {
  }

  lemma {:induction false} RemoveFirstKeeps(nodes: seq<Node>, p: Node -> bool)
    requires DistinctIds(nodes)
    ensures DistinctIds(RemoveFirst(nodes, p))
    ensures |RemoveFirst(nodes, p)| == |nodes| ==> RemoveFirst(nodes, p) == nodes
    ensures |Gone(nodes, RemoveFirst(nodes, p))| <= 1
    ensures forall n :: n in Gone(nodes, RemoveFirst(nodes, p)) ==> p(n)
  {
    var after := RemoveFirst(nodes, p);
    if nodes == [] {
      assert Gone(nodes, after) == {};
    } else {
      var rest := nodes[1..];
      assert nodes == [nodes[0]] + rest;
      if p(nodes[0]) {
        assert nodes[0] !in rest;
        assert Gone(nodes, after) == {nodes[0]};
      } else {
        RemoveFirstKeeps(rest, p);
        PrependDistinct(nodes[0], RemoveFirst(rest, p));
        assert Gone(nodes, after) == Gone(rest, RemoveFirst(rest, p));
      }
    }
  }

  /** Nothing leaves exactly when there is nothing to leave. */
  lemma {:induction false} RemoveFirstNone(nodes: seq<Node>, p: Node -> bool)
    ensures |RemoveFirst(nodes, p)| == |nodes| <==> forall n :: n in nodes ==> !p(n)
    ensures |RemoveFirst(nodes, p)| == |nodes| ==> RemoveFirst(nodes, p) == nodes
  {
    if nodes != [] {
      RemoveFirstNone(nodes[1..], p);
      assert nodes == [nodes[0]] + nodes[1..];
    }
  }

  /** What a full bucket loses: at most one BAD node and at most one slow one, and room only by losing. */
  lemma MakeRoomKeeps(nodes: seq<Node>, maxSize: nat, newcomer: Node)
    requires |nodes| <= maxSize && DistinctIds(nodes)
    ensures var room := MakeRoom(nodes, maxSize, newcomer);
            && DistinctIds(room) && Elements(room) <= Elements(nodes)
            && (|room| >= maxSize ==> room == nodes)
            && |Gone(nodes, room)| <= 2 && (Gone(nodes, room) != {} ==> |nodes| == maxSize)
            && Replaceable(Gone(nodes, room), newcomer)
  {
    var room := MakeRoom(nodes, maxSize, newcomer);
    if |nodes| >= maxSize {
      var once := RemoveFirst(nodes, Bad);
      RemoveFirstKeeps(nodes, Bad);
      RemoveFirstKeeps(once, n => Slow(n, newcomer));
      GoneInSteps(nodes, once, room);
    } else {
      assert Gone(nodes, room) == {};
    }
  }

  // ------------------------------------------------ who leaves a full bucket

  /** The first node of the list that satisfies p. */
  ghost predicate IsFirst(nodes: seq<Node>, p: Node -> bool, n: Node) {
    exists i :: 0 <= i < |nodes| && nodes[i] == n && p(nodes[i]) && forall j :: 0 <= j < i ==> !p(nodes[j])
  }

  /** Too slow for the newcomer, and not the BAD node that leaves anyway. */
  ghost function SlowOther(nodes: seq<Node>, newcomer: Node): (p: Node -> bool) {
    (n: Node) => Slow(n, newcomer) && !IsFirst(nodes, Bad, n)
  }

  /** Whom a newcomer drives out: the first BAD node and the first of the others too slow for it, if there are such. */
  ghost function Evicted(nodes: seq<Node>, newcomer: Node): (s: set<Node>) {
    set n | n in nodes && (IsFirst(nodes, Bad, n) || IsFirst(nodes, SlowOther(nodes, newcomer), n))
  }

  /** Only a full bucket has to give up nodes. */
  ghost function Lost(nodes: seq<Node>, maxSize: nat, newcomer: Node): (s: set<Node>) {
    if |nodes| < maxSize then {} else Evicted(nodes, newcomer)
  }

  ghost function NotIn(gone: set<Node>): (p: Node -> bool) {
    (n: Node) => n !in gone
  }

  lemma IsFirstCons(head: Node, rest: seq<Node>, p: Node -> bool, n: Node)
    ensures IsFirst([head] + rest, p, n) <==> if p(head) then n == head else IsFirst(rest, p, n)
  {
    var nodes := [head] + rest;
    if p(head) {
      assert nodes[0] == head;
    } else {
      if IsFirst(rest, p, n) {
        var i :| 0 <= i < |rest| && rest[i] == n && p(rest[i]) && forall j :: 0 <= j < i ==> !p(rest[j]);
        assert nodes[i + 1] == n && forall j :: 0 <= j < i + 1 ==> !p(nodes[j]);
      }
      if IsFirst(nodes, p, n) {
        var i :| 0 <= i < |nodes| && nodes[i] == n && p(nodes[i]) && forall j :: 0 <= j < i ==> !p(nodes[j]);
        assert rest[i - 1] == n && forall j :: 0 <= j < i - 1 ==> !p(rest[j]) by {
          forall j | 0 <= j < i - 1 ensures !p(rest[j]) { assert nodes[j + 1] == rest[j]; }
        }
      }
    }
  }

  /** Leaving out the first node that satisfies p is keeping all others, in order. */
  lemma {:induction false} RemoveFirstKeepsOthers(nodes: seq<Node>, p: Node -> bool, others: Node -> bool)
    requires DistinctIds(nodes) && forall n :: n in nodes ==> (others(n) <==> !IsFirst(nodes, p, n))
    ensures RemoveFirst(nodes, p) == Filter(nodes, others)
  {
    if nodes != [] {
      var head, rest := nodes[0], nodes[1..];
      assert nodes == [head] + rest;
      forall n ensures IsFirst(nodes, p, n) <==> if p(head) then n == head else IsFirst(rest, p, n) {
        IsFirstCons(head, rest, p, n);
      }
      hide IsFirst;
      if p(head) {
        assert forall n :: n in rest ==> n != head;
        FilterAll(rest, others);
      } else {
        assert !IsFirst(rest, p, head) by { NotFirst(rest, p, head); }
        RemoveFirstKeepsOthers(rest, p, others);
      }
    }
  }

  lemma NotFirst(nodes: seq<Node>, p: Node -> bool, n: Node)
    requires n !in nodes || !p(n)
    ensures !IsFirst(nodes, p, n)
  {
  }

  /** The first of the nodes that satisfy p, among those that satisfy q. */
  lemma {:induction false} FirstAmong(nodes: seq<Node>, q: Node -> bool, p: Node -> bool, both: Node -> bool, n: Node)
    requires forall m :: m in nodes ==> (both(m) <==> q(m) && p(m))
    ensures IsFirst(Filter(nodes, q), p, n) <==> IsFirst(nodes, both, n)
  {
    if nodes != [] {
      var head, rest := nodes[0], nodes[1..];
      assert nodes == [head] + rest;
      FirstAmong(rest, q, p, both, n);
      IsFirstCons(head, rest, both, n);
      IsFirstCons(head, Filter(rest, q), p, n);
    }
  }

  /** Exactly whom a full bucket gives up; the others keep their order. */
  lemma MakeRoomExact(nodes: seq<Node>, maxSize: nat, newcomer: Node)
    requires |nodes| <= maxSize && DistinctIds(nodes)
    ensures MakeRoom(nodes, maxSize, newcomer) == Filter(nodes, NotIn(Lost(nodes, maxSize, newcomer)))
  {
    var slow := (n: Node) => Slow(n, newcomer);
    var lost := Lost(nodes, maxSize, newcomer);
    if |nodes| < maxSize {
      FilterAll(nodes, NotIn(lost));
    } else {
      var first := (n: Node) => !IsFirst(nodes, Bad, n);
      var once := RemoveFirst(nodes, Bad);
      RemoveFirstKeepsOthers(nodes, Bad, first);
      RemoveFirstKeeps(nodes, Bad);
      var second := (n: Node) => !IsFirst(once, slow, n);
      RemoveFirstKeepsOthers(once, slow, second);
      forall n ensures IsFirst(once, slow, n) <==> IsFirst(nodes, SlowOther(nodes, newcomer), n) {
        FirstAmong(nodes, first, slow, SlowOther(nodes, newcomer), n);
      }
      hide IsFirst, RemoveFirst;
      FilterTwice(nodes, first, second, NotIn(lost));
    }
  }

  lemma GoneIsLost(nodes: seq<Node>, maxSize: nat, newcomer: Node)
    requires |nodes| <= maxSize && DistinctIds(nodes)
    ensures Gone(nodes, MakeRoom(nodes, maxSize, newcomer)) == Lost(nodes, maxSize, newcomer)
  {
    var lost := Lost(nodes, maxSize, newcomer);
    MakeRoomExact(nodes, maxSize, newcomer);
    FilterMembers(nodes, NotIn(lost));
    hide MakeRoom, IsFirst;
  }

  lemma {:induction false} FilterDistinctIds(nodes: seq<Node>, p: Node -> bool)
    requires DistinctIds(nodes)
    ensures DistinctIds(Filter(nodes, p))
  {
    if nodes != [] {
      var rest := nodes[1..];
      FilterDistinctIds(rest, p);
      FilterMembers(rest, p);
      if p(nodes[0]) { PrependDistinct(nodes[0], Filter(rest, p)); }
    }
  }

  lemma OwnedKeeps(prefix: string, nodes: seq<Node>)
    requires DistinctIds(nodes)
    ensures DistinctIds(Owned(prefix, nodes))
  {
    FilterDistinctIds(nodes, OwnedBy(prefix));
  }

  lemma LiveKeeps(nodes: seq<Node>)
    requires DistinctIds(nodes)
    ensures DistinctIds(Live(nodes))
  {
    FilterDistinctIds(nodes, NotBad);
  }

  /** Bucket.add keeps the bucket in order; when it refuses, nothing has changed and the bucket is full. */
  lemma BucketAddKeeps(prefix: string, nodes: seq<Node>, maxSize: nat, node: Node)
    requires BucketOk(prefix, nodes, maxSize)
    ensures var (ok, after) := BucketAdd(prefix, nodes, maxSize, node);
            && BucketOk(prefix, after, maxSize)
            && (ok ==> exists n :: n in after && n.id == node.id)
            && (!ok ==> after == nodes)
            && (!ok && Owns(prefix, node.id) ==> |nodes| == maxSize && forall n :: n in nodes ==> n.id != node.id)
  {
    if Owns(prefix, node.id) {
      var known := Find(nodes, node.id);
      if known.Some? {
        var after := SetAddress(nodes, node.id, node.address);
        var i :| 0 <= i < |nodes| && nodes[i] == known.value;
        assert after[i].id == node.id;
        forall n | n in after ensures Owns(prefix, n.id) {
          var k :| 0 <= k < |after| && after[k] == n;
          assert nodes[k] in nodes;
        }
      } else {
        MakeRoomKeeps(nodes, maxSize, node);
        var room := MakeRoom(nodes, maxSize, node);
        assert Elements(room) <= Elements(nodes);
        assert forall n :: n in room ==> n in Elements(nodes);
        assert node in room + [node];
      }
    }
  }

  /** A bucket takes what it owns if it knows the id, has room, or has a node to give up for it. */
  lemma BucketTakes(prefix: string, nodes: seq<Node>, maxSize: nat, node: Node)
    requires BucketOk(prefix, nodes, maxSize)
    ensures BucketAdd(prefix, nodes, maxSize, node).0 <==>
            Owns(prefix, node.id) &&
            (Find(nodes, node.id).Some? || |nodes| < maxSize || Evicted(nodes, node) != {})
  {
    RoomMeans(nodes, maxSize, node);
    hide MakeRoom, Evicted, DistinctIds, Owns, Lost;
  }

  lemma RoomMeans(nodes: seq<Node>, maxSize: nat, node: Node)
    requires |nodes| <= maxSize && DistinctIds(nodes)
    ensures |MakeRoom(nodes, maxSize, node)| < maxSize <==> |nodes| < maxSize || Evicted(nodes, node) != {}
  {
    var lost := Lost(nodes, maxSize, node);
    MakeRoomKeeps(nodes, maxSize, node);
    MakeRoomExact(nodes, maxSize, node);
    FilterAll(nodes, NotIn(lost));
    LostAreNodes(nodes, maxSize, node);
    FilterMembers(nodes, NotIn(lost));
    hide MakeRoom, Evicted, DistinctIds, Replaceable, Elements, Gone;
    if lost != {} {
      var n :| n in lost;
      assert n in nodes && !NotIn(lost)(n);
    }
  }

  lemma LostAreNodes(nodes: seq<Node>, maxSize: nat, node: Node)
    ensures forall n :: n in Lost(nodes, maxSize, node) ==> n in nodes
  {
  }

  /** Adding a known id changes that node's address and nothing else; every node keeps its place. */
  lemma BucketUpdateElements(prefix: string, nodes: seq<Node>, maxSize: nat, node: Node)
    requires BucketOk(prefix, nodes, maxSize) && Owns(prefix, node.id) && Find(nodes, node.id).Some?
    ensures var after := BucketAdd(prefix, nodes, maxSize, node).1;
            var known := Find(nodes, node.id).value;
            var updated := known.(address := node.address);
            && Elements(after) == Elements(nodes) - {known} + {updated} && Find(after, node.id) == Some(updated)
            && |after| == |nodes|
            && forall i :: 0 <= i < |nodes| ==> after[i] == if nodes[i] == known then updated else nodes[i]
  {
    BucketAddKeeps(prefix, nodes, maxSize, node);
    SetAddressElements(nodes, node.id, node.address);
    var after := BucketAdd(prefix, nodes, maxSize, node).1;
    var known := Find(nodes, node.id).value;
    var updated := known.(address := node.address);
    assert updated in Elements(after);
    FindUnique(after, updated);
    var k :| 0 <= k < |nodes| && nodes[k] == known;
    forall i | 0 <= i < |nodes| ensures after[i] == if nodes[i] == known then updated else nodes[i] {
      assert i != k ==> nodes[i].id != nodes[k].id;
    }
  }

  /**
   Adding a new id to a bucket with room changes nothing else. A full bucket loses its first BAD node, if it has one,
   and of the others the first that is too slow for the newcomer, if there is one. All others keep their order, and
   the newcomer comes last.
   */
  lemma BucketInsertElements(prefix: string, nodes: seq<Node>, maxSize: nat, node: Node)
    requires BucketOk(prefix, nodes, maxSize) && Find(nodes, node.id).None?
    requires BucketAdd(prefix, nodes, maxSize, node).0
    ensures var after := BucketAdd(prefix, nodes, maxSize, node).1;
            && after == Filter(nodes, NotIn(Lost(nodes, maxSize, node))) + [node]
            && Gone(nodes, after) == Lost(nodes, maxSize, node) && |Gone(nodes, after)| <= 2
            && (Gone(nodes, after) != {} ==> |nodes| == maxSize) && Replaceable(Gone(nodes, after), node)
            && Elements(after) == Elements(nodes) - Gone(nodes, after) + {node}
            && Find(after, node.id) == Some(node)
  {
    var room := MakeRoom(nodes, maxSize, node);
    NewIsLast(prefix, nodes, maxSize, node);
    hide BucketAdd, MakeRoom, Lost, Replaceable, Gone, Elements, DistinctIds, Owns;
    MakeRoomKeeps(nodes, maxSize, node);
    MakeRoomExact(nodes, maxSize, node);
    GoneIsLost(nodes, maxSize, node);
    InsertElements(nodes, room, node);
  }

  lemma NewIsLast(prefix: string, nodes: seq<Node>, maxSize: nat, node: Node)
    requires BucketOk(prefix, nodes, maxSize) && Find(nodes, node.id).None?
    requires BucketAdd(prefix, nodes, maxSize, node).0
    ensures var after := BucketAdd(prefix, nodes, maxSize, node).1;
            && after == MakeRoom(nodes, maxSize, node) + [node] && Find(after, node.id) == Some(node)
            && node !in nodes
  {
    BucketAddKeeps(prefix, nodes, maxSize, node);
    hide MakeRoom, DistinctIds, Owns;
    FindUnique(MakeRoom(nodes, maxSize, node) + [node], node);
  }

  /** What Bucket.add promises, all in one. */
  lemma BucketAddMeans(prefix: string, nodes: seq<Node>, maxSize: nat, node: Node)
    requires BucketOk(prefix, nodes, maxSize)
    ensures var (ok, after) := BucketAdd(prefix, nodes, maxSize, node);
            var known := Find(nodes, node.id).Some?;
            && BucketOk(prefix, after, maxSize)
            && (ok <==> Owns(prefix, node.id) && (known || |nodes| != maxSize || Evicted(nodes, node) != {}))
            && (!ok ==> after == nodes)
            && (ok && !known ==> after == Filter(nodes, NotIn(Lost(nodes, maxSize, node))) + [node])
  {
    BucketAddKeeps(prefix, nodes, maxSize, node);
    BucketTakes(prefix, nodes, maxSize, node);
    var ok := BucketAdd(prefix, nodes, maxSize, node).0;
    if ok && Find(nodes, node.id).None? { BucketInsertElements(prefix, nodes, maxSize, node); }
    hide BucketAdd, Evicted, Lost, Replaceable, Gone, Elements;
  }

  lemma InsertElements(nodes: seq<Node>, room: seq<Node>, node: Node)
    requires node !in nodes && Elements(room) <= Elements(nodes)
    ensures Gone(nodes, room + [node]) == Gone(nodes, room)
    ensures Elements(room + [node]) == Elements(nodes) - Gone(nodes, room) + {node}
  {
    assert forall n :: n in room ==> n in Elements(room);
  }

  lemma SetAddressElements(nodes: seq<Node>, id: NodeId, address: Address)
    requires DistinctIds(nodes) && Find(nodes, id).Some?
    ensures var known := Find(nodes, id).value;
            Elements(SetAddress(nodes, id, address)) == Elements(nodes) - {known} + {known.(address := address)}
  {
    var known := Find(nodes, id).value;
    var after := SetAddress(nodes, id, address);
    var k :| 0 <= k < |nodes| && nodes[k] == known;
    forall n ensures n in after <==> n in Elements(nodes) - {known} + {known.(address := address)} {
      if n in after {
        var i :| 0 <= i < |after| && after[i] == n;
        assert i != k ==> nodes[i].id != id;
        assert nodes[i] in nodes;
      }
      if n in nodes && n != known {
        var i :| 0 <= i < |nodes| && nodes[i] == n;
        assert after[i] == n;
      }
      assert after[k] == known.(address := address);
    }
  }

  lemma {:induction false} FindUnique(nodes: seq<Node>, n: Node)
    requires DistinctIds(nodes) && n in nodes
    ensures Find(nodes, n.id) == Some(n)
  {
    var i :| 0 <= i < |nodes| && nodes[i] == n;
    var f := Find(nodes, n.id);
    var j :| 0 <= j < |nodes| && nodes[j] == f.value;
  }

  // ---------------------------------------------------------- the prefixes

  /** The sibling of bit i of our own id: its first i bits and the opposite of the next. */
  function Sibling(me: string, i: nat): (s: string)
    requires i < |me|
    ensures |s| == i + 1
  {
    me[..i] + [Flip(me[i])]
  }

  /** The prefixes of a table that has split `depth` times: one prefix of our own id and the siblings of its bits. */
  ghost function Prefixes(me: string, depth: nat): (s: set<string>)
    requires depth <= |me|
  {
    (set i | 0 <= i < depth :: Sibling(me, i)) + {me[..depth]}
  }

  lemma OwnPrefix(me: string, depth: nat)
    requires depth <= |me|
    ensures me[..depth] in Prefixes(me, depth)
  {
  }

  /** How many of the first `depth` bits two ids share. */
  function SharedBits(a: string, b: string, depth: nat): (n: nat)
    requires depth <= |a| && depth <= |b|
    ensures n <= depth && a[..n] == b[..n]
    ensures n < depth ==> a[n] != b[n]
    decreases depth
  {
    if depth == 0 then 0
    else
      var n := SharedBits(a, b, depth - 1);
      if n < depth - 1 || a[n] != b[n] then n else
        assert a[..depth] == a[..n] + [a[n]] && b[..depth] == b[..n] + [b[n]];
        depth
  }

  /** The prefix of the bucket for an id in a table that has split `depth` times. */
  function OwnerPrefix(me: string, depth: nat, bits: string): (p: string)
    requires depth <= |me| && depth <= |bits|
    ensures p <= bits
  {
    var n := SharedBits(bits, me, depth);
    if n < depth then bits[..n + 1] else bits[..depth]
  }

  /** Every id belongs to exactly one of the prefixes. */
  lemma PrefixesCover(me: string, depth: nat, bits: string)
    requires depth <= |me| && |bits| == |me| && IsBits(me) && IsBits(bits)
    ensures OwnerPrefix(me, depth, bits) in Prefixes(me, depth)
    ensures forall p :: p in Prefixes(me, depth) && p <= bits ==> p == OwnerPrefix(me, depth, bits)
  {
    var n := SharedBits(bits, me, depth);
    if n < depth {
      assert bits[..n + 1] == Sibling(me, n);
    }
    forall p | p in Prefixes(me, depth) && p <= bits ensures p == OwnerPrefix(me, depth, bits) {
      if p == me[..depth] {
        assert forall k :: 0 <= k < depth ==> bits[k] == p[k];
      } else {
        var i :| 0 <= i < depth && p == Sibling(me, i);
        assert forall k :: 0 <= k < i ==> bits[k] == p[k] == me[k];
        assert bits[i] == p[i] == Flip(me[i]);
        assert bits[..i + 1] == p;
      }
    }
  }

  /** No prefix of the table extends another. */
  lemma PrefixFree(me: string, depth: nat, p: string, q: string)
    requires depth <= |me| && IsBits(me)
    requires p in Prefixes(me, depth) && q in Prefixes(me, depth) && p <= q
    ensures p == q
  {
    var bits := q + seq(|me| - |q|, i => '0');
    assert q <= bits && p <= bits;
    if q != me[..depth] {
      var i :| 0 <= i < depth && q == Sibling(me, i);
    }
    PrefixesCover(me, depth, bits);
  }

  /** Splitting our own bucket replaces its prefix by its two extensions. */
  lemma PrefixesSplit(me: string, depth: nat)
    requires depth < |me| && IsBits(me)
    ensures Prefixes(me, depth + 1) == Prefixes(me, depth) - {me[..depth]} + {me[..depth] + "0", me[..depth] + "1"}
    ensures me[..depth] + "0" !in Prefixes(me, depth) && me[..depth] + "1" !in Prefixes(me, depth)
  {
    var p := me[..depth];
    assert me[..depth + 1] == p + [me[depth]];
    assert Sibling(me, depth) == p + [Flip(me[depth])];
    assert forall q :: q in Prefixes(me, depth) ==> |q| <= depth;
    forall i | 0 <= i <= depth ensures Sibling(me, i) != p {
      if i < depth { assert Sibling(me, i)[i] != p[i]; }
    }
    forall q ensures q in Prefixes(me, depth + 1) <==> q in Prefixes(me, depth) - {p} + {p + "0", p + "1"} {
      if q in Prefixes(me, depth + 1) && q != me[..depth + 1] {
        var i :| 0 <= i < depth + 1 && q == Sibling(me, i);
      }
      if q in Prefixes(me, depth) && q != p {
        var i :| 0 <= i < depth && q == Sibling(me, i);
      }
    }
  }

  // ------------------------------------------------------------- the table

  ghost predicate BucketsOk(t: Table) {
    forall p :: p in t ==> BucketOk(p, t[p], MAX_BUCKET_SIZE)
  }

  /** How often the table has split. */
  function Depth(t: Table): int {
    |t| - 1
  }

  const MAX_DEPTH: nat := 157

  /** What every routing table keeps. */
  ghost predicate Inv(t: Table, me: NodeId) {
    && 0 <= Depth(t) <= MAX_DEPTH
    && t.Keys == Prefixes(IdToBinaryString(me), Depth(t))
    && BucketsOk(t)
  }

  /** RoutingTable.__init__. */
  function InitTable(): (t: Table) {
    map["" := []]
  }

  /** The key of get_bucket(id). */
  function Owner(t: Table, me: NodeId, id: NodeId): (p: string)
    requires 0 <= Depth(t) <= MAX_DEPTH
  {
    OwnerPrefix(IdToBinaryString(me), Depth(t), IdToBinaryString(id))
  }

  /** The bucket of an id exists, owns the id, and is the only one that does. */
  lemma OwnerUnique(t: Table, me: NodeId, id: NodeId)
    requires Inv(t, me)
    ensures Owner(t, me, id) in t && Owns(Owner(t, me, id), id)
    ensures forall p :: p in t && Owns(p, id) ==> p == Owner(t, me, id)
  {
    PrefixesCover(IdToBinaryString(me), Depth(t), IdToBinaryString(id));
  }

  lemma OwnerIs(t: Table, me: NodeId, id: NodeId, p: string)
    requires Inv(t, me) && p in t && Owns(p, id)
    ensures p == Owner(t, me, id)
  {
    OwnerUnique(t, me, id);
  }

  lemma OwnerExists(t: Table, me: NodeId, id: NodeId)
    requires Inv(t, me)
    ensures Owner(t, me, id) in t && Owner(t, me, id) <= IdToBinaryString(id)
  {
    OwnerUnique(t, me, id);
  }

  /** RoutingTable.get. */
  ghost function Get(t: Table, me: NodeId, id: NodeId): (r: Option<Node>)
    requires Inv(t, me)
  {
    OwnerUnique(t, me, id);
    Find(t[Owner(t, me, id)], id)
  }

  /** Bucket.split and the three trie updates that follow it. */
  function SplitAt(t: Table, p: string): (r: Table)
    requires p in t
  {
    (t - {p})[p + "0" := Owned(p + "0", t[p])][p + "1" := Owned(p + "1", t[p])]
  }

  /** RoutingTable.add: the table afterwards and the node returned. */
  ghost function Add(t: Table, me: NodeId, node: Node): (r: (Table, Option<Node>))
    requires Inv(t, me)
    decreases MAX_DEPTH - Depth(t)
  {
    OwnerUnique(t, me, node.id);
    var p := Owner(t, me, node.id);
    var (ok, after) := BucketAdd(p, t[p], MAX_BUCKET_SIZE, node);
    if ok then (t[p := after], Find(after, node.id))
    else if Owns(p, me) then
      SplitAllowed(t, me, node);
      SplitKeeps(t, me);
      Add(SplitAt(t, p), me, node)
    else (t, None)
  }

  /** RoutingTable.remove_bad_nodes. */
  function RemoveBad(t: Table): (r: Table) {
    map p | p in t :: Live(t[p])
  }

  /** Nine ids under one prefix need at least four more bits. */
  lemma NineIdsNeedBits(p: string, nodes: seq<Node>, id: NodeId)
    requires DistinctIds(nodes) && |nodes| == MAX_BUCKET_SIZE
    requires Owns(p, id) && forall n :: n in nodes ==> Owns(p, n.id) && n.id != id
    ensures |p| < MAX_DEPTH
  {
    var ids := (set n | n in nodes :: n.id) + {id};
    IdCount(nodes);
    var tails := set i | i in ids :: IdToBinaryString(i)[|p|..];
    TailsOfIds(ids, p);
    forall b | b in tails ensures |b| == ID_BITS - |p| && IsBits(b) {
      var i :| i in ids && b == IdToBinaryString(i)[|p|..];
    }
    BitStringCount(tails, ID_BITS - |p|);
    if |p| >= MAX_DEPTH { FewBits(ID_BITS - |p|); }
  }

  lemma FewBits(n: nat)
    requires n <= 3
    ensures Pow2(n) <= 8
  {
    assert Pow2(0) == 1 && Pow2(1) == 2 && Pow2(2) == 4 && Pow2(3) == 8;
  }

  lemma {:induction false} IdCount(nodes: seq<Node>)
    requires DistinctIds(nodes)
    ensures |set n | n in nodes :: n.id| == |nodes|
  {
    if nodes == [] {
      assert (set n | n in nodes :: n.id) == {};
    } else {
      var rest := nodes[1..];
      IdCount(rest);
      assert nodes == [nodes[0]] + rest;
      assert (set n | n in nodes :: n.id) == (set n | n in rest :: n.id) + {nodes[0].id};
    }
  }

  lemma {:induction false} TailsOfIds(ids: set<NodeId>, p: string)
    requires |p| <= ID_BITS && forall i :: i in ids ==> Owns(p, i)
    ensures |set i | i in ids :: IdToBinaryString(i)[|p|..]| == |ids|
    decreases ids
  {
    hide ToBits;
    hide BigEndian;
    var tails := set i | i in ids :: IdToBinaryString(i)[|p|..];
    if ids == {} {
      assert tails == {};
    } else {
      var j :| j in ids;
      var rest := ids - {j};
      var restTails := set i | i in rest :: IdToBinaryString(i)[|p|..];
      TailsOfIds(rest, p);
      var tail := IdToBinaryString(j)[|p|..];
      forall i | i in rest ensures IdToBinaryString(i)[|p|..] != tail {
        if IdToBinaryString(i)[|p|..] == tail {
          assert IdToBinaryString(i) == p + tail == IdToBinaryString(j);
          IdBitsInjective(i, j);
        }
      }
      assert tails == restTails + {tail};
    }
  }

  /** A split is only ever asked of our own bucket, when it is full and its prefix short enough. */
  lemma SplitAllowed(t: Table, me: NodeId, node: Node)
    requires Inv(t, me)
    requires var p := Owner(t, me, node.id);
             p in t && Owns(p, me) && !BucketAdd(p, t[p], MAX_BUCKET_SIZE, node).0
    ensures var p := Owner(t, me, node.id);
            p == IdToBinaryString(me)[..Depth(t)] && |t[p]| == MAX_BUCKET_SIZE && Depth(t) < MAX_DEPTH
  {
    var p := Owner(t, me, node.id);
    var bits, depth := IdToBinaryString(me), Depth(t);
    OwnerUnique(t, me, me);
    OwnerUnique(t, me, node.id);
    assert bits[..depth] in t && Owns(bits[..depth], me);
    BucketAddKeeps(p, t[p], MAX_BUCKET_SIZE, node);
    NineIdsNeedBits(p, t[p], node.id);
  }

  lemma SplitKeys(t: Table, p: string)
    requires p in t && p + "0" !in t && p + "1" !in t
    ensures SplitAt(t, p).Keys == t.Keys - {p} + {p + "0", p + "1"}
    ensures |SplitAt(t, p)| == |t| + 1
  {
    assert (p + "0")[|p|] != (p + "1")[|p|];
    var s := SplitAt(t, p);
    assert s.Keys == t.Keys - {p} + {p + "0", p + "1"};
    assert |s.Keys| == |t.Keys - {p}| + 2;
  }

  lemma SplitBuckets(t: Table, p: string)
    requires p in t && BucketsOk(t)
    ensures BucketsOk(SplitAt(t, p))
  {
    OwnedKeeps(p + "0", t[p]);
    OwnedKeeps(p + "1", t[p]);
  }

  /** Splitting our own bucket keeps the table in order. */
  lemma SplitKeeps(t: Table, me: NodeId)
    requires Inv(t, me) && Depth(t) < MAX_DEPTH
    ensures var p := IdToBinaryString(me)[..Depth(t)];
            p in t && Inv(SplitAt(t, p), me) && Depth(SplitAt(t, p)) == Depth(t) + 1
  {
    var bits := IdToBinaryString(me);
    hide IdToBinaryString;
    hide Prefixes;
    hide BucketsOk;
    var p := bits[..Depth(t)];
    assert p in t by { assert p in Prefixes(bits, Depth(t)) by { OwnPrefix(bits, Depth(t)); } }
    PrefixesSplit(bits, Depth(t));
    hide SplitAt;
    SplitKeys(t, p);
    SplitBuckets(t, p);
  }
}
