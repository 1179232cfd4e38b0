/**
 Buckets and the routing table as the objects they are in the program, each operation
 proved against the function on values that specifies it.
 */
module Routing {
  import opened BitStrings
  import opened Collections
  import opened Ranking
  import opened Tries
  import opened RoutingSpec
  import opened RoutingRuns
  import opened RoutingSearch

  lemma {:induction false} RemoveFirstAt(nodes: seq<Node>, p: Node -> bool, i: nat)
    requires i < |nodes| && p(nodes[i]) && forall j :: 0 <= j < i ==> !p(nodes[j])
    ensures RemoveFirst(nodes, p) == nodes[..i] + nodes[i + 1..]
  {
    if i > 0 {
      RemoveFirstAt(nodes[1..], p, i - 1);
      assert nodes[..i] == [nodes[0]] + nodes[1..][..i - 1];
      assert nodes[1..][i..] == nodes[i + 1..];
    }
  }

  ghost function BadOf(nodes: seq<Node>): (s: set<Node>) {
    set n | n in nodes && Bad(n)
  }

  /** The first i nodes have been looked at, and the bad ones among them moved to `removed`. */
  ghost predicate Popping(all: seq<Node>, i: nat, nodes: seq<Node>, removed: seq<Node>) {
    && i <= |all| && nodes == Live(all[..i]) + all[i..]
    && |removed| + |Live(all[..i])| == i && Elements(removed) == BadOf(all[..i])
  }

  lemma PopStep(all: seq<Node>, i: nat, nodes: seq<Node>, removed: seq<Node>)
    requires i < |all| && Popping(all, i, nodes, removed)
    ensures var k := i - |removed|;
            && 0 <= k < |nodes|
            && Popping(all, i + 1, if Bad(all[i]) then nodes[..k] + nodes[k + 1..] else nodes,
                       if Bad(all[i]) then removed + [all[i]] else removed)
  {
    var kept := Live(all[..i]);
    LiveSnoc(all, i);
    hide Live;
    assert nodes == (kept + [all[i]]) + all[i + 1..];
    assert nodes[..|kept|] + nodes[|kept| + 1..] == kept + all[i + 1..];
    ElementsJoin(removed, [all[i]]);
  }

  lemma PopEnds(all: seq<Node>)
    ensures Popping(all, 0, all, [])
    ensures forall nodes, removed :: Popping(all, |all|, nodes, removed) ==>
              nodes == Live(all) && Elements(removed) == BadOf(all)
  {
    assert all[..0] == [] && all[0..] == all && all[..|all|] == all;
  }

  lemma LiveSnoc(nodes: seq<Node>, i: nat)
    requires i < |nodes|
    ensures Live(nodes[..i + 1]) == Live(nodes[..i]) + (if Bad(nodes[i]) then [] else [nodes[i]])
    ensures BadOf(nodes[..i + 1]) == BadOf(nodes[..i]) + (if Bad(nodes[i]) then {nodes[i]} else {})
  {
    assert nodes[..i + 1] == nodes[..i] + [nodes[i]];
    FilterAppend(nodes[..i], nodes[i], NotBad);
  }

  /** The table when the buckets of some prefixes have been cleaned, and the bad nodes of those. */
  ghost function Cleaned(t: Table, ps: set<string>): (r: Table) {
    map p | p in t :: if p in ps then Live(t[p]) else t[p]
  }

  ghost function BadIn(t: Table, ps: set<string>): (s: set<Node>) {
    set p, n | p in t && p in ps && n in t[p] && Bad(n) :: n
  }

  class Bucket {
    var nodes: seq<Node>
    const prefixId: string
    const maxSize: nat
    var lastChanged: real

    constructor (prefixId: string, maxSize: nat)
      ensures nodes == [] && this.prefixId == prefixId && this.maxSize == maxSize && lastChanged == 0.0
    {
      nodes := [];
      this.prefixId := prefixId;
      this.maxSize := maxSize;
      lastChanged := 0.0;
    }

    ghost predicate Valid()
      reads this
    {
      BucketOk(prefixId, nodes, maxSize)
    }

    /** The loops that make room: pop the first node that satisfies p, if there is one. */
    method Evict(p: Node -> bool)
      modifies this`nodes
      ensures nodes == RemoveFirst(old(nodes), p)
    {
      for i := 0 to |nodes|
        invariant nodes == old(nodes) && forall j :: 0 <= j < i ==> !p(nodes[j])
      {
        if p(nodes[i]) {
          RemoveFirstAt(nodes, p, i);
          nodes := nodes[..i] + nodes[i + 1..];
          return;
        }
      }
      RemoveFirstNone(nodes, p);
    }

    /** add. Who leaves a full bucket is exactly Evicted: the first BAD node and the first other one too slow. */
    method Add(node: Node, now: real) returns (ok: bool)
      requires Valid()
      modifies this
      ensures Valid() && (ok, nodes) == BucketAdd(prefixId, old(nodes), maxSize, node)
      ensures lastChanged == if ok then now else old(lastChanged)
      ensures var known, full := Find(old(nodes), node.id).Some?, |old(nodes)| == maxSize;
              && (ok <==> Owns(prefixId, node.id) && (known || !full || Evicted(old(nodes), node) != {}))
              && (!ok ==> nodes == old(nodes))
              && (ok && !known ==> nodes == Filter(old(nodes), NotIn(Lost(old(nodes), maxSize, node))) + [node])
    {
      BucketAddMeans(prefixId, nodes, maxSize, node);
      if !Owns(prefixId, node.id) {
        return false;
      }
      if Find(nodes, node.id).Some? {
        nodes := SetAddress(nodes, node.id, node.address);
        lastChanged := now;
        return true;
      }
      if |nodes| >= maxSize {
        Evict(Bad);
        Evict(n => Slow(n, node));
      }
      if |nodes| < maxSize {
        nodes := nodes + [node];
        lastChanged := now;
        return true;
      }
      return false;
    }

    /** The inner loop of remove_bad_nodes. */
    method RemoveBad() returns (removed: seq<Node>)
      modifies this`nodes
      ensures nodes == Live(old(nodes)) && Elements(removed) == BadOf(old(nodes))
    {
      var all := nodes;
      removed := [];
      PopEnds(all);
      hide Popping;
      for i := 0 to |all|
        invariant Popping(all, i, nodes, removed)
      {
        PopStep(all, i, nodes, removed);
        if Bad(all[i]) {
          var k := i - |removed|;
          nodes := nodes[..k] + nodes[k + 1..];
          removed := removed + [all[i]];
        }
      }
    }

    /** Split this bucket in two; None unless it is full. */
    method Split(now: real) returns (r: Option<(Bucket, Bucket)>)
      requires Valid()
      ensures r.None? <==> |nodes| < maxSize
      ensures r.Some? ==>
        && fresh(r.value.0) && fresh(r.value.1) && r.value.0 != r.value.1
        && r.value.0.prefixId == prefixId + "0" && r.value.0.maxSize == maxSize
        && r.value.1.prefixId == prefixId + "1" && r.value.1.maxSize == maxSize
        && r.value.0.nodes == Owned(prefixId + "0", nodes)
        && r.value.1.nodes == Owned(prefixId + "1", nodes)
        && (|prefixId| < ID_BITS ==> AllPlaced(nodes, r.value.0.nodes, r.value.1.nodes))
    {
      if |nodes| < maxSize {
        return None;
      }
      BothSides(prefixId, nodes);
      hide Owns, BucketAdd, RoutingSpec.Owned, AllPlaced, Valid;
      var b0 := new Bucket(prefixId + "0", maxSize);
      var b1 := new Bucket(prefixId + "1", maxSize);
      ghost var p0, p1 := prefixId + "0", prefixId + "1";
      for i := 0 to |nodes|
        invariant b0.Valid() && b1.Valid() && fresh(b0) && fresh(b1) && b0 != b1
        invariant nodes == old(nodes) && b0.prefixId == p0 && b1.prefixId == p1
        invariant b0.nodes == Owned(p0, nodes[..i]) && b1.nodes == Owned(p1, nodes[..i])
      {
        PlaceNode(b0, b1, i, now);
      }
      assert nodes[..|nodes|] == nodes;
      r := Some((b0, b1));
    }

    /** One turn of the loop of Split: the next node goes to the half that owns it. */
    method PlaceNode(b0: Bucket, b1: Bucket, i: nat, now: real)
      requires Valid() && i < |nodes| && b0 != this && b1 != this && b0 != b1 && b0.Valid() && b1.Valid()
      requires b0.prefixId == prefixId + "0" && b1.prefixId == prefixId + "1" && b0.maxSize == b1.maxSize == maxSize
      requires b0.nodes == Owned(b0.prefixId, nodes[..i]) && b1.nodes == Owned(b1.prefixId, nodes[..i])
      modifies b0, b1
      ensures b0.Valid() && b1.Valid()
      ensures b0.nodes == Owned(b0.prefixId, nodes[..i + 1]) && b1.nodes == Owned(b1.prefixId, nodes[..i + 1])
    {
      PlaceNext(b0.prefixId, nodes, maxSize, i);
      PlaceNext(b1.prefixId, nodes, maxSize, i);
      OneSide(prefixId, nodes[i].id);
      hide Owns, BucketAdd, RoutingSpec.Owned, BucketOk;
      var placed;
      if Owns(b0.prefixId, nodes[i].id) {
        placed := b0.Add(nodes[i], now);
      } else if Owns(b1.prefixId, nodes[i].id) {
        placed := b1.Add(nodes[i], now);
      }
    }
  }

  /** Adding the nodes of a bucket one by one to a new bucket collects the ones it owns. */
  lemma PlaceNext(prefix: string, nodes: seq<Node>, maxSize: nat, i: nat)
    requires DistinctIds(nodes) && i < |nodes| <= maxSize
    ensures var before, after := Owned(prefix, nodes[..i]), Owned(prefix, nodes[..i + 1]);
            if Owns(prefix, nodes[i].id) then BucketAdd(prefix, before, maxSize, nodes[i]) == (true, after)
            else after == before
  {
    assert nodes[..i + 1] == nodes[..i] + [nodes[i]];
    FilterAppend(nodes[..i], nodes[i], OwnedBy(prefix));
  }

  /** Every node of the list is in one of the halves. */
  ghost predicate AllPlaced(nodes: seq<Node>, half0: seq<Node>, half1: seq<Node>) {
    forall n :: n in nodes ==> n in half0 || n in half1
  }

  lemma BothSides(prefix: string, nodes: seq<Node>)
    requires forall n :: n in nodes ==> Owns(prefix, n.id)
    ensures |prefix| < ID_BITS ==> AllPlaced(nodes, Owned(prefix + "0", nodes), Owned(prefix + "1", nodes))
  {
    hide Owns, RoutingSpec.Owned;
    if |prefix| < ID_BITS {
      forall n | n in nodes ensures Owns(prefix + "0", n.id) || Owns(prefix + "1", n.id) { NextBit(prefix, n.id); }
    }
  }

  lemma OneSide(prefix: string, id: NodeId)
    ensures !(Owns(prefix + "0", id) && Owns(prefix + "1", id))
  {
    assert (prefix + "0")[|prefix|] != (prefix + "1")[|prefix|];
  }

  /** The value has the nodes of the objects, bucket by bucket. */
  ghost predicate Mirrors(buckets: map<string, Bucket>, table: Table, repr: set<Bucket>)
    reads repr
  {
    && buckets.Keys == table.Keys
    && forall p :: p in buckets ==>
         && buckets[p] in repr && buckets[p].prefixId == p && buckets[p].maxSize == MAX_BUCKET_SIZE
         && buckets[p].nodes == table[p]
  }

  class RoutingTable {
    const myNodeId: NodeId
    const trie: Trie<Bucket>
    /** The value the whole table stands for. */
    ghost var table: Table
    ghost var repr: set<Bucket>

    ghost predicate Valid()
      reads this, trie, trie.nodes, repr
    {
      Linked() && Inv(table, myNodeId)
    }

    /** The trie holds the buckets, and the buckets hold the table. */
    ghost predicate Linked()
      reads this, trie, trie.nodes, repr
    {
      && trie.Valid() && trie.alphabet == "01" && trie.NoDeadBranches() && trie.Ascending()
      && Mirrors(trie.contents, table, repr)
    }

    constructor (myNodeId: NodeId)
      ensures Valid() && table == InitTable() && this.myNodeId == myNodeId
      ensures fresh(trie) && fresh(trie.nodes) && fresh(repr)
    {
      this.myNodeId := myNodeId;
      var t := new Trie<Bucket>("01");
      hide Trie.Valid, Trie.NoDeadBranches, Trie.Ascending, Inv;
      var root := new Bucket("", MAX_BUCKET_SIZE);
      var ok := t.Set("", root);
      trie := t;
      table := InitTable();
      repr := {root};
      InitKeeps(myNodeId);
    }

    /** self.trie.longest_prefix_item(bits): the prefix of the owner, and its bucket unless that is the root. */
    method FindItem(nodeId: NodeId) returns (p: string, b: Option<Bucket>)
      requires Valid()
      ensures p == Owner(table, myNodeId, nodeId) && p in trie.contents
      ensures if p == "" then b == None else b == Some(trie.contents[p])
    {
      OwnerExists(table, myNodeId, nodeId);
      ghost var own := Owner(table, myNodeId, nodeId);
      hide Trie.Valid, Trie.NoDeadBranches, Trie.Ascending, Inv, IdToBinaryString, Owner;
      assert own in trie.contents;
      hide Mirrors;
      var item := trie.LongestPrefixItem(IdToBinaryString(nodeId));
      if item.Some? {
        OwnerIs(table, myNodeId, nodeId, item.value.0);
        return item.value.0, Some(item.value.1);
      }
      return "", None;
    }

    /** get_bucket never raises: it finds the one bucket that owns the id. */
    method GetBucket(nodeId: NodeId) returns (b: Bucket)
      requires Valid()
      ensures Owner(table, myNodeId, nodeId) in trie.contents && b == trie.contents[Owner(table, myNodeId, nodeId)]
      ensures b.prefixId == Owner(table, myNodeId, nodeId) && b in repr
      ensures b.prefixId in table && b.nodes == table[b.prefixId] && b.Valid()
    {
      var p, item := FindItem(nodeId);
      hide Trie.Valid, Trie.NoDeadBranches, Trie.Ascending, Inv, BucketOk, IdToBinaryString, Owner;
      assert p in table;
      hide Mirrors;
      BucketIsOk(table, myNodeId, p);
      MirrorAt(trie.contents, table, repr, p);
      if item.Some? {
        return item.value;
      }
      var root := trie.Get("");
      b := root.value;
    }

    method Get(nodeId: NodeId) returns (n: Option<Node>)
      requires Valid()
      ensures n == RoutingSpec.Get(table, myNodeId, nodeId)
    {
      var b := GetBucket(nodeId);
      n := Find(b.nodes, nodeId);
    }

    /** The three trie updates after a split; none of them raises. */
    method ReplaceInTrie(p: string, b0: Bucket, b1: Bucket)
      requires trie.Valid() && trie.NoDeadBranches() && trie.Ascending() && trie.alphabet == "01"
      requires Spellable(p, "01") && IsLeaf(trie.contents, p)
      modifies trie`at, trie`nodes, trie`contents, trie.nodes
      ensures trie.Valid() && trie.NoDeadBranches() && trie.Ascending() && fresh(trie.nodes - old(trie.nodes))
      ensures trie.contents == SplitMap(old(trie.contents), p, b0, b1)
    {
      hide Trie.Valid, Trie.NoDeadBranches, Trie.Ascending;
      assert Spellable(p + "0", "01") && Spellable(p + "1", "01");
      ghost var before := trie.contents;
      HalvesComeLast(before, p, b0);
      hide Spellable, ComesLast, IsLeaf;
      var set0 := trie.Set(p + "0", b0);
      var set1 := trie.Set(p + "1", b1);
      ghost var both := trie.contents;
      SplitMapKeys(before, both, p, b0, b1);
      var deleted := trie.Delete(p);
      assert set0 && set1 && deleted;
    }

    /** bucket.split() and what add does with it. */
    method SplitBucket(bucket: Bucket, now: real)
      requires Linked() && Spellable(bucket.prefixId, "01") && bucket.Valid()
      requires bucket.prefixId in trie.contents && trie.contents[bucket.prefixId] == bucket
      requires |bucket.nodes| == MAX_BUCKET_SIZE && IsLeaf(trie.contents, bucket.prefixId)
      modifies this`table, this`repr, trie`at, trie`nodes, trie`contents, trie.nodes
      ensures Linked() && fresh(repr - old(repr)) && fresh(trie.nodes - old(trie.nodes))
      ensures table == SplitAt(old(table), bucket.prefixId)
    {
      hide Trie.Valid, Trie.NoDeadBranches, Trie.Ascending, SplitAt, IsLeaf;
      var split := bucket.Split(now);
      var (b0, b1) := split.value;
      Exchange(bucket.prefixId, b0, b1);
    }

    /** Two halves take the place of the bucket they come from. */
    method Exchange(p: string, b0: Bucket, b1: Bucket)
      requires Linked() && Spellable(p, "01") && p in table && IsLeaf(trie.contents, p)
      requires IsHalf(b0, p + "0", table[p]) && IsHalf(b1, p + "1", table[p])
      modifies this`table, this`repr, trie`at, trie`nodes, trie`contents, trie.nodes
      ensures Linked() && repr == old(repr) + {b0, b1} && fresh(trie.nodes - old(trie.nodes))
      ensures table == SplitAt(old(table), p)
    {
      hide Trie.Valid, Trie.NoDeadBranches, Trie.Ascending, SplitAt, Spellable, IsHalf;
      ghost var t, buckets := SplitAt(table, p), repr + {b0, b1};
      MirrorSplit(trie.contents, table, repr, p, b0, b1);
      hide Mirrors, SplitMap;
      ReplaceInTrie(p, b0, b1);
      assert Mirrors(trie.contents, t, buckets);
      table, repr := t, buckets;
    }

    method SplitOwn(bucket: Bucket, now: real)
      requires Valid() && Depth(table) < MAX_DEPTH
      requires bucket.prefixId == IdToBinaryString(myNodeId)[..Depth(table)]
      requires bucket.prefixId in trie.contents && trie.contents[bucket.prefixId] == bucket
      requires |bucket.nodes| == MAX_BUCKET_SIZE
      modifies this`table, this`repr, trie`at, trie`nodes, trie`contents, trie.nodes
      ensures Valid() && fresh(repr - old(repr)) && fresh(trie.nodes - old(trie.nodes))
      ensures table == SplitAt(old(table), bucket.prefixId)
    {
      SplitKeeps(table, myNodeId);
      PrefixSpellable(myNodeId, Depth(table));
      OwnIsLeaf(table, myNodeId, trie.contents);
      assert BucketOk(bucket.prefixId, table[bucket.prefixId], MAX_BUCKET_SIZE);
      SplitBucket(bucket, now);
    }

    /** bucket.add(node) for a bucket of this table. */
    method AddToBucket(bucket: Bucket, node: Node, now: real) returns (ok: bool)
      requires Linked() && bucket.prefixId in trie.contents && trie.contents[bucket.prefixId] == bucket
      requires bucket.Valid()
      modifies this`table, bucket
      ensures Linked()
      ensures var p := bucket.prefixId;
              && p in old(table) && (ok, bucket.nodes) == BucketAdd(p, old(table)[p], MAX_BUCKET_SIZE, node)
              && table == old(table)[p := bucket.nodes]
    {
      hide Trie.Valid;
      hide Trie.NoDeadBranches;
      hide BucketAdd;
      ok := bucket.Add(node, now);
      table := table[bucket.prefixId := bucket.nodes];
    }

    method Add(node: Node, now: real) returns (r: Option<Node>)
      requires Valid()
      modifies this`table, this`repr, trie`at, trie`nodes, trie`contents, trie.nodes, repr
      ensures Valid() && fresh(repr - old(repr)) && fresh(trie.nodes - old(trie.nodes))
      ensures (table, r) == RoutingSpec.Add(old(table), myNodeId, node)
      decreases MAX_DEPTH - Depth(table)
    {
      hide Linked, Inv, RoutingSpec.Add, BucketAdd, Owner, Owns, SplitAt, IdToBinaryString;
      var bucket := GetBucket(node.id);
      AddCases(table, myNodeId, node);
      var ok := AddToBucket(bucket, node, now);
      if ok {
        r := Find(bucket.nodes, node.id);
      } else if Owns(bucket.prefixId, myNodeId) {
        SplitOwn(bucket, now);
        r := Add(node, now);
      } else {
        r := None;
      }
    }

    /** Clean one bucket of this table. */
    method CleanBucket(bucket: Bucket) returns (removed: seq<Node>)
      requires Linked() && bucket.prefixId in trie.contents && trie.contents[bucket.prefixId] == bucket
      modifies this`table, bucket`nodes
      ensures Linked()
      ensures var p := bucket.prefixId;
              p in old(table) && table == old(table)[p := Live(old(table)[p])] &&
              Elements(removed) == BadOf(old(table)[p])
    {
      hide Trie.Valid;
      hide Trie.NoDeadBranches;
      removed := bucket.RemoveBad();
      table := table[bucket.prefixId := bucket.nodes];
    }

    /** self.trie.values(). */
    method ListBuckets() returns (vals: seq<Bucket>, ghost keys: seq<string>)
      requires Linked()
      ensures NoDuplicates(keys) && Elements(keys) == table.Keys && |vals| == |keys|
      ensures forall i :: 0 <= i < |vals| ==>
        && vals[i] in repr && vals[i].prefixId == keys[i]
        && keys[i] in trie.contents && trie.contents[keys[i]] == vals[i]
    {
      vals, keys := trie.Values();
      assert forall i :: 0 <= i < |keys| ==> keys[i] in Elements(keys);
    }

    method RemoveBadNodes() returns (removed: seq<Node>)
      requires Valid()
      modifies this`table, repr`nodes
      ensures Valid() && repr == old(repr) && table == RemoveBad(old(table))
      ensures forall n :: n in removed <==> n in AllNodes(old(table)) && Bad(n)
    {
      hide Linked;
      hide Inv;
      hide Cleaned;
      hide RemoveBad;
      var vals; ghost var keys;
      vals, keys := ListBuckets();
      removed := [];
      ghost var t := table;
      CleanStart(t);
      RemoveBadKeeps(t, myNodeId);
      for i := 0 to |vals|
        invariant Linked() && table == Cleaned(t, Elements(keys[..i])) && repr == old(repr)
        invariant Elements(removed) == BadIn(t, Elements(keys[..i]))
      {
        CleanStep(t, keys, i);
        var more := CleanBucket(vals[i]);
        ElementsJoin(removed, more);
        removed := removed + more;
      }
      assert keys[..|keys|] == keys;
      CleanDone(t, Elements(keys), removed);
    }

    /** One round of the widening loop: `visited` adds the nodes of every bucket below the first i bits to `order`. */
    method CollectLevel(prefix: string, i: nat, found: seq<Node>, exclude: Option<NodeId>, ghost order: seq<Node>)
      returns (r: seq<Node>, ghost visited: seq<Node>)
      requires Linked() && OnePlace(table) && i <= |prefix| && Widened(order, table, prefix, i + 1)
      requires found == CollectNew([], order, exclude)
      ensures r == CollectNew([], visited, exclude) && Widened(visited, table, prefix, i)
    {
      r, visited := found, order;
      var q := prefix[..i];
      var suffixes := trie.Suffixes(q);
      ghost var t := table;
      WidenStart(order, t, prefix, i);
      hide OnePlace, InTurnSince, CollectNew, Widened, LexAscending, Trie.Valid, Trie.NoDeadBranches, Trie.Ascending;
      for j := 0 to |suffixes|
        invariant r == CollectNew([], visited, exclude) && order <= visited && InTurnSince(visited, |order|, t, q)
        invariant Visiting(visited, t, q, suffixes, j)
      {
        assert suffixes[j] in suffixes;
        var bucket := trie.Get(q + suffixes[j]);
        ghost var p := q + suffixes[j];
        CollectJoin([], visited, t[p], exclude);
        VisitedBefore(visited, t, q, suffixes, j);
        VisitBucket(visited, |order|, t, q, p);
        VisitNext(visited, t, q, suffixes, j);
        r, visited := CollectNew(r, bucket.value.nodes, exclude), visited + t[p];
      }
      VisitedAll(visited, t, q, suffixes);
      WidenNext(order, visited, t, prefix, i);
    }

    /** self.trie.longest_prefix(bits, default=""). */
    method FindPrefix(target: NodeId) returns (prefix: string)
      requires Valid()
      ensures prefix == Owner(table, myNodeId, target)
    {
      var bucket;
      prefix, bucket := FindItem(target);
    }

    /**
     closest_nodes. The answer is the brute-force one if and only if each of the nearest candidates is ahead of all
     others of its key.
     */
    method ClosestNodes(target: NodeId, maxNodes: nat, exclude: Option<Node>) returns (r: seq<Node>)
      requires Valid()
      ensures IsAnswer(table, Owner(table, myNodeId, target), exclude, target, maxNodes, r)
    {
      hide Inv, Linked, Widened, OnePlace, IsAnswer, Owner, CollectNew, Sort, Cut, DistanceTo;
      InvOnePlace(table, myNodeId);
      var skip := SkipId(exclude);
      var prefix := FindPrefix(target);
      var found; ghost var order, level;
      found, order, level := Widen(prefix, maxNodes, skip);
      FinishSearch(table, myNodeId, exclude, target, maxNodes, level, order, found);
      r := Cut(Sort(found, DistanceTo(target)), maxNodes);
    }

    /** The widening loop. */
    method Widen(prefix: string, maxNodes: nat, skip: Option<NodeId>)
      returns (found: seq<Node>, ghost order: seq<Node>, ghost level: nat)
      requires Linked() && OnePlace(table)
      ensures level <= |prefix| && Widened(order, table, prefix, level)
      ensures found == CollectNew([], order, skip) && (level == 0 || |found| > maxNodes)
    {
      hide Linked, OnePlace, CollectNew, Widened;
      found, order, level := [], [], |prefix|;
      EmptyOrder(table, prefix, skip);
      for i := |prefix| + 1 downto 0
        invariant Widened(order, table, prefix, i) && found == CollectNew([], order, skip)
        invariant i <= |prefix| ==> level == i
      {
        level := i;
        found, order := CollectLevel(prefix, i, found, skip, order);
        if |found| > maxNodes {
          break;
        }
      }
    }
  }

  /** The nodes of the table with fewer than two failed queries, but not the one that has the id to leave out. */
  ghost function EligibleNodes(t: Table, exclude: Option<Node>): (s: set<Node>) {
    set n | n in AllNodes(t) && n.failed < 2 && (exclude.Some? ==> n.id != exclude.value.id)
  }

  lemma CandidatesAre(t: Table, exclude: Option<Node>)
    ensures Candidates(t, SkipId(exclude)) == EligibleNodes(t, exclude)
  {
  }

  /**
   What closest_nodes returns: candidates, sorted by distance, one per key and as many as there are keys up to k;
   and the k nearest candidates exactly when each of these is ahead of all other candidates of its key.
   */
  ghost predicate IsAnswer(t: Table, own: string, exclude: Option<Node>, target: NodeId, k: nat, r: seq<Node>) {
    var all := EligibleNodes(t, exclude);
    var nearest := Nearest(all, DistanceTo(target), k);
    && DistinctKeys(r) && Ranked(r, DistanceTo(target)) && Elements(r) <= all
    && |r| == Min(k, |KeySet(all)|) && (r == [] <==> all == {} || k == 0)
    && (r == nearest <==> NearestAhead(t, own, all, nearest))
  }

  function SkipId(exclude: Option<Node>): (id: Option<NodeId>) {
    if exclude.None? then None else Some(exclude.value.id)
  }

  lemma MirrorAt(buckets: map<string, Bucket>, table: Table, repr: set<Bucket>, p: string)
    requires Mirrors(buckets, table, repr) && p in table
    ensures buckets.Keys == table.Keys && buckets[p] in repr && buckets[p].prefixId == p
    ensures buckets[p].maxSize == MAX_BUCKET_SIZE && buckets[p].nodes == table[p]
  {
  }

  lemma BucketIsOk(t: Table, me: NodeId, p: string)
    requires Inv(t, me) && p in t
    ensures BucketOk(p, t[p], MAX_BUCKET_SIZE)
  {
  }

  lemma CleanStart(t: Table)
    ensures Cleaned(t, Elements([])) == t && BadIn(t, Elements([])) == {}
  {
  }

  lemma CleanStep(t: Table, keys: seq<string>, i: nat)
    requires NoDuplicates(keys) && i < |keys| && keys[i] in t
    ensures var done, more := Elements(keys[..i]), Elements(keys[..i + 1]);
            && Cleaned(t, more) == Cleaned(t, done)[keys[i] := Live(t[keys[i]])]
            && Cleaned(t, done)[keys[i]] == t[keys[i]]
            && BadIn(t, more) == BadIn(t, done) + BadOf(t[keys[i]])
  {
    assert keys[..i + 1] == keys[..i] + [keys[i]];
    assert keys[i] !in keys[..i];
  }

  lemma CleanDone(t: Table, ps: set<string>, removed: seq<Node>)
    requires ps == t.Keys && Elements(removed) == BadIn(t, ps)
    ensures Cleaned(t, ps) == RemoveBad(t)
    ensures forall n :: n in removed <==> n in AllNodes(t) && Bad(n)
  {
    assert forall n :: n in removed <==> n in Elements(removed);
  }

  // ------------------------------------------------------------ the widening loop

  /** Of the buckets below q, those with the first i suffixes have been visited. */
  ghost predicate Visiting(visited: seq<Node>, t: Table, q: string, suffixes: seq<string>, i: nat)
    requires i <= |suffixes|
  {
    Elements(visited) <= Under(t, q) && forall j :: 0 <= j < i ==> InOrder(visited, t, q + suffixes[j])
  }

  ghost predicate InOrder(visited: seq<Node>, t: Table, p: string) {
    p in t && Elements(t[p]) <= Elements(visited)
  }

  /** What comes before the next bucket alphabetically has been visited. */
  lemma VisitedBefore(visited: seq<Node>, t: Table, q: string, suffixes: seq<string>, i: nat)
    requires i < |suffixes| && Visiting(visited, t, q, suffixes, i) && LexAscending(suffixes)
    requires forall s :: q + s in t ==> s in suffixes
    ensures forall o :: o in t && q <= o && LexLess(o, q + suffixes[i]) ==> Elements(t[o]) <= Elements(visited)
  {
    forall o | o in t && q <= o && LexLess(o, q + suffixes[i]) ensures Elements(t[o]) <= Elements(visited) {
      var s := o[|q|..];
      assert o == q + s;
      LexPrefix(q, s, suffixes[i]);
      var j :| 0 <= j < |suffixes| && suffixes[j] == s;
      LexAsymmetric(s, suffixes[i]);
      assert j < i && InOrder(visited, t, q + suffixes[j]);
    }
  }

  lemma VisitNext(visited: seq<Node>, t: Table, q: string, suffixes: seq<string>, i: nat)
    requires i < |suffixes| && Visiting(visited, t, q, suffixes, i) && q + suffixes[i] in t
    ensures Visiting(visited + t[q + suffixes[i]], t, q, suffixes, i + 1)
  {
    var p := q + suffixes[i];
    ElementsJoin(visited, t[p]);
    assert Elements(t[p]) <= Under(t, q);
  }

  lemma VisitedAll(visited: seq<Node>, t: Table, q: string, suffixes: seq<string>)
    requires Visiting(visited, t, q, suffixes, |suffixes|) && forall s :: q + s in t ==> s in suffixes
    ensures Elements(visited) == Under(t, q)
  {
    forall n | n in Under(t, q) ensures n in visited {
      var p :| p in t && q <= p && n in t[p];
      assert p == q + p[|q|..];
      var j :| 0 <= j < |suffixes| && suffixes[j] == p[|q|..];
      assert InOrder(visited, t, q + suffixes[j]);
      assert n in Elements(t[p]);
    }
  }

  /** The loop has visited everything below the first i bits of the prefix, narrower levels first. */
  ghost predicate Widened(order: seq<Node>, t: Table, prefix: string, i: nat) {
    && i <= |prefix| + 1 && InTurn(order, t, prefix)
    && (i == |prefix| + 1 ==> order == []) && (i <= |prefix| ==> Elements(order) == Under(t, prefix[..i]))
    && forall l :: i <= l <= |prefix| ==> UnderFirst(order, t, prefix[..l]) && Under(t, prefix[..l]) <= Elements(order)
  }

  lemma EmptyOrder(t: Table, prefix: string, exclude: Option<NodeId>)
    ensures Widened([], t, prefix, |prefix| + 1) && CollectNew([], [], exclude) == []
  {
  }

  lemma WidenStart(order: seq<Node>, t: Table, prefix: string, i: nat)
    requires i <= |prefix| && Widened(order, t, prefix, i + 1)
    ensures Elements(order) <= Under(t, prefix[..i]) && InTurnSince(order, |order|, t, prefix[..i])
  {
    if i < |prefix| { UnderShrinks(t, prefix[..i + 1], prefix[..i]); }
  }

  lemma WidenNext(order: seq<Node>, visited: seq<Node>, t: Table, prefix: string, i: nat)
    requires i <= |prefix| && Widened(order, t, prefix, i + 1) && order <= visited
    requires Elements(visited) == Under(t, prefix[..i]) && InTurnSince(visited, |order|, t, prefix[..i])
    ensures Widened(visited, t, prefix, i)
  {
    hide Under, UnderFirst, InTurn, InTurnSince;
    WidenOrderly(order, visited, t, prefix, i);
    LevelInTurn(order, visited, t, prefix, i);
  }

  lemma WidenEnd(order: seq<Node>, t: Table, prefix: string, level: nat)
    requires level <= |prefix| && Widened(order, t, prefix, level)
    ensures Orderly(order, t, prefix) && Elements(order) == Under(t, prefix[..level])
  {
    hide Under, UnderFirst, InTurn;
    OrderlyEnd(order, t, prefix, level);
  }

  /** All that the end of the loop means for the answer. */
  lemma FinishSearch(t: Table, me: NodeId, exclude: Option<Node>, target: NodeId, k: nat,
                     level: nat, order: seq<Node>, found: seq<Node>)
    requires Inv(t, me) && level <= |Owner(t, me, target)| && Widened(order, t, Owner(t, me, target), level)
    requires found == CollectNew([], order, SkipId(exclude)) && (level == 0 || |found| > k)
    ensures IsAnswer(t, Owner(t, me, target), exclude, target, k, Cut(Sort(found, DistanceTo(target)), k))
  {
    var skip := SkipId(exclude);
    WidenEnd(order, t, Owner(t, me, target), level);
    SearchExact(t, me, skip, target, k, level, order, found);
    AheadDecides(t, me, skip, target, k, level, order, found);
    NoKeys(Candidates(t, skip));
    CandidatesAre(t, exclude);
    hide Inv, Owner, Candidates, EligibleNodes, SkipId, Orderly, CollectNew, KeySet, Widened, DistinctKeys, Ranked;
    hide Nearest, Foremost, NearestAhead, DistanceTo, Sort, Cut;
  }

  lemma NoKeys(u: set<Node>)
    ensures |KeySet(u)| == 0 <==> u == {}
  {
    if n :| n in u { assert n.key in KeySet(u); }
  }

  lemma AddOnce(t: Table, me: NodeId, node: Node)
    requires Inv(t, me) && Owner(t, me, node.id) in t
    ensures var p := Owner(t, me, node.id);
            var (ok, after) := BucketAdd(p, t[p], MAX_BUCKET_SIZE, node);
            && (ok ==> RoutingSpec.Add(t, me, node) == (t[p := after], Find(after, node.id)))
            && (!ok && !Owns(p, me) ==> RoutingSpec.Add(t, me, node) == (t, None))
            && (!ok && Owns(p, me) && Inv(SplitAt(t, p), me) ==>
                  RoutingSpec.Add(t, me, node) == RoutingSpec.Add(SplitAt(t, p), me, node))
  {
    hide IdToBinaryString, Prefixes, SplitAt, BucketAdd, Owner, Owns, Inv;
  }

  /** The three outcomes of one round of RoutingTable.add. */
  lemma AddCases(t: Table, me: NodeId, node: Node)
    requires Inv(t, me)
    ensures var p := Owner(t, me, node.id);
            && p in t
            && var (ok, after) := BucketAdd(p, t[p], MAX_BUCKET_SIZE, node);
            && (ok ==> Inv(t[p := after], me) && RoutingSpec.Add(t, me, node) == (t[p := after], Find(after, node.id)))
            && (!ok ==> t[p := after] == t)
            && (!ok && !Owns(p, me) ==> RoutingSpec.Add(t, me, node) == (t, None))
            && (!ok && Owns(p, me) ==>
                  && p == IdToBinaryString(me)[..Depth(t)] && |t[p]| == MAX_BUCKET_SIZE && Depth(t) < MAX_DEPTH
                  && Depth(SplitAt(t, p)) == Depth(t) + 1 && Inv(SplitAt(t, p), me)
                  && RoutingSpec.Add(t, me, node) == RoutingSpec.Add(SplitAt(t, p), me, node))
  {
    OwnerExists(t, me, node.id);
    AddOnce(t, me, node);
    AddPlaces(t, me, node);
    AddSplits(t, me, node);
    hide RoutingSpec.Add, IdToBinaryString, SplitAt, Owns, BucketAdd, Inv, Owner, Find;
  }

  lemma AddPlaces(t: Table, me: NodeId, node: Node)
    requires Inv(t, me) && Owner(t, me, node.id) in t
    ensures var p := Owner(t, me, node.id);
            var (ok, after) := BucketAdd(p, t[p], MAX_BUCKET_SIZE, node);
            (ok ==> Inv(t[p := after], me)) && (!ok ==> t[p := after] == t)
  {
    var p := Owner(t, me, node.id);
    assert BucketOk(p, t[p], MAX_BUCKET_SIZE);
    BucketAddKeeps(p, t[p], MAX_BUCKET_SIZE, node);
    hide IdToBinaryString, Prefixes, BucketOk, Owns, BucketAdd, Inv, Owner;
    var (ok, after) := BucketAdd(p, t[p], MAX_BUCKET_SIZE, node);
    if ok { ReplaceBucket(t, me, p, after); }
  }

  lemma AddSplits(t: Table, me: NodeId, node: Node)
    requires Inv(t, me) && Owner(t, me, node.id) in t
    ensures var p := Owner(t, me, node.id);
            !BucketAdd(p, t[p], MAX_BUCKET_SIZE, node).0 && Owns(p, me) ==>
              && p == IdToBinaryString(me)[..Depth(t)] && |t[p]| == MAX_BUCKET_SIZE && Depth(t) < MAX_DEPTH
              && Depth(SplitAt(t, p)) == Depth(t) + 1 && Inv(SplitAt(t, p), me)
  {
    var p := Owner(t, me, node.id);
    hide IdToBinaryString, SplitAt, Owns, BucketAdd, Inv, Owner;
    if !BucketAdd(p, t[p], MAX_BUCKET_SIZE, node).0 && Owns(p, me) {
      SplitAllowed(t, me, node);
      SplitKeeps(t, me);
    }
  }

  /** A key that no other key extends. */
  ghost predicate IsLeaf<V>(m: map<string, V>, p: string) {
    p in m && forall q :: q in m && p <= q ==> q == p
  }

  lemma OwnIsLeaf<V>(t: Table, me: NodeId, m: map<string, V>)
    requires Inv(t, me) && m.Keys == t.Keys
    ensures IsLeaf(m, IdToBinaryString(me)[..Depth(t)])
  {
    var bits, p := IdToBinaryString(me), IdToBinaryString(me)[..Depth(t)];
    OwnPrefix(bits, Depth(t));
    hide IdToBinaryString, Prefixes;
    forall q | q in m && p <= q ensures q == p { PrefixFree(bits, Depth(t), p, q); }
  }

  /** The halves of a leaf come last when they are added in order. */
  lemma HalvesComeLast<V>(m: map<string, V>, p: string, v: V)
    requires IsLeaf(m, p)
    ensures ComesLast(m, p + "0") && ComesLast(m[p + "0" := v], p + "1")
  {
    var more := m[p + "0" := v];
    forall i | 0 <= i <= |p| ensures LastAt(m, p + "0", i) && LastAt(more, p + "1", i) {
      if i < |p| {
        assert (p + "0")[..i + 1] <= p && (p + "1")[..i + 1] <= p && p in m && p in more;
      } else {
        assert (p + "0")[..i] == p && (p + "1")[..i] == p;
      }
    }
  }

  /** A bucket of full size with the nodes of a list that its prefix owns. */
  ghost predicate IsHalf(b: Bucket, prefix: string, nodes: seq<Node>)
    reads b
  {
    b.prefixId == prefix && b.maxSize == MAX_BUCKET_SIZE && b.nodes == Owned(prefix, nodes)
  }

  ghost function SplitMap(m: map<string, Bucket>, p: string, b0: Bucket, b1: Bucket): map<string, Bucket> {
    (m - {p})[p + "0" := b0][p + "1" := b1]
  }

  lemma MirrorSplit(buckets: map<string, Bucket>, table: Table, repr: set<Bucket>, p: string, b0: Bucket, b1: Bucket)
    requires Mirrors(buckets, table, repr) && p in buckets
    requires p in table && IsHalf(b0, p + "0", table[p]) && IsHalf(b1, p + "1", table[p])
    ensures Mirrors(SplitMap(buckets, p, b0, b1), SplitAt(table, p), repr + {b0, b1})
  {
    assert (p + "0")[|p|] != (p + "1")[|p|];
  }

  lemma SplitMapKeys(before: map<string, Bucket>, both: map<string, Bucket>, p: string, b0: Bucket, b1: Bucket)
    requires both == before[p + "0" := b0][p + "1" := b1] && p in before
    ensures both - {p} == SplitMap(before, p, b0, b1)
    ensures p in both && both.Keys != {p}
  {
    assert |p + "0"| != |p| && |p + "1"| != |p|;
    assert p + "0" in both.Keys;
  }

  lemma PrefixSpellable(id: NodeId, n: nat)
    requires n <= ID_BITS
    ensures Spellable(IdToBinaryString(id)[..n], "01")
  {
  }
}
