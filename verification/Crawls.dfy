/** A crawl as the object it is in the program. */
module Crawls {
  import opened BitStrings
  import opened Collections
  import opened Ranking
  import opened RoutingSpec
  import opened RoutingSearch
  import opened Routing
  import opened CrawlFrontier
  import opened CrawlRuns

  /** What a find-response carries: values or nodes. */
  datatype Response = Response(values: Option<seq<Bytes>>, nodes: Option<seq<Node>>)

  class Crawl {
    const target: NodeId
    var nodesTodo: seq<Todo>
    /** The keys of the nodes tried: nodes are equal when their keys are. */
    var nodesTried: set<Bytes>
    var responses: seq<(Node, Response)>

    ghost predicate Valid()
      reads this
    {
      Frontier(nodesTodo, nodesTried, DistanceTo(target))
    }

    constructor (target: NodeId, closest: seq<Node>)
      requires DistinctKeys(closest) && Ranked(closest, DistanceTo(target))
      ensures Valid() && this.target == target && nodesTried == {} && responses == []
      ensures |nodesTodo| == |closest| && forall i :: 0 <= i < |closest| ==> nodesTodo[i] == Todo(closest[i], None)
    {
      this.target := target;
      nodesTodo := seq(|closest|, i requires 0 <= i < |closest| => Todo(closest[i], None));
      nodesTried, responses := {}, [];
      new;
      assert forall i :: 0 <= i < |closest| ==> KeysOf(nodesTodo)[i] == closest[i].key;
      assert forall i :: 0 <= i < |closest| ==>
        TodoRank(DistanceTo(target))(nodesTodo[i]) == DistanceTo(target)(closest[i]);
    }

    /**
     add_response. The distances of the first four entries are afterwards the four least at which keys are known, if
     and only if four nearest keys are undisturbed; and a node of the response is missing only behind four nearer ones.
     */
    method AddResponse(sender: Node, response: Response)
      requires Valid()
      modifies this`nodesTodo, this`responses
      ensures Valid() && responses == old(responses) + [(sender, response)]
      ensures var nodes, rank := if response.nodes == None then [] else response.nodes.value, DistanceTo(target);
              && nodesTodo == Absorb(old(nodesTodo), nodesTried, rank, nodes, sender, |nodes|)
              && (FourNearest(nodesTodo, Known(old(nodesTodo), nodesTried, nodes), rank)
                  <==> exists s :: Undisturbed(old(nodesTodo), nodesTried, rank, nodes, sender, s))
              && (forall i :: 0 <= i < |nodes| ==> Accounted(nodesTodo, nodesTried, rank, nodes[i]))
              && forall t :: t in nodesTodo ==>
                   PunctureRight(old(nodesTodo), nodesTried, rank, nodes, sender, |nodes|, t)
    {
      responses := responses + [(sender, response)];
      var nodes := NodesIn(response);
      ghost var todo, rank := nodesTodo, DistanceTo(target);
      hide Frontier, DistanceTo, FourNearest, Undisturbed, Accounted, Absorb, PunctureRight;
      AbsorbKeeps(todo, nodesTried, rank, nodes, sender, |nodes|);
      FilterExact(todo, nodesTried, rank, nodes, sender);
      AllAccounted(todo, nodesTried, rank, nodes, sender);
      AllPunctured(todo, nodesTried, rank, nodes, sender);
      Take(nodes, sender);
    }

    /** The loop of add_response. */
    method Take(nodes: seq<Node>, sender: Node)
      modifies this`nodesTodo
      ensures nodesTodo == Absorb(old(nodesTodo), nodesTried, DistanceTo(target), nodes, sender, |nodes|)
    {
      hide Consider, DistanceTo;
      var index := 0;
      while index < |nodes|
        invariant index <= |nodes|
        invariant nodesTodo == Absorb(old(nodesTodo), nodesTried, DistanceTo(target), nodes, sender, index)
      {
        Offer(nodes[index], if index == 0 then None else Some(sender));
        index := index + 1;
      }
    }

    /** One turn of the loop in add_response. */
    method Offer(node: Node, puncture: Option<Node>)
      modifies this`nodesTodo
      ensures nodesTodo == Consider(old(nodesTodo), nodesTried, DistanceTo(target), node, puncture)
    {
      hide DistanceTo;
      var rank := DistanceTo(target);
      if node.key in nodesTried {
        return;
      }
      if |nodesTodo| >= 4 && rank(node) > rank(nodesTodo[3].node) {
        return;
      }
      var i := 0;
      while i < |nodesTodo| && nodesTodo[i].node.key != node.key
        invariant i <= |nodesTodo| && forall j :: 0 <= j < i ==> nodesTodo[j].node.key != node.key
      {
        i := i + 1;
      }
      assert i == FindKey(nodesTodo, node.key);
      if i < |nodesTodo| {
        nodesTodo := nodesTodo[i := nodesTodo[i].(puncture := puncture)];
        return;
      }
      nodesTodo := Sort(nodesTodo + [Todo(node, puncture)], TodoRank(rank));
    }

    /** The inner loop of _find: what it contacts are the first entries of the list. */
    method LaunchTasks(tasks: set<Bytes>) returns (now: set<Bytes>, contacts: seq<Todo>)
      modifies this`nodesTodo, this`nodesTried
      ensures State(nodesTodo, nodesTried, now, {}, KeysOf(contacts))
           == LaunchAll(State(old(nodesTodo), old(nodesTried), tasks, {}, []))
      ensures old(nodesTodo) == contacts + nodesTodo
    {
      now, contacts := tasks, [];
      LaunchStart(nodesTodo, nodesTried, tasks);
      hide LaunchAll, Snapshot;
      while !(|nodesTried| >= MAX_CRAWL_REQUESTS || nodesTodo == []) && |now| < MAX_CRAWL_TASKS
        invariant LaunchAll(Snapshot(nodesTodo, nodesTried, now, contacts))
               == LaunchAll(State(old(nodesTodo), old(nodesTried), tasks, {}, []))
        invariant old(nodesTodo) == contacts + nodesTodo
        decreases |nodesTodo|
      {
        LaunchTurn(nodesTodo, nodesTried, now, contacts);
        var first := nodesTodo[0];
        nodesTodo := nodesTodo[1..];
        now, contacts := now + {first.node.key}, contacts + [first];
        nodesTried := nodesTried + {first.node.key};
      }
      LaunchStop(nodesTodo, nodesTried, now, contacts);
    }
  }

  /** The state of the crawl between two turns of the inner loop. */
  ghost function Snapshot(todo: seq<Todo>, tried: set<Bytes>, now: set<Bytes>, contacts: seq<Todo>): (s: State) {
    State(todo, tried, now, {}, KeysOf(contacts))
  }

  lemma LaunchStart(todo: seq<Todo>, tried: set<Bytes>, tasks: set<Bytes>)
    ensures Snapshot(todo, tried, tasks, []) == State(todo, tried, tasks, {}, []) && [] + todo == todo
  {
  }

  lemma LaunchTurn(todo: seq<Todo>, tried: set<Bytes>, now: set<Bytes>, contacts: seq<Todo>)
    requires !Done(todo, tried) && |now| < MAX_CRAWL_TASKS
    ensures var (key, more) := (todo[0].node.key, contacts + [todo[0]]);
            && LaunchAll(Snapshot(todo, tried, now, contacts))
               == LaunchAll(Snapshot(todo[1..], tried + {key}, now + {key}, more))
            && contacts + todo == more + todo[1..]
  {
    LaunchAllStep(Snapshot(todo, tried, now, contacts));
    KeysSnoc(contacts, todo[0]);
    hide LaunchAll, KeysOf;
    assert todo == [todo[0]] + todo[1..];
  }

  lemma LaunchStop(todo: seq<Todo>, tried: set<Bytes>, now: set<Bytes>, contacts: seq<Todo>)
    requires Done(todo, tried) || |now| >= MAX_CRAWL_TASKS
    ensures LaunchAll(Snapshot(todo, tried, now, contacts)) == State(todo, tried, now, {}, KeysOf(contacts))
  {
    LaunchAllStep(Snapshot(todo, tried, now, contacts));
  }

  /** response.get("nodes", []). */
  function NodesIn(response: Response): (nodes: seq<Node>) {
    if response.nodes.None? then [] else response.nodes.value
  }

  /** A new crawl; None stands for the DHTError of a table without nodes to ask. */
  method StartCrawl(target: NodeId, table: RoutingTable) returns (r: Option<Crawl>)
    requires table.Valid()
    ensures r.Some? ==>
      && fresh(r.value) && r.value.Valid() && r.value.target == target
      && 0 < |r.value.nodesTodo| <= MAX_CRAWL_NODES && r.value.nodesTried == {}
    ensures r.None? <==> EligibleNodes(table.table, None) == {}
    ensures var all := EligibleNodes(table.table, None);
            var nearest := Nearest(all, DistanceTo(target), MAX_CRAWL_NODES);
            var own := Owner(table.table, table.myNodeId, target);
            r.Some? && NearestAhead(table.table, own, all, nearest) ==>
              && |r.value.nodesTodo| == |nearest|
              && forall i :: 0 <= i < |nearest| ==> r.value.nodesTodo[i] == Todo(nearest[i], None)
  {
    var closest := table.ClosestNodes(target, MAX_CRAWL_NODES, None);
    if closest == [] {
      return None;
    }
    var crawl := new Crawl(target, closest);
    return Some(crawl);
  }
}
