/**
 The loop that contacts the nodes of a crawl, as a state machine. Its states are the
 points where the loop waits; between them a contact task may complete, and the loop may
 wake up, drop the completed tasks and launch as many new ones as it is allowed.
 */
module CrawlRuns {
  import opened BitStrings
  import opened Collections
  import opened RoutingSpec
  import opened CrawlFrontier

  const MAX_CRAWL_NODES: nat := 8
  const MAX_CRAWL_REQUESTS: nat := 24
  const MAX_CRAWL_TASKS: nat := 4

  /** A task is named by the key it contacts; `contacted` records the contacts in order. */
  datatype State = State(todo: seq<Todo>, tried: set<Bytes>, running: set<Bytes>, completed: set<Bytes>,
                         contacted: seq<Bytes>)

  predicate Done(todo: seq<Todo>, tried: set<Bytes>) {
    |tried| >= MAX_CRAWL_REQUESTS || todo == []
  }

  /** Launch the first of the list: it counts as tried at once. */
  function Launched(s: State): (r: State)
    requires s.todo != []
  {
    var key := s.todo[0].node.key;
    s.(todo := s.todo[1..], tried := s.tried + {key}, running := s.running + {key}, contacted := s.contacted + [key])
  }

  /** The inner loop. */
  function LaunchAll(s: State): (r: State)
    decreases |s.todo|
  {
    if Done(s.todo, s.tried) || |s.running + s.completed| >= MAX_CRAWL_TASKS then s else LaunchAll(Launched(s))
  }

  /** One turn of it, at a point where all outstanding tasks run. */
  lemma LaunchAllStep(s: State)
    requires s.completed == {}
    ensures LaunchAll(s) ==
            if Done(s.todo, s.tried) || |s.running| >= MAX_CRAWL_TASKS then s else LaunchAll(Launched(s))
  {
    assert s.running + s.completed == s.running;
  }

  /** A contact task ends; `response` is None when the node did not answer. */
  datatype Event = Complete(sender: Node, response: Option<seq<Node>>) | Resume

  ghost predicate Enabled(s: State, e: Event) {
    match e
    case Complete(sender, _) => sender.key in s.running
    case Resume => s.completed != {}
  }

  function Next(rank: Node -> int, s: State, e: Event): (r: State) {
    match e
    case Complete(sender, response) =>
      s.(running := s.running - {sender.key}, completed := s.completed + {sender.key},
         todo := if response.None? then s.todo
                 else Absorb(s.todo, s.tried, rank, response.value, sender, |response.value|))
    case Resume => LaunchAll(s.(completed := {}))
  }

  /** A crawl begins with the nearest nodes of the routing table. */
  function Begin(todo: seq<Todo>): (s: State) {
    LaunchAll(State(todo, {}, {}, {}, []))
  }

  ghost predicate Ended(s: State) {
    s.running == {} && s.completed == {}
  }

  ghost predicate StepTo(rank: Node -> int, s: State, e: Event, s': State) {
    Enabled(s, e) && s' == Next(rank, s, e)
  }

  ghost predicate IsRun(rank: Node -> int, todo: seq<Todo>, states: seq<State>, events: seq<Event>) {
    && |states| == |events| + 1 && states[0] == Begin(todo)
    && forall i :: 0 <= i < |events| ==> StepTo(rank, states[i], events[i], states[i + 1])
  }

  // ---------------------------------------------------------- the invariant

  /** Within the budgets, no key twice, and a list that is in order. */
  ghost predicate Bounded(rank: Node -> int, s: State) {
    && Frontier(s.todo, s.tried, rank)
    && NoDuplicates(s.contacted) && Elements(s.contacted) == s.tried
    && |s.tried| <= MAX_CRAWL_REQUESTS
    && s.running <= s.tried && s.completed <= s.tried && s.running !! s.completed
    && |s.running| + |s.completed| <= MAX_CRAWL_TASKS
  }

  ghost predicate CrawlInv(rank: Node -> int, s: State) {
    Bounded(rank, s) && (Ended(s) ==> Done(s.todo, s.tried))
  }

  /** Every step lowers it. */
  ghost function Measure(s: State): (m: int) {
    3 * (MAX_CRAWL_REQUESTS - |s.tried|) + 2 * |s.running| + |s.completed|
  }

  /** The list stays in order when its first entry is taken and counts as tried. */
  lemma TakeFirst(todo: seq<Todo>, tried: set<Bytes>, rank: Node -> int)
    requires Frontier(todo, tried, rank) && todo != []
    ensures todo[0].node.key !in tried && Frontier(todo[1..], tried + {todo[0].node.key}, rank)
  {
    var ks := KeysOf(todo);
    assert ks[0] in ks && KeysOf(todo[1..]) == ks[1..];
    forall key | key in ks[1..] ensures key !in tried + {ks[0]} {
      var i :| 0 <= i < |ks| - 1 && ks[1..][i] == key;
      assert ks[i + 1] in ks;
    }
  }

  lemma LaunchCounts(tried: set<Bytes>, running: set<Bytes>, completed: set<Bytes>, key: Bytes)
    requires running <= tried && completed <= tried && running !! completed && key !in tried
    ensures |tried + {key}| == |tried| + 1 && |running + {key}| == |running| + 1
    ensures |running + completed| == |running| + |completed| && (running + {key}) !! completed
  {
  }

  lemma ContactOnce(contacted: seq<Bytes>, key: Bytes)
    requires NoDuplicates(contacted) && key !in Elements(contacted)
    ensures NoDuplicates(contacted + [key]) && Elements(contacted + [key]) == Elements(contacted) + {key}
  {
    JoinDistinct(contacted, [key]);
    ElementsJoin(contacted, [key]);
    assert Elements([key]) == {key};
  }

  lemma LaunchKeeps(rank: Node -> int, s: State)
    requires Bounded(rank, s) && !Done(s.todo, s.tried) && |s.running + s.completed| < MAX_CRAWL_TASKS
    ensures Bounded(rank, Launched(s)) && Measure(Launched(s)) == Measure(s) - 1
  {
    hide Frontier, NoDuplicates, Elements;
    var key := s.todo[0].node.key;
    TakeFirst(s.todo, s.tried, rank);
    LaunchCounts(s.tried, s.running, s.completed, key);
    ContactOnce(s.contacted, key);
  }

  /** The inner loop launches until the crawl is done or has enough tasks. */
  lemma {:induction false} LaunchAllKeeps(rank: Node -> int, s: State)
    requires Bounded(rank, s)
    ensures var r := LaunchAll(s);
            && Bounded(rank, r) && Measure(r) <= Measure(s) && s.contacted <= r.contacted
            && (Done(r.todo, r.tried) || |r.running + r.completed| >= MAX_CRAWL_TASKS)
    decreases |s.todo|
  {
    if !Done(s.todo, s.tried) && |s.running + s.completed| < MAX_CRAWL_TASKS {
      LaunchKeeps(rank, s);
      LaunchAllKeeps(rank, Launched(s));
    }
  }

  lemma BeginKeeps(rank: Node -> int, todo: seq<Todo>)
    requires Frontier(todo, {}, rank)
    ensures CrawlInv(rank, Begin(todo)) && Measure(Begin(todo)) <= 3 * MAX_CRAWL_REQUESTS
  {
    var s := State(todo, {}, {}, {}, []);
    assert Elements(s.contacted) == {};
    LaunchAllKeeps(rank, s);
  }

  lemma NextKeeps(rank: Node -> int, s: State, e: Event)
    requires CrawlInv(rank, s) && Enabled(s, e)
    ensures CrawlInv(rank, Next(rank, s, e)) && Measure(Next(rank, s, e)) < Measure(s)
    ensures s.contacted <= Next(rank, s, e).contacted
  {
    match e
    case Complete(sender, response) =>
      assert sender.key in Next(rank, s, e).completed;
      if response.Some? { AbsorbKeeps(s.todo, s.tried, rank, response.value, sender, |response.value|); }
    case Resume =>
      LaunchAllKeeps(rank, s.(completed := {}));
  }

  // ------------------------------------------------------------ every run

  /**
   Whatever order tasks complete in and whatever they answer: no node is contacted twice, at most 24 are tried,
   at most 4 tasks are outstanding, the list stays in order, and the run has at most 72 steps.
   */
  lemma {:induction false} RunsAreBounded(rank: Node -> int, todo: seq<Todo>, states: seq<State>,
                                          events: seq<Event>, n: nat)
    requires IsRun(rank, todo, states, events) && Frontier(todo, {}, rank) && n < |states|
    ensures CrawlInv(rank, states[n]) && Measure(states[n]) + n <= 3 * MAX_CRAWL_REQUESTS
    ensures NoDuplicates(states[n].contacted) && |states[n].tried| == |states[n].contacted| <= MAX_CRAWL_REQUESTS
    ensures |states[n].running| + |states[n].completed| <= MAX_CRAWL_TASKS
    ensures n <= 3 * MAX_CRAWL_REQUESTS
    decreases n
  {
    hide CrawlInv, Measure;
    if n == 0 {
      BeginKeeps(rank, todo);
    } else {
      RunsAreBounded(rank, todo, states, events, n - 1);
      assert StepTo(rank, states[n - 1], events[n - 1], states[n]);
      NextKeeps(rank, states[n - 1], events[n - 1]);
    }
    InvMeans(rank, states[n]);
  }

  lemma InvMeans(rank: Node -> int, s: State)
    requires CrawlInv(rank, s)
    ensures NoDuplicates(s.contacted) && |s.tried| == |s.contacted| <= MAX_CRAWL_REQUESTS
    ensures |s.running| + |s.completed| <= MAX_CRAWL_TASKS && Measure(s) >= 0
  {
    DistinctCount(s.contacted);
  }

  /**
   A crawl that has not ended can go on as soon as one of its tasks completes; one that has ended is stuck for
   good, with its requests spent or nobody left to ask.
   */
  lemma CrawlProgress(rank: Node -> int, s: State)
    requires CrawlInv(rank, s)
    ensures !Ended(s) ==> s.completed != {} || s.running != {}
    ensures (forall e :: !Enabled(s, e)) <==> Ended(s)
    ensures Ended(s) ==> |s.tried| == MAX_CRAWL_REQUESTS || s.todo == []
  {
    if s.completed != {} {
      assert Enabled(s, Resume);
    } else if s.running != {} {
      var key :| key in s.running;
      var sender := Node(seq(ID_BYTES, i => 0), key, ("", 0), 0, 0.0);
      assert Enabled(s, Complete(sender, None));
    }
  }

  // ------------------------------------------------- what becomes of a response

  /** The keys of all nodes that were contacted or still stand in the list. */
  ghost function Seen(s: State): (keys: set<Bytes>) {
    s.tried + Elements(KeysOf(s.todo))
  }

  lemma TailKeys(todo: seq<Todo>)
    requires todo != []
    ensures KeysOf(todo) == [todo[0].node.key] + KeysOf(todo[1..])
  {
  }

  /** The inner loop contacts the nearest first: the beginning of the list, in its order, and forgets nobody. */
  lemma {:induction false} LaunchesInOrder(s: State)
    ensures var r := LaunchAll(s);
            var n := |s.todo| - |r.todo|;
            && n >= 0 && r.todo == s.todo[n..] && r.contacted == s.contacted + KeysOf(s.todo)[..n]
            && Seen(r) == Seen(s)
    decreases |s.todo|
  {
    hide KeysOf, Elements;
    if Done(s.todo, s.tried) || |s.running + s.completed| >= MAX_CRAWL_TASKS {
      assert s.contacted + [] == s.contacted;
    } else {
      LaunchesInOrder(Launched(s));
      OneLaunched(s, LaunchAll(s));
    }
  }

  /** What the rest of the loop does, after one task. */
  lemma OneLaunched(s: State, r: State)
    requires s.todo != []
    requires var t := Launched(s);
             var n := |t.todo| - |r.todo|;
             n >= 0 && r.todo == t.todo[n..] && r.contacted == t.contacted + KeysOf(t.todo)[..n] && Seen(r) == Seen(t)
    ensures var n := |s.todo| - |r.todo|;
            && n >= 0 && r.todo == s.todo[n..] && r.contacted == s.contacted + KeysOf(s.todo)[..n]
            && Seen(r) == Seen(s)
  {
    OneMore(s.todo, s.contacted, s.tried, |s.todo| - |r.todo|);
    hide KeysOf, Elements;
  }

  lemma OneMore(todo: seq<Todo>, contacted: seq<Bytes>, tried: set<Bytes>, n: nat)
    requires 0 < n <= |todo|
    ensures var key := todo[0].node.key;
            && todo[1..][n - 1..] == todo[n..]
            && contacted + [key] + KeysOf(todo[1..])[..n - 1] == contacted + KeysOf(todo)[..n]
            && tried + {key} + Elements(KeysOf(todo[1..])) == tried + Elements(KeysOf(todo))
  {
    TailKeys(todo);
    HeadElements(KeysOf(todo));
    hide KeysOf, Elements;
    var key, rest := todo[0].node.key, KeysOf(todo[1..]);
    assert ([key] + rest)[1..] == rest && ([key] + rest)[..n] == [key] + rest[..n - 1];
    assert contacted + ([key] + rest[..n - 1]) == contacted + [key] + rest[..n - 1];
  }

  lemma NodesAreSeen(before: seq<Todo>, after: seq<Todo>)
    requires NodesOf(before) <= NodesOf(after)
    ensures Elements(KeysOf(before)) <= Elements(KeysOf(after))
  {
    forall key | key in KeysOf(before) ensures key in KeysOf(after) {
      var n := ListedNode(before, key);
      NodeIsListed(after, n);
    }
  }

  /** No step forgets anybody, and a completed answer is taken in: what it names is seen or beyond the fourth entry. */
  lemma NextSees(rank: Node -> int, s: State, e: Event)
    requires CrawlInv(rank, s) && Enabled(s, e)
    ensures Seen(s) <= Seen(Next(rank, s, e))
    ensures e.Complete? && e.response.Some? ==>
      forall node :: node in e.response.value ==>
        node.key in Seen(Next(rank, s, e)) || BeyondTop(Next(rank, s, e).todo, rank, rank(node))
  {
    match e
    case Resume => LaunchesInOrder(s.(completed := {}));
    case Complete(sender, response) =>
      if response.Some? {
        var nodes := response.value;
        AbsorbGrows(s.todo, s.tried, rank, nodes, sender, 0, |nodes|);
        NodesAreSeen(s.todo, Absorb(s.todo, s.tried, rank, nodes, sender, |nodes|));
        AllAccounted(s.todo, s.tried, rank, nodes, sender);
        hide Absorb, Frontier, BeyondTop;
      }
  }

  /** Whoever was seen once is seen in every later state. */
  lemma {:induction false} SeenGrows(rank: Node -> int, todo: seq<Todo>, states: seq<State>, events: seq<Event>,
                                     m: nat, n: nat)
    requires IsRun(rank, todo, states, events) && Frontier(todo, {}, rank) && m <= n < |states|
    ensures Seen(states[m]) <= Seen(states[n])
    decreases n
  {
    hide CrawlInv, Next, Enabled, Seen, Begin;
    if m < n {
      SeenGrows(rank, todo, states, events, m, n - 1);
      RunsAreBounded(rank, todo, states, events, n - 1);
      assert StepTo(rank, states[n - 1], events[n - 1], states[n - 1 + 1]);
      NextSees(rank, states[n - 1], events[n - 1]);
    }
  }

  /**
   Whatever the order of the answers: each node that any answer named is, in every later state, contacted or listed,
   unless it was farther than the fourth entry when it was named. A crawl that ends before its requests are spent has
   contacted them all.
   */
  lemma RunsForgetNone(rank: Node -> int, todo: seq<Todo>, states: seq<State>, events: seq<Event>, i: nat, n: nat,
                       node: Node)
    requires IsRun(rank, todo, states, events) && Frontier(todo, {}, rank) && i < n < |states|
    requires events[i].Complete? && events[i].response.Some? && node in events[i].response.value
    requires !BeyondTop(states[i + 1].todo, rank, rank(node))
    ensures node.key in Seen(states[n])
    ensures Ended(states[n]) && |states[n].contacted| < MAX_CRAWL_REQUESTS ==> node.key in states[n].contacted
  {
    RunsAreBounded(rank, todo, states, events, i);
    RunsAreBounded(rank, todo, states, events, n);
    assert StepTo(rank, states[i], events[i], states[i + 1]);
    NextSees(rank, states[i], events[i]);
    SeenGrows(rank, todo, states, events, i + 1, n);
    EndedMeans(rank, states[n]);
  }

  lemma EndedMeans(rank: Node -> int, s: State)
    requires CrawlInv(rank, s)
    ensures Ended(s) && |s.contacted| < MAX_CRAWL_REQUESTS ==> forall key :: key in Seen(s) ==> key in s.contacted
  {
    InvMeans(rank, s);
    assert forall key :: key in s.contacted <==> key in Elements(s.contacted);
    if Ended(s) && |s.contacted| < MAX_CRAWL_REQUESTS {
      assert s.todo == [] && KeysOf(s.todo) == [];
    }
  }

  /** So has the crawl with those it began with. */
  lemma BeginSees(rank: Node -> int, todo: seq<Todo>, states: seq<State>, events: seq<Event>, n: nat)
    requires IsRun(rank, todo, states, events) && Frontier(todo, {}, rank) && n < |states|
    ensures forall t :: t in todo ==> t.node.key in Seen(states[n])
  {
    LaunchesInOrder(State(todo, {}, {}, {}, []));
    SeenGrows(rank, todo, states, events, 0, n);
    forall t | t in todo ensures t.node.key in Seen(states[0]) {
      var j :| 0 <= j < |todo| && todo[j] == t;
      assert KeysOf(todo)[j] == t.node.key;
    }
  }
}
