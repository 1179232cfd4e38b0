/** The scheduler that launches communities after the ones they depend on. */
module Loader {
  import opened Collections

  /** A launcher as the scheduler sees it within one session: get_name, not_before and should_launch. */
  datatype Launcher = Launcher(name: string, notBefore: seq<string>, enabled: bool)

  ghost predicate DistinctNames(ls: seq<Launcher>) {
    forall i, j :: 0 <= i < j < |ls| ==> ls[i].name != ls[j].name
  }

  /** The launcher registered under a name. */
  function Registered(ls: seq<Launcher>, name: string): (r: Option<Launcher>)
    ensures r.Some? ==> r.value in ls && r.value.name == name
    ensures r.None? ==> forall l :: l in ls ==> l.name != name
  {
    var i := IndexWhere(ls, (l: Launcher) => l.name == name);
    if i < |ls| then Some(ls[i]) else None
  }

  lemma RegisteredOnce(ls: seq<Launcher>, l: Launcher)
    requires DistinctNames(ls) && l in ls
    ensures Registered(ls, l.name) == Some(l)
  {
  }

  predicate Enabled(ls: seq<Launcher>, name: string) {
    var l := Registered(ls, name);
    l.Some? && l.value.enabled
  }

  /** A launcher waits for a dependency that is registered, enabled and not launched. */
  predicate WaitsFor(ls: seq<Launcher>, launched: set<string>, l: Launcher, dependency: string) {
    dependency in l.notBefore && Enabled(ls, dependency) && dependency !in launched
  }

  ghost predicate Blocked(ls: seq<Launcher>, launched: set<string>, l: Launcher) {
    exists d :: WaitsFor(ls, launched, l, d)
  }

  // ---------------------------------------------------------------- cycles

  ghost predicate Edge(ls: seq<Launcher>, before: set<string>, name: string, dependency: string) {
    Enabled(ls, name) && WaitsFor(ls, before, Registered(ls, name).value, dependency)
  }

  ghost predicate Path(ls: seq<Launcher>, before: set<string>, p: seq<string>) {
    forall i :: 0 <= i < |p| - 1 ==> Edge(ls, before, p[i], p[i + 1])
  }

  /** Enabled launchers that wait for each other in a ring. */
  ghost predicate Ring(ls: seq<Launcher>, before: set<string>, p: seq<string>) {
    |p| >= 2 && p[0] == p[|p| - 1] && Path(ls, before, p)
  }

  ghost predicate HasCycle(ls: seq<Launcher>, before: set<string>) {
    exists p :: Ring(ls, before, p)
  }

  /** Names that each depend on one of them. */
  ghost predicate Stuck(ls: seq<Launcher>, before: set<string>, names: set<string>) {
    forall a :: a in names ==> DependsOnOne(ls, before, names, a)
  }

  ghost predicate DependsOnOne(ls: seq<Launcher>, before: set<string>, names: set<string>, a: string) {
    exists d :: d in names && Edge(ls, before, a, d)
  }

  lemma NextStuck(ls: seq<Launcher>, before: set<string>, names: set<string>, a: string) returns (d: string)
    requires Stuck(ls, before, names) && a in names
    ensures d in names && Edge(ls, before, a, d)
  {
    hide Edge;
    assert DependsOnOne(ls, before, names, a);
    d :| d in names && Edge(ls, before, a, d);
  }

  lemma PathCons(ls: seq<Launcher>, before: set<string>, name: string, p: seq<string>)
    requires p != [] && Path(ls, before, p) && Edge(ls, before, name, p[0])
    ensures Path(ls, before, [name] + p)
  {
    hide Edge;
    var q := [name] + p;
    forall i | 0 <= i < |q| - 1 ensures Edge(ls, before, q[i], q[i + 1]) {
      if i > 0 { assert Edge(ls, before, p[i - 1], p[i]); }
    }
  }

  lemma PathSlice(ls: seq<Launcher>, before: set<string>, p: seq<string>, i: nat, j: nat)
    requires Path(ls, before, p) && i <= j <= |p|
    ensures Path(ls, before, p[i..j])
  {
    hide Edge;
    var q := p[i..j];
    forall m | 0 <= m < |q| - 1 ensures Edge(ls, before, q[m], q[m + 1]) {
      assert Edge(ls, before, p[i + m], p[i + m + 1]);
    }
  }

  lemma {:induction false} Walk(ls: seq<Launcher>, before: set<string>, names: set<string>, start: string, steps: nat)
    returns (p: seq<string>)
    requires Stuck(ls, before, names) && start in names
    ensures |p| == steps + 1 && p[0] == start && Path(ls, before, p) && Elements(p) <= names
    decreases steps
  {
    if steps == 0 {
      p := [start];
    } else {
      hide Path, Edge, Stuck;
      var d := NextStuck(ls, before, names, start);
      var q := Walk(ls, before, names, d, steps - 1);
      p := [start] + q;
      PathCons(ls, before, start, q);
      ElementsJoin([start], q);
    }
  }

  /** By the pigeonhole principle a walk among stuck names returns to where it was. */
  lemma StuckHasCycle(ls: seq<Launcher>, before: set<string>, names: set<string>)
    requires Stuck(ls, before, names) && names != {}
    ensures HasCycle(ls, before)
  {
    hide Path, Edge, Stuck;
    var start :| start in names;
    var p := Walk(ls, before, names, start, |names|);
    if NoDuplicates(p) {
      DistinctCount(p);
      SubsetSize(Elements(p), names);
      assert false;
    }
    var i, j :| 0 <= i < j < |p| && p[i] == p[j];
    PathSlice(ls, before, p, i, j + 1);
    assert Ring(ls, before, p[i..j + 1]);
  }

  /** Everything in the list comes after all that it waits for. */
  ghost predicate AfterDependencies(ls: seq<Launcher>, before: set<string>, loaded: seq<string>) {
    forall i, d :: 0 <= i < |loaded| && Edge(ls, before, loaded[i], d) ==> d in loaded[..i]
  }

  lemma AfterSnoc(ls: seq<Launcher>, before: set<string>, loaded: seq<string>, name: string)
    requires AfterDependencies(ls, before, loaded)
    requires forall d :: Edge(ls, before, name, d) ==> d in loaded
    ensures AfterDependencies(ls, before, loaded + [name])
  {
    var more := loaded + [name];
    forall i, d | 0 <= i < |more| && Edge(ls, before, more[i], d) ensures d in more[..i] {
      assert more[..i] == loaded[..i];
    }
  }

  lemma {:induction false} PathGoesBack(ls: seq<Launcher>, before: set<string>, loaded: seq<string>,
                                        p: seq<string>, at: nat, i: nat)
    returns (k: nat)
    requires AfterDependencies(ls, before, loaded) && Path(ls, before, p) && i < |p|
    requires at < |loaded| && loaded[at] == p[0]
    ensures k < |loaded| && loaded[k] == p[i] && k <= at && (i > 0 ==> k < at)
    decreases i
  {
    k := at;
    if i > 0 {
      var h := PathGoesBack(ls, before, loaded, p, at, i - 1);
      assert Edge(ls, before, p[i - 1], p[i]);
      assert p[i] in loaded[..h];
      k :| 0 <= k < h && loaded[..h][k] == p[i];
    }
  }

  /** What can be launched in full, each after its dependencies, has no cycle. */
  lemma OrderedHasNoCycle(ls: seq<Launcher>, before: set<string>, loaded: seq<string>)
    requires AfterDependencies(ls, before, loaded) && NoDuplicates(loaded)
    requires forall name :: Enabled(ls, name) ==> name in loaded
    ensures !HasCycle(ls, before)
  {
    if p :| Ring(ls, before, p) {
      assert Edge(ls, before, p[0], p[1]);
      var at :| 0 <= at < |loaded| && loaded[at] == p[0];
      var k := PathGoesBack(ls, before, loaded, p, at, |p| - 1);
    }
  }

  // ------------------------------------------------------------- the budget

  /**
   How much of the n * n budget is left: as long as some launcher of the queue was not found blocked since
   the last launch, enough for one more pass over each queue that may follow.
   */
  ghost predicate Funded(queue: nat, blocked: nat, cycle: int) {
    blocked <= queue && (blocked < queue ==> cycle >= queue * queue - blocked) && (queue == 0 ==> cycle >= 0)
  }

  lemma FundedStart(queue: nat)
    ensures Funded(queue, 0, queue * queue)
  {
  }

  /** The budget only runs out on a queue that is blocked as a whole. */
  lemma FundedEnd(queue: nat, blocked: nat, cycle: int)
    requires Funded(queue, blocked, cycle)
    ensures cycle < 0 ==> blocked == queue > 0
  {
    assert queue * queue >= queue;
  }

  lemma FundedSteps(queue: nat, blocked: nat, cycle: int)
    requires Funded(queue, blocked, cycle) && queue > 0
    ensures Funded(queue, if blocked < queue then blocked + 1 else blocked, cycle - 1)
    ensures blocked < queue ==> Funded(queue - 1, blocked, cycle - 1) && Funded(queue - 1, 0, cycle - 1)
  {
    assert queue * queue == (queue - 1) * (queue - 1) + 2 * queue - 1;
  }

  // ------------------------------------------------------------- the loader

  /** What the main loop keeps: the queue and the loaded names share out the enabled launchers. */
  ghost predicate Shared(ls: seq<Launcher>, before: set<string>, remaining: seq<Launcher>, loaded: seq<string>) {
    && NoDuplicates(remaining) && NoDuplicates(loaded)
    && (forall l :: l in remaining ==> l in ls)
    && (forall name :: name in loaded ==> Enabled(ls, name))
    && (forall l :: l in ls && l.enabled ==> (l.name in loaded <==> l !in remaining))
    && AfterDependencies(ls, before, loaded)
  }

  ghost predicate TailBlocked(ls: seq<Launcher>, launched: set<string>, remaining: seq<Launcher>, blocked: nat) {
    blocked <= |remaining| &&
    forall i :: |remaining| - blocked <= i < |remaining| ==> remaining[i].enabled && Blocked(ls, launched, remaining[i])
  }

  lemma TailNone(ls: seq<Launcher>, launched: set<string>, remaining: seq<Launcher>)
    ensures TailBlocked(ls, launched, remaining, 0)
  {
  }

  lemma TailSteps(ls: seq<Launcher>, launched: set<string>, remaining: seq<Launcher>, blocked: nat)
    requires TailBlocked(ls, launched, remaining, blocked) && remaining != []
    ensures !remaining[0].enabled ==> TailBlocked(ls, launched, remaining[1..], blocked)
    ensures blocked <= |remaining|
    ensures blocked == |remaining| ==> remaining[0].enabled && Blocked(ls, launched, remaining[0])
    ensures remaining[0].enabled && Blocked(ls, launched, remaining[0]) ==>
      TailBlocked(ls, launched, remaining[1..] + [remaining[0]], if blocked < |remaining| then blocked + 1 else blocked)
  {
    hide Blocked;
  }

  lemma SharedStart(ls: seq<Launcher>, before: set<string>)
    requires DistinctNames(ls)
    ensures Shared(ls, before, ls, [])
  {
  }

  /** A disabled launcher leaves the queue for good. */
  lemma SharedDrop(ls: seq<Launcher>, before: set<string>, remaining: seq<Launcher>, loaded: seq<string>)
    requires Shared(ls, before, remaining, loaded) && remaining != [] && !remaining[0].enabled
    ensures Shared(ls, before, remaining[1..], loaded)
  {
    assert remaining == [remaining[0]] + remaining[1..];
  }

  /** A blocked one goes to its end. */
  lemma SharedRotate(ls: seq<Launcher>, before: set<string>, remaining: seq<Launcher>, loaded: seq<string>)
    requires Shared(ls, before, remaining, loaded) && remaining != []
    ensures Shared(ls, before, remaining[1..] + [remaining[0]], loaded)
  {
    var head, rest := remaining[0], remaining[1..];
    assert remaining == [head] + rest;
    JoinDistinct(rest, [head]);
    assert forall l :: l in remaining <==> l in rest + [head];
  }

  /** A launched one is loaded after all that it waits for. */
  lemma SharedLaunch(ls: seq<Launcher>, before: set<string>, remaining: seq<Launcher>, loaded: seq<string>)
    requires DistinctNames(ls) && Shared(ls, before, remaining, loaded)
    requires remaining != [] && remaining[0].enabled && !Blocked(ls, before + Elements(loaded), remaining[0])
    ensures Shared(ls, before, remaining[1..], loaded + [remaining[0].name])
  {
    var l, rest := remaining[0], remaining[1..];
    assert remaining == [l] + rest && l in ls;
    RegisteredOnce(ls, l);
    JoinDistinct(loaded, [l.name]);
    forall d | Edge(ls, before, l.name, d) ensures d in loaded {
      assert !WaitsFor(ls, before + Elements(loaded), l, d);
    }
    AfterSnoc(ls, before, loaded, l.name);
    forall m | m in ls && m.enabled ensures m.name in loaded + [l.name] <==> m !in rest {
      RegisteredOnce(ls, m);
    }
  }

  /** A queue of blocked launchers is stuck: what each waits for is in the queue too. */
  lemma BlockedIsStuck(ls: seq<Launcher>, before: set<string>, remaining: seq<Launcher>, loaded: seq<string>)
    requires DistinctNames(ls) && Shared(ls, before, remaining, loaded)
    requires TailBlocked(ls, before + Elements(loaded), remaining, |remaining|)
    ensures Stuck(ls, before, set l | l in remaining :: l.name)
  {
    var names := set l | l in remaining :: l.name;
    forall a | a in names ensures DependsOnOne(ls, before, names, a) {
      var l :| l in remaining && l.name == a;
      RegisteredOnce(ls, l);
      var i :| 0 <= i < |remaining| && remaining[i] == l;
      assert Blocked(ls, before + Elements(loaded), l);
      var d :| WaitsFor(ls, before + Elements(loaded), l, d);
      assert Registered(ls, d).value in remaining;
      assert d in names && Edge(ls, before, a, d);
    }
  }

  function Names(ls: seq<Launcher>): (r: seq<string>)
    ensures |r| == |ls| && forall i :: 0 <= i < |ls| ==> r[i] == ls[i].name
  {
    seq(|ls|, i requires 0 <= i < |ls| => ls[i].name)
  }

  lemma NamesMembers(ls: seq<Launcher>)
    ensures Elements(Names(ls)) == set l | l in ls :: l.name
  {
    forall l | l in ls ensures l.name in Names(ls) {
      var i :| 0 <= i < |ls| && ls[i] == l;
      assert Names(ls)[i] == l.name;
    }
  }

  lemma QueueStuck(ls: seq<Launcher>, before: set<string>, remaining: seq<Launcher>, loaded: seq<string>)
    requires DistinctNames(ls) && Shared(ls, before, remaining, loaded) && remaining != []
    requires TailBlocked(ls, before + Elements(loaded), remaining, |remaining|)
    ensures HasCycle(ls, before) && Stuck(ls, before, Elements(Names(remaining)))
    ensures forall name :: Enabled(ls, name) <==> name in loaded || name in Names(remaining)
    ensures forall name :: name in loaded ==> name !in Names(remaining)
  {
    hide Shared, Stuck, Enabled, Edge, HasCycle;
    BlockedIsStuck(ls, before, remaining, loaded);
    NamesMembers(remaining);
    assert Names(remaining)[0] in Elements(Names(remaining));
    StuckHasCycle(ls, before, Elements(Names(remaining)));
    assert forall l :: l in remaining ==> l.enabled;
    hide TailBlocked;
    QueueNames(ls, before, remaining, loaded);
  }

  lemma QueueNames(ls: seq<Launcher>, before: set<string>, remaining: seq<Launcher>, loaded: seq<string>)
    requires DistinctNames(ls) && Shared(ls, before, remaining, loaded)
    requires forall l :: l in remaining ==> l.enabled
    ensures forall name :: Enabled(ls, name) <==> name in loaded || name in Names(remaining)
    ensures forall name :: name in loaded ==> name !in Names(remaining)
  {
    NamesMembers(remaining);
    hide AfterDependencies;
    forall name ensures name in Names(remaining) ==> Enabled(ls, name) && name !in loaded {
      if name in Elements(Names(remaining)) {
        var l :| l in remaining && l.name == name;
        RegisteredOnce(ls, l);
      }
    }
    forall name | Enabled(ls, name) && name !in loaded ensures name in Names(remaining) {
      assert Registered(ls, name).value in remaining;
      assert name in Elements(Names(remaining));
    }
  }

  lemma LoadedRegistered(ls: seq<Launcher>, before: set<string>, remaining: seq<Launcher>, loaded: seq<string>)
    requires Shared(ls, before, remaining, loaded) && forall name :: name in before ==> Registered(ls, name).Some?
    ensures forall name :: name in before + Elements(loaded) ==> Registered(ls, name).Some?
  {
  }

  /** Each is enabled, and every enabled launcher it names in not_before was launched earlier. */
  ghost predicate InOrder(ls: seq<Launcher>, before: set<string>, loaded: seq<string>) {
    forall i, l :: 0 <= i < |loaded| && l in ls && l.name == loaded[i] ==>
      l.enabled && ReadyAfter(ls, before + Elements(loaded[..i]), l)
  }

  ghost predicate ReadyAfter(ls: seq<Launcher>, launched: set<string>, l: Launcher) {
    forall m :: m in ls && m.enabled && m.name in l.notBefore ==> m.name in launched
  }

  /** Each is enabled and names in not_before an enabled launcher that is left over as well. */
  ghost predicate LeftWaiting(ls: seq<Launcher>, before: set<string>, left: seq<string>) {
    forall l :: l in ls && l.name in left ==> l.enabled && exists m :: HeldBy(ls, before, left, l, m)
  }

  ghost predicate HeldBy(ls: seq<Launcher>, before: set<string>, left: seq<string>, l: Launcher, m: Launcher) {
    m in ls && m.enabled && m.name in l.notBefore && m.name in left && m.name !in before
  }

  lemma ReadyMeans(ls: seq<Launcher>, launched: set<string>, l: Launcher)
    requires DistinctNames(ls)
    ensures ReadyAfter(ls, launched, l) <==> !Blocked(ls, launched, l)
  {
    if Blocked(ls, launched, l) {
      var d :| WaitsFor(ls, launched, l, d);
      var m := Registered(ls, d).value;
      assert m in ls && m.enabled && m.name in l.notBefore;
    }
    if !ReadyAfter(ls, launched, l) {
      var m :| m in ls && m.enabled && m.name in l.notBefore && m.name !in launched;
      RegisteredOnce(ls, m);
      assert WaitsFor(ls, launched, l, m.name);
    }
  }

  lemma LaunchedInOrder(ls: seq<Launcher>, before: set<string>, loaded: seq<string>)
    requires DistinctNames(ls) && AfterDependencies(ls, before, loaded)
    requires forall name :: name in loaded ==> Enabled(ls, name)
    ensures InOrder(ls, before, loaded)
  {
    forall i, l | 0 <= i < |loaded| && l in ls && l.name == loaded[i]
      ensures l.enabled && ReadyAfter(ls, before + Elements(loaded[..i]), l)
    {
      RegisteredOnce(ls, l);
      assert Enabled(ls, loaded[i]);
      forall m | m in ls && m.enabled && m.name in l.notBefore ensures m.name in before + Elements(loaded[..i]) {
        RegisteredOnce(ls, m);
        assert m.name !in before ==> Edge(ls, before, loaded[i], m.name);
      }
    }
  }

  lemma StuckWait(ls: seq<Launcher>, before: set<string>, left: seq<string>)
    requires DistinctNames(ls) && Stuck(ls, before, Elements(left))
    ensures LeftWaiting(ls, before, left)
  {
    forall l | l in ls && l.name in left ensures l.enabled && exists m :: HeldBy(ls, before, left, l, m) {
      RegisteredOnce(ls, l);
      assert l.name in Elements(left) && DependsOnOne(ls, before, Elements(left), l.name);
      var d :| d in Elements(left) && Edge(ls, before, l.name, d);
      assert HeldBy(ls, before, left, l, Registered(ls, d).value);
    }
  }

  lemma QueueEmpty(ls: seq<Launcher>, before: set<string>, loaded: seq<string>)
    requires DistinctNames(ls) && Shared(ls, before, [], loaded)
    ensures !HasCycle(ls, before) && forall name :: name in loaded <==> Enabled(ls, name)
  {
    OrderedHasNoCycle(ls, before, loaded);
  }

  class CommunityLoader {
    /** community_launchers in the order of registration, and the names flagged as launched. */
    var launchers: seq<Launcher>
    var launched: set<string>

    ghost predicate Valid()
      reads this
    {
      DistinctNames(launchers) && forall name :: name in launched ==> Registered(launchers, name).Some?
    }

    constructor ()
      ensures Valid() && launchers == [] && launched == {}
    {
      launchers, launched := [], {};
    }

    /** set_launcher: a launched one stays, another one of the same name is replaced where it is. */
    method SetLauncher(l: Launcher)
      requires Valid()
      modifies this`launchers
      ensures Valid()
      ensures if l.name in launched then launchers == old(launchers) else Registered(launchers, l.name) == Some(l)
      ensures forall name :: name != l.name ==> Registered(launchers, name) == Registered(old(launchers), name)
    {
      var i := 0;
      while i < |launchers| && launchers[i].name != l.name
        invariant i <= |launchers| && forall j :: 0 <= j < i ==> launchers[j].name != l.name
      {
        i := i + 1;
      }
      ghost var was := launchers;
      if i == |launchers| {
        launchers := launchers + [l];
      } else if l.name !in launched {
        launchers := launchers[i := l];
      }
      if l.name !in launched {
        assert launchers[i] == l;
        RegisteredOnce(launchers, l);
      }
      forall name | name != l.name ensures Registered(launchers, name) == Registered(was, name) {
        SameRegistered(was, launchers, name);
      }
    }

    /**
     load. The names in the order of their launch, and in place of the RuntimeError the names still in the
     queue. It fails exactly when enabled launchers wait for each other in a ring; then the names left over
     are those stuck, and all others were launched.
     */
    method Load() returns (loaded: seq<string>, failed: Option<seq<string>>)
      requires Valid()
      modifies this`launched
      ensures Valid() && (failed.Some? <==> HasCycle(launchers, old(launched)))
      ensures NoDuplicates(loaded) && launched == old(launched) + Elements(loaded)
      ensures AfterDependencies(launchers, old(launched), loaded) && InOrder(launchers, old(launched), loaded)
      ensures failed.Some? ==> LeftWaiting(launchers, old(launched), failed.value)
      ensures failed.None? ==> forall name :: name in loaded <==> Enabled(launchers, name)
      ensures failed.Some? ==> forall name :: Enabled(launchers, name) <==> (name in loaded || name in failed.value)
      ensures failed.Some? ==> forall name :: name in loaded ==> name !in failed.value
      ensures failed.Some? ==> failed.value != [] && Stuck(launchers, old(launched), Elements(failed.value))
    {
      ghost var before := launched;
      var remaining, cycle;
      loaded, remaining, cycle := RunQueue();
      if cycle < 0 {
        failed := Some(Names(remaining));
        QueueStuck(launchers, before, remaining, loaded);
        StuckWait(launchers, before, failed.value);
      } else {
        failed := None;
        QueueEmpty(launchers, before, loaded);
      }
      LoadedRegistered(launchers, before, remaining, loaded);
      LaunchedInOrder(launchers, before, loaded);
    }

    /** The main loop of load, until the queue is empty or the budget spent; then all that is left is blocked. */
    method RunQueue() returns (loaded: seq<string>, remaining: seq<Launcher>, cycle: int)
      requires Valid()
      modifies this`launched
      ensures launched == old(launched) + Elements(loaded) && Shared(launchers, old(launched), remaining, loaded)
      ensures cycle >= 0 ==> remaining == []
      ensures cycle < 0 ==> remaining != [] && TailBlocked(launchers, launched, remaining, |remaining|)
    {
      hide Shared, Blocked, Enabled, DistinctNames, WaitsFor, TailBlocked, Registered, Funded;
      loaded, remaining := [], launchers;
      cycle := |remaining| * |remaining|;
      ghost var before, blocked := launched, 0;
      SharedStart(launchers, before);
      TailNone(launchers, launched, remaining);
      FundedStart(|remaining|);
      while remaining != [] && cycle >= 0
        invariant launched == before + Elements(loaded)
        invariant Shared(launchers, before, remaining, loaded)
        invariant TailBlocked(launchers, launched, remaining, blocked) && Funded(|remaining|, blocked, cycle)
        decreases cycle
      {
        var l := remaining[0];
        FundedSteps(|remaining|, blocked, cycle);
        TailSteps(launchers, launched, remaining, blocked);
        ghost var was := remaining;
        remaining, cycle := remaining[1..], cycle - 1;
        if l.enabled {
          var validated := Validate(l);
          if validated {
            SharedLaunch(launchers, before, was, loaded);
            ElementsJoin(loaded, [l.name]);
            launched, loaded, blocked := launched + {l.name}, loaded + [l.name], 0;
            TailNone(launchers, launched, remaining);
          } else {
            SharedRotate(launchers, before, was, loaded);
            remaining := remaining + [l];
            blocked := if blocked < |remaining| then blocked + 1 else blocked;
          }
        } else {
          SharedDrop(launchers, before, was, loaded);
        }
      }
      FundedEnd(|remaining|, blocked, cycle);
    }

    /** The loop over not_before. */
    method Validate(l: Launcher) returns (validated: bool)
      requires DistinctNames(launchers)
      ensures validated <==> !Blocked(launchers, launched, l)
      ensures validated <==> ReadyAfter(launchers, launched, l)
    {
      ReadyMeans(launchers, launched, l);
      validated := true;
      for i := 0 to |l.notBefore|
        invariant validated <==> forall j :: 0 <= j < i ==> !WaitsFor(launchers, launched, l, l.notBefore[j])
      {
        var d := l.notBefore[i];
        if Enabled(launchers, d) {
          validated := validated && d in launched;
        }
      }
    }
  }

  lemma {:induction false} SameRegistered(a: seq<Launcher>, b: seq<Launcher>, name: string)
    requires |a| <= |b| <= |a| + 1
    requires forall i :: 0 <= i < |a| ==> a[i] == b[i] || (a[i].name != name && b[i].name != name)
    requires |b| > |a| ==> b[|a|].name != name
    ensures Registered(a, name) == Registered(b, name)
  {
    if a != [] {
      SameRegistered(a[1..], b[1..], name);
    } else if b != [] {
      assert b == [b[0]];
    }
  }
}
