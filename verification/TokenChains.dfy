/**
 Delivery of a linear chain of tokens. The tree is compared with a small machine on
 indices, which says how far the chain has been taken over and which tokens wait.
 */
module TokenChains {
  import opened BitStrings
  import opened Collections
  import opened TokenSpec

  /** A chain of valid tokens from the owner's key on, without hash collisions. */
  ghost predicate Chain(k: Keys, c: seq<Link>) {
    && DistinctHashes(k, c)
    && forall i :: 0 <= i < |c| ==> LinkedAt(k, c, i)
  }

  ghost predicate LinkedAt(k: Keys, c: seq<Link>, i: nat)
    requires i < |c|
  {
    && Verified(k, c[i]) && HashOf(k, c[i]) != k.genesis
    && c[i].prev == if i == 0 then k.genesis else HashOf(k, c[i - 1])
  }

  lemma PrefixIsChain(k: Keys, c: seq<Link>, m: nat)
    requires Chain(k, c) && m <= |c|
    ensures Chain(k, c[..m])
  {
    forall i | 0 <= i < m ensures LinkedAt(k, c[..m], i) { assert LinkedAt(k, c, i); }
  }

  // -------------------------------------------------- the machine on indices

  /** The first n tokens have been taken over; the tokens with the indices in `waiting` wait, oldest first. */
  datatype Progress = Progress(n: nat, waiting: seq<nat>)

  function Position(w: seq<nat>, j: nat): (i: nat)
    ensures i <= |w| && (i < |w| ==> w[i] == j) && forall m :: 0 <= m < i ==> w[m] != j
  {
    IndexWhere(w, i => i == j)
  }

  /** Take over waiting tokens as long as the next one waits. */
  function Wake(p: Progress): (r: Progress)
    decreases |p.waiting|
  {
    var i := Position(p.waiting, p.n);
    if i == |p.waiting| then p else Wake(Progress(p.n + 1, RemoveAt(p.waiting, i)))
  }

  function ParkIndex(w: seq<nat>, j: nat, maxSize: nat): (r: seq<nat>) {
    var u := if Position(w, j) < |w| then w else w + [j];
    if |u| > maxSize then u[1..] else u
  }

  /** Delivery of token j. */
  function Deliver(maxSize: nat, p: Progress, j: nat): (r: Progress) {
    if j < p.n then p
    else if j == p.n then Wake(Progress(p.n + 1, p.waiting))
    else Progress(p.n, ParkIndex(p.waiting, j, maxSize))
  }

  function DeliverAll(maxSize: nat, p: Progress, ds: seq<nat>): (r: Progress) {
    if ds == [] then p else Deliver(maxSize, DeliverAll(maxSize, p, ds[..|ds| - 1]), ds[|ds| - 1])
  }

  // ------------------------------------------------------------ simulation

  /** The waiting tokens are the ones with the listed indices. */
  ghost predicate Waits(c: seq<Link>, us: seq<Token>, w: seq<nat>) {
    && |us| == |w| && NoDuplicates(w)
    && forall i :: 0 <= i < |w| ==> w[i] < |c| && us[i].link == c[w[i]]
  }

  /** The tree is where the machine is. */
  ghost predicate Simulates(c: seq<Link>, s: Tree, p: Progress) {
    && p.n <= |c| && Links(s.elements) == c[..p.n]
    && Waits(c, s.unchained, p.waiting)
  }

  lemma HasInPrefix(k: Keys, c: seq<Link>, n: nat, h: Bytes)
    requires n <= |c|
    ensures Has(k, c[..n], h) <==> exists i :: 0 <= i < n && HashOf(k, c[i]) == h
  {
    var i := IndexOf(k, c[..n], h);
    if i < n { assert c[..n][i] == c[i]; }
    if j :| 0 <= j < n && HashOf(k, c[j]) == h { assert c[..n][j] == c[j]; }
  }

  /** Only the next token points at a token of the chain. */
  lemma PrevOnly(k: Keys, c: seq<Link>, i: nat, n: nat)
    requires Chain(k, c) && i < |c| && n < |c|
    ensures c[i].prev == HashOf(k, c[n]) <==> i == n + 1
  {
    assert LinkedAt(k, c, i) && LinkedAt(k, c, n);
    if i > 0 && i - 1 < n { assert HashOf(k, c[i - 1]) != HashOf(k, c[n]); }
    if i > 0 && n < i - 1 { assert HashOf(k, c[n]) != HashOf(k, c[i - 1]); }
  }

  lemma ChainHas(k: Keys, c: seq<Link>, n: nat, j: nat)
    requires Chain(k, c) && n <= |c| && j < |c|
    ensures Has(k, c[..n], HashOf(k, c[j])) <==> j < n
    ensures Has(k, c[..n], c[j].prev) || c[j].prev == k.genesis <==> j <= n
  {
    HasInPrefix(k, c, n, HashOf(k, c[j]));
    HasInPrefix(k, c, n, c[j].prev);
    forall i | 0 <= i < n ensures HashOf(k, c[i]) == c[j].prev <==> j == i + 1 { PrevOnly(k, c, j, i); }
    assert LinkedAt(k, c, j) && (j > 0 ==> LinkedAt(k, c, j - 1));
    if 0 < j <= n { assert HashOf(k, c[j - 1]) == c[j].prev; }
  }

  /** Looking for a waiting token, or for one that points at a token, is looking for an index. */
  lemma WaitingMatches(k: Keys, c: seq<Link>, us: seq<Token>, w: seq<nat>, j: nat)
    requires Chain(k, c) && j < |c| && Waits(c, us, w)
    ensures WaitingAt(Links(us), c[j]) == Position(w, j)
    ensures FirstPointing(Links(us), HashOf(k, c[j])) == Position(w, j + 1)
  {
    forall i | 0 <= i < |w|
      ensures Plain(us[i].link) == Plain(c[j]) <==> w[i] == j
      ensures us[i].link.prev == HashOf(k, c[j]) <==> w[i] == j + 1
    {
      assert HashOf(k, c[w[i]]) == HashOf(k, c[j]) ==> w[i] == j;
      PrevOnly(k, c, w[i], j);
    }
    hide Chain;
    hide Plain;
    hide HashOf;
  }

  lemma WaitsRemove(c: seq<Link>, us: seq<Token>, w: seq<nat>, i: nat)
    requires Waits(c, us, w) && i < |w|
    ensures Waits(c, RemoveAt(us, i), RemoveAt(w, i))
    ensures forall m :: m in RemoveAt(w, i) <==> m in w && m != w[i]
  {
    RemoveIndex(w, i);
  }

  /** The chain reaction takes over exactly the tokens that Wake does. */
  lemma {:induction false} ReactWakes(k: Keys, maxSize: nat, c: seq<Link>, s: Tree, p: Progress, t: Token)
    requires Chain(k, c) && Simulates(c, s, p) && p.n < |c| && t.link == c[p.n]
    ensures Simulates(c, React(k, maxSize, s, t), Wake(Progress(p.n + 1, p.waiting)))
    decreases |s.unchained|
  {
    LinksAppend(s.elements, t);
    assert c[..p.n + 1] == c[..p.n] + [c[p.n]];
    WaitingMatches(k, c, s.unchained, p.waiting, p.n);
    var i := Position(p.waiting, p.n + 1);
    if i < |s.unchained| {
      var rest := Tree(s.elements + [t], RemoveAt(s.unchained, i));
      WaitsRemove(c, s.unchained, p.waiting, i);
      GatherNext(k, maxSize, c, rest, p.n + 1, s.unchained[i]);
      ReactWakes(k, maxSize, c, rest, Progress(p.n + 1, RemoveAt(p.waiting, i)), s.unchained[i]);
    }
  }

  /** The next token of the chain is appended at once. */
  lemma GatherNext(k: Keys, maxSize: nat, c: seq<Link>, s: Tree, n: nat, t: Token)
    requires Chain(k, c) && n < |c| && Links(s.elements) == c[..n] && t.link == c[n]
    ensures Gather(k, maxSize, s, t) == (React(k, maxSize, s, t), Some(t))
  {
    ChainHas(k, c, n, n);
    assert LinkedAt(k, c, n);
  }

  /** gather_token of chain token j does to the tree what Deliver does to the machine. */
  lemma GatherDelivers(k: Keys, maxSize: nat, c: seq<Link>, s: Tree, p: Progress, t: Token, j: nat)
    requires Chain(k, c) && Simulates(c, s, p) && j < |c| && t.link == c[j]
    ensures Simulates(c, Gather(k, maxSize, s, t).0, Deliver(maxSize, p, j))
    ensures Gather(k, maxSize, s, t).1.Some? <==> j <= p.n
  {
    ChainHas(k, c, p.n, j);
    assert LinkedAt(k, c, j);
    if j == p.n {
      GatherNext(k, maxSize, c, s, j, t);
      ReactWakes(k, maxSize, c, s, p, t);
    } else if j < p.n {
      var i := IndexOf(k, Links(s.elements), HashOf(k, t.link));
      LinksUpdate(s.elements, i, Filled(k, s.elements[i], t.content));
    } else {
      assert Orphan(k, s, t.link);
      ParkMatches(k, maxSize, c, s.unchained, p.waiting, t, j);
    }
  }

  lemma ParkMatches(k: Keys, maxSize: nat, c: seq<Link>, us: seq<Token>, w: seq<nat>, t: Token, j: nat)
    requires Chain(k, c) && Waits(c, us, w) && j < |c| && t.link == c[j]
    ensures Waits(c, Park(us, t, maxSize), ParkIndex(w, j, maxSize))
  {
    WaitingMatches(k, c, us, w, j);
    if Position(w, j) == |w| { JoinDistinct(w, [j]); }
    var more := if Position(w, j) < |w| then w else w + [j];
    var mores := if Position(w, j) < |w| then us else us + [t];
    assert Waits(c, mores, more);
    if |more| > 0 { WaitsTail(c, mores, more); }
  }

  lemma WaitsTail(c: seq<Link>, us: seq<Token>, w: seq<nat>)
    requires Waits(c, us, w) && |w| > 0
    ensures Waits(c, us[1..], w[1..])
  {
  }

  // ------------------------------------------------------------ confluence

  /** The length of the longest prefix of the chain that has been delivered in full. */
  function Delivered(ds: set<nat>, from: nat, length: nat): (n: nat)
    requires from <= length
    ensures from <= n <= length && (forall i :: from <= i < n ==> i in ds) && (n < length ==> n !in ds)
    decreases length - from
  {
    if from == length || from !in ds then from else Delivered(ds, from + 1, length)
  }

  /** Everything delivered is taken over or waits, and the next token has not been delivered. */
  ghost predicate Settled(p: Progress, ds: set<nat>, length: nat) {
    && p.n <= length && p.n !in ds && NoDuplicates(p.waiting)
    && (forall i :: 0 <= i < p.n ==> i in ds)
    && (forall i :: i in p.waiting <==> i in ds && i >= p.n)
  }

  lemma {:induction false} WakeSettles(p: Progress, ds: set<nat>, length: nat)
    requires p.n <= length && NoDuplicates(p.waiting) && forall d :: d in ds ==> d < length
    requires forall i :: 0 <= i < p.n ==> i in ds
    requires forall i :: i in p.waiting <==> i in ds && i >= p.n
    ensures Settled(Wake(p), ds, length)
    decreases |p.waiting|
  {
    var i := Position(p.waiting, p.n);
    if i < |p.waiting| {
      assert p.n in p.waiting;
      RemoveIndex(p.waiting, i);
      WakeSettles(Progress(p.n + 1, RemoveAt(p.waiting, i)), ds, length);
    } else {
      assert p.n !in p.waiting;
    }
  }

  lemma RemoveIndex(w: seq<nat>, i: nat)
    requires NoDuplicates(w) && i < |w|
    ensures NoDuplicates(RemoveAt(w, i)) && forall m :: m in RemoveAt(w, i) <==> m in w && m != w[i]
  {
    var v := RemoveAt(w, i);
    forall m | m in w && m != w[i] ensures m in v {
      var a :| 0 <= a < |w| && w[a] == m;
      assert v[if a < i then a else a - 1] == m;
    }
  }

  /** As long as the chain is at most one longer than the buffer, nothing is ever evicted. */
  lemma WaitingFits(p: Progress, ds: set<nat>, length: nat, maxSize: nat, j: nat)
    requires Settled(p, ds, length) && (forall d :: d in ds ==> d < length) && p.n < j < length <= maxSize + 1
    requires j !in p.waiting
    ensures |p.waiting| < maxSize
  {
    DistinctCount(p.waiting);
    SubsetSize(Elements(p.waiting) + {j}, Interval(p.n + 1, length));
  }

  lemma DeliverSettles(maxSize: nat, p: Progress, ds: set<nat>, length: nat, j: nat)
    requires Settled(p, ds, length) && (forall d :: d in ds ==> d < length) && j < length <= maxSize + 1
    ensures Settled(Deliver(maxSize, p, j), ds + {j}, length)
  {
    if j == p.n {
      WakeSettles(Progress(p.n + 1, p.waiting), ds + {j}, length);
    } else if j > p.n {
      var i := Position(p.waiting, j);
      if i == |p.waiting| {
        assert j !in p.waiting;
        WaitingFits(p, ds, length, maxSize, j);
        JoinDistinct(p.waiting, [j]);
      } else {
        assert j in p.waiting;
        FewWaiting(p, ds, length, maxSize);
      }
    }
  }

  lemma FewWaiting(p: Progress, ds: set<nat>, length: nat, maxSize: nat)
    requires Settled(p, ds, length) && (forall d :: d in ds ==> d < length) && length <= maxSize + 1
    ensures |p.waiting| <= maxSize
  {
    DistinctCount(p.waiting);
    SubsetSize(Elements(p.waiting), Interval(p.n + 1, length));
  }

  /** Delivery in any order and with any repetition: always the longest delivered prefix, and the rest waits. */
  lemma {:induction false} DeliveryConfluent(maxSize: nat, length: nat, ds: seq<nat>)
    requires length <= maxSize + 1 && forall i :: 0 <= i < |ds| ==> ds[i] < length
    ensures var p := DeliverAll(maxSize, Progress(0, []), ds);
            Settled(p, Elements(ds), length) && p.n == Delivered(Elements(ds), 0, length)
  {
    var p := DeliverAll(maxSize, Progress(0, []), ds);
    if ds == [] {
      assert Elements(ds) == {};
    } else {
      var init, j := ds[..|ds| - 1], ds[|ds| - 1];
      assert ds == init + [j];
      DeliveryConfluent(maxSize, length, init);
      DeliverSettles(maxSize, DeliverAll(maxSize, Progress(0, []), init), Elements(init), length, j);
      assert Elements(ds) == Elements(init) + {j};
    }
    assert p.n == Delivered(Elements(ds), 0, length);
  }

  /** The indices of the chain whose tokens are in a list. */
  ghost function IndicesIn(c: seq<Link>, ts: seq<Token>): (ds: set<nat>) {
    set i: nat | i < |c| && c[i] in Links(ts)
  }

  function GatherAll(k: Keys, maxSize: nat, s: Tree, ts: seq<Token>): (r: Tree) {
    if ts == [] then s else Gather(k, maxSize, GatherAll(k, maxSize, s, ts[..|ts| - 1]), ts[|ts| - 1]).0
  }

  /** Gathering a list of chain tokens is delivering their indices. */
  lemma {:induction false} GatherAllDelivers(k: Keys, maxSize: nat, c: seq<Link>, s: Tree, p: Progress,
                                             ts: seq<Token>, ds: seq<nat>)
    requires Chain(k, c) && Simulates(c, s, p) && |ts| == |ds|
    requires forall i :: 0 <= i < |ts| ==> ds[i] < |c| && ts[i].link == c[ds[i]]
    ensures Simulates(c, GatherAll(k, maxSize, s, ts), DeliverAll(maxSize, p, ds))
  {
    if ts != [] {
      var m := |ts| - 1;
      GatherAllDelivers(k, maxSize, c, s, p, ts[..m], ds[..m]);
      GatherDelivers(k, maxSize, c, GatherAll(k, maxSize, s, ts[..m]), DeliverAll(maxSize, p, ds[..m]), ts[m], ds[m]);
    }
  }

  lemma {:induction false} ChooseIndices(c: seq<Link>, ts: seq<Token>) returns (ds: seq<nat>)
    requires forall t :: t in ts ==> t.link in c
    ensures |ds| == |ts| && forall i :: 0 <= i < |ts| ==> ds[i] < |c| && ts[i].link == c[ds[i]]
  {
    ds := [];
    while |ds| < |ts|
      invariant |ds| <= |ts| && forall i :: 0 <= i < |ds| ==> ds[i] < |c| && ts[i].link == c[ds[i]]
    {
      assert ts[|ds|] in ts;
      var j: nat :| j < |c| && c[j] == ts[|ds|].link;
      ds := ds + [j];
    }
  }

  /**
   Tokens of a chain that is at most one longer than the buffer, gathered in any order and with any
   repetition: the tree holds exactly the longest prefix of the chain that has been delivered, and
   when the whole chain has been delivered, nothing waits.
   */
  lemma TokensConfluent(k: Keys, maxSize: nat, c: seq<Link>, ts: seq<Token>)
    requires Chain(k, c) && |c| <= maxSize + 1 && forall t :: t in ts ==> t.link in c
    ensures var s := GatherAll(k, maxSize, Tree([], []), ts);
            && Links(s.elements) == c[..Delivered(IndicesIn(c, ts), 0, |c|)]
            && ((forall l :: l in c ==> l in Links(ts)) ==> Links(s.elements) == c && s.unchained == [])
  {
    var ds := ChooseIndices(c, ts);
    GatherAllDelivers(k, maxSize, c, Tree([], []), Progress(0, []), ts, ds);
    DeliveryConfluent(maxSize, |c|, ds);
    SameIndices(k, c, ts, ds);
    var p := DeliverAll(maxSize, Progress(0, []), ds);
    if forall l :: l in c ==> l in Links(ts) {
      forall i | 0 <= i < |c| ensures i in IndicesIn(c, ts) { assert c[i] in c; }
      assert c[..|c|] == c;
      FirstIsMember(p.waiting);
    }
  }

  lemma SameIndices(k: Keys, c: seq<Link>, ts: seq<Token>, ds: seq<nat>)
    requires Chain(k, c) && |ds| == |ts|
    requires forall i :: 0 <= i < |ts| ==> ds[i] < |c| && ts[i].link == c[ds[i]]
    ensures Elements(ds) == IndicesIn(c, ts)
  {
    forall j: nat ensures j in ds <==> j in IndicesIn(c, ts) {
      if j in ds {
        var i :| 0 <= i < |ds| && ds[i] == j;
        assert Links(ts)[i] == c[j];
      }
      if j in IndicesIn(c, ts) {
        var i :| 0 <= i < |ts| && Links(ts)[i] == c[j];
        assert HashOf(k, c[ds[i]]) == HashOf(k, c[j]);
        assert ds[i] == j;
      }
    }
  }

  // ---------------------------------------------- longer chains lose tokens

  function Count(from: nat, end: nat): (s: seq<nat>)
    requires from <= end
    ensures |s| == end - from && forall i :: 0 <= i < |s| ==> s[i] == from + i
  {
    seq(end - from, i requires 0 <= i < end - from => from + i)
  }

  lemma {:induction false} ParkInOrder(maxSize: nat, m: nat)
    requires m <= maxSize
    ensures DeliverAll(maxSize, Progress(0, []), Count(1, m + 1)) == Progress(0, Count(1, m + 1))
  {
    var ds := Count(1, m + 1);
    if m > 0 {
      assert ds[..m - 1 + 0] == Count(1, m) && ds == Count(1, m) + [m];
      ParkInOrder(maxSize, m - 1);
      assert Position(Count(1, m), m) == m - 1;
    }
  }

  /**
   With two more tokens than the buffer holds, one order of delivery leaves tokens behind: the tokens 1 to
   maxSize + 1 in order, then token 0. Token 1 has been evicted by then, so the tree stops after the first
   token although a longer prefix of the chain has been delivered.
   */
  lemma {:induction false} LongChainLosesTokens(k: Keys, maxSize: nat, c: seq<Link>, ts: seq<Token>)
    requires Chain(k, c) && |c| >= maxSize + 2 && Links(ts) == c[1..maxSize + 2] + [c[0]]
    ensures Links(GatherAll(k, maxSize, Tree([], []), ts).elements) == c[..1]
    ensures Delivered(IndicesIn(c, ts), 0, |c|) >= maxSize + 2
  {
    var ds := Count(1, maxSize + 2) + [0];
    forall i | 0 <= i < |ts| ensures ds[i] < |c| && ts[i].link == c[ds[i]] {
      assert ts[i].link == Links(ts)[i];
    }
    GatherAllDelivers(k, maxSize, c, Tree([], []), Progress(0, []), ts, ds);
    SameIndices(k, c, ts, ds);
    LongDelivery(maxSize, |c|);
  }

  lemma LongDelivery(maxSize: nat, length: nat)
    requires length >= maxSize + 2
    ensures var ds := Count(1, maxSize + 2) + [0];
            && Delivered(Elements(ds), 0, length) >= maxSize + 2
            && DeliverAll(maxSize, Progress(0, []), ds).n == 1
  {
    var all := Count(1, maxSize + 2);
    var ds := all + [0];
    FirstEvicted(maxSize);
    assert ds[..maxSize + 1] == all && Position(all[1..], 1) == maxSize;
    forall i | 0 <= i < maxSize + 2 ensures i in Elements(ds) {
      assert ds[if i == 0 then maxSize + 1 else i - 1] == i;
    }
  }

  lemma FirstEvicted(maxSize: nat)
    ensures var all := Count(1, maxSize + 2);
            DeliverAll(maxSize, Progress(0, []), all) == Progress(0, all[1..])
  {
    var parked, all := Count(1, maxSize + 1), Count(1, maxSize + 2);
    ParkInOrder(maxSize, maxSize);
    assert all[..maxSize] == parked && all == parked + [maxSize + 1];
    assert Position(parked, maxSize + 1) == maxSize;
  }
}
