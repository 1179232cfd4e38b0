/** What holds in every run of a token tree: tokens received from anyone, and tokens the owner adds. */
module TokenRuns {
  import opened BitStrings
  import opened Collections
  import opened TokenSpec
  import opened TokenChains
  import opened TokenExchange
  import opened TokenPaths
  import opened TokenTrees

  datatype TreeOp = Receive(t: Token) | Issue(contentHash: Bytes, after: Option<Token>)

  /** Anything may be received; the owner adds after tokens of the tree, and no two tokens share a hash. */
  ghost predicate Allowed(k: Keys, sign: Bytes -> Bytes, s: Tree, op: TreeOp) {
    match op
    case Receive(_) => true
    case Issue(contentHash, after) =>
      var l := Issued(k, sign, contentHash, after).link;
      && (after.Some? ==> after.value in s.elements)
      && forall m :: m in Links(s.elements) && HashOf(k, m) == HashOf(k, l) ==> m == l
  }

  function Apply(k: Keys, sign: Bytes -> Bytes, maxSize: nat, s: Tree, op: TreeOp): (r: Tree) {
    match op
    case Receive(t) => Gather(k, maxSize, s, t).0
    case Issue(contentHash, after) => Append(k, s, Issued(k, sign, contentHash, after))
  }

  ghost predicate StepTo(k: Keys, sign: Bytes -> Bytes, maxSize: nat, s: Tree, op: TreeOp, s': Tree) {
    Allowed(k, sign, s, op) && s' == Apply(k, sign, maxSize, s, op)
  }

  /** The states of a tree that starts empty. */
  ghost predicate IsRun(k: Keys, sign: Bytes -> Bytes, maxSize: nat, states: seq<Tree>, ops: seq<TreeOp>) {
    && |states| == |ops| + 1 && states[0] == Tree([], [])
    && forall i :: 0 <= i < |ops| ==> StepTo(k, sign, maxSize, states[i], ops[i], states[i + 1])
  }

  /** The double pointer that an operation brings. */
  function LinkOf(k: Keys, sign: Bytes -> Bytes, op: TreeOp): (l: Link) {
    match op
    case Receive(t) => t.link
    case Issue(contentHash, after) => Issued(k, sign, contentHash, after).link
  }

  /** The owner's tokens are always taken in; a received one if it is signed and its parent is there. */
  ghost predicate TakesIn(k: Keys, s: Tree, op: TreeOp) {
    op.Receive? ==> Verified(k, op.t.link) && !Orphan(k, s, op.t.link)
  }

  ghost predicate IsElement(k: Keys, s: Tree, l: Link) {
    Has(k, Links(s.elements), HashOf(k, l))
  }

  lemma StaysElement(k: Keys, s: Tree, s': Tree, l: Link)
    requires IsElement(k, s, l) && Links(s.elements) <= Links(s'.elements)
    ensures IsElement(k, s', l)
  {
    HasGrows(k, Links(s.elements), Links(s'.elements), HashOf(k, l));
  }

  lemma StepKeeps(k: Keys, sign: Bytes -> Bytes, maxSize: nat, s: Tree, op: TreeOp)
    requires TreeInv(k, maxSize, s) && Allowed(k, sign, s, op) && SignsFor(sign, k)
    ensures TreeInv(k, maxSize, Apply(k, sign, maxSize, s, op))
    ensures Links(s.elements) <= Links(Apply(k, sign, maxSize, s, op).elements)
    ensures TakesIn(k, s, op) ==> IsElement(k, Apply(k, sign, maxSize, s, op), LinkOf(k, sign, op))
  {
    match op
    case Receive(t) =>
      GatherKeeps(k, maxSize, s, t);
      GatherGrows(k, maxSize, s, t);
      GatherMeans(k, maxSize, s, t);
    case Issue(contentHash, after) =>
      var t := Issued(k, sign, contentHash, after);
      var ls := Links(s.elements);
      if after.Some? {
        var i :| 0 <= i < |s.elements| && s.elements[i] == after.value;
        IndexOfUnique(k, ls, i);
      }
      AppendKeeps(k, maxSize, s, t);
      AppendStores(k, s, t);
      var i := IndexOf(k, ls, HashOf(k, t.link));
      if i < |ls| {
        assert ls[i] in ls;
        LinksUpdate(s.elements, i, t);
      } else {
        LinksAppend(s.elements, t);
      }
  }

  /** A path passes each earlier element at most once. */
  lemma {:induction false} PathLength(k: Keys, ts: seq<Token>, i: nat)
    requires Sound(k, Links(ts)) && i < |ts|
    ensures |UpFrom(k, ts, i)| <= i + 1
    decreases i
  {
    assert Rooted(k, Links(ts), i);
    if ts[i].link.prev != k.genesis {
      PathLength(k, ts, IndexOf(k, Links(ts), ts[i].link.prev));
    }
  }

  /** An element that the owner signed and that a linked path, no longer than the tree, leads from to the key. */
  ghost predicate Anchored(k: Keys, ts: seq<Token>, t: Token) {
    Verified(k, t.link) && exists q :: LeadsToRoot(k, ts, q) && q[0] == t && |q| <= |ts|
  }

  /**
   In every state of every run each element is anchored, at most the maximum number of tokens waits, no element of an
   earlier state is ever lost or moved, and every token issued so far, or received when its parent was there, is an
   element.
   */
  lemma {:induction false} RunsAreSound(k: Keys, sign: Bytes -> Bytes, maxSize: nat, states: seq<Tree>,
                                        ops: seq<TreeOp>, n: nat)
    requires IsRun(k, sign, maxSize, states, ops) && SignsFor(sign, k) && n < |states|
    ensures TreeInv(k, maxSize, states[n]) && |states[n].unchained| <= maxSize
    ensures forall t :: t in states[n].elements ==> Anchored(k, states[n].elements, t)
    ensures forall m :: 0 <= m <= n ==> Links(states[m].elements) <= Links(states[n].elements)
    ensures forall m :: 0 <= m < n && TakesIn(k, states[m], ops[m]) ==> IsElement(k, states[n], LinkOf(k, sign, ops[m]))
    decreases n
  {
    hide Apply, Allowed, Anchored, Sound, TakesIn, IsElement, LinkOf;
    if n == 0 {
      EmptyIsSound(k, maxSize);
    } else {
      RunsAreSound(k, sign, maxSize, states, ops, n - 1);
      assert StepTo(k, sign, maxSize, states[n - 1], ops[n - 1], states[n - 1 + 1]);
      StepKeeps(k, sign, maxSize, states[n - 1], ops[n - 1]);
      forall m | 0 <= m < n - 1 && TakesIn(k, states[m], ops[m])
        ensures IsElement(k, states[n], LinkOf(k, sign, ops[m]))
      {
        StaysElement(k, states[n - 1], states[n], LinkOf(k, sign, ops[m]));
      }
    }
    SoundAnchors(k, states[n].elements);
  }

  lemma EmptyIsSound(k: Keys, maxSize: nat)
    ensures TreeInv(k, maxSize, Tree([], []))
  {
  }

  lemma SoundAnchors(k: Keys, ts: seq<Token>)
    requires Sound(k, Links(ts))
    ensures forall t :: t in ts ==> Anchored(k, ts, t)
  {
    forall t | t in ts ensures Anchored(k, ts, t) {
      var i :| 0 <= i < |ts| && ts[i] == t;
      UpFromLeads(k, ts, i);
      PathLength(k, ts, i);
      assert Verified(k, Links(ts)[i]);
    }
  }

  // --------------------------------------------------------------- contents

  /** A token has no content, or content with the hash it was signed for. */
  ghost predicate Honest(k: Keys, t: Token) {
    t.content.Some? ==> k.hash(t.content.value) == t.link.contentHash
  }

  ghost predicate HonestTree(k: Keys, s: Tree) {
    forall t :: t in s.elements || t in s.unchained ==> Honest(k, t)
  }

  lemma {:induction false} GatherHonest(k: Keys, maxSize: nat, s: Tree, t: Token)
    requires HonestTree(k, s) && Honest(k, t)
    ensures HonestTree(k, Gather(k, maxSize, s, t).0)
    decreases |s.unchained|
  {
    hide Honest;
    if Verified(k, t.link) && Orphan(k, s, t.link) {
      assert forall u :: u in Park(s.unchained, t, maxSize) ==> u in s.unchained || u == t;
    } else if Verified(k, t.link) {
      var i := IndexOf(k, Links(s.elements), HashOf(k, t.link));
      if i < |s.elements| {
        FilledHonest(k, s.elements[i], t.content);
      } else {
        var w := FirstPointing(Links(s.unchained), HashOf(k, t.link));
        if w < |s.unchained| {
          assert forall u :: u in RemoveAt(s.unchained, w) ==> u in s.unchained;
          GatherHonest(k, maxSize, Tree(s.elements + [t], RemoveAt(s.unchained, w)), s.unchained[w]);
        }
      }
    }
  }

  /** Content is taken over only with the promised hash. */
  lemma FilledHonest(k: Keys, shadow: Token, content: Option<Bytes>)
    requires Honest(k, shadow)
    ensures Honest(k, Filled(k, shadow, content))
  {
  }

  /** Received tokens come with the content they were signed for or none; then no element ever has any other. */
  lemma {:induction false} RunsAreHonest(k: Keys, sign: Bytes -> Bytes, maxSize: nat, states: seq<Tree>,
                                         ops: seq<TreeOp>, n: nat)
    requires IsRun(k, sign, maxSize, states, ops) && n < |states|
    requires forall i :: 0 <= i < |ops| && ops[i].Receive? ==> Honest(k, ops[i].t)
    ensures forall t :: t in states[n].elements ==> Honest(k, t)
    ensures HonestTree(k, states[n])
    decreases n
  {
    hide Honest, Gather, Allowed;
    if n > 0 {
      RunsAreHonest(k, sign, maxSize, states, ops, n - 1);
      assert StepTo(k, sign, maxSize, states[n - 1], ops[n - 1], states[n - 1 + 1]);
      match ops[n - 1]
      case Receive(t) => GatherHonest(k, maxSize, states[n - 1], t);
      case Issue(contentHash, after) => IssuedHonest(k, sign, contentHash, after);
    }
  }

  lemma IssuedHonest(k: Keys, sign: Bytes -> Bytes, contentHash: Bytes, after: Option<Token>)
    ensures Honest(k, Issued(k, sign, contentHash, after))
  {
  }

  // ------------------------------------------------------------------ dumps

  /** What is received or issued has two hashes and a signature of the right sizes. */
  ghost predicate SizedOp(k: Keys, sign: Bytes -> Bytes, op: TreeOp) {
    match op
    case Receive(t) => WellSized(k, t.link)
    case Issue(contentHash, after) => WellSized(k, Issued(k, sign, contentHash, after).link)
  }

  ghost predicate SizedTree(k: Keys, s: Tree) {
    AllWellSized(k, Links(s.elements)) && AllWellSized(k, Links(s.unchained))
  }

  lemma SizedSnoc(k: Keys, ts: seq<Token>, t: Token)
    requires AllWellSized(k, Links(ts)) && WellSized(k, t.link)
    ensures AllWellSized(k, Links(ts + [t]))
  {
    hide WellSized;
    LinksAppend(ts, t);
  }

  lemma SizedSlice(k: Keys, ts: seq<Token>, i: nat)
    requires AllWellSized(k, Links(ts)) && i < |ts|
    ensures AllWellSized(k, Links(ts[1..])) && AllWellSized(k, Links(RemoveAt(ts, i))) && WellSized(k, ts[i].link)
  {
    hide WellSized;
    assert Links(ts)[i] in Links(ts);
    forall l | l in Links(ts[1..]) || l in Links(RemoveAt(ts, i)) ensures l in Links(ts) {
      if l in Links(ts[1..]) {
        var j :| 0 <= j < |ts| - 1 && Links(ts[1..])[j] == l;
        assert Links(ts)[j + 1] == l;
      } else {
        var j :| 0 <= j < |ts| - 1 && Links(RemoveAt(ts, i))[j] == l;
        assert Links(ts)[if j < i then j else j + 1] == l;
      }
    }
  }

  lemma {:induction false} GatherSized(k: Keys, maxSize: nat, s: Tree, t: Token)
    requires SizedTree(k, s) && WellSized(k, t.link)
    ensures SizedTree(k, Gather(k, maxSize, s, t).0)
    decreases |s.unchained|
  {
    hide WellSized, AllWellSized;
    if Verified(k, t.link) && Orphan(k, s, t.link) {
      SizedSnoc(k, s.unchained, t);
      var u := if WaitingAt(Links(s.unchained), t.link) < |s.unchained| then s.unchained else s.unchained + [t];
      if u != [] { SizedSlice(k, u, 0); }
    } else if Verified(k, t.link) {
      var i := IndexOf(k, Links(s.elements), HashOf(k, t.link));
      if i < |s.elements| {
        LinksUpdate(s.elements, i, Filled(k, s.elements[i], t.content));
      } else {
        SizedSnoc(k, s.elements, t);
        var w := FirstPointing(Links(s.unchained), HashOf(k, t.link));
        if w < |s.unchained| {
          SizedSlice(k, s.unchained, w);
          GatherSized(k, maxSize, Tree(s.elements + [t], RemoveAt(s.unchained, w)), s.unchained[w]);
        }
      }
    }
  }

  lemma StepSized(k: Keys, sign: Bytes -> Bytes, maxSize: nat, s: Tree, op: TreeOp)
    requires SizedTree(k, s) && SizedOp(k, sign, op) && Allowed(k, sign, s, op)
    ensures SizedTree(k, Apply(k, sign, maxSize, s, op))
  {
    hide WellSized, AllWellSized, Gather;
    match op
    case Receive(t) => GatherSized(k, maxSize, s, t);
    case Issue(contentHash, after) =>
      var t := Issued(k, sign, contentHash, after);
      var i := IndexOf(k, Links(s.elements), HashOf(k, t.link));
      if i < |s.elements| {
        assert Links(s.elements)[i] in Links(s.elements);
        LinksUpdate(s.elements, i, t);
      } else {
        SizedSnoc(k, s.elements, t);
      }
  }

  /**
   In every state of every run over tokens of the right size, a full dump lists parents before children: read into a
   fresh tree with the same key it is taken whole and gives the same hashes and double pointers.
   */
  lemma RunsDump(k: Keys, sign: Bytes -> Bytes, maxSize: nat, states: seq<Tree>, ops: seq<TreeOp>, n: nat)
    requires IsRun(k, sign, maxSize, states, ops) && SignsFor(sign, k) && n < |states|
    requires forall i :: 0 <= i < |ops| ==> SizedOp(k, sign, ops[i])
    ensures Unserialize(k, maxSize, Tree([], []), Dump(Links(states[n].elements)), true) ==
            Read(Tree(Bare(Links(states[n].elements)), []), Some(true))
  {
    RunsAreSound(k, sign, maxSize, states, ops, n);
    RunsAreSized(k, sign, maxSize, states, ops, n);
    DumpRebuilds(k, maxSize, states[n].elements);
  }

  lemma {:induction false} RunsAreSized(k: Keys, sign: Bytes -> Bytes, maxSize: nat, states: seq<Tree>,
                                        ops: seq<TreeOp>, n: nat)
    requires IsRun(k, sign, maxSize, states, ops) && n < |states|
    requires forall i :: 0 <= i < |ops| ==> SizedOp(k, sign, ops[i])
    ensures SizedTree(k, states[n])
    decreases n
  {
    hide SizedOp, Allowed, Apply;
    if n > 0 {
      RunsAreSized(k, sign, maxSize, states, ops, n - 1);
      assert StepTo(k, sign, maxSize, states[n - 1], ops[n - 1], states[n - 1 + 1]);
      StepSized(k, sign, maxSize, states[n - 1], ops[n - 1]);
    }
  }

  // ---------------------------------------------------- dumps of one branch

  lemma ChainIsSound(k: Keys, c: seq<Link>)
    requires Chain(k, c)
    ensures Sound(k, c) && !Has(k, c, k.genesis)
  {
    forall i | 0 <= i < |c| ensures Verified(k, c[i]) && Rooted(k, c, i) {
      assert LinkedAt(k, c, i);
      if i > 0 { assert LinkedAt(k, c, i - 1) && IndexOf(k, c, c[i].prev) <= i - 1; }
    }
    forall i | 0 <= i < |c| ensures HashOf(k, c[i]) != k.genesis { assert LinkedAt(k, c, i); }
  }

  lemma UpOneStep(k: Keys, c: seq<Link>, ts: seq<Token>, i: nat)
    requires Chain(k, c) && Links(ts) == c && Sound(k, c) && i < |c|
    ensures UpFrom(k, ts, i) == if i == 0 then [ts[i]] else [ts[i]] + UpFrom(k, ts, i - 1)
  {
    assert LinkedAt(k, c, i) && Rooted(k, c, i);
    if i > 0 {
      assert LinkedAt(k, c, i - 1);
      IndexOfUnique(k, c, i - 1);
    }
  }

  /** On a chain the path up from a token passes all the tokens before it. */
  lemma {:induction false} ChainUp(k: Keys, c: seq<Link>, ts: seq<Token>, i: nat)
    requires Chain(k, c) && Links(ts) == c && Sound(k, c) && i < |c|
    ensures Elements(UpFrom(k, ts, i)) == Elements(ts[..i + 1])
    decreases i
  {
    hide Chain, Sound, UpFrom, Elements, Links;
    UpOneStep(k, c, ts, i);
    if i > 0 {
      ChainUp(k, c, ts, i - 1);
      OneFurther(ts, i, UpFrom(k, ts, i - 1));
    } else {
      assert ts[..1] == [ts[0]];
    }
  }

  lemma OneFurther<T>(ts: seq<T>, i: nat, up: seq<T>)
    requires i < |ts| && Elements(up) == Elements(ts[..i])
    ensures Elements([ts[i]] + up) == Elements(ts[..i + 1])
  {
    assert ts[..i + 1] == ts[..i] + [ts[i]];
    ElementsJoin(ts[..i], [ts[i]]);
    ElementsJoin([ts[i]], up);
  }

  lemma KnownIsUp(k: Keys, c: seq<Link>, ts: seq<Token>, i: nat)
    requires Chain(k, c) && Links(ts) == c && Sound(k, c) && !Has(k, c, k.genesis) && i < |c|
    ensures KnownPath(k, ts, ts[i]) == UpFrom(k, ts, i)
  {
    assert LinkedAt(k, c, i) && Rooted(k, c, i);
    if i > 0 { assert LinkedAt(k, c, i - 1); }
  }

  /**
   The dump up to token i of a chain lists children before parents. Read into a fresh tree whose buffer is no more
   than one shorter than the chain, it still leaves exactly the first i + 1 tokens, with none waiting. (A chain is
   always sound: `ChainIsSound`.)
   */
  lemma UpToArrives(k: Keys, maxSize: nat, c: seq<Link>, ts: seq<Token>, i: nat)
    requires Chain(k, c) && AllWellSized(k, c) && |c| <= maxSize + 1 && Links(ts) == c && i < |c|
    requires Sound(k, c)
    ensures var r := Unserialize(k, maxSize, Tree([], []), Dump(Links(KnownPath(k, ts, ts[i]))), true).tree;
            Links(r.elements) == c[..i + 1] && r.unchained == []
  {
    var ls := Links(KnownPath(k, ts, ts[i]));
    UpToLinks(k, c, ts, i);
    hide Sound, UpFrom, KnownPath, WellSized, Chain, AllWellSized, Dump, Unserialize, Links;
    PrefixIsChain(k, c, i + 1);
    SizedPart(k, c, ls);
    UnserializeDump(k, maxSize, Tree([], []), ls, true);
    BareLinks(ls, c[..i + 1]);
    TokensConfluent(k, maxSize, c[..i + 1], Bare(ls));
  }

  lemma UpToLinks(k: Keys, c: seq<Link>, ts: seq<Token>, i: nat)
    requires Chain(k, c) && Links(ts) == c && Sound(k, c) && i < |c|
    ensures forall l :: l in Links(KnownPath(k, ts, ts[i])) <==> l in c[..i + 1]
    ensures forall l :: l in c[..i + 1] ==> l in c
  {
    ChainIsSound(k, c);
    hide Sound, UpFrom, KnownPath, Has, Chain;
    KnownIsUp(k, c, ts, i);
    ChainUp(k, c, ts, i);
    hide Elements;
    forall l ensures l in Links(KnownPath(k, ts, ts[i])) <==> l in c[..i + 1] {
      SameLinks(ts, UpFrom(k, ts, i), i, l);
    }
  }

  lemma BareLinks(ls: seq<Link>, p: seq<Link>)
    requires forall l :: l in ls ==> l in p
    ensures Links(Bare(ls)) == ls && forall t :: t in Bare(ls) ==> t.link in p
  {
    forall t | t in Bare(ls) ensures t.link in p {
      var j :| 0 <= j < |ls| && Bare(ls)[j] == t;
      assert ls[j] in ls;
    }
  }

  lemma SizedPart(k: Keys, c: seq<Link>, ls: seq<Link>)
    requires AllWellSized(k, c) && forall l :: l in ls ==> l in c
    ensures AllWellSized(k, ls)
  {
  }

  lemma SameLinks(ts: seq<Token>, up: seq<Token>, i: nat, l: Link)
    requires i < |ts| && Elements(up) == Elements(ts[..i + 1])
    ensures l in Links(up) <==> l in Links(ts)[..i + 1]
  {
    if l in Links(up) {
      var j :| 0 <= j < |up| && Links(up)[j] == l;
      assert up[j] in Elements(ts[..i + 1]);
      var m :| 0 <= m <= i && ts[..i + 1][m] == up[j];
      assert Links(ts)[..i + 1][m] == l;
    }
    if l in Links(ts)[..i + 1] {
      var m :| 0 <= m <= i && Links(ts)[..i + 1][m] == l;
      assert ts[..i + 1][m] in Elements(up);
      var j :| 0 <= j < |up| && up[j] == ts[m];
      assert Links(up)[j] == l;
    }
  }
}
