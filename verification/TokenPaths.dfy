/** The way from a token back to the owner's key. */
module TokenPaths {
  import opened BitStrings
  import opened Collections
  import opened TokenSpec

  /** Element i, its parent, and so on up to the element that hangs on the key. */
  ghost function UpFrom(k: Keys, ts: seq<Token>, i: nat): (q: seq<Token>)
    requires Sound(k, Links(ts)) && i < |ts|
    ensures |q| > 0 && q[0] == ts[i]
    decreases i
  {
    assert Rooted(k, Links(ts), i);
    if ts[i].link.prev == k.genesis then [ts[i]]
    else [ts[i]] + UpFrom(k, ts, IndexOf(k, Links(ts), ts[i].link.prev))
  }

  /** The path from any token to the key, when its parents are all there and it is signed. */
  ghost function RootPath(k: Keys, ts: seq<Token>, t: Token): (q: Option<seq<Token>>)
    requires Sound(k, Links(ts))
    ensures q.Some? ==> |q.value| > 0 && q.value[0] == t
  {
    if !Verified(k, t.link) then None
    else if t.link.prev == k.genesis then Some([t])
    else if Has(k, Links(ts), t.link.prev) then Some([t] + UpFrom(k, ts, IndexOf(k, Links(ts), t.link.prev)))
    else None
  }

  /** How many tokens lie between a token and the key. */
  ghost function Depth(k: Keys, ts: seq<Token>, t: Token): (d: nat)
    requires Sound(k, Links(ts)) && RootPath(k, ts, t).Some?
  {
    |RootPath(k, ts, t).value| - 1
  }

  /** A list of tokens, each the parent of the one before, that ends at the key. */
  ghost predicate LeadsToRoot(k: Keys, ts: seq<Token>, q: seq<Token>) {
    && |q| > 0 && q[|q| - 1].link.prev == k.genesis
    && forall j :: 0 <= j < |q| - 1 ==> StepUp(k, ts, q[j], q[j + 1])
  }

  ghost predicate StepUp(k: Keys, ts: seq<Token>, t: Token, parent: Token) {
    t.link.prev != k.genesis && parent in ts && HashOf(k, parent.link) == t.link.prev
  }

  /** Every element of a sound tree reaches the key. */
  lemma ElementHasPath(k: Keys, ts: seq<Token>, i: nat)
    requires Sound(k, Links(ts)) && i < |ts|
    ensures RootPath(k, ts, ts[i]) == Some(UpFrom(k, ts, i))
  {
    assert Verified(k, Links(ts)[i]) && Rooted(k, Links(ts), i);
  }

  lemma {:induction false} UpFromLeads(k: Keys, ts: seq<Token>, i: nat)
    requires Sound(k, Links(ts)) && i < |ts|
    ensures LeadsToRoot(k, ts, UpFrom(k, ts, i))
    decreases i
  {
    assert Rooted(k, Links(ts), i);
    if ts[i].link.prev != k.genesis {
      var j := IndexOf(k, Links(ts), ts[i].link.prev);
      UpFromLeads(k, ts, j);
      Prepend(k, ts, ts[i], UpFrom(k, ts, j));
    }
  }

  lemma Prepend(k: Keys, ts: seq<Token>, t: Token, q: seq<Token>)
    requires LeadsToRoot(k, ts, q) && StepUp(k, ts, t, q[0])
    ensures LeadsToRoot(k, ts, [t] + q)
  {
    var r := [t] + q;
    forall j | 0 <= j < |r| - 1 ensures StepUp(k, ts, r[j], r[j + 1]) {
      if j > 0 { assert StepUp(k, ts, q[j - 1], q[j]); }
    }
  }

  /** The path is linked, and it is the only linked path from its token. */
  lemma RootPathLeads(k: Keys, ts: seq<Token>, t: Token)
    requires Sound(k, Links(ts)) && RootPath(k, ts, t).Some?
    ensures LeadsToRoot(k, ts, RootPath(k, ts, t).value)
  {
    if t.link.prev != k.genesis {
      var i := IndexOf(k, Links(ts), t.link.prev);
      UpFromLeads(k, ts, i);
      Prepend(k, ts, t, UpFrom(k, ts, i));
    }
  }

  lemma {:induction false} UpFromUnique(k: Keys, ts: seq<Token>, i: nat, q: seq<Token>)
    requires Sound(k, Links(ts)) && i < |ts| && LeadsToRoot(k, ts, q) && q[0] == ts[i]
    ensures q == UpFrom(k, ts, i)
    decreases |q|
  {
    if |q| > 1 {
      var j := NextUp(k, ts, q);
      UpFromUnique(k, ts, j, q[1..]);
      assert q == [q[0]] + q[1..];
    }
  }

  lemma NextUp(k: Keys, ts: seq<Token>, q: seq<Token>) returns (j: nat)
    requires Sound(k, Links(ts)) && LeadsToRoot(k, ts, q) && |q| > 1
    ensures j < |ts| && ts[j] == q[1] && q[0].link.prev != k.genesis
    ensures IndexOf(k, Links(ts), q[0].link.prev) == j && LeadsToRoot(k, ts, q[1..])
  {
    assert StepUp(k, ts, q[0], q[1]);
    j :| 0 <= j < |ts| && ts[j] == q[1];
    IndexOfUnique(k, Links(ts), j);
    TailLeads(k, ts, q);
  }

  lemma TailLeads(k: Keys, ts: seq<Token>, q: seq<Token>)
    requires LeadsToRoot(k, ts, q) && |q| > 1
    ensures LeadsToRoot(k, ts, q[1..])
  {
    forall j | 0 <= j < |q| - 2 ensures StepUp(k, ts, q[1..][j], q[1..][j + 1]) {
      assert StepUp(k, ts, q[j + 1], q[j + 2]);
    }
  }

  lemma RootPathUnique(k: Keys, ts: seq<Token>, t: Token, q: seq<Token>)
    requires Sound(k, Links(ts)) && Verified(k, t.link) && LeadsToRoot(k, ts, q) && q[0] == t
    ensures RootPath(k, ts, t) == Some(q)
  {
    hide Sound;
    if |q| > 1 {
      var j := NextUp(k, ts, q);
      UpFromUnique(k, ts, j, q[1..]);
      assert q == [q[0]] + q[1..];
    } else {
      assert q == [t];
    }
  }

  /** The tokens known on the way from a token to the key, the token itself first. */
  ghost function KnownPath(k: Keys, ts: seq<Token>, t: Token): (q: seq<Token>)
    requires Sound(k, Links(ts))
  {
    if Has(k, Links(ts), t.link.prev) then [t] + UpFrom(k, ts, IndexOf(k, Links(ts), t.link.prev)) else [t]
  }

  ghost predicate PointsAtNext(k: Keys, ts: seq<Token>, q: seq<Token>, j: nat)
    requires j + 1 < |q|
  {
    q[j + 1] in ts && HashOf(k, q[j + 1].link) == q[j].link.prev
  }

  /** A list from a token upwards: each points at the next, which is an element, and the last points at no element. */
  ghost predicate ClimbsAll(k: Keys, ts: seq<Token>, t: Token, q: seq<Token>) {
    && |q| > 0 && q[0] == t
    && (forall j :: 0 <= j < |q| - 1 ==> PointsAtNext(k, ts, q, j))
    && forall u :: u in ts ==> HashOf(k, u.link) != q[|q| - 1].link.prev
  }

  lemma KnownPathClimbs(k: Keys, ts: seq<Token>, t: Token)
    requires Sound(k, Links(ts)) && !Has(k, Links(ts), k.genesis)
    ensures ClimbsAll(k, ts, t, KnownPath(k, ts, t))
  {
    if Has(k, Links(ts), t.link.prev) {
      var i := IndexOf(k, Links(ts), t.link.prev);
      UpFromLeads(k, ts, i);
      NoElementHas(k, ts, k.genesis);
      hide Sound, UpFrom, LeadsToRoot, ClimbsAll;
      ClimbOn(k, ts, t, UpFrom(k, ts, i));
    } else {
      NoElementHas(k, ts, t.link.prev);
    }
  }

  lemma ClimbOn(k: Keys, ts: seq<Token>, t: Token, up: seq<Token>)
    requires LeadsToRoot(k, ts, up) && up[0] in ts && HashOf(k, up[0].link) == t.link.prev
    requires forall u :: u in ts ==> HashOf(k, u.link) != k.genesis
    ensures ClimbsAll(k, ts, t, [t] + up)
  {
    var q := [t] + up;
    forall j | 0 <= j < |q| - 1 ensures PointsAtNext(k, ts, q, j) {
      if j > 0 { assert StepUp(k, ts, up[j - 1], up[j]); }
    }
  }

  lemma NoElementHas(k: Keys, ts: seq<Token>, h: Bytes)
    requires !Has(k, Links(ts), h)
    ensures forall u :: u in ts ==> HashOf(k, u.link) != h
  {
    forall u | u in ts ensures HashOf(k, u.link) != h {
      var i :| 0 <= i < |ts| && ts[i] == u;
      assert Links(ts)[i] == u.link;
    }
  }

  lemma KnownAlone(k: Keys, ts: seq<Token>, t: Token)
    requires Sound(k, Links(ts)) && !Has(k, Links(ts), t.link.prev)
    ensures KnownPath(k, ts, t) == [t]
  {
  }

  /** One step of the loops that climb to the key: what is left of the path, and why the climb ends. */
  lemma ClimbStep(k: Keys, ts: seq<Token>, t: Token)
    requires Sound(k, Links(ts)) && Has(k, Links(ts), t.link.prev)
    ensures var i := IndexOf(k, Links(ts), t.link.prev);
            && RootPath(k, ts, ts[i]).Some?
            && (Verified(k, t.link) && t.link.prev != k.genesis ==>
                  RootPath(k, ts, t) == Some([t] + RootPath(k, ts, ts[i]).value))
            && (!Has(k, Links(ts), k.genesis) ==> KnownPath(k, ts, t) == [t] + KnownPath(k, ts, ts[i]))
            && (ts[i].link.prev != k.genesis ==> IndexOf(k, Links(ts), ts[i].link.prev) < i)
  {
    var i := IndexOf(k, Links(ts), t.link.prev);
    assert Rooted(k, Links(ts), i);
    ElementHasPath(k, ts, i);
  }

  // ------------------------------------------- climbing in any dictionary

  ghost predicate ParentOf(k: Keys, ts: seq<Token>, t: Token, u: Token) {
    t.link.prev != k.genesis && Has(k, Links(ts), t.link.prev) && u == ts[IndexOf(k, Links(ts), t.link.prev)]
  }

  /** One step up, from a signed token to its parent. */
  ghost predicate Rises(k: Keys, ts: seq<Token>, q: seq<Token>, j: nat)
    requires j + 1 < |q|
  {
    Verified(k, q[j].link) && ParentOf(k, ts, q[j], q[j + 1])
  }

  /** Signed tokens from t on, each followed by its parent; the last may be anything. */
  ghost predicate Ascent(k: Keys, ts: seq<Token>, t: Token, q: seq<Token>) {
    |q| > 0 && q[0] == t && forall j :: 0 <= j < |q| - 1 ==> Rises(k, ts, q, j)
  }

  /** An ascent that ends at the owner's key, all tokens signed. The tokens need not form a sound tree. */
  ghost predicate SignedPath(k: Keys, ts: seq<Token>, t: Token, q: seq<Token>) {
    Ascent(k, ts, t, q) && Verified(k, q[|q| - 1].link) && q[|q| - 1].link.prev == k.genesis
  }

  lemma AscentSnoc(k: Keys, ts: seq<Token>, t: Token, q: seq<Token>, u: Token)
    requires Ascent(k, ts, t, q) && Verified(k, q[|q| - 1].link) && ParentOf(k, ts, q[|q| - 1], u)
    ensures Ascent(k, ts, t, q + [u])
  {
    hide ParentOf, Verified;
    var r := q + [u];
    forall j | 0 <= j < |r| - 1 ensures Rises(k, ts, r, j) {
      if j < |q| - 1 { assert Rises(k, ts, q, j); }
    }
  }

  /** There is one way up: an ascent is the beginning of every signed path. */
  lemma {:induction false} AscentIsPrefix(k: Keys, ts: seq<Token>, t: Token, q: seq<Token>, p: seq<Token>)
    requires Ascent(k, ts, t, q) && SignedPath(k, ts, t, p)
    ensures q <= p
    decreases |q|
  {
    if |q| == 1 {
      assert q == [t];
    } else {
      var m := |q| - 1;
      forall j | 0 <= j < m - 1 ensures Rises(k, ts, q[..m], j) { assert Rises(k, ts, q, j); }
      AscentIsPrefix(k, ts, t, q[..m], p);
      assert Rises(k, ts, q, m - 1) && q[m - 1] == p[m - 1];
      assert m < |p| && Rises(k, ts, p, m - 1);
      assert q == q[..m] + [q[m]];
    }
  }

  /** Where a climb ends: nowhere, at the key, or with a path that is longer than the climb. */
  lemma ClimbStop(k: Keys, ts: seq<Token>, t: Token, q: seq<Token>, p: seq<Token>)
    requires Ascent(k, ts, t, q) && SignedPath(k, ts, t, p)
    ensures |p| >= |q| && Verified(k, q[|q| - 1].link)
    ensures if q[|q| - 1].link.prev == k.genesis then p == q else Has(k, Links(ts), q[|q| - 1].link.prev)
  {
    AscentIsPrefix(k, ts, t, q, p);
    var m := |q| - 1;
    assert p[m] == q[m];
    if m + 1 < |p| { assert Rises(k, ts, p, m); }
  }

  /** The loops have climbed along q and stand on its last token. */
  ghost predicate Climbing(k: Keys, ts: seq<Token>, t: Token, q: seq<Token>, current: Token, steps: int) {
    Ascent(k, ts, t, q) && |q| == steps + 1 && current == q[|q| - 1]
  }

  /** In a sound tree, a bound on what is still above. */
  ghost predicate Above(k: Keys, ts: seq<Token>, current: Token, climb: int) {
    Sound(k, Links(ts)) ==>
      0 <= climb && (Has(k, Links(ts), current.link.prev) && current.link.prev != k.genesis ==>
                       IndexOf(k, Links(ts), current.link.prev) + 1 < climb)
  }

  /** What a signed path must be like when a climb along q stands on `current`. */
  ghost predicate GoesOn(k: Keys, ts: seq<Token>, current: Token, q: seq<Token>, p: seq<Token>) {
    && |p| >= |q| && Verified(k, current.link)
    && (if current.link.prev == k.genesis then p == q else Has(k, Links(ts), current.link.prev))
  }

  lemma ClimbStart(k: Keys, ts: seq<Token>, t: Token)
    ensures Climbing(k, ts, t, [t], t, 0) && Above(k, ts, t, |ts| + 1)
  {
    hide Sound;
  }

  lemma ClimbMeans(k: Keys, ts: seq<Token>, t: Token, q: seq<Token>, current: Token, steps: int, p: seq<Token>)
    requires Climbing(k, ts, t, q, current, steps) && SignedPath(k, ts, t, p)
    ensures GoesOn(k, ts, current, q, p)
  {
    ClimbStop(k, ts, t, q, p);
  }

  lemma ClimbNext(k: Keys, ts: seq<Token>, t: Token, q: seq<Token>, current: Token, steps: int, climb: int)
    requires Climbing(k, ts, t, q, current, steps) && Above(k, ts, current, climb) && Verified(k, current.link)
    requires current.link.prev != k.genesis && Has(k, Links(ts), current.link.prev)
    ensures var i := IndexOf(k, Links(ts), current.link.prev);
            && Climbing(k, ts, t, q + [ts[i]], ts[i], steps + 1) && Above(k, ts, ts[i], i + 1)
            && (Sound(k, Links(ts)) ==> 0 <= i + 1 < climb)
  {
    var i := IndexOf(k, Links(ts), current.link.prev);
    AscentSnoc(k, ts, t, q, ts[i]);
    hide Ascent;
    if Sound(k, Links(ts)) { assert Rooted(k, Links(ts), i); }
  }

  /** The end of the loops: at the key, or out of steps. */
  lemma ClimbEnd(k: Keys, ts: seq<Token>, t: Token, q: seq<Token>, current: Token, steps: int, maxdepth: int)
    requires Climbing(k, ts, t, q, current, steps)
    requires steps >= maxdepth || (Verified(k, current.link) && current.link.prev == k.genesis)
    ensures steps < maxdepth ==> SignedPath(k, ts, t, q) && |q| <= maxdepth
    ensures steps >= maxdepth ==> forall p :: SignedPath(k, ts, t, p) ==> |p| > maxdepth
  {
    forall p | SignedPath(k, ts, t, p) ensures |p| >= |q| { ClimbStop(k, ts, t, q, p); }
  }

  /** In a sound tree the signed path is the path to the key. */
  lemma SignedPathIsRootPath(k: Keys, ts: seq<Token>, t: Token, q: seq<Token>)
    requires Sound(k, Links(ts))
    ensures SignedPath(k, ts, t, q) <==> RootPath(k, ts, t) == Some(q)
  {
    if SignedPath(k, ts, t, q) {
      SignedLeads(k, ts, t, q);
      assert |q| > 1 ==> Rises(k, ts, q, 0);
      RootPathUnique(k, ts, t, q);
    }
    if RootPath(k, ts, t) == Some(q) {
      RootPathLeads(k, ts, t);
      LeadsSigned(k, ts, t, q);
    }
  }

  lemma SignedLeads(k: Keys, ts: seq<Token>, t: Token, q: seq<Token>)
    requires SignedPath(k, ts, t, q)
    ensures LeadsToRoot(k, ts, q)
  {
    forall j | 0 <= j < |q| - 1 ensures StepUp(k, ts, q[j], q[j + 1]) {
      assert Rises(k, ts, q, j);
    }
  }

  lemma LeadsSigned(k: Keys, ts: seq<Token>, t: Token, q: seq<Token>)
    requires Sound(k, Links(ts)) && LeadsToRoot(k, ts, q) && q[0] == t && Verified(k, t.link)
    ensures SignedPath(k, ts, t, q)
  {
    forall j | 1 <= j < |q| ensures Verified(k, q[j].link) {
      assert StepUp(k, ts, q[j - 1], q[j]);
      var i :| 0 <= i < |ts| && ts[i] == q[j];
      assert Verified(k, Links(ts)[i]);
    }
    forall j | 0 <= j < |q| - 1 ensures Rises(k, ts, q, j) {
      assert StepUp(k, ts, q[j], q[j + 1]);
      var i :| 0 <= i < |ts| && ts[i] == q[j + 1];
      IndexOfUnique(k, Links(ts), i);
    }
  }

  /** verify on a sound tree: the path exists and its depth is below the limit. */
  lemma VerifyMeansDepth(k: Keys, ts: seq<Token>, t: Token, maxdepth: int)
    requires Sound(k, Links(ts))
    ensures (exists q :: SignedPath(k, ts, t, q) && |q| <= maxdepth)
       <==> RootPath(k, ts, t).Some? && Depth(k, ts, t) < maxdepth
  {
    forall q ensures SignedPath(k, ts, t, q) <==> RootPath(k, ts, t) == Some(q) { SignedPathIsRootPath(k, ts, t, q); }
    hide SignedPath, RootPath, Sound;
    if RootPath(k, ts, t).Some? { assert SignedPath(k, ts, t, RootPath(k, ts, t).value); }
  }
}
