/** The token tree as the object it is in the program, each operation proved against its specification. */
module TokenTrees {
  import opened BitStrings
  import opened Collections
  import opened TokenSpec
  import opened TokenExchange
  import opened TokenPaths

  /** The owner's signatures are the ones that the owner's key accepts. */
  ghost predicate SignsFor(sign: Bytes -> Bytes, k: Keys) {
    forall b :: k.valid(b, sign(b))
  }

  /** The token has taken the place of the one with its hash, which is its own double pointer if no hashes collide. */
  ghost predicate OneReplaced(k: Keys, before: seq<Token>, t: Token, after: seq<Token>) {
    && |after| == |before|
    && (forall i :: 0 <= i < |before| ==>
          if i == IndexOf(k, Links(before), HashOf(k, t.link)) then after[i] == t else after[i] == before[i])
    && ((forall l :: l in Links(before) && HashOf(k, l) == HashOf(k, t.link) ==> l == t.link) ==>
          Links(after) == Links(before))
  }

  lemma ReplacesOne(k: Keys, before: seq<Token>, t: Token)
    requires Has(k, Links(before), HashOf(k, t.link))
    ensures OneReplaced(k, before, t, before[IndexOf(k, Links(before), HashOf(k, t.link)) := t])
  {
    var i := IndexOf(k, Links(before), HashOf(k, t.link));
    assert Links(before)[i] in Links(before);
    assert Links(before[i := t]) == Links(before)[i := t.link];
  }

  class TokenTree {
    const keys: Keys
    /** private_key.signature, for the owner only. */
    const sign: Option<Bytes -> Bytes>
    var elements: seq<Token>
    var unchained: seq<Token>
    var unchainedMaxSize: nat

    constructor (keys: Keys, sign: Option<Bytes -> Bytes>)
      ensures State() == Tree([], []) && unchainedMaxSize == 100 && this.keys == keys && this.sign == sign
    {
      this.keys, this.sign := keys, sign;
      elements, unchained, unchainedMaxSize := [], [], 100;
    }

    ghost function State(): (s: Tree)
      reads this
    {
      Tree(elements, unchained)
    }

    ghost predicate Valid()
      reads this
    {
      TreeInv(keys, unchainedMaxSize, State())
    }

    /** add_by_hash; None stands for the RuntimeError of a tree without private key. */
    method AddByHash(contentHash: Bytes, after: Option<Token>) returns (r: Option<Token>)
      modifies this`elements
      ensures r.None? <==> sign.None?
      ensures r.None? ==> elements == old(elements)
      ensures r.Some? ==>
        && r.value.link.prev == (if after.None? then keys.genesis else HashOf(keys, after.value.link))
        && r.value.link.contentHash == contentHash && r.value.content == None
        && r.value.link.signature == sign.value(r.value.link.prev + contentHash)
        && r.value == Issued(keys, sign.value, contentHash, after)
        && State() == Append(keys, old(State()), r.value) && r.value in elements
        && (if Has(keys, old(Links(elements)), HashOf(keys, r.value.link))
            then OneReplaced(keys, old(elements), r.value, elements) else elements == old(elements) + [r.value])
        && (SignsFor(sign.value, keys) ==> Verified(keys, r.value.link))
    {
      if sign.None? {
        return None;
      }
      var prev := if after.None? then keys.genesis else HashOf(keys, after.value.link);
      var t := Token(Link(prev, contentHash, sign.value(prev + contentHash)), None);
      var i := IndexOf(keys, Links(elements), HashOf(keys, t.link));
      AppendStores(keys, State(), t);
      if i < |elements| { ReplacesOne(keys, elements, t); }
      hide Links, HashOf, OneReplaced;
      elements := if i < |elements| then elements[i := t] else elements + [t];
      return Some(t);
    }

    method GatherToken(t: Token) returns (r: Option<Token>)
      modifies this`elements, this`unchained
      ensures (State(), r) == Gather(keys, unchainedMaxSize, old(State()), t)
      decreases |unchained|, 1
    {
      if !Verified(keys, t.link) {
        return None;
      }
      if t.link.prev != keys.genesis && !Has(keys, Links(elements), t.link.prev) {
        if WaitingAt(Links(unchained), t.link) == |unchained| {
          unchained := unchained + [t];
        }
        if |unchained| > unchainedMaxSize {
          unchained := unchained[1..];
        }
        return None;
      }
      var i := IndexOf(keys, Links(elements), HashOf(keys, t.link));
      if i < |elements| {
        elements := elements[i := Filled(keys, elements[i], t.content)];
        return Some(elements[i]);
      }
      AppendChainReaction(t);
      return Some(t);
    }

    method AppendChainReaction(t: Token)
      requires !Has(keys, Links(elements), HashOf(keys, t.link))
      modifies this`elements, this`unchained
      ensures State() == React(keys, unchainedMaxSize, old(State()), t)
      decreases |unchained|, 0
    {
      elements := elements + [t];
      var i := 0;
      while i < |unchained| && unchained[i].link.prev != HashOf(keys, t.link)
        invariant i <= |unchained| && forall j :: 0 <= j < i ==> unchained[j].link.prev != HashOf(keys, t.link)
      {
        i := i + 1;
      }
      assert i == FirstPointing(Links(unchained), HashOf(keys, t.link));
      if i < |unchained| {
        var retry := unchained[i];
        unchained := unchained[..i] + unchained[i + 1..];
        var taken := GatherToken(retry);
      }
    }

    /**
     verify: whether a signed path of at most maxdepth tokens leads to the key, whatever the tree was filled
     with. A limit of -1 lets the climb go on until it ends, which a sound tree guarantees.
     */
    method Verify(t: Token, maxdepth: int) returns (ok: bool)
      requires maxdepth == -1 ==> Sound(keys, Links(elements))
      ensures ok <==> exists q :: SignedPath(keys, elements, t, q) && |q| <= maxdepth
    {
      var current, steps := t, 0;
      ghost var q, climb := [t], |elements| + 1;
      hide Ascent, SignedPath;
      ClimbStart(keys, elements, t);
      while maxdepth == -1 || maxdepth > steps
        invariant Climbing(keys, elements, t, q, current, steps) && Above(keys, elements, current, climb)
        decreases if maxdepth == -1 then climb else maxdepth - steps
      {
        forall p | SignedPath(keys, elements, t, p) ensures GoesOn(keys, elements, current, q, p) {
          ClimbMeans(keys, elements, t, q, current, steps, p);
        }
        if !Verified(keys, current.link) {
          return false;
        }
        if current.link.prev == keys.genesis {
          break;
        }
        var i := IndexOf(keys, Links(elements), current.link.prev);
        if i == |elements| {
          return false;
        }
        ClimbNext(keys, elements, t, q, current, steps, climb);
        q, climb := q + [elements[i]], i + 1;
        current, steps := elements[i], steps + 1;
      }
      ClimbEnd(keys, elements, t, q, current, steps, maxdepth);
      ok := steps < maxdepth;
    }

    /** get_root_path: the signed path that verify looks for, or nothing. */
    method GetRootPath(t: Token, maxdepth: int) returns (path: seq<Token>)
      requires maxdepth == -1 ==> Sound(keys, Links(elements))
      ensures path != [] ==> SignedPath(keys, elements, t, path) && |path| <= maxdepth
      ensures path == [] ==> forall q :: SignedPath(keys, elements, t, q) ==> |q| > maxdepth
    {
      var current, steps := t, 0;
      path := [t];
      ghost var climb := |elements| + 1;
      hide Ascent, SignedPath;
      ClimbStart(keys, elements, t);
      while maxdepth == -1 || maxdepth > steps
        invariant Climbing(keys, elements, t, path, current, steps) && Above(keys, elements, current, climb)
        decreases if maxdepth == -1 then climb else maxdepth - steps
      {
        forall p | SignedPath(keys, elements, t, p) ensures GoesOn(keys, elements, current, path, p) {
          ClimbMeans(keys, elements, t, path, current, steps, p);
        }
        if !Verified(keys, current.link) {
          return [];
        }
        if current.link.prev == keys.genesis {
          break;
        }
        var i := IndexOf(keys, Links(elements), current.link.prev);
        if i == |elements| {
          return [];
        }
        ClimbNext(keys, elements, t, path, current, steps, climb);
        climb := i + 1;
        current, path, steps := elements[i], path + [elements[i]], steps + 1;
      }
      ClimbEnd(keys, elements, t, path, current, steps, maxdepth);
      if steps >= maxdepth {
        path := [];
      }
    }

    /** serialize_public without an end: the full dump. */
    method SerializePublic() returns (out: Bytes)
      ensures out == Dump(Links(elements))
    {
      out := [];
      for i := 0 to |elements|
        invariant out == Dump(Links(elements[..i]))
      {
        LinksAppend(elements[..i], elements[i]);
        assert elements[..i + 1] == elements[..i] + [elements[i]];
        DumpSnoc(Links(elements[..i]), elements[i].link);
        out := out + Plain(elements[i].link);
      }
      assert elements[..|elements|] == elements;
    }

    /** serialize_public(up_to): the known tokens from one token back to the key. */
    method SerializeUpTo(upTo: Token) returns (out: Bytes)
      requires Sound(keys, Links(elements)) && !Has(keys, Links(elements), keys.genesis)
      ensures out == Dump(Links(KnownPath(keys, elements, upTo)))
      ensures ClimbsAll(keys, elements, upTo, KnownPath(keys, elements, upTo))
    {
      hide Sound, Dump, Plain, HashOf, KnownPath, ClimbsAll;
      KnownPathClimbs(keys, elements, upTo);
      var current := upTo;
      out := Plain(current.link);
      ghost var passed, climb := [], |elements| + 1;
      DumpOne(current.link);
      assert [] + [current] == [current] && Links([current]) == [current.link];
      assert [] + KnownPath(keys, elements, upTo) == KnownPath(keys, elements, upTo);
      while Has(keys, Links(elements), current.link.prev)
        invariant out == Dump(Links(passed + [current]))
        invariant KnownPath(keys, elements, upTo) == passed + KnownPath(keys, elements, current)
        invariant Has(keys, Links(elements), current.link.prev) ==>
                    IndexOf(keys, Links(elements), current.link.prev) + 1 < climb
        invariant climb >= 0
        decreases climb
      {
        ClimbStep(keys, elements, current);
        var i := IndexOf(keys, Links(elements), current.link.prev);
        ghost var next := elements[i];
        assert passed + ([current] + KnownPath(keys, elements, next)) ==
               passed + [current] + KnownPath(keys, elements, next);
        LinksAppend(passed + [current], next);
        DumpSnoc(Links(passed + [current]), next.link);
        passed, climb := passed + [current], i + 1;
        current := elements[i];
        out := out + Plain(current.link);
      }
      KnownAlone(keys, elements, current);
    }

    method UnserializePublic(b: Bytes) returns (r: Option<bool>)
      modifies this`elements, this`unchained
      ensures Read(State(), r) == Unserialize(keys, unchainedMaxSize, old(State()), b, true)
    {
      var correct := true;
      var i := 0;
      while i < |b|
        invariant 0 <= i <= |b|
        invariant Unserialize(keys, unchainedMaxSize, State(), b[i..], correct)
               == Unserialize(keys, unchainedMaxSize, old(State()), b, true)
        decreases |b| - i
      {
        if i + TokenSize(keys) > |b| {
          return None;
        }
        var taken := GatherToken(Token(ParseOne(keys, b[i..]), None));
        correct := correct && taken.Some?;
        assert b[i..][TokenSize(keys)..] == b[i + TokenSize(keys)..];
        i := i + TokenSize(keys);
      }
      return Some(correct);
    }
  }
}
