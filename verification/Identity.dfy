/**
 The identity overlay: serving the tokens a peer misses, choosing the tokens of a
 disclosure, and the framing of a disclosure's metadata and attestations.
 */
module Identity {
  import opened BitStrings
  import opened Collections
  import opened Serialization
  import opened TokenSpec
  import opened TokenChains
  import opened TokenExchange
  import opened TokenPaths
  import opened TokenTrees

  // ---------------------------------------------------- serving missing tokens

  class IdentityCommunity {
    var tokenChain: seq<Link>
    var permissions: map<Bytes, nat>

    constructor ()
      ensures tokenChain == [] && permissions == map[]
    {
      tokenChain, permissions := [], map[];
    }

    /** on_request_missing: the bytes sent to the peer. */
    method OnRequestMissing(peer: Bytes, known: nat) returns (out: Bytes)
      ensures out == Dump(Response(tokenChain, if peer in permissions then permissions[peer] else 0, known))
      ensures |out| <= SAFE_UDP_PACKET_LENGTH && (peer !in permissions ==> out == [])
    {
      var permission := if peer in permissions then permissions[peer] else 0;
      var permitted := if permission <= |tokenChain| then tokenChain[..permission] else tokenChain;
      ghost var unknown := if known <= |permitted| then permitted[known..] else [];
      ghost var m := 0;
      out := [];
      FillingStart(unknown);
      hide Filling, Plain;
      for index := 0 to |permitted|
        invariant index <= known ==> m == 0
        invariant index > known ==> m == index - known && m <= |unknown|
        invariant Filling(unknown, m, out)
      {
        if index >= known {
          var serialized := Plain(permitted[index]);
          assert unknown[m] == permitted[index];
          FillingStep(unknown, m, out);
          if |out| + |serialized| > SAFE_UDP_PACKET_LENGTH {
            break;
          }
          out := out + serialized;
          m := m + 1;
        }
      }
      FillingEnd(unknown, m, out);
    }
  }

  /** The packet holds the first m of the tokens, and the others are still to be fitted in. */
  ghost predicate Filling(unknown: seq<Link>, m: nat, out: Bytes) {
    && m <= |unknown| && out == Dump(unknown[..m]) && |out| <= SAFE_UDP_PACKET_LENGTH
    && Fitting(unknown, SAFE_UDP_PACKET_LENGTH) == m + Fitting(unknown[m..], SAFE_UDP_PACKET_LENGTH - |out|)
  }

  lemma FillingStart(unknown: seq<Link>)
    ensures Filling(unknown, 0, [])
  {
    assert unknown[0..] == unknown && unknown[..0] == [];
  }

  lemma FillingStep(unknown: seq<Link>, m: nat, out: Bytes)
    requires Filling(unknown, m, out) && m < |unknown|
    ensures if |out| + |Plain(unknown[m])| > SAFE_UDP_PACKET_LENGTH
            then m == Fitting(unknown, SAFE_UDP_PACKET_LENGTH)
            else Filling(unknown, m + 1, out + Plain(unknown[m]))
  {
    hide Dump, Plain;
    var todo := unknown[m..];
    assert todo[0] == unknown[m] && todo[1..] == unknown[m + 1..];
    DumpSnoc(unknown[..m], unknown[m]);
    assert unknown[..m + 1] == unknown[..m] + [unknown[m]];
  }

  lemma FillingEnd(unknown: seq<Link>, m: nat, out: Bytes)
    requires Filling(unknown, m, out)
    ensures out == Dump(unknown[..m]) && |out| <= SAFE_UDP_PACKET_LENGTH
    ensures (m == 0 ==> out == []) && (m == |unknown| ==> m == Fitting(unknown, SAFE_UDP_PACKET_LENGTH))
  {
    assert m == |unknown| ==> unknown[m..] == [];
  }

  // ----------------------------------------------------- choosing the tokens

  /** Tokens of the tree that contain the parent of each of them. */
  ghost predicate Closed(k: Keys, ts: seq<Token>, chosen: set<Token>) {
    && chosen <= Elements(ts)
    && forall t :: t in chosen ==>
       t.link.prev == k.genesis || (exists u :: u in chosen && HashOf(k, u.link) == t.link.prev)
  }

  /** The tokens that have a required hash. */
  ghost function Required(k: Keys, ts: seq<Token>, hashes: set<Bytes>): (s: set<Token>) {
    set t | t in ts && HashOf(k, t.link) in hashes
  }

  /** A closed set that holds a token holds its whole path. */
  lemma {:induction false} ClosedHoldsPath(k: Keys, ts: seq<Token>, chosen: set<Token>, i: nat)
    requires Sound(k, Links(ts)) && Closed(k, ts, chosen) && i < |ts| && ts[i] in chosen
    ensures Elements(UpFrom(k, ts, i)) <= chosen
    decreases i
  {
    assert Rooted(k, Links(ts), i);
    if ts[i].link.prev == k.genesis {
      assert UpFrom(k, ts, i) == [ts[i]];
    } else {
      var u :| u in chosen && HashOf(k, u.link) == ts[i].link.prev;
      assert u in Elements(ts);
      var j :| 0 <= j < |ts| && ts[j] == u;
      IndexOfUnique(k, Links(ts), j);
      ClosedHoldsPath(k, ts, chosen, j);
      ElementsJoin([ts[i]], UpFrom(k, ts, j));
    }
  }

  lemma {:induction false} PathClosed(k: Keys, ts: seq<Token>, i: nat)
    requires Sound(k, Links(ts)) && i < |ts|
    ensures Closed(k, ts, Elements(UpFrom(k, ts, i)))
    decreases i
  {
    assert Rooted(k, Links(ts), i);
    if ts[i].link.prev == k.genesis {
      assert UpFrom(k, ts, i) == [ts[i]];
      assert Elements([ts[i]]) == {ts[i]};
    } else {
      var j := IndexOf(k, Links(ts), ts[i].link.prev);
      PathClosed(k, ts, j);
      var up := UpFrom(k, ts, j);
      ElementsJoin([ts[i]], up);
      assert up[0] in Elements(up) && HashOf(k, up[0].link) == ts[i].link.prev;
      CloseUnder(k, ts, Elements(up), ts[i], up[0]);
      assert Elements([ts[i]]) == {ts[i]};
    }
  }

  lemma CloseUnder(k: Keys, ts: seq<Token>, chosen: set<Token>, t: Token, parent: Token)
    requires Closed(k, ts, chosen) && t in ts && parent in chosen && HashOf(k, parent.link) == t.link.prev
    ensures Closed(k, ts, {t} + chosen)
  {
  }

  lemma CloseUnion(k: Keys, ts: seq<Token>, a: set<Token>, b: set<Token>)
    requires Closed(k, ts, a) && Closed(k, ts, b)
    ensures Closed(k, ts, a + b)
  {
  }

  const MAX_DEPTH: int := 1000

  /** Whether a required hash can be disclosed: it is known, and its token less than 1000 steps from the key. */
  ghost predicate Disclosable(k: Keys, ts: seq<Token>, h: Bytes)
    requires Sound(k, Links(ts))
  {
    var i := IndexOf(k, Links(ts), h);
    i < |ts| && RootPath(k, ts, ts[i]).Some? && Depth(k, ts, ts[i]) < MAX_DEPTH
  }

  /**
   The token part of create_disclosure: None when it raises. Otherwise the tokens are closed, contain
   the required ones, and lie in every closed set that contains those.
   */
  method ChooseTokens(tree: TokenTree, hashes: set<Bytes>) returns (r: Option<set<Token>>)
    requires Sound(tree.keys, Links(tree.elements))
    ensures r.Some? <==> forall h :: h in hashes ==> Disclosable(tree.keys, tree.elements, h)
    ensures r.Some? ==>
      && Closed(tree.keys, tree.elements, r.value)
      && Required(tree.keys, tree.elements, hashes) <= r.value
      && forall c :: Closed(tree.keys, tree.elements, c) && Required(tree.keys, tree.elements, hashes) <= c ==>
         r.value <= c
  {
    var k, ts := tree.keys, tree.elements;
    var tokens: set<Token> := {};
    var rest := hashes;
    while rest != {}
      invariant rest <= hashes && Closed(k, ts, tokens)
      invariant forall h :: h in hashes - rest ==> Disclosable(k, ts, h)
      invariant Required(k, ts, hashes - rest) <= tokens
      invariant forall c :: Closed(k, ts, c) && Required(k, ts, hashes) <= c ==> tokens <= c
      decreases rest
    {
      var h :| h in rest;
      var i := IndexOf(k, Links(ts), h);
      if i == |ts| {
        return None;
      }
      var ok := tree.Verify(ts[i], MAX_DEPTH);
      VerifyMeansDepth(k, ts, ts[i], MAX_DEPTH);
      if !ok {
        return None;
      }
      var path := PathOf(k, ts, i);
      PathClosed(k, ts, i);
      CloseUnion(k, ts, tokens, path);
      forall c | Closed(k, ts, c) && Required(k, ts, hashes) <= c ensures tokens + path <= c {
        assert ts[i] in Required(k, ts, hashes);
        ClosedHoldsPath(k, ts, c, i);
      }
      rest := rest - {h};
      RequiredStep(k, ts, hashes, rest, h, i);
      tokens := tokens + path;
    }
    r := Some(tokens);
  }

  lemma RequiredStep(k: Keys, ts: seq<Token>, hashes: set<Bytes>, rest: set<Bytes>, h: Bytes, i: nat)
    requires Sound(k, Links(ts)) && i < |ts| && HashOf(k, ts[i].link) == h && h in hashes && h !in rest
    ensures Required(k, ts, hashes - rest) <= Required(k, ts, hashes - (rest + {h})) + {ts[i]}
  {
    forall t | t in ts && HashOf(k, t.link) == h ensures t == ts[i] {
      var j :| 0 <= j < |ts| && ts[j] == t;
      IndexOfUnique(k, Links(ts), i);
      IndexOfUnique(k, Links(ts), j);
    }
  }

  /** The inner loop of create_disclosure: the token and everything up to the key. */
  method PathOf(k: Keys, ts: seq<Token>, start: nat) returns (path: set<Token>)
    requires Sound(k, Links(ts)) && start < |ts|
    ensures path == Elements(UpFrom(k, ts, start))
  {
    var current := ts[start];
    path := {current};
    ghost var i := start;
    while current.link.prev != k.genesis
      invariant i < |ts| && current == ts[i] && current in path
      invariant path + Elements(UpFrom(k, ts, i)) == Elements(UpFrom(k, ts, start))
      decreases i
    {
      assert Rooted(k, Links(ts), i);
      var j := IndexOf(k, Links(ts), current.link.prev);
      ElementsJoin([current], UpFrom(k, ts, j));
      current := ts[j];
      path := path + {current};
      assert Elements(UpFrom(k, ts, i)) == {ts[i]} + Elements(UpFrom(k, ts, j));
      assert current in Elements(UpFrom(k, ts, j));
      i := j;
    }
    assert UpFrom(k, ts, i) == [current];
  }

  // --------------------------------------- receiving the tokens of a disclosure

  /** In a chain, a set of tokens that holds the parent of each of them is a prefix. */
  lemma ClosedIsPrefix(k: Keys, c: seq<Link>, ts: seq<Token>, chosen: set<Token>) returns (m: nat)
    requires Chain(k, c) && Links(ts) == c && Closed(k, ts, chosen)
    ensures m <= |c| && chosen == Elements(ts[..m])
  {
    var ds := set i: nat | i < |ts| && ts[i] in chosen;
    m := Delivered(ds, 0, |c|);
    forall i: nat | i < |ts| && ts[i] in chosen ensures i < m {
      if m <= i { Downward(k, c, ts, chosen, i, m); }
    }
    forall i | 0 <= i < m ensures ts[i] in chosen { assert i in ds; }
    forall t | t in chosen ensures t in ts[..m] {
      assert t in Elements(ts);
      var i: nat :| i < |ts| && ts[i] == t;
      assert ts[..m][i] == t;
    }
  }

  lemma {:induction false} Downward(k: Keys, c: seq<Link>, ts: seq<Token>, chosen: set<Token>, i: nat, m: nat)
    requires Chain(k, c) && Links(ts) == c && Closed(k, ts, chosen) && m <= i < |ts| && ts[i] in chosen
    ensures ts[m] in chosen
    decreases i
  {
    hide Chain, Closed;
    if m < i {
      ParentChosen(k, c, ts, chosen, i);
      Downward(k, c, ts, chosen, i - 1, m);
    }
  }

  lemma ParentChosen(k: Keys, c: seq<Link>, ts: seq<Token>, chosen: set<Token>, i: nat)
    requires Chain(k, c) && Links(ts) == c && Closed(k, ts, chosen) && 0 < i < |ts| && ts[i] in chosen
    ensures ts[i - 1] in chosen
  {
    hide HashOf, Verified;
    assert LinkedAt(k, c, i) && LinkedAt(k, c, i - 1);
    assert ts[i].link == c[i];
    var u :| u in chosen && HashOf(k, u.link) == ts[i].link.prev;
    assert u in Elements(ts);
    var j :| 0 <= j < |ts| && ts[j] == u;
    PrevOnly(k, c, i, j);
  }

  /**
   The tokens disclosed from a chain that is at most one longer than the buffer, sent in any order, leave a
   fresh receiver with exactly those tokens: a prefix of the chain, and nothing that waits.
   */
  lemma DisclosureArrives(k: Keys, maxSize: nat, c: seq<Link>, ts: seq<Token>, chosen: set<Token>, sent: seq<Token>)
    requires Chain(k, c) && Links(ts) == c && |c| <= maxSize + 1 && Closed(k, ts, chosen)
    requires forall l :: l in Links(sent) <==> exists t :: t in chosen && t.link == l
    ensures var s := GatherAll(k, maxSize, Tree([], []), sent);
            && s.unchained == [] && Links(s.elements) <= c
            && forall l :: l in Links(s.elements) <==> exists t :: t in chosen && t.link == l
  {
    hide Chain, Closed, GatherAll;
    var m := ClosedIsPrefix(k, c, ts, chosen);
    var p := c[..m];
    PrefixIsChain(k, c, m);
    PrefixLinks(c, ts, chosen, m);
    forall t | t in sent ensures t.link in p {
      var i :| 0 <= i < |sent| && sent[i] == t;
      assert Links(sent)[i] in Links(sent);
    }
    TokensConfluent(k, maxSize, p, sent);
    assert forall l :: l in p ==> l in Links(sent);
  }

  lemma PrefixLinks(c: seq<Link>, ts: seq<Token>, chosen: set<Token>, m: nat)
    requires Links(ts) == c && m <= |c| && chosen == Elements(ts[..m])
    ensures forall l :: l in c[..m] <==> exists t :: t in chosen && t.link == l
  {
    forall l ensures l in c[..m] <==> exists t :: t in chosen && t.link == l {
      if l in c[..m] {
        var i :| 0 <= i < m && c[i] == l;
        assert ts[..m][i] in chosen && ts[i].link == l;
      }
      if t :| t in chosen && t.link == l {
        var i :| 0 <= i < m && ts[..m][i] == t;
        assert c[i] == l && c[..m][i] == l;
      }
    }
  }

  // ---------------------------------------------------------------- framing

  /** Each item behind its length: metadata with four length bytes, authorities with two. */
  function Frames(items: seq<Bytes>, width: nat): (r: Option<Bytes>) {
    if items == [] then Some([])
    else Join(Join(Prefix(|items[0]|, width), Some(items[0])), Frames(items[1..], width))
  }

  /** The reading loops of substantiate; None stands for a struct.error. */
  function ReadFrames(data: Bytes, offset: nat, width: nat): (r: Option<seq<Bytes>>)
    requires width > 0
    decreases |data| - offset
  {
    if offset >= |data| then Some([])
    else
      var n := ReadInt(data, offset, width);
      if n.None? then None
      else
        Joined([Slice(data, offset + width, offset + width + n.value)],
               ReadFrames(data, offset + width + n.value, width))
  }

  /** Framing fails exactly when an item is too long for its length bytes. */
  lemma {:induction false} FramesFit(items: seq<Bytes>, width: nat)
    ensures Frames(items, width).Some? <==> forall x :: x in items ==> |x| < Pow256(width)
  {
    if items != [] {
      FramesFit(items[1..], width);
      assert items == [items[0]] + items[1..];
    }
  }

  lemma {:induction false} FramesRoundTrip(items: seq<Bytes>, width: nat, b: Bytes, data: Bytes, offset: nat)
    requires width > 0 && Frames(items, width) == Some(b) && At(data, offset, b) && offset + |b| == |data|
    ensures ReadFrames(data, offset, width) == Some(items)
    decreases |items|
  {
    hide At, ToBytes, Pow256, ReadInt, Slice;
    if items != [] {
      var first := ToBytes(|items[0]|, width) + items[0];
      var rest := Frames(items[1..], width).value;
      AtJoin(data, offset, first, rest);
      AtSpan(data, offset, first + rest);
      PrefixedBody(|items[0]|, width, items[0], data, offset);
      FramesRoundTrip(items[1..], width, rest, data, offset + |first|);
      assert items == [items[0]] + items[1..];
    }
  }

  const METADATA_HASH_LENGTH: nat := 32

  /** An attestation: a 32-byte pointer and a signature as long as its authority makes them. */
  ghost predicate SizedPairs(pairs: seq<(Bytes, Bytes)>, sigLen: Bytes -> nat) {
    forall i :: 0 <= i < |pairs| ==> |pairs[i].1| == METADATA_HASH_LENGTH + sigLen(pairs[i].0)
  }

  function Authorities(pairs: seq<(Bytes, Bytes)>): (r: seq<Bytes>)
    ensures |r| == |pairs| && forall i :: 0 <= i < |pairs| ==> r[i] == pairs[i].0
  {
    seq(|pairs|, i requires 0 <= i < |pairs| => pairs[i].0)
  }

  function Attestations(pairs: seq<(Bytes, Bytes)>): (r: Bytes) {
    if pairs == [] then [] else pairs[0].1 + Attestations(pairs[1..])
  }

  /** The attestation loop of substantiate: both offsets advance together. None stands for a struct.error. */
  function ReadPairs(authorities: Bytes, authorityOffset: nat, attestations: Bytes, attestationOffset: nat,
                     sigLen: Bytes -> nat): (r: Option<seq<(Bytes, Bytes)>>)
    decreases |authorities| - authorityOffset
  {
    if authorityOffset >= |authorities| then Some([])
    else
      var n := ReadInt(authorities, authorityOffset, 2);
      if n.None? then None
      else
        var authority := Slice(authorities, authorityOffset + 2, authorityOffset + 2 + n.value);
        var end := attestationOffset + METADATA_HASH_LENGTH + sigLen(authority);
        if end > |attestations| then None
        else Joined([(authority, attestations[attestationOffset..end])],
                    ReadPairs(authorities, authorityOffset + 2 + n.value, attestations, end, sigLen))
  }

  /**
   Whatever bytes arrive, no attestation is taken that is cut short: each has its pointer and its whole signature, and
   the loop does not end before the authorities do.
   */
  lemma {:induction false} ReadPairsSized(authorities: Bytes, i: nat, attestations: Bytes, j: nat,
                                          sigLen: Bytes -> nat)
    ensures var r := ReadPairs(authorities, i, attestations, j, sigLen);
            r.Some? ==> SizedPairs(r.value, sigLen) && (r.value == [] || j + |Attestations(r.value)| <= |attestations|)
    ensures ReadPairs(authorities, i, attestations, j, sigLen) == Some([]) ==> i >= |authorities|
    decreases |authorities| - i
  {
    if i < |authorities| {
      var n := ReadInt(authorities, i, 2);
      if n.Some? {
        var authority := Slice(authorities, i + 2, i + 2 + n.value);
        var end := j + METADATA_HASH_LENGTH + sigLen(authority);
        if end <= |attestations| {
          var rest := ReadPairs(authorities, i + 2 + n.value, attestations, end, sigLen);
          hide ReadInt, Slice, SizedPairs, Attestations;
          ReadPairsSized(authorities, i + 2 + n.value, attestations, end, sigLen);
          if rest.Some? { SizedCons((authority, attestations[j..end]), rest.value, sigLen); }
        }
      }
    }
  }

  lemma SizedCons(pair: (Bytes, Bytes), rest: seq<(Bytes, Bytes)>, sigLen: Bytes -> nat)
    requires |pair.1| == METADATA_HASH_LENGTH + sigLen(pair.0) && SizedPairs(rest, sigLen)
    ensures SizedPairs([pair] + rest, sigLen) && Attestations([pair] + rest) == pair.1 + Attestations(rest)
    ensures rest == [] ==> Attestations(rest) == []
  {
    assert ([pair] + rest)[1..] == rest;
  }

  /** One turn of the attestation loop, standing on a framed authority and its attestation. */
  lemma ReadPair(name: Bytes, first: Bytes, sigLen: Bytes -> nat,
                 authorities: Bytes, i: nat, attestations: Bytes, j: nat)
    requires |name| < Pow256(2) && At(authorities, i, ToBytes(|name|, 2) + name)
    requires |first| == METADATA_HASH_LENGTH + sigLen(name) && At(attestations, j, first)
    ensures ReadPairs(authorities, i, attestations, j, sigLen)
         == Joined([(name, first)], ReadPairs(authorities, i + 2 + |name|, attestations, j + |first|, sigLen))
  {
    PrefixedBody(|name|, 2, name, authorities, i);
    assert attestations[j..j + |first|] == first;
    hide Slice;
    hide Joined;
  }

  lemma NextFrame(items: seq<Bytes>, width: nat, data: Bytes, i: nat)
    requires items != [] && i <= |data| && Frames(items, width) == Some(data[i..])
    ensures |items[0]| < Pow256(width) && At(data, i, ToBytes(|items[0]|, width) + items[0])
    ensures i + width + |items[0]| <= |data| && Frames(items[1..], width) == Some(data[i + width + |items[0]|..])
  {
    var first, rest := ToBytes(|items[0]|, width) + items[0], Frames(items[1..], width).value;
    assert data[i..] == first + rest && |first| == width + |items[0]|;
    hide Frames, ToBytes, Pow256;
    assert data[i..i + |first|] == data[i..][..|first|] && data[i + |first|..] == data[i..][|first|..];
  }

  /** Where the authorities from the given offset to the end, and the attestations from theirs, are those pairs. */
  ghost predicate PairsAt(pairs: seq<(Bytes, Bytes)>, sigLen: Bytes -> nat,
                          authorities: Bytes, i: nat, attestations: Bytes, j: nat) {
    && SizedPairs(pairs, sigLen) && i <= |authorities|
    && Frames(Authorities(pairs), 2) == Some(authorities[i..])
    && At(attestations, j, Attestations(pairs))
  }

  lemma NextAttestation(pairs: seq<(Bytes, Bytes)>, sigLen: Bytes -> nat, attestations: Bytes, j: nat)
    requires pairs != [] && SizedPairs(pairs, sigLen) && At(attestations, j, Attestations(pairs))
    ensures |pairs[0].1| == METADATA_HASH_LENGTH + sigLen(pairs[0].0) && At(attestations, j, pairs[0].1)
    ensures SizedPairs(pairs[1..], sigLen) && At(attestations, j + |pairs[0].1|, Attestations(pairs[1..]))
  {
    AtJoin(attestations, j, pairs[0].1, Attestations(pairs[1..]));
  }

  lemma NoPair(sigLen: Bytes -> nat, authorities: Bytes, i: nat, attestations: Bytes, j: nat)
    requires PairsAt([], sigLen, authorities, i, attestations, j)
    ensures ReadPairs(authorities, i, attestations, j, sigLen) == Some([])
  {
  }

  lemma NextPair(pairs: seq<(Bytes, Bytes)>, sigLen: Bytes -> nat,
                 authorities: Bytes, i: nat, attestations: Bytes, j: nat)
    requires pairs != [] && PairsAt(pairs, sigLen, authorities, i, attestations, j)
    ensures var (name, first) := pairs[0];
            && |name| < Pow256(2) && At(authorities, i, ToBytes(|name|, 2) + name)
            && |first| == METADATA_HASH_LENGTH + sigLen(name) && At(attestations, j, first)
            && PairsAt(pairs[1..], sigLen, authorities, i + 2 + |name|, attestations, j + |first|)
  {
    hide Frames, ToBytes, Pow256, At, Attestations, SizedPairs;
    assert Authorities(pairs)[1..] == Authorities(pairs[1..]);
    NextFrame(Authorities(pairs), 2, authorities, i);
    NextAttestation(pairs, sigLen, attestations, j);
  }

  /** The disclosed (authority, attestation) pairs come back as they were. */
  lemma {:induction false} PairsRoundTrip(pairs: seq<(Bytes, Bytes)>, sigLen: Bytes -> nat,
                                          authorities: Bytes, i: nat, attestations: Bytes, j: nat)
    requires PairsAt(pairs, sigLen, authorities, i, attestations, j)
    ensures ReadPairs(authorities, i, attestations, j, sigLen) == Some(pairs)
    decreases |pairs|
  {
    hide PairsAt, At, ToBytes, Pow256, ReadPairs;
    if pairs == [] {
      NoPair(sigLen, authorities, i, attestations, j);
    } else {
      var (name, first) := pairs[0];
      NextPair(pairs, sigLen, authorities, i, attestations, j);
      ReadPair(name, first, sigLen, authorities, i, attestations, j);
      PairsRoundTrip(pairs[1..], sigLen, authorities, i + 2 + |name|, attestations, j + |first|);
      assert pairs == [(name, first)] + pairs[1..];
    }
  }

  function Joined<T>(before: seq<T>, rest: Option<seq<T>>): (r: Option<seq<T>>) {
    if rest.None? then None else Some(before + rest.value)
  }

  lemma JoinedTwice<T>(a: seq<T>, b: seq<T>, rest: Option<seq<T>>)
    ensures Joined(a, Joined(b, rest)) == Joined(a + b, rest)
    ensures Joined([], rest) == rest && Joined(a, Some([])) == Some(a)
  {
    if rest.Some? { assert a + (b + rest.value) == a + b + rest.value && [] + rest.value == rest.value; }
    assert a + [] == a;
  }

  /** The metadata loop of substantiate. */
  method ReadMetadata(data: Bytes) returns (r: Option<seq<Bytes>>)
    ensures r == ReadFrames(data, 0, 4)
  {
    var offset, items := 0, [];
    JoinedTwice([], [], ReadFrames(data, 0, 4));
    while offset < |data|
      invariant ReadFrames(data, 0, 4) == Joined(items, ReadFrames(data, offset, 4))
      decreases |data| - offset
    {
      var n := ReadInt(data, offset, 4);
      if n.None? {
        return None;
      }
      var item := Slice(data, offset + 4, offset + 4 + n.value);
      JoinedTwice(items, [item], ReadFrames(data, offset + 4 + n.value, 4));
      items, offset := items + [item], offset + 4 + n.value;
    }
    JoinedTwice(items, [], None);
    r := Some(items);
  }

  /** The attestation loop of substantiate. */
  method ReadAttestations(attestations: Bytes, authorities: Bytes, sigLen: Bytes -> nat)
    returns (r: Option<seq<(Bytes, Bytes)>>)
    ensures r == ReadPairs(authorities, 0, attestations, 0, sigLen)
  {
    var attestationOffset, authorityOffset, pairs := 0, 0, [];
    JoinedTwice([], [], ReadPairs(authorities, 0, attestations, 0, sigLen));
    while authorityOffset < |authorities|
      invariant ReadPairs(authorities, 0, attestations, 0, sigLen)
             == Joined(pairs, ReadPairs(authorities, authorityOffset, attestations, attestationOffset, sigLen))
      decreases |authorities| - authorityOffset
    {
      var n := ReadInt(authorities, authorityOffset, 2);
      if n.None? {
        return None;
      }
      var authority := Slice(authorities, authorityOffset + 2, authorityOffset + 2 + n.value);
      authorityOffset := authorityOffset + 2 + n.value;
      var end := attestationOffset + METADATA_HASH_LENGTH + sigLen(authority);
      if end > |attestations| {
        return None;
      }
      var pair := (authority, attestations[attestationOffset..end]);
      JoinedTwice(pairs, [pair], ReadPairs(authorities, authorityOffset, attestations, end, sigLen));
      pairs, attestationOffset := pairs + [pair], end;
    }
    JoinedTwice(pairs, [], None);
    r := Some(pairs);
  }

  // ------------------------------------------------------------- writing

  lemma {:induction false} FramesSnoc(items: seq<Bytes>, x: Bytes, width: nat)
    ensures Frames(items + [x], width) == Join(Frames(items, width), Join(Prefix(|x|, width), Some(x)))
  {
    if items == [] {
      assert items + [x] == [x] && [x][1..] == [];
      JoinEmpty(Join(Prefix(|x|, width), Some(x)));
    } else {
      FramesSnoc(items[1..], x, width);
      assert (items + [x])[1..] == items[1..] + [x];
      JoinAssociates(Join(Prefix(|items[0]|, width), Some(items[0])), Frames(items[1..], width),
                     Join(Prefix(|x|, width), Some(x)));
    }
  }

  /** One that does not fit spoils everything after it. */
  lemma {:induction false} FramesFail(items: seq<Bytes>, width: nat, n: nat)
    requires n <= |items| && Frames(items[..n], width).None?
    ensures Frames(items, width).None?
    decreases |items| - n
  {
    if n < |items| {
      assert items[..n + 1] == items[..n] + [items[n]];
      FramesSnoc(items[..n], items[n], width);
      FramesFail(items, width, n + 1);
    } else {
      assert items[..n] == items;
    }
  }

  lemma {:induction false} AttestationsSnoc(pairs: seq<(Bytes, Bytes)>, x: (Bytes, Bytes))
    ensures Attestations(pairs + [x]) == Attestations(pairs) + x.1
  {
    if pairs == [] {
      assert pairs + [x] == [x] && [x][1..] == [];
    } else {
      AttestationsSnoc(pairs[1..], x);
      assert (pairs + [x])[1..] == pairs[1..] + [x];
    }
  }

  /** The metadata loop of create_disclosure; None stands for a struct.error. */
  method WriteMetadata(items: seq<Bytes>) returns (r: Option<Bytes>)
    ensures r == Frames(items, 4)
    ensures r.Some? <==> forall x :: x in items ==> |x| < 0x1_0000_0000
  {
    FramesFit(items, 4);
    assert Pow256(4) == 0x1_0000_0000;
    var out := [];
    for i := 0 to |items|
      invariant Frames(items[..i], 4) == Some(out)
    {
      assert items[..i + 1] == items[..i] + [items[i]];
      FramesSnoc(items[..i], items[i], 4);
      if |items[i]| >= Pow256(4) {
        FramesFail(items, 4, i + 1);
        return None;
      }
      out := out + (ToBytes(|items[i]|, 4) + items[i]);
    }
    assert items[..|items|] == items;
    r := Some(out);
  }

  /** The attestation loop of create_disclosure over the (authority, attestation) pairs available for the metadata. */
  method WriteAttestations(available: seq<(Bytes, Bytes)>, selected: ((Bytes, Bytes)) -> bool)
    returns (r: Option<(Bytes, Bytes)>)
    ensures var pairs := Filter(available, selected);
            && (r.None? <==> Frames(Authorities(pairs), 2).None?)
            && (r.None? <==> exists x :: x in available && selected(x) && |x.0| >= 0x1_0000)
            && (r.Some? ==> r.value.0 == Attestations(pairs) && Some(r.value.1) == Frames(Authorities(pairs), 2))
  {
    var attestations, authorities := [], [];
    ghost var pairs := [];
    AuthoritiesFit(available, selected);
    hide Pow256, ToBytes;
    for i := 0 to |available|
      invariant pairs == Filter(available[..i], selected)
      invariant attestations == Attestations(pairs) && Frames(Authorities(pairs), 2) == Some(authorities)
    {
      var x := available[i];
      assert available[..i + 1] == available[..i] + [x];
      FilterAppend(available[..i], x, selected);
      if selected(x) {
        PairWritten(pairs, x);
        if |x.0| >= Pow256(2) {
          PairsFail(available, selected, i + 1);
          return None;
        }
        attestations := attestations + x.1;
        authorities := authorities + (ToBytes(|x.0|, 2) + x.0);
        pairs := pairs + [x];
      }
    }
    assert available[..|available|] == available;
    r := Some((attestations, authorities));
  }

  lemma AuthoritiesFit(available: seq<(Bytes, Bytes)>, selected: ((Bytes, Bytes)) -> bool)
    ensures Frames(Authorities(Filter(available, selected)), 2).None? <==>
            exists x :: x in available && selected(x) && |x.0| >= 0x1_0000
  {
    var pairs := Filter(available, selected);
    var names := Authorities(pairs);
    FilterMembers(available, selected);
    FramesFit(names, 2);
    assert Pow256(2) == 0x1_0000;
    hide Frames, Filter;
    if x :| x in available && selected(x) && |x.0| >= 0x1_0000 {
      assert x in pairs;
      var i :| 0 <= i < |pairs| && pairs[i] == x;
      assert names[i] in names;
    }
    if name :| name in names && |name| >= 0x1_0000 {
      var i :| 0 <= i < |names| && names[i] == name;
      assert pairs[i] in pairs && pairs[i].0 == name;
    }
  }

  lemma PairWritten(pairs: seq<(Bytes, Bytes)>, x: (Bytes, Bytes))
    ensures Attestations(pairs + [x]) == Attestations(pairs) + x.1
    ensures Frames(Authorities(pairs + [x]), 2) ==
            Join(Frames(Authorities(pairs), 2), Join(Prefix(|x.0|, 2), Some(x.0)))
  {
    AttestationsSnoc(pairs, x);
    FramesSnoc(Authorities(pairs), x.0, 2);
    assert Authorities(pairs + [x]) == Authorities(pairs) + [x.0];
  }

  lemma PairsFail(available: seq<(Bytes, Bytes)>, selected: ((Bytes, Bytes)) -> bool, n: nat)
    requires n <= |available| && Frames(Authorities(Filter(available[..n], selected)), 2).None?
    ensures Frames(Authorities(Filter(available, selected)), 2).None?
  {
    var some, all := Filter(available[..n], selected), Filter(available, selected);
    FilterGrows(available, selected, n);
    assert Authorities(all)[..|some|] == Authorities(some);
    FramesFail(Authorities(all), 2, |some|);
  }

  lemma {:induction false} FilterGrows<T>(s: seq<T>, p: T -> bool, n: nat)
    requires n <= |s|
    ensures Filter(s[..n], p) <= Filter(s, p)
    decreases |s| - n
  {
    if n < |s| {
      assert s[..n + 1] == s[..n] + [s[n]];
      FilterAppend(s[..n], s[n], p);
      FilterGrows(s, p, n + 1);
    } else {
      assert s[..n] == s;
    }
  }

  /** What create_disclosure writes, substantiate reads: the same metadata and the same pairs. */
  lemma DisclosureReadBack(items: seq<Bytes>, pairs: seq<(Bytes, Bytes)>, sigLen: Bytes -> nat,
                           metadata: Bytes, authorities: Bytes)
    requires Frames(items, 4) == Some(metadata) && Frames(Authorities(pairs), 2) == Some(authorities)
             && SizedPairs(pairs, sigLen)
    ensures ReadFrames(metadata, 0, 4) == Some(items)
    ensures ReadPairs(authorities, 0, Attestations(pairs), 0, sigLen) == Some(pairs)
  {
    hide Frames, ReadFrames, ReadPairs, Attestations;
    assert metadata[0..|metadata|] == metadata;
    FramesRoundTrip(items, 4, metadata, metadata, 0);
    assert authorities[0..] == authorities && Attestations(pairs)[0..|Attestations(pairs)|] == Attestations(pairs);
    PairsRoundTrip(pairs, sigLen, authorities, 0, Attestations(pairs), 0);
  }
}
