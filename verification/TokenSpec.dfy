/**
 Hash-linked tokens and the tree that gathers them, as values and functions on values.

 The dictionary of elements, keyed by token hash, is the list of its tokens in
 insertion order; the ordered dictionary of waiting tokens is a list as well.
 */
module TokenSpec {
  import opened BitStrings
  import opened Collections

  /** The signed double pointer: what a token is on the wire. */
  datatype Link = Link(prev: Bytes, contentHash: Bytes, signature: Bytes)

  datatype Token = Token(link: Link, content: Option<Bytes>)

  /** The hash function, the owner's signature check, the hash of the owner's key and the signature length. */
  datatype Keys = Keys(hash: Bytes -> Bytes, valid: (Bytes, Bytes) -> bool, genesis: Bytes, sigLen: nat)

  /** get_plaintext_signed. Tokens are equal when these bytes are. */
  function Plain(l: Link): (b: Bytes) {
    l.prev + l.contentHash + l.signature
  }

  /** get_hash. */
  function HashOf(k: Keys, l: Link): (h: Bytes) {
    k.hash(Plain(l))
  }

  /** Token.verify with the owner's key. */
  predicate Verified(k: Keys, l: Link) {
    k.valid(l.prev + l.contentHash, l.signature)
  }

  function Links(ts: seq<Token>): (r: seq<Link>)
    ensures |r| == |ts| && forall i :: 0 <= i < |ts| ==> r[i] == ts[i].link
  {
    seq(|ts|, i requires 0 <= i < |ts| => ts[i].link)
  }

  // --------------------------------------------------------------- lookups

  /** Where the dictionary holds the hash; the number of its elements when it does not. */
  function IndexOf(k: Keys, ls: seq<Link>, h: Bytes): (i: nat)
    ensures i <= |ls|
    ensures i < |ls| ==> HashOf(k, ls[i]) == h
    ensures forall j :: 0 <= j < i ==> HashOf(k, ls[j]) != h
  {
    IndexWhere(ls, l => HashOf(k, l) == h)
  }

  predicate Has(k: Keys, ls: seq<Link>, h: Bytes) {
    IndexOf(k, ls, h) < |ls|
  }

  /** Where a token with the same signed bytes waits. */
  function WaitingAt(ls: seq<Link>, l: Link): (i: nat)
    ensures i <= |ls|
    ensures i < |ls| ==> Plain(ls[i]) == Plain(l)
    ensures forall j :: 0 <= j < i ==> Plain(ls[j]) != Plain(l)
  {
    IndexWhere(ls, m => Plain(m) == Plain(l))
  }

  /** The first waiting token that points at a hash. */
  function FirstPointing(ls: seq<Link>, h: Bytes): (i: nat)
    ensures i <= |ls|
    ensures i < |ls| ==> ls[i].prev == h
    ensures forall j :: 0 <= j < i ==> ls[j].prev != h
  {
    IndexWhere(ls, (l: Link) => l.prev == h)
  }

  function RemoveAt<T>(s: seq<T>, i: nat): (r: seq<T>)
    requires i < |s|
  {
    s[..i] + s[i + 1..]
  }

  // ------------------------------------------------------------- the tree

  datatype Tree = Tree(elements: seq<Token>, unchained: seq<Token>)

  /** self.unchained[token] = None, then drop the oldest when there are too many. */
  function Park(unchained: seq<Token>, t: Token, maxSize: nat): (r: seq<Token>) {
    var u := if WaitingAt(Links(unchained), t.link) < |unchained| then unchained else unchained + [t];
    if |u| > maxSize then u[1..] else u
  }

  /** receive_content: accept content that has the promised hash. */
  function Filled(k: Keys, shadow: Token, content: Option<Bytes>): (r: Token)
    ensures r.link == shadow.link
  {
    if shadow.content.None? && content.Some? && k.hash(content.value) == shadow.link.contentHash
    then shadow.(content := content) else shadow
  }

  predicate Orphan(k: Keys, s: Tree, l: Link) {
    l.prev != k.genesis && !Has(k, Links(s.elements), l.prev)
  }

  /** gather_token: the tree afterwards and the token returned. */
  function Gather(k: Keys, maxSize: nat, s: Tree, t: Token): (r: (Tree, Option<Token>))
    decreases |s.unchained|, 1
  {
    if !Verified(k, t.link) then (s, None)
    else if Orphan(k, s, t.link) then (s.(unchained := Park(s.unchained, t, maxSize)), None)
    else
      var i := IndexOf(k, Links(s.elements), HashOf(k, t.link));
      if i < |s.elements| then
        var shadow := Filled(k, s.elements[i], t.content);
        (s.(elements := s.elements[i := shadow]), Some(shadow))
      else (React(k, maxSize, s, t), Some(t))
  }

  /** _append_chain_reaction_token for a token whose hash is new. */
  function React(k: Keys, maxSize: nat, s: Tree, t: Token): (r: Tree)
    decreases |s.unchained|, 0
  {
    var i := FirstPointing(Links(s.unchained), HashOf(k, t.link));
    var grown := s.elements + [t];
    if i == |s.unchained| then Tree(grown, s.unchained)
    else Gather(k, maxSize, Tree(grown, RemoveAt(s.unchained, i)), s.unchained[i]).0
  }

  /** _append: elements[hash] = token, which keeps the place of an old entry. */
  function Append(k: Keys, s: Tree, t: Token): (r: Tree) {
    var i := IndexOf(k, Links(s.elements), HashOf(k, t.link));
    if i < |s.elements| then s.(elements := s.elements[i := t]) else s.(elements := s.elements + [t])
  }

  /** The token that add_by_hash makes. */
  function Issued(k: Keys, sign: Bytes -> Bytes, contentHash: Bytes, after: Option<Token>): (t: Token) {
    var prev := if after.None? then k.genesis else HashOf(k, after.value.link);
    Token(Link(prev, contentHash, sign(prev + contentHash)), None)
  }

  // ---------------------------------------------------- what every tree keeps

  /** The parent of element i is the key itself or an element that came before. */
  ghost predicate Rooted(k: Keys, ls: seq<Link>, i: nat)
    requires i < |ls|
  {
    ls[i].prev == k.genesis || IndexOf(k, ls, ls[i].prev) < i
  }

  ghost predicate DistinctHashes(k: Keys, ls: seq<Link>) {
    forall i, j :: 0 <= i < j < |ls| ==> HashOf(k, ls[i]) != HashOf(k, ls[j])
  }

  /** Every element is signed by the owner and hangs, through earlier elements, on the owner's key. */
  ghost predicate Sound(k: Keys, ls: seq<Link>) {
    && DistinctHashes(k, ls)
    && forall i :: 0 <= i < |ls| ==> Verified(k, ls[i]) && Rooted(k, ls, i)
  }

  ghost predicate TreeInv(k: Keys, maxSize: nat, s: Tree) {
    Sound(k, Links(s.elements)) && |s.unchained| <= maxSize
  }

  lemma IndexOfAppend(k: Keys, ls: seq<Link>, l: Link, h: Bytes)
    ensures IndexOf(k, ls + [l], h) ==
            if IndexOf(k, ls, h) < |ls| then IndexOf(k, ls, h)
            else if HashOf(k, l) == h then |ls| else |ls| + 1
  {
    var more := ls + [l];
    var i, j := IndexOf(k, ls, h), IndexOf(k, more, h);
    assert more[|ls|] == l && (i < |ls| ==> more[i] == ls[i]) && (j < |ls| ==> more[j] == ls[j]);
  }

  /** In a dictionary each hash has one place. */
  lemma IndexOfUnique(k: Keys, ls: seq<Link>, i: nat)
    requires DistinctHashes(k, ls) && i < |ls|
    ensures IndexOf(k, ls, HashOf(k, ls[i])) == i
  {
    var j := IndexOf(k, ls, HashOf(k, ls[i]));
    assert j <= i;
  }

  /** A sound list stays sound when a verified token with a known parent and a new hash is appended. */
  lemma SoundAppend(k: Keys, ls: seq<Link>, l: Link)
    requires Sound(k, ls) && Verified(k, l)
    requires l.prev == k.genesis || Has(k, ls, l.prev)
    requires !Has(k, ls, HashOf(k, l))
    ensures Sound(k, ls + [l])
  {
    var more := ls + [l];
    forall i | 0 <= i < |more| ensures Verified(k, more[i]) && Rooted(k, more, i) {
      IndexOfAppend(k, ls, l, more[i].prev);
      if i < |ls| { assert Rooted(k, ls, i); }
    }
  }

  lemma LinksAppend(ts: seq<Token>, t: Token)
    ensures Links(ts + [t]) == Links(ts) + [t.link]
  {
  }

  lemma LinksUpdate(ts: seq<Token>, i: nat, t: Token)
    requires i < |ts| && t.link == ts[i].link
    ensures Links(ts[i := t]) == Links(ts)
  {
  }

  /** Gathering any token keeps the tree sound, and never lets more than the maximum wait. */
  lemma {:induction false} GatherKeeps(k: Keys, maxSize: nat, s: Tree, t: Token)
    requires TreeInv(k, maxSize, s)
    ensures TreeInv(k, maxSize, Gather(k, maxSize, s, t).0)
    decreases |s.unchained|, 1
  {
    if Verified(k, t.link) && !Orphan(k, s, t.link) {
      var i := IndexOf(k, Links(s.elements), HashOf(k, t.link));
      if i < |s.elements| {
        LinksUpdate(s.elements, i, Filled(k, s.elements[i], t.content));
      } else {
        ReactKeeps(k, maxSize, s, t);
      }
    }
  }

  lemma {:induction false} ReactKeeps(k: Keys, maxSize: nat, s: Tree, t: Token)
    requires TreeInv(k, maxSize, s) && Verified(k, t.link) && !Orphan(k, s, t.link)
    requires !Has(k, Links(s.elements), HashOf(k, t.link))
    ensures TreeInv(k, maxSize, React(k, maxSize, s, t))
    decreases |s.unchained|, 0
  {
    SoundAppend(k, Links(s.elements), t.link);
    LinksAppend(s.elements, t);
    var i := FirstPointing(Links(s.unchained), HashOf(k, t.link));
    if i < |s.unchained| {
      GatherKeeps(k, maxSize, Tree(s.elements + [t], RemoveAt(s.unchained, i)), s.unchained[i]);
    }
  }

  /** The owner's add after a token of the tree (or after none) keeps the tree sound. */
  lemma AppendKeeps(k: Keys, maxSize: nat, s: Tree, t: Token)
    requires TreeInv(k, maxSize, s) && Verified(k, t.link)
    requires t.link.prev == k.genesis || Has(k, Links(s.elements), t.link.prev)
    requires forall l :: l in Links(s.elements) && HashOf(k, l) == HashOf(k, t.link) ==> l == t.link
    ensures TreeInv(k, maxSize, Append(k, s, t))
  {
    var ls := Links(s.elements);
    var i := IndexOf(k, ls, HashOf(k, t.link));
    if i < |ls| {
      assert ls[i] in ls;
      LinksUpdate(s.elements, i, t);
    } else {
      SoundAppend(k, ls, t.link);
      LinksAppend(s.elements, t);
    }
  }

  // ------------------------------------------------- what becomes of a token

  lemma HasGrows(k: Keys, ls: seq<Link>, more: seq<Link>, h: Bytes)
    requires ls <= more && Has(k, ls, h)
    ensures Has(k, more, h)
  {
    var i := IndexOf(k, ls, h);
    assert more[i] == ls[i];
  }

  lemma HasMember(k: Keys, ls: seq<Link>, i: nat)
    requires i < |ls|
    ensures Has(k, ls, HashOf(k, ls[i]))
  {
  }

  /** Gathering drops no element. */
  lemma {:induction false} GatherGrows(k: Keys, maxSize: nat, s: Tree, t: Token)
    ensures Links(s.elements) <= Links(Gather(k, maxSize, s, t).0.elements)
    decreases |s.unchained|
  {
    if Verified(k, t.link) && !Orphan(k, s, t.link) {
      var i := IndexOf(k, Links(s.elements), HashOf(k, t.link));
      if i < |s.elements| {
        LinksUpdate(s.elements, i, Filled(k, s.elements[i], t.content));
      } else {
        LinksAppend(s.elements, t);
        var w := FirstPointing(Links(s.unchained), HashOf(k, t.link));
        if w < |s.unchained| {
          GatherGrows(k, maxSize, Tree(s.elements + [t], RemoveAt(s.unchained, w)), s.unchained[w]);
        }
      }
    }
  }

  /** The reaction begins with its token. */
  lemma ReactGrows(k: Keys, maxSize: nat, s: Tree, t: Token)
    ensures Links(s.elements) + [t.link] <= Links(React(k, maxSize, s, t).elements)
  {
    LinksAppend(s.elements, t);
    var i := FirstPointing(Links(s.unchained), HashOf(k, t.link));
    if i < |s.unchained| {
      GatherGrows(k, maxSize, Tree(s.elements + [t], RemoveAt(s.unchained, i)), s.unchained[i]);
    }
  }

  /** A token that was known: it takes the content that is offered if it has none and the hash fits. */
  ghost predicate Refreshed(k: Keys, known: Token, content: Option<Bytes>, now: Token) {
    && now.link == known.link
    && now.content == if known.content.None? && content.Some? && k.hash(content.value) == known.link.contentHash
                      then content else known.content
  }

  /** A token that has to wait: it waits, and at most the one that waited longest makes room for it. */
  ghost predicate Parked(before: seq<Token>, t: Token, maxSize: nat, after: seq<Token>) {
    && (maxSize > 0 ==> WaitingAt(Links(after), t.link) < |after|)
    && forall i :: 0 <= i < |before| ==>
         before[i] in after ||
         (i == 0 && |before| == maxSize && WaitingAt(Links(before), t.link) == |before|)
  }

  /** What gather_token does with any token, and what its answer tells. */
  lemma GatherMeans(k: Keys, maxSize: nat, s: Tree, t: Token)
    requires |s.unchained| <= maxSize
    ensures var (after, r) := Gather(k, maxSize, s, t);
            var (ls, h) := (Links(s.elements), HashOf(k, t.link));
            var signed := k.valid(t.link.prev + t.link.contentHash, t.link.signature);
            && (r.Some? <==> signed && (t.link.prev == k.genesis || Has(k, ls, t.link.prev)))
            && (!signed ==> after == s)
            && (signed && r.None? ==>
                  after.elements == s.elements && Parked(s.unchained, t, maxSize, after.unchained))
            && (r.Some? ==> Has(k, Links(after.elements), h))
            && (r.Some? && Has(k, ls, h) ==>
                  var i := IndexOf(k, ls, h);
                  && Refreshed(k, s.elements[i], t.content, r.value)
                  && after == s.(elements := s.elements[i := r.value]))
            && (r.Some? && !Has(k, ls, h) ==> r.value == t && ls + [t.link] <= Links(after.elements))
  {
    var (after, r) := Gather(k, maxSize, s, t);
    var (ls, h) := (Links(s.elements), HashOf(k, t.link));
    if Verified(k, t.link) && Orphan(k, s, t.link) {
      ParkMeans(s.unchained, t, maxSize);
    } else if Verified(k, t.link) {
      var i := IndexOf(k, ls, h);
      if i < |ls| {
        LinksUpdate(s.elements, i, Filled(k, s.elements[i], t.content));
      } else {
        ReactGrows(k, maxSize, s, t);
        assert Links(after.elements)[|ls|] == (ls + [t.link])[|ls|];
        HasMember(k, Links(after.elements), |ls|);
      }
    }
  }

  lemma ParkMeans(unchained: seq<Token>, t: Token, maxSize: nat)
    requires |unchained| <= maxSize
    ensures Parked(unchained, t, maxSize, Park(unchained, t, maxSize))
  {
    var w := WaitingAt(Links(unchained), t.link);
    var after := Park(unchained, t, maxSize);
    if w == |unchained| && maxSize > 0 {
      assert after[|after| - 1] == t && Links(after)[|after| - 1] == t.link;
    }
    forall i | 0 <= i < |unchained|
      ensures unchained[i] in after || (i == 0 && |unchained| == maxSize && w == |unchained|)
    {
      if |unchained| < maxSize || w < |unchained| {
        assert after[i] == unchained[i];
      } else if i > 0 {
        assert after[i - 1] == unchained[i];
      }
    }
  }

  /** A reaction loses no waiting token: each still waits or has become an element. */
  lemma {:induction false} ReactionLosesNone(k: Keys, maxSize: nat, s: Tree, t: Token, u: Token)
    requires Verified(k, t.link) && !Orphan(k, s, t.link) && |s.unchained| <= maxSize
    requires u in s.unchained && Verified(k, u.link)
    ensures var after := Gather(k, maxSize, s, t).0;
            u in after.unchained || Has(k, Links(after.elements), HashOf(k, u.link))
    decreases |s.unchained|
  {
    var i := FirstPointing(Links(s.unchained), HashOf(k, t.link));
    if !Has(k, Links(s.elements), HashOf(k, t.link)) && i < |s.unchained| {
      var next, retry := Tree(s.elements + [t], RemoveAt(s.unchained, i)), s.unchained[i];
      WokenFits(k, s.elements, t, retry, next);
      OthersWait(s.unchained, i, u);
      GatherMeans(k, maxSize, next, retry);
      hide Has, Orphan, Verified, Links, RemoveAt;
      if u != retry && Verified(k, retry.link) {
        ReactionLosesNone(k, maxSize, next, retry, u);
      }
    }
  }

  /** The parent of a token that is woken is there. */
  lemma WokenFits(k: Keys, elements: seq<Token>, t: Token, retry: Token, next: Tree)
    requires next.elements == elements + [t] && retry.link.prev == HashOf(k, t.link)
    ensures !Orphan(k, next, retry.link)
  {
    LinksAppend(elements, t);
    HasMember(k, Links(next.elements), |elements|);
  }

  lemma OthersWait<T>(s: seq<T>, i: nat, x: T)
    requires i < |s| && x in s
    ensures x == s[i] || x in RemoveAt(s, i)
  {
    var j :| 0 <= j < |s| && s[j] == x;
    assert j < i ==> RemoveAt(s, i)[j] == x;
    assert j > i ==> RemoveAt(s, i)[j - 1] == x;
  }

  /** add_by_hash and add store the token they return, behind all others unless its hash was there. */
  lemma AppendStores(k: Keys, s: Tree, t: Token)
    ensures var after := Append(k, s, t);
            && t in after.elements && after.unchained == s.unchained && Has(k, Links(after.elements), HashOf(k, t.link))
            && (!Has(k, Links(s.elements), HashOf(k, t.link)) ==>
                  Links(after.elements) == Links(s.elements) + [t.link])
  {
    var after, i := Append(k, s, t).elements, IndexOf(k, Links(s.elements), HashOf(k, t.link));
    assert after[i] == t && Links(after)[i] == t.link;
    HasMember(k, Links(after), i);
    if i == |s.elements| { LinksAppend(s.elements, t); }
  }
}
