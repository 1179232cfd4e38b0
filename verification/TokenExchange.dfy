/**
 Tokens on the wire, and the exchange in which a receiver asks the owner of a chain
 for the tokens it misses.
 */
module TokenExchange {
  import opened BitStrings
  import opened Collections
  import opened TokenSpec
  import opened TokenChains

  const HASH_LENGTH: nat := 32
  const SAFE_UDP_PACKET_LENGTH: nat := 1296

  // ------------------------------------------------------------ serialising

  /** The size of one token: two hashes and a signature. */
  function TokenSize(k: Keys): (n: nat) {
    2 * HASH_LENGTH + k.sigLen
  }

  ghost predicate WellSized(k: Keys, l: Link) {
    |l.prev| == HASH_LENGTH && |l.contentHash| == HASH_LENGTH && |l.signature| == k.sigLen
  }

  ghost predicate AllWellSized(k: Keys, ls: seq<Link>) {
    forall l :: l in ls ==> WellSized(k, l)
  }

  /** b"".join(token.get_plaintext_signed() for token in ...). */
  function Dump(ls: seq<Link>): (b: Bytes) {
    if ls == [] then [] else Dump(ls[..|ls| - 1]) + Plain(ls[|ls| - 1])
  }

  /** struct.unpack_from(">32s32s<n>s", b, 0). */
  function ParseOne(k: Keys, b: Bytes): (l: Link)
    requires |b| >= TokenSize(k)
  {
    Link(b[..HASH_LENGTH], b[HASH_LENGTH..2 * HASH_LENGTH], b[2 * HASH_LENGTH..TokenSize(k)])
  }

  /** A token on the wire: the hash it points at, the hash of its content and the signature. */
  lemma ParsePlain(k: Keys, l: Link, rest: Bytes)
    requires WellSized(k, l)
    ensures |Plain(l)| == TokenSize(k) && ParseOne(k, Plain(l) + rest) == l
    ensures Plain(l)[..32] == l.prev && Plain(l)[32..64] == l.contentHash && Plain(l)[64..] == l.signature
  {
    var b := Plain(l) + rest;
    assert b[..HASH_LENGTH] == l.prev;
    assert b[HASH_LENGTH..2 * HASH_LENGTH] == l.contentHash;
    assert b[2 * HASH_LENGTH..TokenSize(k)] == l.signature;
  }

  /** What unserialize_public did: the tree, and whether every token was taken (None for a struct.error). */
  datatype Read = Read(tree: Tree, correct: Option<bool>)

  /** unserialize_public from the start of b on. */
  function Unserialize(k: Keys, maxSize: nat, s: Tree, b: Bytes, correct: bool): (r: Read)
    decreases |b|
  {
    if b == [] then Read(s, Some(correct))
    else if |b| < TokenSize(k) then Read(s, None)
    else
      var (next, taken) := Gather(k, maxSize, s, Token(ParseOne(k, b), None));
      Unserialize(k, maxSize, next, b[TokenSize(k)..], correct && taken.Some?)
  }

  function Bare(ls: seq<Link>): (ts: seq<Token>)
    ensures |ts| == |ls| && Links(ts) == ls
  {
    seq(|ls|, i requires 0 <= i < |ls| => Token(ls[i], None))
  }

  /** Whether gathering the tokens one after the other takes each of them. */
  function AllTaken(k: Keys, maxSize: nat, s: Tree, ls: seq<Link>): (ok: bool) {
    if ls == [] then true
    else
      var m := |ls| - 1;
      AllTaken(k, maxSize, s, ls[..m]) &&
      Gather(k, maxSize, GatherAll(k, maxSize, s, Bare(ls[..m])), Token(ls[m], None)).1.Some?
  }

  lemma DumpSnoc(ls: seq<Link>, l: Link)
    ensures Dump(ls + [l]) == Dump(ls) + Plain(l)
  {
    assert (ls + [l])[..|ls|] == ls;
  }

  /** One token on the wire; its hash is the hash of these bytes. */
  lemma DumpOne(l: Link)
    ensures Dump([l]) == l.prev + l.contentHash + l.signature == Plain(l)
    ensures forall k :: HashOf(k, l) == k.hash(Dump([l]))
  {
    assert [l][..0] == [];
    assert Dump([]) == [] && Dump([l]) == Dump([]) + Plain(l);
  }

  lemma {:induction false} DumpCons(l: Link, ls: seq<Link>)
    ensures Dump([l] + ls) == Plain(l) + Dump(ls)
  {
    hide Plain;
    if ls == [] {
      assert [l] + ls == [l] && [l][..0] == [];
      assert Dump([l]) == Dump([]) + Plain(l);
    } else {
      var m := |ls| - 1;
      assert ([l] + ls)[..m + 1] == [l] + ls[..m];
      DumpCons(l, ls[..m]);
    }
  }

  lemma {:induction false} GatherAllCons(k: Keys, maxSize: nat, s: Tree, t: Token, ts: seq<Token>)
    ensures GatherAll(k, maxSize, s, [t] + ts) == GatherAll(k, maxSize, Gather(k, maxSize, s, t).0, ts)
  {
    if ts == [] {
      assert [t] + ts == [t] && [t][..0] == [];
      assert GatherAll(k, maxSize, s, [t]) == Gather(k, maxSize, GatherAll(k, maxSize, s, []), t).0;
    } else {
      var m := |ts| - 1;
      assert ([t] + ts)[..m + 1] == [t] + ts[..m];
      GatherAllCons(k, maxSize, s, t, ts[..m]);
    }
  }

  lemma {:induction false} AllTakenCons(k: Keys, maxSize: nat, s: Tree, l: Link, ls: seq<Link>)
    ensures var (next, taken) := Gather(k, maxSize, s, Token(l, None));
            AllTaken(k, maxSize, s, [l] + ls) == (taken.Some? && AllTaken(k, maxSize, next, ls))
  {
    var all := [l] + ls;
    if ls == [] {
      assert all == [l] && [l][..0] == [] && Bare([]) == [];
      assert AllTaken(k, maxSize, s, all) == Gather(k, maxSize, s, Token(l, None)).1.Some?;
    } else {
      var m := |ls| - 1;
      assert all[..m + 1] == [l] + ls[..m] && all[m + 1] == ls[m];
      AllTakenCons(k, maxSize, s, l, ls[..m]);
      assert Bare([l] + ls[..m]) == [Token(l, None)] + Bare(ls[..m]);
      GatherAllCons(k, maxSize, s, Token(l, None), Bare(ls[..m]));
    }
  }

  /** Reading a dump of well-sized tokens is gathering them in order. */
  lemma {:induction false} UnserializeDump(k: Keys, maxSize: nat, s: Tree, ls: seq<Link>, correct: bool)
    requires AllWellSized(k, ls)
    ensures Unserialize(k, maxSize, s, Dump(ls), correct) ==
            Read(GatherAll(k, maxSize, s, Bare(ls)), Some(correct && AllTaken(k, maxSize, s, ls)))
    decreases |ls|
  {
    UnserializeNone(k, maxSize, s, correct);
    hide Gather, Dump, GatherAll, AllTaken, Unserialize, AllWellSized, WellSized, Links;
    if ls != [] {
      var l, rest := ls[0], ls[1..];
      assert ls == [l] + rest;
      HeadWellSized(k, l, rest);
      DumpCons(l, rest);
      UnserializeCons(k, maxSize, s, l, Dump(rest), correct);
      var (next, taken) := Gather(k, maxSize, s, Token(l, None));
      UnserializeDump(k, maxSize, next, rest, correct && taken.Some?);
      GatherAllCons(k, maxSize, s, Token(l, None), Bare(rest));
      AllTakenCons(k, maxSize, s, l, rest);
    }
  }

  lemma HeadWellSized(k: Keys, l: Link, rest: seq<Link>)
    requires AllWellSized(k, [l] + rest)
    ensures WellSized(k, l) && AllWellSized(k, rest) && Bare([l] + rest) == [Token(l, None)] + Bare(rest)
  {
    hide WellSized;
    assert l in [l] + rest && forall m :: m in rest ==> m in [l] + rest;
  }

  lemma UnserializeNone(k: Keys, maxSize: nat, s: Tree, correct: bool)
    ensures Unserialize(k, maxSize, s, Dump([]), correct) == Read(s, Some(correct))
    ensures GatherAll(k, maxSize, s, Bare([])) == s && AllTaken(k, maxSize, s, [])
  {
    assert Bare([]) == [];
  }

  lemma UnserializeCons(k: Keys, maxSize: nat, s: Tree, l: Link, b: Bytes, correct: bool)
    requires WellSized(k, l)
    ensures var (next, taken) := Gather(k, maxSize, s, Token(l, None));
            Unserialize(k, maxSize, s, Plain(l) + b, correct) ==
            Unserialize(k, maxSize, next, b, correct && taken.Some?)
  {
    ParsePlain(k, l, b);
    hide Gather, Plain, ParseOne;
    assert (Plain(l) + b)[TokenSize(k)..] == b;
  }

  ghost predicate Multiple(n: nat, size: nat) {
    exists m: nat :: n == m * size
  }

  /** m * size for a larger m. */
  lemma NextMultiple(m: nat, size: nat)
    ensures (m + 1) * size == m * size + size && m * size >= 0
  {
  }

  lemma MultipleUp(n: nat, size: nat)
    requires Multiple(n, size)
    ensures Multiple(n + size, size)
  {
    var m: nat :| n == m * size;
    NextMultiple(m, size);
    assert n + size == (m + 1) * size;
  }

  lemma MultipleDown(n: nat, size: nat)
    requires n > 0 && Multiple(n, size)
    ensures n >= size && Multiple(n - size, size)
  {
    var m: nat :| n == m * size;
    if m > 0 {
      NextMultiple(m - 1, size);
      assert n - size == (m - 1) * size;
    }
  }

  lemma MultipleStep(n: nat, size: nat)
    requires size > 0
    ensures Multiple(0, size) && (0 < n < size ==> !Multiple(n, size))
    ensures n >= size ==> (Multiple(n, size) <==> Multiple(n - size, size))
  {
    assert Multiple(0, size) by { assert 0 == 0 * size; }
    hide Multiple;
    if n > 0 && Multiple(n, size) { MultipleDown(n, size); }
    if n >= size && Multiple(n - size, size) { MultipleUp(n - size, size); }
  }

  /** Reading raises if and only if the bytes are not whole tokens. */
  lemma {:induction false} UnserializeRaises(k: Keys, maxSize: nat, s: Tree, b: Bytes, correct: bool)
    ensures Unserialize(k, maxSize, s, b, correct).correct.None? <==> !Multiple(|b|, TokenSize(k))
    decreases |b|
  {
    hide Gather, ParseOne, Multiple;
    var size := TokenSize(k);
    MultipleStep(|b|, size);
    if |b| >= size {
      var (next, taken) := Gather(k, maxSize, s, Token(ParseOne(k, b), None));
      UnserializeRaises(k, maxSize, next, b[size..], correct && taken.Some?);
    }
  }

  // ------------------------------------------------------------- full dumps

  /** Gathering the tokens of a sound tree in insertion order rebuilds it, one token at a time. */
  lemma {:induction false} RebuildPrefix(k: Keys, maxSize: nat, ls: seq<Link>, n: nat)
    requires Sound(k, ls) && n <= |ls|
    ensures var s := GatherAll(k, maxSize, Tree([], []), Bare(ls[..n]));
            s == Tree(Bare(ls[..n]), []) && AllTaken(k, maxSize, Tree([], []), ls[..n])
  {
    hide Sound, Gather, GatherAll, AllTaken;
    if n == 0 {
      RebuildNone(k, maxSize, ls);
    } else {
      RebuildPrefix(k, maxSize, ls, n - 1);
      RebuildNext(k, maxSize, ls, n - 1);
    }
  }

  lemma RebuildNone(k: Keys, maxSize: nat, ls: seq<Link>)
    ensures GatherAll(k, maxSize, Tree([], []), Bare(ls[..0])) == Tree(Bare(ls[..0]), [])
    ensures AllTaken(k, maxSize, Tree([], []), ls[..0])
  {
    assert ls[..0] == [] && Bare([]) == [];
  }

  lemma RebuildNext(k: Keys, maxSize: nat, ls: seq<Link>, m: nat)
    requires Sound(k, ls) && m < |ls| && AllTaken(k, maxSize, Tree([], []), ls[..m])
    requires GatherAll(k, maxSize, Tree([], []), Bare(ls[..m])) == Tree(Bare(ls[..m]), [])
    ensures GatherAll(k, maxSize, Tree([], []), Bare(ls[..m + 1])) == Tree(Bare(ls[..m + 1]), [])
    ensures AllTaken(k, maxSize, Tree([], []), ls[..m + 1])
  {
    hide Sound, Gather, GatherAll, AllTaken;
    var some, l := ls[..m], ls[m];
    assert ls[..m + 1] == some + [l];
    NextOfSound(k, maxSize, ls, m);
    TakeSnoc(k, maxSize, Tree([], []), some, l);
  }

  /** Gathering one token more. */
  lemma TakeSnoc(k: Keys, maxSize: nat, s: Tree, ls: seq<Link>, l: Link)
    ensures Bare(ls + [l]) == Bare(ls) + [Token(l, None)]
    ensures var (next, taken) := Gather(k, maxSize, GatherAll(k, maxSize, s, Bare(ls)), Token(l, None));
            && GatherAll(k, maxSize, s, Bare(ls + [l])) == next
            && AllTaken(k, maxSize, s, ls + [l]) == (AllTaken(k, maxSize, s, ls) && taken.Some?)
  {
    hide Gather;
    assert (ls + [l])[..|ls|] == ls;
    assert Bare(ls + [l])[..|ls|] == Bare(ls);
  }

  lemma NextOfSound(k: Keys, maxSize: nat, ls: seq<Link>, m: nat)
    requires Sound(k, ls) && m < |ls|
    ensures var s := Tree(Bare(ls[..m]), []);
            var t := Token(ls[m], None);
            Gather(k, maxSize, s, t) == (Tree(s.elements + [t], []), Some(t))
  {
    assert Verified(k, ls[m]) && Rooted(k, ls, m);
    HasInPrefix(k, ls, m, ls[m].prev);
    HasInPrefix(k, ls, m, HashOf(k, ls[m]));
    assert Links([]) == [];
  }

  /** A full dump of a sound tree, read into a fresh tree with the same key, is taken whole and rebuilds it. */
  lemma DumpRebuilds(k: Keys, maxSize: nat, elements: seq<Token>)
    requires Sound(k, Links(elements)) && AllWellSized(k, Links(elements))
    ensures Unserialize(k, maxSize, Tree([], []), Dump(Links(elements)), true) ==
            Read(Tree(Bare(Links(elements)), []), Some(true))
  {
    var ls := Links(elements);
    UnserializeDump(k, maxSize, Tree([], []), ls, true);
    RebuildPrefix(k, maxSize, ls, |ls|);
    assert ls[..|ls|] == ls;
  }

  // -------------------------------------------------------- missing tokens

  /** How many tokens from the front of the list fit into the given room. */
  function Fitting(ls: seq<Link>, room: nat): (m: nat)
    ensures m <= |ls|
  {
    if ls == [] || |Plain(ls[0])| > room then 0 else 1 + Fitting(ls[1..], room - |Plain(ls[0])|)
  }

  /** The tokens that on_request_missing sends to a peer that may see `permitted` tokens and knows `known`. */
  function Response(chain: seq<Link>, permitted: nat, known: nat): (ls: seq<Link>) {
    var visible := if permitted <= |chain| then chain[..permitted] else chain;
    var unknown := if known <= |visible| then visible[known..] else [];
    unknown[..Fitting(unknown, SAFE_UDP_PACKET_LENGTH)]
  }

  /** room // size. */
  function Slots(room: nat, size: nat): (q: nat)
    requires size > 0
    ensures q * size <= room < (q + 1) * size
  {
    if room < size then 0 else 1 + Slots(room - size, size)
  }

  /** Tokens of one size: as many as fit, or all. */
  lemma {:induction false} FittingCount(ls: seq<Link>, size: nat, room: nat)
    requires size > 0 && forall l :: l in ls ==> |Plain(l)| == size
    ensures Fitting(ls, room) == if |ls| <= Slots(room, size) then |ls| else Slots(room, size)
  {
    if ls != [] {
      assert ls[0] in ls;
      if size <= room {
        FittingCount(ls[1..], size, room - size);
      }
    }
  }

  /** Delivering the tokens from where the receiver is takes it at least to their end. */
  lemma {:induction false} DeliverRange(maxSize: nat, p: Progress, end: nat)
    requires p.n <= end
    ensures DeliverAll(maxSize, p, Count(p.n, end)).n >= end
    decreases end
  {
    hide Wake, ParkIndex;
    if p.n < end {
      var ds := Count(p.n, end);
      assert ds[..end - 1 - p.n] == Count(p.n, end - 1);
      DeliverRange(maxSize, p, end - 1);
      var q := DeliverAll(maxSize, p, Count(p.n, end - 1));
      if q.n == end - 1 { WakeGrows(Progress(q.n + 1, q.waiting)); }
    }
  }

  lemma {:induction false} WakeGrows(p: Progress)
    ensures Wake(p).n >= p.n
    decreases |p.waiting|
  {
    var i := Position(p.waiting, p.n);
    if i < |p.waiting| { WakeGrows(Progress(p.n + 1, RemoveAt(p.waiting, i))); }
  }

  // ------------------------------------------------------------ convergence

  /** One request and its response: the receiver asks with the number of its elements and gathers the answer. */
  function Round(k: Keys, maxSize: nat, chain: seq<Link>, permitted: nat, s: Tree): (r: Tree) {
    GatherAll(k, maxSize, s, Bare(Response(chain, permitted, |s.elements|)))
  }

  /** On the wire: the receiver reads the bytes that the owner sends. */
  lemma RoundIsOnTheWire(k: Keys, maxSize: nat, chain: seq<Link>, permitted: nat, s: Tree)
    requires AllWellSized(k, chain)
    ensures var sent := Dump(Response(chain, permitted, |s.elements|));
            Round(k, maxSize, chain, permitted, s) == Unserialize(k, maxSize, s, sent, true).tree
  {
    var ls := Response(chain, permitted, |s.elements|);
    forall l | l in ls ensures l in chain {}
    UnserializeDump(k, maxSize, s, ls, true);
  }

  function Rounds(k: Keys, maxSize: nat, chain: seq<Link>, permitted: nat, s: Tree, count: nat): (r: Tree) {
    if count == 0 then s else Round(k, maxSize, chain, permitted, Rounds(k, maxSize, chain, permitted, s, count - 1))
  }

  /** The receiver has a prefix of the chain, and any tokens of the chain may wait. */
  ghost predicate Receiving(chain: seq<Link>, s: Tree) {
    exists p :: Simulates(chain, s, p)
  }

  lemma ReceivedPrefix(chain: seq<Link>, s: Tree, p: Progress)
    requires Simulates(chain, s, p)
    ensures |s.elements| == p.n && Links(s.elements) == chain[..p.n]
  {
    assert |Links(s.elements)| == |chain[..p.n]|;
  }

  /**
   The answer holds the tokens that follow those the receiver knows, as many as fit into a packet or are permitted;
   none when it claims to know as many as it may see.
   */
  lemma ResponseContent(k: Keys, chain: seq<Link>, permitted: nat, n: nat)
    requires AllWellSized(k, chain)
    ensures var ls := Response(chain, permitted, n);
            var end := Min(permitted, |chain|);
            var left := if n <= end then end - n else 0;
            && |ls| == Min(Slots(SAFE_UDP_PACKET_LENGTH, TokenSize(k)), left)
            && ls == if left == 0 then [] else chain[n..n + |ls|]
  {
    var end := Min(permitted, |chain|);
    var visible := chain[..end];
    assert visible == if permitted <= |chain| then chain[..permitted] else chain;
    var unknown := if n <= end then visible[n..] else [];
    forall l | l in unknown ensures |Plain(l)| == TokenSize(k) {
      assert l in chain;
      ParsePlain(k, l, []);
    }
    FittingCount(unknown, TokenSize(k), SAFE_UDP_PACKET_LENGTH);
    hide Fitting, Slots, Plain;
    var m := Fitting(unknown, SAFE_UDP_PACKET_LENGTH);
    if n < end { assert unknown[..m] == chain[n..n + m]; }
  }

  /** Every round extends the receiver's prefix by a packet of tokens, or by all that is left. */
  lemma RoundProgress(k: Keys, maxSize: nat, chain: seq<Link>, permitted: nat, s: Tree)
    requires Chain(k, chain) && AllWellSized(k, chain) && permitted <= |chain| && Receiving(chain, s)
    ensures var r := Round(k, maxSize, chain, permitted, s);
            var left := if |s.elements| <= permitted then permitted - |s.elements| else 0;
            && Receiving(chain, r)
            && |r.elements| >= |s.elements| + Min(Slots(SAFE_UDP_PACKET_LENGTH, TokenSize(k)), left)
  {
    var p :| Simulates(chain, s, p);
    var n := |s.elements|;
    ReceivedPrefix(chain, s, p);
    ResponseContent(k, chain, permitted, n);
    hide Chain;
    hide AllWellSized;
    hide Slots;
    hide Response;
    hide Simulates;
    var ls := Response(chain, permitted, n);
    var ds := Count(n, n + |ls|);
    assert ls == chain[n..n + |ls|];
    forall i | 0 <= i < |ls| ensures ds[i] < |chain| && Bare(ls)[i].link == chain[ds[i]] {
      assert ls[i] == chain[n..n + |ls|][i];
    }
    GatherAllDelivers(k, maxSize, chain, s, p, Bare(ls), ds);
    DeliverRange(maxSize, p, n + |ls|);
    ReceivedPrefix(chain, Round(k, maxSize, chain, permitted, s), DeliverAll(maxSize, p, ds));
  }

  lemma BoundStep(permitted: nat, start: nat, count: nat, q: nat, before: nat, after: nat)
    requires count > 0 && before >= Min(permitted, start + (count - 1) * q)
    requires after >= before + Min(q, if before <= permitted then permitted - before else 0)
    ensures after >= Min(permitted, start + count * q)
  {
    assert count * q == (count - 1) * q + q;
  }

  lemma {:induction false} ExchangeWithin(k: Keys, maxSize: nat, chain: seq<Link>, permitted: nat, s: Tree, count: nat)
    requires Chain(k, chain) && AllWellSized(k, chain) && permitted <= |chain| && Receiving(chain, s)
    ensures var r := Rounds(k, maxSize, chain, permitted, s, count);
            && Receiving(chain, r) && |r.elements| >= |s.elements|
            && |r.elements| >= Min(permitted, |s.elements| + count * Slots(SAFE_UDP_PACKET_LENGTH, TokenSize(k)))
            && Links(r.elements) == chain[..|r.elements|]
  {
    hide Chain, AllWellSized, Slots, Receiving, Round;
    var r := Rounds(k, maxSize, chain, permitted, s, count);
    if count > 0 {
      var before := Rounds(k, maxSize, chain, permitted, s, count - 1);
      assert r == Round(k, maxSize, chain, permitted, before);
      ExchangeWithin(k, maxSize, chain, permitted, s, count - 1);
      RoundProgress(k, maxSize, chain, permitted, before);
      BoundStep(permitted, |s.elements|, count, Slots(SAFE_UDP_PACKET_LENGTH, TokenSize(k)),
                |before.elements|, |r.elements|);
    }
    ReceivingPrefix(chain, r);
  }

  /** A permission beyond the end of the chain is one for the whole chain. */
  lemma {:induction false} WholeChainPermitted(k: Keys, maxSize: nat, chain: seq<Link>, permitted: nat,
                                               s: Tree, count: nat)
    requires permitted >= |chain|
    ensures Rounds(k, maxSize, chain, permitted, s, count) == Rounds(k, maxSize, chain, |chain|, s, count)
  {
    hide Response, GatherAll;
    if count > 0 {
      WholeChainPermitted(k, maxSize, chain, permitted, s, count - 1);
      WholeChainResponse(chain, permitted, |Rounds(k, maxSize, chain, permitted, s, count - 1).elements|);
    }
  }

  lemma WholeChainResponse(chain: seq<Link>, permitted: nat, n: nat)
    requires permitted >= |chain|
    ensures Response(chain, permitted, n) == Response(chain, |chain|, n)
  {
    assert chain[..|chain|] == chain;
  }

  /** After `count` rounds the receiver has `count` packets more, or everything it may see. */
  lemma ExchangeConverges(k: Keys, maxSize: nat, chain: seq<Link>, permitted: nat, s: Tree, count: nat)
    requires Chain(k, chain) && AllWellSized(k, chain) && Receiving(chain, s)
    ensures var r := Rounds(k, maxSize, chain, permitted, s, count);
            && Links(r.elements) <= chain && |r.elements| >= |s.elements|
            && |r.elements| >= Min(Min(permitted, |chain|),
                                  |s.elements| + count * Slots(SAFE_UDP_PACKET_LENGTH, TokenSize(k)))
  {
    hide Chain, AllWellSized, Slots, Receiving, Rounds;
    if permitted >= |chain| { WholeChainPermitted(k, maxSize, chain, permitted, s, count); }
    ExchangeWithin(k, maxSize, chain, Min(permitted, |chain|), s, count);
    ReceivingPrefix(chain, Rounds(k, maxSize, chain, permitted, s, count));
  }

  lemma ReceivingPrefix(chain: seq<Link>, s: Tree)
    requires Receiving(chain, s)
    ensures |s.elements| <= |chain| && Links(s.elements) == chain[..|s.elements|]
  {
    var p :| Simulates(chain, s, p);
    ReceivedPrefix(chain, s, p);
  }
}
