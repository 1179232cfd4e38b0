/** Sending an attestation in numbered chunks, and putting it together again. */
module Chunks {
  import opened BitStrings
  import opened Collections

  const CHUNK_SIZE: nat := 800
  /** Sequence numbers are packed into 16 bits. */
  const MAX_CHUNKS: nat := 0x1_0000

  type Chunk = (nat, Bytes)

  /** How many bytes of the blob the first k chunks hold. */
  function Covered(blob: Bytes, k: nat): (n: nat)
    ensures n <= |blob|
  {
    Min(CHUNK_SIZE * k, |blob|)
  }

  function ChunkCount(blob: Bytes): (n: nat)
    ensures CHUNK_SIZE * (n - 1) < |blob| <= CHUNK_SIZE * n || (blob == [] && n == 0)
  {
    (|blob| + CHUNK_SIZE - 1) / CHUNK_SIZE
  }

  function ChunkAt(blob: Bytes, k: nat): (c: Chunk) {
    (k, blob[Covered(blob, k)..Covered(blob, k + 1)])
  }

  /** send_attestation: the numbered chunks; a number that does not fit raises and ends the sending. */
  method SendAttestation(blob: Bytes) returns (sent: seq<Chunk>, ok: bool)
    ensures ok <==> ChunkCount(blob) <= MAX_CHUNKS
    ensures |sent| == Min(ChunkCount(blob), MAX_CHUNKS)
    ensures forall k :: 0 <= k < |sent| ==> sent[k] == ChunkAt(blob, k)
  {
    sent := [];
    var i := 0;
    while i < |blob|
      invariant i == CHUNK_SIZE * |sent| && |sent| <= ChunkCount(blob) && |sent| <= MAX_CHUNKS
      invariant forall k :: 0 <= k < |sent| ==> sent[k] == ChunkAt(blob, k)
      decreases |blob| - i
    {
      if |sent| >= MAX_CHUNKS {
        return sent, false;
      }
      var end := if i + CHUNK_SIZE <= |blob| then i + CHUNK_SIZE else |blob|;
      assert i == Covered(blob, |sent|) && end == Covered(blob, |sent| + 1);
      sent := sent + [(|sent|, blob[i..end])];
      i := i + CHUNK_SIZE;
    }
    ok := true;
  }

  // ------------------------------------------------------------ reassembly

  function Concat(s: seq<Chunk>): (b: Bytes) {
    if s == [] then [] else Concat(s[..|s| - 1]) + s[|s| - 1].1
  }

  /** A list that sorted(chunks, key=number) may be: chunks of equal number in any order. */
  ghost predicate Sorting(chunks: set<Chunk>, s: seq<Chunk>) {
    && Elements(s) == chunks && NoDuplicates(s)
    && forall i, j :: 0 <= i < j < |s| ==> s[i].0 <= s[j].0
  }

  /** Chunks of the blob below the m-th, in order. */
  ghost predicate Partial(blob: Bytes, s: seq<Chunk>, m: nat) {
    && (forall i, j :: 0 <= i < j < |s| ==> s[i].0 < s[j].0)
    && forall i :: 0 <= i < |s| ==> s[i].0 < m && s[i] == ChunkAt(blob, s[i].0)
  }

  lemma CoveredGrows(blob: Bytes, k: nat, m: nat)
    requires k < m <= ChunkCount(blob)
    ensures Covered(blob, k) < Covered(blob, m)
  {
  }

  /** Some of the first m chunks make up less than all of them, and all of them the start of the blob. */
  lemma {:induction false} PartialConcat(blob: Bytes, s: seq<Chunk>, m: nat)
    requires Partial(blob, s, m) && m <= ChunkCount(blob)
    ensures |s| <= m && |Concat(s)| <= Covered(blob, m)
    ensures |s| < m ==> |Concat(s)| < Covered(blob, m)
    ensures |s| == m ==> Concat(s) == blob[..Covered(blob, m)]
    decreases |s|
  {
    if s == [] {
      if m > 0 { CoveredGrows(blob, 0, m); }
    } else {
      var init, k := s[..|s| - 1], s[|s| - 1].0;
      assert Partial(blob, init, k);
      PartialConcat(blob, init, k);
      assert |ChunkAt(blob, k).1| == Covered(blob, k + 1) - Covered(blob, k) by { CoveredGrows(blob, k, k + 1); }
      if k + 1 < m { CoveredGrows(blob, k + 1, m); }
      if |s| == m {
        assert blob[..Covered(blob, m)] == blob[..Covered(blob, k)] + ChunkAt(blob, k).1;
      }
    }
  }

  /** The chunks with the given numbers. */
  ghost function ChunkSet(blob: Bytes, numbers: set<nat>): (s: set<Chunk>) {
    set k | k in numbers :: ChunkAt(blob, k)
  }

  lemma {:induction false} ChunkSetSize(blob: Bytes, numbers: set<nat>)
    ensures |ChunkSet(blob, numbers)| == |numbers|
    decreases numbers
  {
    if numbers != {} {
      var k :| k in numbers;
      ChunkSetSize(blob, numbers - {k});
      assert ChunkSet(blob, numbers) == ChunkSet(blob, numbers - {k}) + {ChunkAt(blob, k)};
      assert ChunkAt(blob, k) !in ChunkSet(blob, numbers - {k});
    }
  }

  lemma SortingIsPartial(blob: Bytes, numbers: set<nat>, s: seq<Chunk>)
    requires Sorting(ChunkSet(blob, numbers), s) && forall k :: k in numbers ==> k < ChunkCount(blob)
    ensures Partial(blob, s, ChunkCount(blob)) && |s| == |numbers|
  {
    DistinctCount(s);
    ChunkSetSize(blob, numbers);
    forall i | 0 <= i < |s| ensures s[i].0 in numbers && s[i] == ChunkAt(blob, s[i].0) {
      assert s[i] in Elements(s);
    }
    forall i, j | 0 <= i < j < |s| ensures s[i].0 < s[j].0 {
      assert s[i] != s[j];
    }
  }

  /** However the chunks are sorted, they make up the blob if and only if none is missing. */
  lemma WholeIffComplete(blob: Bytes, numbers: set<nat>, s: seq<Chunk>)
    requires Sorting(ChunkSet(blob, numbers), s) && forall k :: k in numbers ==> k < ChunkCount(blob)
    ensures Concat(s) == blob <==> Complete(blob, numbers)
  {
    var n := ChunkCount(blob);
    SortingIsPartial(blob, numbers, s);
    PartialConcat(blob, s, n);
    assert Covered(blob, n) == |blob| && blob[..|blob|] == blob;
    if |numbers| < n {
      assert Complete(blob, numbers) ==> numbers == Interval(0, n);
    } else {
      SubsetSize(numbers, Interval(0, n));
      EqualSize(numbers, Interval(0, n));
    }
  }

  ghost predicate Complete(blob: Bytes, numbers: set<nat>) {
    forall k :: k in Interval(0, ChunkCount(blob)) <==> k in numbers
  }

  // ---------------------------------------------------------- the receiver

  /**
   One chunk for a transfer: `pending` is the set of chunks of the cache, None when the cache is gone. What
   is put together is handed over, and the cache dropped, when it has the hash that was asked for.
   */
  ghost predicate Receives(hash: Bytes -> Bytes, wanted: Bytes, pending: Option<set<Chunk>>, c: Chunk,
                           after: Option<set<Chunk>>, out: Option<Bytes>) {
    if pending.None? then after == None && out == None
    else exists s :: Sorting(pending.value + {c}, s) &&
                     Concludes(hash, wanted, pending.value + {c}, Concat(s), after, out)
  }

  ghost predicate Concludes(hash: Bytes -> Bytes, wanted: Bytes, chunks: set<Chunk>, b: Bytes,
                            after: Option<set<Chunk>>, out: Option<Bytes>) {
    if hash(b) == wanted then after == None && out == Some(b) else after == Some(chunks) && out == None
  }

  class AttestationCommunity {
    const hash: Bytes -> Bytes
    /** The attestation_map of each pending verification, by the hash it waits for. */
    var pending: map<Bytes, set<Chunk>>

    constructor (hash: Bytes -> Bytes)
      ensures pending == map[] && this.hash == hash
    {
      this.hash, pending := hash, map[];
    }

    ghost function Cache(wanted: Bytes): (c: Option<set<Chunk>>)
      reads this
    {
      if wanted in pending then Some(pending[wanted]) else None
    }

    /** The part of on_attestation_chunk that serves a verification. */
    method OnAttestationChunk(wanted: Bytes, number: nat, data: Bytes) returns (out: Option<Bytes>)
      modifies this
      ensures Receives(hash, wanted, old(Cache(wanted)), (number, data), Cache(wanted), out)
      ensures forall other :: other != wanted ==> Cache(other) == old(Cache(other))
    {
      if wanted !in pending {
        return None;
      }
      var chunks := pending[wanted] + {(number, data)};
      pending := pending[wanted := chunks];
      var sorted := SortChunks(chunks);
      var serialized := [];
      for i := 0 to |sorted|
        invariant serialized == Concat(sorted[..i])
      {
        assert sorted[..i + 1][..i] == sorted[..i];
        serialized := serialized + sorted[i].1;
      }
      assert sorted[..|sorted|] == sorted;
      out := None;
      if hash(serialized) == wanted {
        pending := pending - {wanted};
        out := Some(serialized);
      }
      assert Concludes(hash, wanted, chunks, Concat(sorted), Cache(wanted), out);
    }
  }

  /** sorted(chunks, key=number), lowest number first. */
  method SortChunks(chunks: set<Chunk>) returns (s: seq<Chunk>)
    ensures Sorting(chunks, s)
  {
    s := [];
    var rest := chunks;
    while rest != {}
      invariant rest <= chunks && Sorting(chunks - rest, s)
      invariant forall c, d :: c in s && d in rest ==> c.0 <= d.0
      decreases rest
    {
      var c := Lowest(rest);
      SortingSnoc(chunks - rest, s, c);
      s, rest := s + [c], rest - {c};
      assert chunks - rest == chunks - (rest + {c}) + {c};
    }
    assert chunks - {} == chunks;
  }

  lemma SortingSnoc(done: set<Chunk>, s: seq<Chunk>, c: Chunk)
    requires Sorting(done, s) && c !in done && forall d :: d in s ==> d.0 <= c.0
    ensures Sorting(done + {c}, s + [c])
  {
    ElementsJoin(s, [c]);
    assert Elements([c]) == {c};
    assert c !in Elements(s);
  }

  method Lowest(chunks: set<Chunk>) returns (c: Chunk)
    requires chunks != {}
    ensures c in chunks && forall d :: d in chunks ==> c.0 <= d.0
  {
    c :| c in chunks;
    var rest := chunks - {c};
    while rest != {}
      invariant rest <= chunks && c in chunks && forall d :: d in chunks - rest ==> c.0 <= d.0
      decreases rest
    {
      var d :| d in rest;
      if d.0 < c.0 {
        c := d;
      }
      rest := rest - {d};
    }
  }

  // -------------------------------------------------------- every delivery


  /** What the cache is after the given deliveries. */
  ghost function Expected(blob: Bytes, ds: seq<nat>): (p: Option<set<Chunk>>) {
    if ds != [] && Complete(blob, Elements(ds)) then None else Some(ChunkSet(blob, Elements(ds)))
  }

  ghost predicate ReceivesAll(hash: Bytes -> Bytes, blob: Bytes, ds: seq<nat>,
                              states: seq<Option<set<Chunk>>>, outs: seq<Option<Bytes>>) {
    && |states| == |ds| + 1 && |outs| == |ds| && states[0] == Some({})
    && forall i :: 0 <= i < |ds| ==> Receives(hash, hash(blob), states[i], ChunkAt(blob, ds[i]), states[i + 1], outs[i])
  }

  /** One delivery of a chunk of the blob. */
  lemma DeliverChunk(hash: Bytes -> Bytes, blob: Bytes, ds: seq<nat>, k: nat,
                     after: Option<set<Chunk>>, out: Option<Bytes>)
    requires forall b :: hash(b) == hash(blob) ==> b == blob
    requires k < ChunkCount(blob) && forall i :: 0 <= i < |ds| ==> ds[i] < ChunkCount(blob)
    requires Receives(hash, hash(blob), Expected(blob, ds), ChunkAt(blob, k), after, out)
    ensures after == Expected(blob, ds + [k])
    ensures out == if Expected(blob, ds).Some? && after.None? then Some(blob) else None
  {
    var more := Elements(ds + [k]);
    ElementsJoin(ds, [k]);
    assert Elements([k]) == {k};
    if Expected(blob, ds).None? {
      assert Complete(blob, more);
    } else {
      var chunks := ChunkSet(blob, Elements(ds)) + {ChunkAt(blob, k)};
      assert chunks == ChunkSet(blob, more);
      var s :| Sorting(chunks, s) && Concludes(hash, hash(blob), chunks, Concat(s), after, out);
      WholeIffComplete(blob, more, s);
    }
  }

  /**
   Chunks in any order and any number of times: the blob comes out, and comes out right, at the one delivery
   that makes the set of chunks complete, never before it, and nothing happens after it.
   */
  lemma {:induction false} ReassemblyExact(hash: Bytes -> Bytes, blob: Bytes, ds: seq<nat>,
                                           states: seq<Option<set<Chunk>>>, outs: seq<Option<Bytes>>, n: nat)
    requires forall b :: hash(b) == hash(blob) ==> b == blob
    requires ReceivesAll(hash, blob, ds, states, outs) && forall i :: 0 <= i < |ds| ==> ds[i] < ChunkCount(blob)
    requires n <= |ds|
    ensures states[n] == Expected(blob, ds[..n])
    ensures forall i :: 0 <= i < n ==> outs[i] == Handed(blob, ds, i)
    decreases n
  {
    hide Receives, Handed, Expected, ChunkCount;
    if n == 0 {
      NothingExpected(blob, ds);
    } else {
      ReassemblyExact(hash, blob, ds, states, outs, n - 1);
      assert Receives(hash, hash(blob), states[n - 1], ChunkAt(blob, ds[n - 1]), states[n - 1 + 1], outs[n - 1]);
      DeliverNext(hash, blob, ds, n - 1, states[n], outs[n - 1]);
    }
  }

  /** What is handed over at delivery i: the blob, when it completes the set. */
  ghost function Handed(blob: Bytes, ds: seq<nat>, i: nat): (out: Option<Bytes>)
    requires i < |ds|
  {
    if Complete(blob, Elements(ds[..i + 1])) && !Complete(blob, Elements(ds[..i])) then Some(blob) else None
  }

  lemma NothingExpected(blob: Bytes, ds: seq<nat>)
    ensures Expected(blob, ds[..0]) == Some({})
  {
    assert ds[..0] == [] && ChunkSet(blob, Elements(ds[..0])) == {};
  }

  lemma DeliverNext(hash: Bytes -> Bytes, blob: Bytes, ds: seq<nat>, n: nat,
                    after: Option<set<Chunk>>, out: Option<Bytes>)
    requires forall b :: hash(b) == hash(blob) ==> b == blob
    requires n < |ds| && forall i :: 0 <= i < |ds| ==> ds[i] < ChunkCount(blob)
    requires Receives(hash, hash(blob), Expected(blob, ds[..n]), ChunkAt(blob, ds[n]), after, out)
    ensures after == Expected(blob, ds[..n + 1]) && out == Handed(blob, ds, n)
  {
    hide Receives, Complete, ChunkCount, Expected;
    assert ds[..n + 1] == ds[..n] + [ds[n]];
    DeliverChunk(hash, blob, ds[..n], ds[n], after, out);
    FirstIsIncomplete(blob, ds, n);
  }

  /** Before any delivery something is missing, if there is a chunk at all. */
  lemma FirstIsIncomplete(blob: Bytes, ds: seq<nat>, n: nat)
    requires n < |ds| && ds[n] < ChunkCount(blob)
    ensures Expected(blob, ds[..n]).None? <==> Complete(blob, Elements(ds[..n]))
    ensures Expected(blob, ds[..n + 1]).None? <==> Complete(blob, Elements(ds[..n + 1]))
  {
    if n == 0 {
      assert ds[n] in Interval(0, ChunkCount(blob)) && ds[n] !in Elements(ds[..0]);
    }
  }
}
