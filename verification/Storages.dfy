/** The values a DHT node stores: versioned, newest first, and cleaned from the oldest end. */
module Storages {
  import opened BitStrings
  import opened Collections
  import opened Ranking

  /** Values are equal when their ids are. Times are in seconds. */
  datatype Value = Value(id: Bytes, data: Bytes, lastUpdate: real, maxAge: real, version: int)

  type Items = map<Bytes, seq<Value>>

  predicate Expired(v: Value, now: real) {
    now - v.lastUpdate > v.maxAge
  }

  function FindId(vs: seq<Value>, id: Bytes): (i: nat)
    ensures i <= |vs|
    ensures i < |vs| ==> vs[i].id == id
    ensures forall j :: 0 <= j < i ==> vs[j].id != id
  {
    IndexWhere(vs, (v: Value) => v.id == id)
  }

  /** The sort key that puts the value whose id is the key behind all others. */
  function LastIfKey(key: Bytes): (r: Value -> int) {
    (v: Value) => if v.id == key then 1 else 0
  }

  /** What put does to the values of one key. */
  function PutList(key: Bytes, vs: seq<Value>, v: Value): (r: seq<Value>) {
    var i := FindId(vs, v.id);
    if i == |vs| then Sort([v] + vs, LastIfKey(key))
    else if v.version >= vs[i].version then Sort([v] + (vs[..i] + vs[i + 1..]), LastIfKey(key))
    else vs
  }

  /** What clean does to the values of one key: remove from the end until a value is not expired. */
  function CleanList(vs: seq<Value>, now: real): (r: seq<Value>) {
    if vs != [] && Expired(vs[|vs| - 1], now) then CleanList(vs[..|vs| - 1], now) else vs
  }

  // -------------------------------------------------- what every list keeps

  ghost predicate DistinctIds(vs: seq<Value>) {
    forall i, j :: 0 <= i < j < |vs| ==> vs[i].id != vs[j].id
  }

  /** Only the last value may have the key for an id. */
  ghost predicate KeyLast(key: Bytes, vs: seq<Value>) {
    forall i :: 0 <= i < |vs| - 1 ==> vs[i].id != key
  }

  ghost predicate Kept(key: Bytes, vs: seq<Value>) {
    DistinctIds(vs) && KeyLast(key, vs)
  }

  /** An element that ranks above a sorted list moves from its front to its end. */
  lemma {:induction false} SortFromFront<T>(x: T, s: seq<T>, rank: T -> int)
    requires Ranked(s, rank) && forall y :: y in s ==> rank(y) < rank(x)
    ensures Sort([x] + s, rank) == s + [x]
  {
    if s == [] {
      assert [x] + s == [x] && Sort([], rank) == [];
    } else {
      var init, y := s[..|s| - 1], s[|s| - 1];
      assert s == init + [y] && ([x] + s)[..|s|] == [x] + init;
      SortFromFront(x, init, rank);
      InsertBeforeLast(init, x, y, rank);
    }
  }

  lemma {:induction false} InsertBeforeLast<T>(s: seq<T>, x: T, y: T, rank: T -> int)
    requires rank(y) < rank(x) && forall z :: z in s ==> rank(z) <= rank(y)
    ensures Insert(s + [x], y, rank) == s + [y] + [x]
  {
    if s != [] {
      InsertBeforeLast(s[1..], x, y, rank);
      assert (s + [x])[1..] == s[1..] + [x];
      assert s == [s[0]] + s[1..];
    }
  }

  /** A new value goes to the front; the one whose id is the key goes to the end. */
  lemma SortPlaces(key: Bytes, v: Value, rest: seq<Value>)
    requires Kept(key, rest) && forall w :: w in rest ==> w.id != v.id
    ensures Sort([v] + rest, LastIfKey(key)) == if v.id == key then rest + [v] else [v] + rest
  {
    if v.id == key {
      SortFromFront(v, rest, LastIfKey(key));
    } else {
      assert Ranked([v] + rest, LastIfKey(key));
      SortSorted([v] + rest, LastIfKey(key));
    }
  }

  lemma RemoveKeeps(key: Bytes, vs: seq<Value>, i: nat)
    requires Kept(key, vs) && i < |vs|
    ensures Kept(key, vs[..i] + vs[i + 1..])
    ensures forall w :: w in vs[..i] + vs[i + 1..] <==> w in vs && w.id != vs[i].id
  {
    var rest := vs[..i] + vs[i + 1..];
    assert vs == vs[..i] + [vs[i]] + vs[i + 1..];
    assert forall j :: 0 <= j < |rest| ==> rest[j] == if j < i then vs[j] else vs[j + 1];
    forall w | w in rest ensures w.id != vs[i].id {
      var j :| 0 <= j < |rest| && rest[j] == w;
    }
  }

  lemma PlaceKeeps(key: Bytes, v: Value, rest: seq<Value>)
    requires Kept(key, rest) && forall w :: w in rest ==> w.id != v.id
    ensures Kept(key, if v.id == key then rest + [v] else [v] + rest)
  {
  }

  /** The value that put leaves under an id: the newcomer, unless what is there has a higher version. */
  ghost predicate Stored(before: seq<Value>, v: Value, after: seq<Value>) {
    && (forall w: Value :: w.id != v.id ==> (w in after <==> w in before))
    && (forall w: Value :: w.id == v.id ==>
          (w in after <==> if exists u :: u in before && u.id == v.id && u.version > v.version
                           then w in before else w == v))
  }

  /** A newcomer in its place, among the values with other ids. */
  lemma PlaceStores(key: Bytes, vs: seq<Value>, v: Value, rest: seq<Value>)
    requires Kept(key, rest) && forall w :: w in rest <==> w in vs && w.id != v.id
    requires forall u :: u in vs && u.id == v.id ==> u.version <= v.version
    ensures var r := Sort([v] + rest, LastIfKey(key)); Kept(key, r) && Stored(vs, v, r)
  {
    SortPlaces(key, v, rest);
    PlaceKeeps(key, v, rest);
    hide Sort, Kept, Stored;
    StoredAmong(vs, v, rest, Sort([v] + rest, LastIfKey(key)));
  }

  lemma StoredAmong(vs: seq<Value>, v: Value, rest: seq<Value>, r: seq<Value>)
    requires forall w :: w in rest <==> w in vs && w.id != v.id
    requires forall u :: u in vs && u.id == v.id ==> u.version <= v.version
    requires forall w :: w in r <==> w in rest || w == v
    ensures Stored(vs, v, r)
  {
  }

  /** A newcomer with a lower version than the value with its id. */
  lemma OlderStores(vs: seq<Value>, v: Value, i: nat)
    requires DistinctIds(vs) && i < |vs| && vs[i].id == v.id && v.version < vs[i].version
    ensures Stored(vs, v, vs)
  {
    OnlyOne(vs, i);
  }

  /** put changes one id and keeps the rest, with ids unique and the value under the key's own id last. */
  lemma PutKeeps(key: Bytes, vs: seq<Value>, v: Value)
    requires Kept(key, vs)
    ensures Kept(key, PutList(key, vs, v)) && Stored(vs, v, PutList(key, vs, v))
  {
    hide Sort, Stored, KeyLast;
    var i := FindId(vs, v.id);
    if i == |vs| {
      assert forall w :: w in vs ==> w.id != v.id;
      PlaceStores(key, vs, v, vs);
    } else {
      OnlyOne(vs, i);
      hide DistinctIds;
      if v.version >= vs[i].version {
        RemoveKeeps(key, vs, i);
        PlaceStores(key, vs, v, vs[..i] + vs[i + 1..]);
      } else {
        OlderStores(vs, v, i);
      }
    }
  }

  function OtherThan(id: Bytes): (p: Value -> bool) {
    (v: Value) => v.id != id
  }

  /**
   The values of a key after a put: as before if a higher version is there; otherwise the newcomer in front of the
   values with other ids, or behind them if its id is the key.
   */
  ghost predicate PutOutcome(key: Bytes, before: seq<Value>, v: Value, after: seq<Value>) {
    var others := Filter(before, OtherThan(v.id));
    after == if exists u :: u in before && u.id == v.id && u.version > v.version then before
             else if v.id == key then others + [v] else [v] + others
  }

  lemma PutPlaces(key: Bytes, vs: seq<Value>, v: Value)
    requires Kept(key, vs)
    ensures PutOutcome(key, vs, v, PutList(key, vs, v))
  {
    var i := FindId(vs, v.id);
    hide Sort, Kept;
    if i == |vs| {
      FilterAll(vs, OtherThan(v.id));
      SortPlaces(key, v, vs);
    } else {
      assert Kept(key, vs) ==> DistinctIds(vs) by { KeptMeans(key, vs); }
      OnlyOne(vs, i);
      RemoveKeeps(key, vs, i);
      OthersAre(vs, i);
      if v.version >= vs[i].version { SortPlaces(key, v, vs[..i] + vs[i + 1..]); }
    }
  }

  lemma PutMeans(key: Bytes, vs: seq<Value>, v: Value)
    ensures Kept(key, vs) ==> Kept(key, PutList(key, vs, v)) && PutOutcome(key, vs, v, PutList(key, vs, v))
  {
    hide PutList, PutOutcome, Stored, Kept;
    if Kept(key, vs) {
      PutPlaces(key, vs, v);
      PutKeeps(key, vs, v);
    }
  }

  lemma KeptMeans(key: Bytes, vs: seq<Value>)
    requires Kept(key, vs)
    ensures DistinctIds(vs)
  {
  }

  lemma OthersAre(vs: seq<Value>, i: nat)
    requires DistinctIds(vs) && i < |vs|
    ensures vs[..i] + vs[i + 1..] == Filter(vs, OtherThan(vs[i].id))
  {
    assert vs == vs[..i] + [vs[i]] + vs[i + 1..];
    forall w | w in vs[..i] || w in vs[i + 1..] ensures w.id != vs[i].id {
      var j :| 0 <= j < |vs| && j != i && vs[j] == w;
    }
    hide DistinctIds;
    FilterOne(vs[..i], vs[i], vs[i + 1..], OtherThan(vs[i].id));
  }

  lemma OnlyOne(vs: seq<Value>, i: nat)
    requires DistinctIds(vs) && i < |vs|
    ensures vs[i] in vs && forall w :: w in vs && w.id == vs[i].id ==> w == vs[i]
  {
  }

  /** What is there after a put, under an id that was there before, has no lower version. */
  lemma VersionsRise(key: Bytes, vs: seq<Value>, v: Value, was: Value)
    requires Kept(key, vs) && was in vs
    ensures exists w :: w in PutList(key, vs, v) && w.id == was.id
    ensures forall w :: w in PutList(key, vs, v) && w.id == was.id ==> w.version >= was.version
  {
    PutKeeps(key, vs, v);
    var r := PutList(key, vs, v);
    var i :| 0 <= i < |vs| && vs[i] == was;
    OnlyOne(vs, i);
    assert was.id != v.id ==> was in r;
    assert was.id == v.id ==> was in r || v in r;
  }

  // -------------------------------------------------------------- cleaning

  /** No value that is expired stands before one that is not. */
  ghost predicate ExpiredLast(vs: seq<Value>, now: real) {
    forall i, j :: 0 <= i < j < |vs| && Expired(vs[i], now) ==> Expired(vs[j], now)
  }

  /** A beginning of the list, up to its last unexpired value. */
  ghost predicate Trimmed(before: seq<Value>, now: real, after: seq<Value>) {
    && after <= before && (after != [] ==> var last := after[|after| - 1]; now - last.lastUpdate <= last.maxAge)
    && forall i :: |after| <= i < |before| ==> now - before[i].lastUpdate > before[i].maxAge
  }

  function Unexpired(now: real): (p: Value -> bool) {
    (v: Value) => !Expired(v, now)
  }

  /** clean removes expired values only, as many from the end as there are, and stops at the first it has to keep. */
  lemma {:induction false} CleanPrefix(vs: seq<Value>, now: real)
    ensures Trimmed(vs, now, CleanList(vs, now))
    decreases |vs|
  {
    if vs != [] && Expired(vs[|vs| - 1], now) {
      CleanPrefix(vs[..|vs| - 1], now);
    }
  }

  lemma TrimsAll(items: Items, now: real)
    ensures forall key :: key in items ==> Trimmed(items[key], now, CleanList(items[key], now))
  {
    forall key | key in items ensures Trimmed(items[key], now, CleanList(items[key], now)) {
      CleanPrefix(items[key], now);
    }
  }

  lemma {:induction false} FilterNone<T>(s: seq<T>, p: T -> bool)
    requires forall x :: x in s ==> !p(x)
    ensures Filter(s, p) == []
  {
    if s != [] {
      FilterNone(s[1..], p);
    }
  }

  /** clean keeps exactly the values that are not expired if and only if no expired value stands before one of those. */
  lemma CleanExact(vs: seq<Value>, now: real)
    ensures CleanList(vs, now) == Filter(vs, Unexpired(now)) <==> ExpiredLast(vs, now)
  {
    var r := CleanList(vs, now);
    CleanPrefix(vs, now);
    hide CleanList, Filter;
    assert vs == r + vs[|r|..];
    FilterJoin(r, vs[|r|..], Unexpired(now));
    FilterNone(vs[|r|..], Unexpired(now));
    FilterAll(r, Unexpired(now));
    if ExpiredLast(vs, now) {
      forall v | v in r ensures !Expired(v, now) {
        var i :| 0 <= i < |r| && r[i] == v;
        assert vs[i] == v && vs[|r| - 1] == r[|r| - 1];
      }
    } else {
      var i, j :| 0 <= i < j < |vs| && Expired(vs[i], now) && !Expired(vs[j], now);
      assert j < |r| && r[i] == vs[i] && r[i] in r && !Unexpired(now)(r[i]);
    }
  }

  // ------------------------------------------------------------ every run

  /** `hash` is SHA-1, the id of a value that has none of its own. */
  datatype Op =
    | Put(key: Bytes, data: Bytes, id: Option<Bytes>, maxAge: real, version: int, now: real)
    | Clean(now: real)

  function ValueOf(hash: Bytes -> Bytes, data: Bytes, id: Option<Bytes>, maxAge: real, version: int, now: real)
    : (v: Value) {
    Value(if id.Some? && id.value != [] then id.value else hash(data), data, now, maxAge, version)
  }

  function At(items: Items, key: Bytes): (vs: seq<Value>) {
    if key in items then items[key] else []
  }

  function Apply(hash: Bytes -> Bytes, items: Items, op: Op): (r: Items) {
    match op
    case Put(key, data, id, maxAge, version, now) =>
      items[key := PutList(key, At(items, key), ValueOf(hash, data, id, maxAge, version, now))]
    case Clean(now) => map key | key in items :: CleanList(items[key], now)
  }

  function Run(hash: Bytes -> Bytes, ops: seq<Op>): (r: Items) {
    if ops == [] then map[] else Apply(hash, Run(hash, ops[..|ops| - 1]), ops[|ops| - 1])
  }

  ghost predicate AllKept(items: Items) {
    forall key :: key in items ==> Kept(key, items[key])
  }

  lemma ApplyKeeps(hash: Bytes -> Bytes, items: Items, op: Op)
    requires AllKept(items)
    ensures AllKept(Apply(hash, items, op))
  {
    match op
    case Put(key, data, id, maxAge, version, now) =>
      PutKeeps(key, At(items, key), ValueOf(hash, data, id, maxAge, version, now));
    case Clean(now) =>
      forall key | key in items ensures Kept(key, CleanList(items[key], now)) {
        CleanPrefix(items[key], now);
      }
  }

  /** In every run ids are unique under each key and the value under the key's own id is last. */
  lemma {:induction false} RunKeeps(hash: Bytes -> Bytes, ops: seq<Op>)
    ensures AllKept(Run(hash, ops))
  {
    if ops != [] {
      RunKeeps(hash, ops[..|ops| - 1]);
      ApplyKeeps(hash, Run(hash, ops[..|ops| - 1]), ops[|ops| - 1]);
    }
  }

  /** No step of a run lowers the version of a value that stays; only clean removes values, and only expired ones. */
  lemma RunVersions(hash: Bytes -> Bytes, ops: seq<Op>, op: Op, key: Bytes, before: Value)
    requires before in At(Run(hash, ops), key)
    ensures var after := At(Run(hash, ops + [op]), key);
            && (forall w :: w in after && w.id == before.id ==> w.version >= before.version)
            && ((exists w :: w in after && w.id == before.id) || (op.Clean? && Expired(before, op.now)))
  {
    var items := Run(hash, ops);
    RunKeeps(hash, ops);
    assert (ops + [op])[..|ops|] == ops;
    var vs := items[key];
    var i :| 0 <= i < |vs| && vs[i] == before;
    OnlyOne(vs, i);
    match op
    case Put(k, data, id, maxAge, version, now) =>
      if k == key { VersionsRise(key, vs, ValueOf(hash, data, id, maxAge, version, now), before); }
    case Clean(now) =>
      CleanPrefix(vs, now);
      var r := CleanList(vs, now);
      assert forall w :: w in r ==> w in vs;
      assert i < |r| ==> r[i] == before;
  }

  /** What a run holds after a put, in terms of what was put. */
  lemma RunStores(hash: Bytes -> Bytes, ops: seq<Op>, key: Bytes, data: Bytes, id: Option<Bytes>, maxAge: real,
                  version: int, now: real)
    ensures var i := if id == None || id == Some([]) then hash(data) else id.value;
            var before, after := Run(hash, ops), Run(hash, ops + [Put(key, data, id, maxAge, version, now)]);
            && PutOutcome(key, At(before, key), Value(i, data, now, maxAge, version), At(after, key))
            && forall k :: k != key ==> At(after, k) == At(before, k)
  {
    var op := Put(key, data, id, maxAge, version, now);
    assert (ops + [op])[..|ops|] == ops;
    RunKeeps(hash, ops);
    PutPlaces(key, At(Run(hash, ops), key), ValueOf(hash, data, id, maxAge, version, now));
    hide PutOutcome;
  }

  // ----------------------------------------------------------- equal ages

  /** Newest first, none from the future, all with one maximum age and none under the key's own id. */
  ghost predicate NewestFirst(key: Bytes, vs: seq<Value>, maxAge: real, now: real) {
    && (forall i, j :: 0 <= i < j < |vs| ==> vs[i].lastUpdate >= vs[j].lastUpdate)
    && forall i :: 0 <= i < |vs| ==> vs[i].lastUpdate <= now && vs[i].maxAge == maxAge && vs[i].id != key
  }

  /** Puts share one maximum age, use no key for its own id, and time does not go back. */
  ghost predicate Uniform(hash: Bytes -> Bytes, ops: seq<Op>, maxAge: real) {
    && (forall i :: 0 <= i < |ops| ==> UniformOp(hash, ops[i], maxAge))
    && forall i, j :: 0 <= i < j < |ops| ==> ops[i].now <= ops[j].now
  }

  ghost predicate UniformOp(hash: Bytes -> Bytes, op: Op, maxAge: real) {
    op.Put? ==> op.maxAge == maxAge && ValueOf(hash, op.data, op.id, op.maxAge, op.version, op.now).id != op.key
  }

  lemma FrontNewest(key: Bytes, v: Value, rest: seq<Value>, maxAge: real)
    requires NewestFirst(key, rest, maxAge, v.lastUpdate) && v.maxAge == maxAge && v.id != key
    ensures NewestFirst(key, [v] + rest, maxAge, v.lastUpdate)
  {
  }

  lemma RemoveNewest(key: Bytes, vs: seq<Value>, i: nat, maxAge: real, now: real)
    requires NewestFirst(key, vs, maxAge, now) && i < |vs|
    ensures NewestFirst(key, vs[..i] + vs[i + 1..], maxAge, now)
  {
    var rest := vs[..i] + vs[i + 1..];
    assert forall j :: 0 <= j < |rest| ==> rest[j] == if j < i then vs[j] else vs[j + 1];
  }

  lemma PutNewest(key: Bytes, vs: seq<Value>, v: Value, maxAge: real)
    requires Kept(key, vs) && NewestFirst(key, vs, maxAge, v.lastUpdate) && v.maxAge == maxAge && v.id != key
    ensures NewestFirst(key, PutList(key, vs, v), maxAge, v.lastUpdate)
  {
    var i := FindId(vs, v.id);
    hide Sort, NewestFirst, Kept;
    if i == |vs| {
      SortPlaces(key, v, vs);
      FrontNewest(key, v, vs, maxAge);
    } else {
      var rest := vs[..i] + vs[i + 1..];
      RemoveKeeps(key, vs, i);
      RemoveNewest(key, vs, i, maxAge, v.lastUpdate);
      SortPlaces(key, v, rest);
      FrontNewest(key, v, rest, maxAge);
    }
  }

  ghost predicate AllNewest(items: Items, maxAge: real, now: real) {
    forall key :: key in items ==> NewestFirst(key, items[key], maxAge, now)
  }

  lemma ApplyNewest(hash: Bytes -> Bytes, items: Items, op: Op, maxAge: real)
    requires AllKept(items) && AllNewest(items, maxAge, op.now) && UniformOp(hash, op, maxAge)
    ensures AllNewest(Apply(hash, items, op), maxAge, op.now)
  {
    match op
    case Put(key, data, id, age, version, now) =>
      PutNewest(key, At(items, key), ValueOf(hash, data, id, age, version, now), maxAge);
    case Clean(now) =>
      forall key | key in items ensures NewestFirst(key, CleanList(items[key], now), maxAge, now) {
        CleanPrefix(items[key], now);
      }
  }

  /** A uniform run keeps each list newest first, so that clean keeps exactly what is not expired. */
  lemma {:induction false} UniformRun(hash: Bytes -> Bytes, ops: seq<Op>, maxAge: real, now: real)
    requires Uniform(hash, ops, maxAge) && forall i :: 0 <= i < |ops| ==> ops[i].now <= now
    ensures AllNewest(Run(hash, ops), maxAge, now)
    ensures forall key :: key in Run(hash, ops) ==>
      CleanList(Run(hash, ops)[key], now) == Filter(Run(hash, ops)[key], Unexpired(now))
    ensures Run(hash, ops + [Clean(now)]).Keys == Run(hash, ops).Keys
    ensures forall key :: key in Run(hash, ops) ==>
      Run(hash, ops + [Clean(now)])[key] == Filter(Run(hash, ops)[key], Unexpired(now))
  {
    CleanLast(hash, ops, now);
    hide NewestFirst, Kept, Apply, UniformOp, CleanList, Filter;
    if ops != [] {
      var init, op := ops[..|ops| - 1], ops[|ops| - 1];
      assert forall i :: 0 <= i < |init| ==> init[i] == ops[i];
      UniformRun(hash, init, maxAge, op.now);
      RunKeeps(hash, init);
      ApplyNewest(hash, Run(hash, init), op, maxAge);
      StillNewest(Run(hash, ops), maxAge, op.now, now);
    }
    NewestClean(Run(hash, ops), maxAge, now);
  }

  lemma CleanLast(hash: Bytes -> Bytes, ops: seq<Op>, now: real)
    ensures Run(hash, ops + [Clean(now)]).Keys == Run(hash, ops).Keys
    ensures forall key :: key in Run(hash, ops) ==>
      Run(hash, ops + [Clean(now)])[key] == CleanList(Run(hash, ops)[key], now)
  {
    assert (ops + [Clean(now)])[..|ops|] == ops;
  }

  lemma StillNewest(items: Items, maxAge: real, earlier: real, now: real)
    requires AllNewest(items, maxAge, earlier) && earlier <= now
    ensures AllNewest(items, maxAge, now)
  {
  }

  lemma NewestClean(items: Items, maxAge: real, now: real)
    requires AllNewest(items, maxAge, now)
    ensures forall key :: key in items ==> CleanList(items[key], now) == Filter(items[key], Unexpired(now))
  {
    hide CleanList, Filter;
    forall key | key in items ensures CleanList(items[key], now) == Filter(items[key], Unexpired(now)) {
      assert NewestFirst(key, items[key], maxAge, now);
      CleanExact(items[key], now);
    }
  }

  /** One unexpired value under the key's own id is enough to protect every expired one. */
  lemma KeyIdShields(key: Bytes, vs: seq<Value>, now: real)
    requires vs != [] && vs[|vs| - 1].id == key && !Expired(vs[|vs| - 1], now)
    ensures CleanList(vs, now) == vs
    ensures (exists v :: v in vs && Expired(v, now)) ==> CleanList(vs, now) != Filter(vs, Unexpired(now))
  {
    FilterMembers(vs, Unexpired(now));
    if v :| v in vs && Expired(v, now) {
      assert v !in Filter(vs, Unexpired(now));
    }
  }

  // ------------------------------------------------------------- the object

  class Storage {
    const hash: Bytes -> Bytes
    var items: Items

    constructor (hash: Bytes -> Bytes)
      ensures items == Run(hash, []) && this.hash == hash
    {
      this.hash, items := hash, map[];
    }

    /** put. In a storage that only puts and cleans have filled, the outcome is that of PutOutcome. */
    method PutValue(key: Bytes, data: Bytes, id: Option<Bytes>, maxAge: real, version: int, now: real)
      modifies this
      ensures items == Apply(hash, old(items), Put(key, data, id, maxAge, version, now))
      ensures items.Keys == old(items).Keys + {key}
      ensures forall k :: k in old(items) && k != key ==> items[k] == old(items)[k]
      ensures var i := if id == None || id == Some([]) then hash(data) else id.value;
              Kept(key, At(old(items), key)) ==>
                && Kept(key, items[key])
                && PutOutcome(key, At(old(items), key), Value(i, data, now, maxAge, version), items[key])
    {
      var v := ValueOf(hash, data, id, maxAge, version, now);
      var vs := At(items, key);
      var index := 0;
      while index < |vs| && vs[index].id != v.id
        invariant index <= |vs| && forall j :: 0 <= j < index ==> vs[j].id != v.id
      {
        index := index + 1;
      }
      assert index == FindId(vs, v.id);
      hide Sort;
      if index < |vs| {
        if v.version >= vs[index].version {
          vs := vs[..index] + vs[index + 1..];
          vs := [v] + vs;
          vs := Sort(vs, LastIfKey(key));
        }
      } else {
        vs := [v] + vs;
        vs := Sort(vs, LastIfKey(key));
      }
      assert vs == PutList(key, At(items, key), v);
      hide PutList, FindId;
      PutMeans(key, At(items, key), v);
      hide PutOutcome, Kept;
      items := items[key := vs];
    }

    /** get: a limit of 0 or None differ, as None takes all. */
    method Get(key: Bytes, start: nat, limit: Option<nat>) returns (r: seq<Bytes>)
      ensures var vs := At(items, key);
              var n := if limit.None? || start + limit.value >= |vs| then |vs| - start else limit.value;
              && |r| == (if n < 0 then 0 else n)
              && forall i :: 0 <= i < |r| ==> r[i] == vs[start + i].data
    {
      if key !in items {
        return [];
      }
      var upper := if limit.None? then |items[key]| else if limit.value == 0 then 0 else start + limit.value;
      r := [];
      var i := start;
      while i < upper && i < |items[key]|
        invariant start <= i && |r| == i - start && (i <= upper || i == start) && (i <= |items[key]| || i == start)
        invariant forall j :: 0 <= j < |r| ==> r[j] == items[key][start + j].data
      {
        r := r + [items[key][i].data];
        i := i + 1;
      }
    }

    method CleanAll(now: real)
      modifies this
      ensures items == Apply(hash, old(items), Clean(now))
      ensures items.Keys == old(items).Keys
      ensures forall key :: key in items ==> Trimmed(old(items)[key], now, items[key])
    {
      TrimsAll(items, now);
      hide Trimmed;
      var rest := items.Keys;
      while rest != {}
        invariant rest <= items.Keys == old(items.Keys)
        invariant forall key :: key in items ==>
          items[key] == if key in rest then old(items)[key] else CleanList(old(items)[key], now)
        decreases rest
      {
        var key :| key in rest;
        CleanOne(key, now);
        rest := rest - {key};
      }
    }

    /** The inner loop of clean. */
    method CleanOne(key: Bytes, now: real)
      requires key in items
      modifies this
      ensures items == old(items)[key := CleanList(old(items)[key], now)]
    {
      var vs := items[key];
      while vs != [] && Expired(vs[|vs| - 1], now)
        invariant CleanList(vs, now) == CleanList(old(items)[key], now)
        decreases |vs|
      {
        vs := vs[..|vs| - 1];
      }
      items := items[key := vs];
    }
  }
}
