/**
 The message serializer: formats nested to any depth, packing to bytes and unpacking at
 an offset. None stands for the exception that packing or unpacking raises.
 */
module Serialization {
  import opened BitStrings
  import opened Collections

  // -------------------------------------------------------------- integers

  function Pow256(n: nat): (r: nat)
    ensures r >= 1
  {
    if n == 0 then 1 else 256 * Pow256(n - 1)
  }

  /** An unsigned big-endian integer of `width` bytes. */
  function ToBytes(n: nat, width: nat): (b: Bytes)
    ensures |b| == width
  {
    if width == 0 then [] else ToBytes(n / 256, width - 1) + [n % 256]
  }

  lemma {:induction false} ToBytesValue(n: nat, width: nat)
    requires n < Pow256(width)
    ensures BigEndian(ToBytes(n, width)) == n
  {
    if width > 0 {
      ToBytesValue(n / 256, width - 1);
      assert ToBytes(n, width)[..width - 1] == ToBytes(n / 256, width - 1);
    }
  }

  lemma {:induction false} BytesBound(b: Bytes)
    ensures BigEndian(b) < Pow256(|b|)
  {
    if b != [] {
      BytesBound(b[..|b| - 1]);
    }
  }

  /** Every byte string is the packed form of a number. */
  lemma {:induction false} ToBytesOfValue(b: Bytes)
    ensures ToBytes(BigEndian(b), |b|) == b
  {
    if b != [] {
      ToBytesOfValue(b[..|b| - 1]);
      assert b == b[..|b| - 1] + [b[|b| - 1]];
    }
  }

  /** Numbers of one width order as their packed forms do: the most significant byte comes first. */
  lemma ToBytesOrder(m: nat, n: nat, width: nat)
    requires m < Pow256(width) && n < Pow256(width)
    ensures m < n <==> BytesLess(ToBytes(m, width), ToBytes(n, width))
  {
    ToBytesValue(m, width);
    ToBytesValue(n, width);
    BigEndianOrder(ToBytes(m, width), ToBytes(n, width));
  }

  /** pack(">H", n). */
  lemma TwoBytes(n: nat)
    requires n < Pow256(2)
    ensures ToBytes(n, 2) == [n / 256, n % 256]
  {
    assert ToBytes(n / 256, 1) == [n / 256];
  }

  /** data[from:end] of Python, for indices that are not negative. */
  function Slice(data: Bytes, from: nat, end: nat): (s: Bytes) {
    var e := if end <= |data| then end else |data|;
    if from <= e then data[from..e] else []
  }

  // --------------------------------------------------------------- formats

  /** One item of a `struct` format: an integer of some bytes, a flag, a byte or a fixed byte string. */
  datatype Field = Unsigned(width: nat) | Signed(width: nat) | Flag | Char | Fixed(length: nat)

  datatype Atom = Int(i: int) | Bool(b: bool) | Blob(bytes: Bytes)

  datatype Format =
    | Struct(fields: seq<Field>)
    | Bits
    | Raw
    | VarLen(lengthWidth: nat, base: nat)
    | IPv4
    | Address(ipOnly: bool)
    | ListOf(element: Format, lengthWidth: nat)
    | Payload(formats: seq<Format>)

  datatype Host = V4(ip: Bytes) | V6(ip: Bytes) | Domain(name: Bytes)

  datatype Value =
    | Tuple(atoms: seq<Atom>)
    | EightBits(bits: seq<bool>)
    | Data(bytes: Bytes)
    | Endpoint(host: Host, port: int)
    | List(items: seq<Value>)
    | Object(items: seq<Value>)

  const ADDRESS_TYPE_IPV4: Byte := 0x01
  const ADDRESS_TYPE_DOMAIN_NAME: Byte := 0x02
  const ADDRESS_TYPE_IPV6: Byte := 0x03

  // --------------------------------------------------------------- structs

  function FieldSize(f: Field): (n: nat) {
    match f
    case Unsigned(w) => w
    case Signed(w) => w
    case Flag => 1
    case Char => 1
    case Fixed(n) => n
  }

  /** Pad with zeros or cut, as `struct` does with a byte string of the wrong length. */
  function Fitted(b: Bytes, n: nat): (r: Bytes)
    ensures |r| == n
  {
    if |b| >= n then b[..n] else b + seq(n - |b|, i => 0)
  }

  function PackAtom(f: Field, a: Atom): (r: Option<Bytes>)
    ensures r.Some? ==> |r.value| == FieldSize(f)
  {
    match (f, a)
    case (Unsigned(w), Int(i)) => if 0 <= i < Pow256(w) then Some(ToBytes(i, w)) else None
    case (Signed(w), Int(i)) =>
      if 2 * i >= Pow256(w) || 2 * i + Pow256(w) < 0 then None
      else Some(ToBytes(if i < 0 then i + Pow256(w) else i, w))
    case (Flag, Bool(b)) => Some([if b then 1 else 0])
    case (Char, Blob(b)) => if |b| == 1 then Some(b) else None
    case (Fixed(n), Blob(b)) => Some(Fitted(b, n))
    case _ => None
  }

  function UnpackAtom(f: Field, b: Bytes): (a: Atom)
    requires |b| == FieldSize(f)
  {
    match f
    case Unsigned(w) => Int(BigEndian(b))
    case Signed(w) => Int(if 2 * BigEndian(b) < Pow256(w) then BigEndian(b) else BigEndian(b) - Pow256(w))
    case Flag => Bool(b[0] != 0)
    case Char => Blob(b)
    case Fixed(n) => Blob(b)
  }

  function PackAtoms(fs: seq<Field>, atoms: seq<Atom>): (r: Option<Bytes>) {
    if |fs| != |atoms| then None
    else if fs == [] then Some([])
    else
      match (PackAtom(fs[0], atoms[0]), PackAtoms(fs[1..], atoms[1..]))
      case (Some(a), Some(b)) => Some(a + b)
      case _ => None
  }

  function StructSize(fs: seq<Field>): (n: nat) {
    if fs == [] then 0 else FieldSize(fs[0]) + StructSize(fs[1..])
  }

  function UnpackAtoms(fs: seq<Field>, b: Bytes): (atoms: seq<Atom>)
    requires |b| >= StructSize(fs)
    ensures |atoms| == |fs|
  {
    if fs == [] then []
    else [UnpackAtom(fs[0], b[..FieldSize(fs[0])])] + UnpackAtoms(fs[1..], b[FieldSize(fs[0])..])
  }

  /** A fixed byte string is neither padded nor cut. */
  predicate Exact(f: Field, a: Atom) {
    match (f, a)
    case (Fixed(n), Blob(b)) => |b| == n
    case _ => true
  }

  /** An atom that packs comes back unless it is a byte string of the wrong length. */
  lemma AtomRoundTrip(f: Field, a: Atom)
    requires PackAtom(f, a).Some?
    ensures UnpackAtom(f, PackAtom(f, a).value) == a <==> Exact(f, a)
  {
    if f.Unsigned? || f.Signed? { NumberRoundTrip(f, a.i); }
    hide ToBytes, BigEndian, Pow256;
  }

  lemma NumberRoundTrip(f: Field, i: int)
    requires (f.Unsigned? || f.Signed?) && PackAtom(f, Int(i)).Some?
    ensures UnpackAtom(f, PackAtom(f, Int(i)).value) == Int(i)
  {
    ToBytesValue(if i < 0 then i + Pow256(f.width) else i, f.width);
    hide ToBytes, BigEndian, Pow256;
  }

  /** A flag is the byte 1 or 0, and read from any byte but 0. */
  lemma FlagOnWire(b: bool, byte: Byte)
    ensures PackAtom(Flag, Bool(b)) == Some([if b then 0x01 else 0x00])
    ensures UnpackAtom(Flag, [byte]) == Bool(true) <==> byte != 0
  {
  }

  /** Two's complement: a negative number is packed as the unsigned one above it, and has the highest bit. */
  lemma SignedOnWire(width: nat, i: int)
    requires PackAtom(Signed(width), Int(i)).Some? && width > 0
    ensures PackAtom(Signed(width), Int(i)) == PackAtom(Unsigned(width), Int(if i < 0 then i + Pow256(width) else i))
    ensures PackAtom(Signed(width), Int(i)).value[0] >= 0x80 <==> i < 0
  {
    var n := if i < 0 then i + Pow256(width) else i;
    HighestBit(n, width);
    assert ToBytes(n, width) == PackAtom(Signed(width), Int(i)).value;
  }

  lemma {:induction false} HighestBit(n: nat, width: nat)
    requires width > 0 && n < Pow256(width)
    ensures ToBytes(n, width)[0] >= 0x80 <==> 2 * n >= Pow256(width)
  {
    if width > 1 {
      HighestBit(n / 256, width - 1);
      assert ToBytes(n, width)[0] == ToBytes(n / 256, width - 1)[0];
      assert Pow256(width - 1) == 256 * Pow256(width - 2);
    } else {
      assert Pow256(1) == 256 && ToBytes(n, 1) == [n];
    }
  }

  ghost predicate AllExact(fs: seq<Field>, atoms: seq<Atom>) {
    forall i :: 0 <= i < |fs| && i < |atoms| ==> Exact(fs[i], atoms[i])
  }

  lemma {:induction false} AtomsRoundTrip(fs: seq<Field>, atoms: seq<Atom>, rest: Bytes)
    requires PackAtoms(fs, atoms).Some?
    ensures var b := PackAtoms(fs, atoms).value;
            |b| == StructSize(fs) && (UnpackAtoms(fs, b + rest) == atoms <==> AllExact(fs, atoms))
    decreases |fs|
  {
    if fs != [] {
      var a, b := PackAtom(fs[0], atoms[0]).value, PackAtoms(fs[1..], atoms[1..]).value;
      AtomRoundTrip(fs[0], atoms[0]);
      AtomsRoundTrip(fs[1..], atoms[1..], rest);
      assert (a + b + rest)[..|a|] == a && (a + b + rest)[|a|..] == b + rest;
      hide Exact, PackAtom, UnpackAtom;
      AllExactHead(fs, atoms);
      SameAtoms(UnpackAtom(fs[0], a), UnpackAtoms(fs[1..], b + rest), atoms);
    }
  }

  lemma AllExactHead(fs: seq<Field>, atoms: seq<Atom>)
    requires |fs| == |atoms| > 0
    ensures AllExact(fs, atoms) <==> Exact(fs[0], atoms[0]) && AllExact(fs[1..], atoms[1..])
  {
    hide Exact;
    if Exact(fs[0], atoms[0]) && AllExact(fs[1..], atoms[1..]) {
      forall i | 0 <= i < |fs| ensures Exact(fs[i], atoms[i]) {
        if i > 0 { assert Exact(fs[1..][i - 1], atoms[1..][i - 1]); }
      }
    }
    if AllExact(fs, atoms) {
      forall i | 0 <= i < |fs| - 1 ensures Exact(fs[1..][i], atoms[1..][i]) { assert Exact(fs[i + 1], atoms[i + 1]); }
    }
  }

  lemma SameAtoms<T>(head: T, tail: seq<T>, s: seq<T>)
    requires s != []
    ensures [head] + tail == s <==> head == s[0] && tail == s[1..]
  {
    assert s == [s[0]] + s[1..];
    assert ([head] + tail)[0] == head && ([head] + tail)[1..] == tail;
  }

  // ------------------------------------------------------------------ bits

  function BitValue(b: bool): (n: nat)
    ensures n <= 1
  {
    if b then 1 else 0
  }

  /** Eight `byte |= mask` steps, from mask 0x80 down to 0x01. */
  function PackBits(d: seq<bool>): (b: Byte)
    requires |d| == 8
  {
    0x80 * BitValue(d[0]) + 0x40 * BitValue(d[1]) + 0x20 * BitValue(d[2]) + 0x10 * BitValue(d[3])
    + 0x08 * BitValue(d[4]) + 0x04 * BitValue(d[5]) + 0x02 * BitValue(d[6]) + BitValue(d[7])
  }

  /** mask & byte, for the mask 2^k. */
  predicate HasBit(b: Byte, k: nat) {
    ShiftRight(b, k) % 2 == 1
  }

  function UnpackBits(b: Byte): (d: seq<bool>) {
    [HasBit(b, 7), HasBit(b, 6), HasBit(b, 5), HasBit(b, 4), HasBit(b, 3), HasBit(b, 2), HasBit(b, 1), HasBit(b, 0)]
  }

  /** The number that a list of bits spells, most significant first. */
  ghost function Spelled(d: seq<bool>): (n: nat) {
    if d == [] then 0 else 2 * Spelled(d[..|d| - 1]) + BitValue(d[|d| - 1])
  }

  lemma {:induction false} SpelledBit(d: seq<bool>, k: nat)
    requires k < |d|
    ensures ShiftRight(Spelled(d), k) % 2 == BitValue(d[|d| - 1 - k])
  {
    if k > 0 {
      assert Spelled(d) / 2 == Spelled(d[..|d| - 1]);
      SpelledBit(d[..|d| - 1], k - 1);
    }
  }

  lemma SpelledSnoc(d: seq<bool>, i: nat)
    requires i < |d|
    ensures Spelled(d[..i + 1]) == 2 * Spelled(d[..i]) + BitValue(d[i])
  {
    assert d[..i + 1][..i] == d[..i];
  }

  lemma PackBitsSpells(d: seq<bool>)
    requires |d| == 8
    ensures PackBits(d) == Spelled(d)
  {
    SpelledHalf(d[..4]);
    SpelledHalf(d[4..]);
    assert d == d[..4] + d[4..];
    SpelledJoin(d[..4], d[4..]);
    assert Pow2(4) == 16;
    hide BitValue, Spelled, Pow2;
  }

  lemma SpelledHalf(d: seq<bool>)
    requires |d| == 4
    ensures Spelled(d) == 8 * BitValue(d[0]) + 4 * BitValue(d[1]) + 2 * BitValue(d[2]) + BitValue(d[3])
  {
    hide BitValue, Spelled;
    SpelledNone(d);
    SpelledSnoc(d, 0);
    SpelledSnoc(d, 1);
    SpelledSnoc(d, 2);
    SpelledSnoc(d, 3);
    assert d[..4] == d;
  }

  lemma {:induction false} SpelledJoin(a: seq<bool>, b: seq<bool>)
    ensures Spelled(a + b) == Behind(Spelled(a), Spelled(b), |b|)
    decreases |b|
  {
    if b == [] {
      assert a + b == a;
    } else {
      var init := b[..|b| - 1];
      assert (a + b)[..|a + b| - 1] == a + init;
      HalfBehind(Spelled(a), Spelled(b), |b|);
      assert Spelled(b) / 2 == Spelled(init) && Spelled(b) % 2 == BitValue(b[|b| - 1]);
      hide Behind;
      SpelledJoin(a, init);
    }
  }

  lemma SpelledNone(d: seq<bool>)
    ensures Spelled(d[..0]) == 0
  {
  }

  lemma BitsRoundTrip(d: seq<bool>)
    requires |d| == 8
    ensures UnpackBits(PackBits(d)) == d
  {
    hide PackBits, HasBit;
    forall k | 0 <= k < 8 ensures HasBit(PackBits(d), k) == d[7 - k] { PackedBit(d, k); }
  }

  lemma PackedBit(d: seq<bool>, k: nat)
    requires |d| == 8 && k < 8
    ensures HasBit(PackBits(d), k) == d[7 - k]
  {
    PackBitsSpells(d);
    SpelledBit(d, k);
    hide PackBits, Spelled, ShiftRight;
  }

  // --------------------------------------------------------------- packing

  function PackPort(port: int): (r: Option<Bytes>) {
    if 0 <= port < Pow256(2) then Some(ToBytes(port, 2)) else None
  }

  function PackHost(host: Host, ipOnly: bool): (r: Option<Bytes>) {
    match host
    case V4(ip) => if |ip| == 4 then Some([ADDRESS_TYPE_IPV4] + ip) else None
    case V6(ip) => if |ip| == 16 then Some([ADDRESS_TYPE_IPV6] + ip) else None
    case Domain(name) =>
      if ipOnly || |name| >= Pow256(2) then None
      else Some([ADDRESS_TYPE_DOMAIN_NAME] + ToBytes(|name|, 2) + name)
  }

  function Join(a: Option<Bytes>, b: Option<Bytes>): (r: Option<Bytes>) {
    if a.Some? && b.Some? then Some(a.value + b.value) else None
  }

  /** An integer prefix; a number that does not fit is a struct.error. */
  function Prefix(n: nat, width: nat): (r: Option<Bytes>) {
    if n < Pow256(width) then Some(ToBytes(n, width)) else None
  }

  /** The `pack` method of a format that holds no other formats. */
  function PackLeaf(f: Format, v: Value): (r: Option<Bytes>) {
    match (f, v)
    case (Struct(fs), Tuple(atoms)) => PackAtoms(fs, atoms)
    case (Bits, EightBits(d)) => if |d| == 8 then Some([PackBits(d)]) else None
    case (Raw, Data(b)) => Some(b)
    case (VarLen(w, base), Data(b)) => if base == 0 then None else Join(Prefix(|b| / base, w), Some(b))
    case (IPv4, Endpoint(V4(ip), port)) => if |ip| == 4 then Join(Some(ip), PackPort(port)) else None
    case (Address(ipOnly), Endpoint(host, port)) => Join(PackHost(host, ipOnly), PackPort(port))
    case _ => None
  }

  /** The `pack` method of one format. */
  function Pack(f: Format, v: Value): (r: Option<Bytes>)
    decreases f, 0, 0
  {
    match f
    case ListOf(e, w) => if v.List? then Join(Prefix(|v.items|, w), PackEach(e, v.items)) else None
    case Payload(fs) => if v.Object? then WithLength(PackAll(fs, v.items)) else None
    case _ => PackLeaf(f, v)
  }

  /** pack(">H", len(data)) + data. */
  function WithLength(body: Option<Bytes>): (r: Option<Bytes>) {
    if body.None? then None else Join(Prefix(|body.value|, 2), body)
  }

  /** A list hands each item to its packer as one argument; these packers want several. */
  predicate OneArgument(e: Format) {
    !e.Bits? && (e.Struct? ==> |e.fields| == 1)
  }

  function PackEach(e: Format, items: seq<Value>): (r: Option<Bytes>)
    decreases e, 1, |items|
  {
    if items == [] then Some([])
    else if !OneArgument(e) then None
    else Join(Pack(e, items[0]), PackEach(e, items[1..]))
  }

  /** pack_serializable: one value per format. */
  function PackAll(fs: seq<Format>, vs: seq<Value>): (r: Option<Bytes>)
    decreases fs, 1, 0
  {
    if |fs| != |vs| then None
    else if fs == [] then Some([])
    else Join(Pack(fs[0], vs[0]), PackAll(fs[1..], vs[1..]))
  }

  // ---------------------------------------------------------- on the wire

  /** What an address looks like on the wire: its type, the host with its length if it is a name, and the port. */
  lemma AddressOnWire(ipOnly: bool, host: Host, port: int)
    requires PackLeaf(Address(ipOnly), Endpoint(host, port)).Some?
    ensures var b := PackLeaf(Address(ipOnly), Endpoint(host, port)).value;
            var p := [port / 256, port % 256];
            match host
            case V4(ip) => |ip| == 4 && b == [0x01] + ip + p
            case V6(ip) => |ip| == 16 && b == [0x03] + ip + p
            case Domain(name) => !ipOnly && b == [0x02, |name| / 256, |name| % 256] + name + p
  {
    TwoBytes(port);
    if host.Domain? { TwoBytes(|host.name|); }
    hide ToBytes;
  }

  /** Anything behind a length of two bytes. */
  lemma LengthOnWire(n: nat, body: Option<Bytes>)
    ensures n < 0x1_0000 && body.Some? ==> Join(Prefix(n, 2), body) == Some([n / 256, n % 256] + body.value)
    ensures n >= 0x1_0000 || body.None? ==> Join(Prefix(n, 2), body) == None
  {
    assert Pow256(2) == 0x1_0000;
    if n < 0x1_0000 { TwoBytes(n); }
  }

  lemma DataOnWire(b: Bytes)
    requires |b| < 0x1_0000
    ensures Pack(VarLen(2, 1), Data(b)) == Some([|b| / 256, |b| % 256] + b)
  {
    LengthOnWire(|b|, Some(b));
    hide ToBytes;
  }

  lemma ListOnWire(e: Format, items: seq<Value>)
    requires |items| < 0x100 && PackEach(e, items).Some?
    ensures Pack(ListOf(e, 1), List(items)) == Some([|items|] + PackEach(e, items).value)
  {
    OneByte(|items|);
    hide ToBytes, PackEach, PackLeaf, Pow256;
  }

  lemma OneByte(n: nat)
    requires n < 0x100
    ensures Prefix(n, 1) == Some([n])
  {
    assert Pow256(1) == 0x100 && ToBytes(n, 1) == [n % 256];
  }

  lemma PayloadOnWire(fs: seq<Format>, items: seq<Value>)
    requires PackAll(fs, items).Some? && |PackAll(fs, items).value| < 0x1_0000
    ensures var body := PackAll(fs, items).value;
            Pack(Payload(fs), Object(items)) == Some([|body| / 256, |body| % 256] + body)
  {
    LengthOnWire(|PackAll(fs, items).value|, PackAll(fs, items));
    hide ToBytes, PackAll;
  }

  // ----------------------------------------------- what can be packed, and how long it gets

  /** An atom of the kind of its field and in its range. */
  ghost predicate FitsAtom(f: Field, a: Atom) {
    match f
    case Unsigned(w) => a.Int? && 0 <= a.i < Pow256(w)
    case Signed(w) => a.Int? && 2 * a.i < Pow256(w) && 2 * a.i + Pow256(w) >= 0
    case Flag => a.Bool?
    case Char => a.Blob? && |a.bytes| == 1
    case Fixed(_) => a.Blob?
  }

  ghost predicate FitsHost(host: Host, ipOnly: bool) {
    match host
    case V4(ip) => |ip| == 4
    case V6(ip) => |ip| == 16
    case Domain(name) => !ipOnly && |name| < 0x1_0000
  }

  /** A value that a format accepts: of the right kind, every number in its range and every length in its prefix. */
  ghost predicate Fits(f: Format, v: Value)
    decreases f
  {
    match f
    case Struct(fs) => v.Tuple? && |v.atoms| == |fs| && forall i :: 0 <= i < |fs| ==> FitsAtom(fs[i], v.atoms[i])
    case Bits => v.EightBits? && |v.bits| == 8
    case Raw => v.Data?
    case VarLen(w, base) => v.Data? && base > 0 && |v.bytes| / base < Pow256(w)
    case IPv4 => v.Endpoint? && v.host.V4? && |v.host.ip| == 4 && 0 <= v.port < 0x1_0000
    case Address(ipOnly) => v.Endpoint? && FitsHost(v.host, ipOnly) && 0 <= v.port < 0x1_0000
    case ListOf(e, w) =>
      v.List? && |v.items| < Pow256(w) && (v.items != [] ==> TakesOne(e)) && forall x :: x in v.items ==> Fits(e, x)
    case Payload(fs) =>
      && v.Object? && |v.items| == |fs| && (forall i :: 0 <= i < |fs| ==> Fits(fs[i], v.items[i]))
      && Size(f, v) < 2 + 0x1_0000
  }

  /** A list hands its packer one argument for each item. */
  ghost predicate TakesOne(e: Format) {
    e != Bits && forall fs :: e == Struct(fs) ==> |fs| == 1
  }

  function HostSize(host: Host): (n: nat) {
    match host
    case V4(_) => 4
    case V6(_) => 16
    case Domain(name) => 2 + |name|
  }

  /** How many bytes a value takes. */
  function Size(f: Format, v: Value): (n: nat)
    decreases f, 0, 0
  {
    match (f, v)
    case (Struct(fs), _) => StructSize(fs)
    case (Bits, _) => 1
    case (Raw, Data(b)) => |b|
    case (VarLen(w, _), Data(b)) => w + |b|
    case (IPv4, _) => 6
    case (Address(_), Endpoint(host, _)) => 1 + HostSize(host) + 2
    case (ListOf(e, w), List(items)) => w + SizeEach(e, items)
    case (Payload(fs), Object(items)) => 2 + SizeAll(fs, items)
    case _ => 0
  }

  function SizeEach(e: Format, items: seq<Value>): (n: nat)
    decreases e, 1, |items|
  {
    if items == [] then 0 else Size(e, items[0]) + SizeEach(e, items[1..])
  }

  function SizeAll(fs: seq<Format>, vs: seq<Value>): (n: nat)
    decreases fs, 1, 0
  {
    if fs == [] || vs == [] then 0 else Size(fs[0], vs[0]) + SizeAll(fs[1..], vs[1..])
  }

  lemma {:induction false} AtomsFit(fs: seq<Field>, atoms: seq<Atom>)
    ensures PackAtoms(fs, atoms).Some? <==>
            |fs| == |atoms| && forall i :: 0 <= i < |fs| ==> FitsAtom(fs[i], atoms[i])
    ensures PackAtoms(fs, atoms).Some? ==> |PackAtoms(fs, atoms).value| == StructSize(fs)
    decreases |fs|
  {
    if |fs| == |atoms| && fs != [] {
      AtomsFit(fs[1..], atoms[1..]);
      AtomFits(fs[0], atoms[0]);
      hide PackAtom, FitsAtom, FieldSize;
      assert fs == [fs[0]] + fs[1..] && atoms == [atoms[0]] + atoms[1..];
    }
  }

  lemma AtomFits(f: Field, a: Atom)
    ensures PackAtom(f, a).Some? <==> FitsAtom(f, a)
  {
  }

  lemma LeafFits(f: Format, v: Value)
    requires !f.ListOf? && !f.Payload?
    ensures PackLeaf(f, v).Some? <==> Fits(f, v)
    ensures PackLeaf(f, v).Some? ==> |PackLeaf(f, v).value| == Size(f, v)
  {
    assert Pow256(2) == 0x1_0000;
    if f.Struct? && v.Tuple? { AtomsFit(f.fields, v.atoms); }
    hide PackAtoms, FitsAtom, ToBytes, StructSize;
  }

  /** Packing fails for exactly the values that do not fit, and otherwise takes as many bytes as the value has. */
  lemma {:induction false} PackFits(f: Format, v: Value)
    ensures Pack(f, v).Some? <==> Fits(f, v)
    ensures Pack(f, v).Some? ==> |Pack(f, v).value| == Size(f, v)
    decreases f, 0, 0
  {
    match f
    case ListOf(e, w) => if v.List? { EachFits(e, v.items); }
    case Payload(fs) =>
      if v.Object? {
        AllFit(fs, v.items);
        assert Pow256(2) == 0x1_0000;
      }
    case _ => LeafFits(f, v);
  }

  lemma {:induction false} EachFits(e: Format, items: seq<Value>)
    ensures PackEach(e, items).Some? <==> (items != [] ==> TakesOne(e)) && forall x :: x in items ==> Fits(e, x)
    ensures PackEach(e, items).Some? ==> |PackEach(e, items).value| == SizeEach(e, items)
    decreases e, 1, |items|
  {
    if items != [] {
      PackFits(e, items[0]);
      EachFits(e, items[1..]);
      hide Pack, Fits, Size;
      assert items == [items[0]] + items[1..];
    }
  }

  lemma {:induction false} AllFit(fs: seq<Format>, vs: seq<Value>)
    ensures PackAll(fs, vs).Some? <==> |fs| == |vs| && forall i :: 0 <= i < |fs| ==> Fits(fs[i], vs[i])
    ensures PackAll(fs, vs).Some? ==> |PackAll(fs, vs).value| == SizeAll(fs, vs)
    decreases fs, 1, 0
  {
    if |fs| == |vs| && fs != [] {
      PackFits(fs[0], vs[0]);
      AllFit(fs[1..], vs[1..]);
      hide Pack, Fits, Size;
      assert fs == [fs[0]] + fs[1..] && vs == [vs[0]] + vs[1..];
    }
  }

  // ------------------------------------------------------------- unpacking

  /** unpack_from of one unsigned integer; None when the data is too short. */
  function ReadInt(data: Bytes, offset: nat, width: nat): (r: Option<nat>) {
    if offset + width <= |data| then Some(BigEndian(data[offset..offset + width])) else None
  }

  function ReadEndpoint(data: Bytes, offset: nat, length: nat, v6: bool): (r: Option<(Value, nat)>) {
    var port := ReadInt(data, offset + length, 2);
    if port.None? then None
    else
      var ip := data[offset..offset + length];
      Some((Endpoint(if v6 then V6(ip) else V4(ip), port.value), offset + length + 2))
  }

  function UnpackAddress(ipOnly: bool, data: Bytes, offset: nat): (r: Option<(Value, nat)>) {
    if offset >= |data| then None
    else if data[offset] == ADDRESS_TYPE_IPV4 then ReadEndpoint(data, offset + 1, 4, false)
    else if data[offset] == ADDRESS_TYPE_IPV6 then ReadEndpoint(data, offset + 1, 16, true)
    else if data[offset] == ADDRESS_TYPE_DOMAIN_NAME && !ipOnly then
      var length := ReadInt(data, offset + 1, 2);
      if length.None? then None
      else
        var port := ReadInt(data, offset + 3 + length.value, 2);
        if port.None? then None
        else Some((Endpoint(Domain(Slice(data, offset + 3, offset + 3 + length.value)), port.value),
                   offset + 5 + length.value))
    else None
  }

  /** The `unpack` method of a format that holds no other formats. */
  function UnpackLeaf(f: Format, data: Bytes, offset: nat): (r: Option<(Value, nat)>) {
    match f
    case Struct(fs) =>
      if offset + StructSize(fs) <= |data|
      then Some((Tuple(UnpackAtoms(fs, data[offset..])), offset + StructSize(fs))) else None
    case Bits => if offset < |data| then Some((EightBits(UnpackBits(data[offset])), offset + 1)) else None
    case Raw => Some((Data(Slice(data, offset, |data|)), |data|))
    case VarLen(w, base) =>
      var n := ReadInt(data, offset, w);
      if n.None? then None
      else
        var end := offset + w + n.value * base;
        Some((Data(Slice(data, offset + w, end)), end))
    case IPv4 => ReadEndpoint(data, offset, 4, false)
    case Address(ipOnly) => UnpackAddress(ipOnly, data, offset)
    case _ => None
  }

  /** The `unpack` method of one format: the value it appends and the offset it returns. */
  function Unpack(f: Format, data: Bytes, offset: nat): (r: Option<(Value, nat)>)
    decreases f, 0, 0
  {
    match f
    case ListOf(e, w) =>
      var n := ReadInt(data, offset, w);
      if n.None? then None
      else
        var items := UnpackEach(e, n.value, data, offset + w);
        if items.None? then None else Some((List(items.value.0), items.value.1))
    case Payload(fs) =>
      var n := ReadInt(data, offset, 2);
      if n.None? then None
      else
        var items := UnpackAll(fs, Slice(data, offset + 2, offset + 2 + n.value), 0);
        if items.None? then None else Some((Object(items.value.0), offset + 2 + n.value))
    case _ => UnpackLeaf(f, data, offset)
  }

  function UnpackEach(e: Format, count: nat, data: Bytes, offset: nat): (r: Option<(seq<Value>, nat)>)
    decreases e, 1, count
  {
    if count == 0 then Some(([], offset))
    else
      var first := Unpack(e, data, offset);
      if first.None? then None
      else
        var rest := UnpackEach(e, count - 1, data, first.value.1);
        if rest.None? then None else Some(([first.value.0] + rest.value.0, rest.value.1))
  }

  /** unpack_serializable: one value per format, and the offset behind the last. */
  function UnpackAll(fs: seq<Format>, data: Bytes, offset: nat): (r: Option<(seq<Value>, nat)>)
    decreases fs, 1, 0
  {
    if fs == [] then Some(([], offset))
    else
      var first := Unpack(fs[0], data, offset);
      if first.None? then None
      else
        var rest := UnpackAll(fs[1..], data, first.value.1);
        if rest.None? then None else Some(([first.value.0] + rest.value.0, rest.value.1))
  }

  /** An address of another type is refused, and so is a name where only IP addresses are allowed, and one cut short. */
  lemma AddressRead(ipOnly: bool, data: Bytes, offset: nat)
    ensures UnpackAddress(ipOnly, data, offset).Some? ==>
      var (address, end) := UnpackAddress(ipOnly, data, offset).value;
      && address.Endpoint? && offset < end <= |data|
      && match address.host
         case V4(ip) => data[offset] == 0x01 && |ip| == 4 && end == offset + 7
         case V6(ip) => data[offset] == 0x03 && |ip| == 16 && end == offset + 19
         case Domain(name) => !ipOnly && data[offset] == 0x02 && end == offset + 5 + |name|
    ensures offset >= |data| || data[offset] !in {0x01, 0x02, 0x03} || (ipOnly && data[offset] == 0x02) ==>
      UnpackAddress(ipOnly, data, offset) == None
  {
    hide BigEndian;
  }

  // ------------------------------------------------------------ round trips

  /** Nothing is cut, padded or rounded. */
  ghost predicate IntactLeaf(f: Format, v: Value) {
    match (f, v)
    case (Struct(fs), Tuple(atoms)) => AllExact(fs, atoms)
    case (VarLen(w, base), Data(b)) => base > 0 && |b| % base == 0
    case _ => true
  }

  ghost predicate Intact(f: Format, v: Value)
    decreases f, 0, 0
  {
    match f
    case ListOf(e, w) => v.List? ==> IntactEach(e, v.items)
    case Payload(fs) => v.Object? ==> IntactAll(fs, v.items)
    case _ => IntactLeaf(f, v)
  }

  ghost predicate IntactEach(e: Format, items: seq<Value>)
    decreases e, 1, |items|
  {
    items == [] || (Intact(e, items[0]) && IntactEach(e, items[1..]))
  }

  ghost predicate IntactAll(fs: seq<Format>, vs: seq<Value>)
    decreases fs, 1, 0
  {
    |fs| == |vs| && (fs == [] || (Intact(fs[0], vs[0]) && IntactAll(fs[1..], vs[1..])))
  }

  /** `raw` comes last at its level. */
  predicate RawLast(f: Format)
    decreases f, 0
  {
    match f
    case ListOf(e, w) => !e.Raw? && RawLast(e)
    case Payload(fs) => RawLastIn(fs)
    case _ => true
  }

  predicate RawLastIn(fs: seq<Format>)
    decreases fs, 1
  {
    fs == [] || (RawLast(fs[0]) && (fs[0].Raw? ==> |fs| == 1) && RawLastIn(fs[1..]))
  }

  /** What comes back: the value and the end when all is well, and otherwise an error or another value. */
  ghost predicate ComesBack<T>(r: Option<(T, nat)>, v: T, end: nat, well: bool) {
    if well then r == Some((v, end)) else r.Some? ==> r.value.0 != v
  }

  /** The bytes b stand in the data at the offset. */
  ghost predicate At(data: Bytes, offset: nat, b: Bytes) {
    offset + |b| <= |data| && data[offset..offset + |b|] == b
  }

  lemma AtJoin(data: Bytes, offset: nat, a: Bytes, b: Bytes)
    requires At(data, offset, a + b)
    ensures At(data, offset, a) && At(data, offset + |a|, b)
  {
    var s := data[offset..offset + |a + b|];
    assert data[offset..offset + |a|] == s[..|a|];
    assert data[offset + |a|..offset + |a| + |b|] == s[|a|..];
  }

  lemma AtSpan(data: Bytes, offset: nat, b: Bytes)
    requires At(data, offset, b)
    ensures offset + |b| <= |data|
  {
  }

  lemma ReadPrefix(data: Bytes, offset: nat, n: nat, width: nat)
    requires n < Pow256(width) && At(data, offset, ToBytes(n, width))
    ensures ReadInt(data, offset, width) == Some(n)
  {
    ToBytesValue(n, width);
  }

  lemma SliceAt(data: Bytes, offset: nat, b: Bytes)
    requires At(data, offset, b)
    ensures Slice(data, offset, offset + |b|) == b
  {
  }

  lemma StructRoundTrip(fs: seq<Field>, atoms: seq<Atom>, data: Bytes, offset: nat)
    requires PackAtoms(fs, atoms).Some? && At(data, offset, PackAtoms(fs, atoms).value)
    ensures ComesBack(UnpackLeaf(Struct(fs), data, offset), Tuple(atoms), offset + |PackAtoms(fs, atoms).value|,
                      AllExact(fs, atoms))
  {
    hide PackAtoms, UnpackAtoms, StructSize, AllExact;
    var b := PackAtoms(fs, atoms).value;
    var rest := data[offset + |b|..];
    assert data[offset..] == data[offset..offset + |b|] + rest;
    AtomsRoundTrip(fs, atoms, rest);
  }

  /** Data with a length prefix comes back if and only if its length is a multiple of the base. */
  lemma VarLenRoundTrip(w: nat, base: nat, b: Bytes, data: Bytes, offset: nat)
    requires base > 0 && |b| / base < Pow256(w) && At(data, offset, ToBytes(|b| / base, w) + b)
    ensures ComesBack(UnpackLeaf(VarLen(w, base), data, offset), Data(b), offset + w + |b|, |b| % base == 0)
  {
    var n, m := WholeBlocks(|b|, base);
    hide At, ToBytes, Pow256, UnpackLeaf;
    VarLenBack(w, base, n, m, b, data, offset);
  }

  /** A prefix n brings back m = n * base bytes. */
  lemma VarLenBack(w: nat, base: nat, n: nat, m: nat, b: Bytes, data: Bytes, offset: nat)
    requires m == n * base && m <= |b| && n < Pow256(w) && At(data, offset, ToBytes(n, w) + b)
    ensures ComesBack(UnpackLeaf(VarLen(w, base), data, offset), Data(b), offset + w + |b|, |b| == m)
  {
    hide At, Slice, ReadInt, Pow256, ToBytes, UnpackLeaf;
    PrefixedBody(n, w, b, data, offset);
    ReadVarLen(w, base, n, m, data, offset);
    SliceSize(data, offset + w, offset + w + m);
  }

  lemma ReadVarLen(w: nat, base: nat, n: nat, m: nat, data: Bytes, offset: nat)
    requires ReadInt(data, offset, w) == Some(n) && m == n * base
    ensures UnpackLeaf(VarLen(w, base), data, offset) ==
            Some((Data(Slice(data, offset + w, offset + w + m)), offset + w + m))
  {
    hide ReadInt, Slice;
  }

  lemma SliceSize(data: Bytes, from: nat, end: nat)
    requires from <= end
    ensures |Slice(data, from, end)| <= end - from
  {
  }

  lemma EndpointRoundTrip(ip: Bytes, port: int, data: Bytes, offset: nat, v6: bool)
    requires 0 <= port < Pow256(2) && At(data, offset, ip + ToBytes(port, 2))
    ensures ReadEndpoint(data, offset, |ip|, v6) ==
            Some((Endpoint(if v6 then V6(ip) else V4(ip), port), offset + |ip| + 2))
  {
    AtJoin(data, offset, ip, ToBytes(port, 2));
    ReadPrefix(data, offset + |ip|, port, 2);
  }

  lemma UnpackDomain(name: Bytes, port: nat, data: Bytes, offset: nat)
    requires offset < |data| && data[offset] == ADDRESS_TYPE_DOMAIN_NAME
    requires ReadInt(data, offset + 1, 2) == Some(|name|) && Slice(data, offset + 3, offset + 3 + |name|) == name
    requires ReadInt(data, offset + 3 + |name|, 2) == Some(port)
    ensures UnpackAddress(false, data, offset) == Some((Endpoint(Domain(name), port), offset + 5 + |name|))
  {
    hide ReadInt, Slice;
  }

  lemma DomainParts(tag: Byte, n: Bytes, name: Bytes, p: Bytes, data: Bytes, offset: nat)
    requires At(data, offset, [tag] + n + name + p)
    ensures offset < |data| && data[offset] == tag && At(data, offset + 1, n)
    ensures At(data, offset + 1 + |n|, name) && At(data, offset + 1 + |n| + |name|, p)
  {
    assert [tag] + n + name + p == [tag] + (n + (name + p));
    AtJoin(data, offset, [tag], n + (name + p));
    FirstByte(data, offset, tag);
    hide At;
    AtJoin(data, offset + 1, n, name + p);
    AtJoin(data, offset + 1 + |n|, name, p);
  }

  lemma DomainRoundTrip(name: Bytes, port: int, data: Bytes, offset: nat)
    requires |name| < Pow256(2) && 0 <= port < Pow256(2)
    requires At(data, offset, [ADDRESS_TYPE_DOMAIN_NAME] + ToBytes(|name|, 2) + name + ToBytes(port, 2))
    ensures UnpackAddress(false, data, offset) == Some((Endpoint(Domain(name), port), offset + 5 + |name|))
  {
    hide ReadInt, Slice, ToBytes, Pow256, BigEndian, UnpackAddress, At;
    DomainParts(ADDRESS_TYPE_DOMAIN_NAME, ToBytes(|name|, 2), name, ToBytes(port, 2), data, offset);
    ReadPrefix(data, offset + 1, |name|, 2);
    SliceAt(data, offset + 3, name);
    ReadPrefix(data, offset + 3 + |name|, port, 2);
    UnpackDomain(name, port, data, offset);
  }

  lemma FirstByte(data: Bytes, offset: nat, b: Byte)
    requires At(data, offset, [b])
    ensures offset < |data| && data[offset] == b
  {
    assert data[offset] == data[offset..offset + 1][0];
  }

  lemma IpRoundTrip(ipOnly: bool, ip: Bytes, v6: bool, port: int, data: Bytes, offset: nat)
    requires |ip| == (if v6 then 16 else 4) && 0 <= port < Pow256(2)
    requires At(data, offset, [if v6 then ADDRESS_TYPE_IPV6 else ADDRESS_TYPE_IPV4] + ip + ToBytes(port, 2))
    ensures UnpackAddress(ipOnly, data, offset) ==
            Some((Endpoint(if v6 then V6(ip) else V4(ip), port), offset + |ip| + 3))
  {
    var kind := if v6 then ADDRESS_TYPE_IPV6 else ADDRESS_TYPE_IPV4;
    var p := ToBytes(port, 2);
    assert [kind] + ip + p == [kind] + (ip + p);
    AtJoin(data, offset, [kind], ip + p);
    FirstByte(data, offset, kind);
    EndpointRoundTrip(ip, port, data, offset + 1, v6);
    hide ReadEndpoint;
    hide At;
    hide ToBytes;
    hide Pow256;
  }

  lemma AddressRoundTrip(ipOnly: bool, host: Host, port: int, data: Bytes, offset: nat)
    requires PackHost(host, ipOnly).Some? && PackPort(port).Some?
    requires At(data, offset, PackHost(host, ipOnly).value + PackPort(port).value)
    ensures UnpackAddress(ipOnly, data, offset) ==
            Some((Endpoint(host, port), offset + |PackHost(host, ipOnly).value| + 2))
  {
    hide At;
    hide UnpackAddress;
    hide ToBytes;
    hide Pow256;
    match host
    case V4(ip) => IpRoundTrip(ipOnly, ip, false, port, data, offset);
    case V6(ip) => IpRoundTrip(ipOnly, ip, true, port, data, offset);
    case Domain(name) => DomainRoundTrip(name, port, data, offset);
  }

  /** n blocks of `base` bytes are m bytes, all of them exactly when the length is a multiple of the base. */
  lemma WholeBlocks(length: nat, base: nat) returns (n: nat, m: nat)
    requires base > 0
    ensures n == length / base && m == n * base && m <= length && (length % base == 0 <==> length == m)
  {
    n := length / base;
    m := n * base;
    assert length == n * base + length % base;
  }

  lemma LeafRoundTrip(f: Format, v: Value, b: Bytes, data: Bytes, offset: nat)
    requires PackLeaf(f, v) == Some(b) && At(data, offset, b)
    requires f.Raw? ==> offset + |b| == |data|
    ensures ComesBack(UnpackLeaf(f, data, offset), v, offset + |b|, IntactLeaf(f, v))
  {
    hide ToBytes, Pow256, BigEndian, AllExact;
    match (f, v)
    case (Struct(fs), Tuple(atoms)) => StructRoundTrip(fs, atoms, data, offset);
    case (Bits, EightBits(d)) =>
      BitsRoundTrip(d);
      FirstByte(data, offset, PackBits(d));
    case (Raw, Data(bytes)) => SliceAt(data, offset, b);
    case (VarLen(w, base), Data(bytes)) => VarLenRoundTrip(w, base, bytes, data, offset);
    case (IPv4, Endpoint(V4(ip), port)) => EndpointRoundTrip(ip, port, data, offset, false);
    case (Address(ipOnly), Endpoint(host, port)) => AddressRoundTrip(ipOnly, host, port, data, offset);
  }

  lemma AtWhole(b: Bytes)
    ensures At(b, 0, b)
  {
  }

  /** A prefixed body is found behind its prefix. */
  lemma PrefixedBody(n: nat, width: nat, body: Bytes, data: Bytes, offset: nat)
    requires n < Pow256(width) && At(data, offset, ToBytes(n, width) + body)
    ensures ReadInt(data, offset, width) == Some(n) && At(data, offset + width, body)
    ensures Slice(data, offset + width, offset + width + |body|) == body
  {
    AtJoin(data, offset, ToBytes(n, width), body);
    ReadPrefix(data, offset, n, width);
    SliceAt(data, offset + width, body);
  }

  /**
   Whatever a format packs, nested to any depth, comes back wherever the bytes stand, with the offset right behind
   them, if and only if nothing was cut, padded or rounded.
   */
  lemma {:induction false} RoundTrip(f: Format, v: Value, b: Bytes, data: Bytes, offset: nat)
    requires Pack(f, v) == Some(b) && RawLast(f) && At(data, offset, b)
    requires f.Raw? ==> offset + |b| == |data|
    ensures ComesBack(Unpack(f, data, offset), v, offset + |b|, Intact(f, v))
    decreases f, 0, 0
  {
    hide At, PackLeaf, UnpackLeaf, IntactLeaf, ReadInt, Slice;
    match f
    case ListOf(e, w) =>
      var body := PackEach(e, v.items).value;
      PrefixedBody(|v.items|, w, body, data, offset);
      EachRoundTrip(e, v.items, body, data, offset + w);
    case Payload(fs) =>
      var body := PackAll(fs, v.items).value;
      PrefixedBody(|body|, 2, body, data, offset);
      AtWhole(body);
      AllRoundTrip(fs, v.items, body, body, 0);
    case _ => LeafRoundTrip(f, v, b, data, offset);
  }

  lemma {:induction false} EachRoundTrip(e: Format, items: seq<Value>, b: Bytes, data: Bytes, offset: nat)
    requires PackEach(e, items) == Some(b) && RawLast(e) && !e.Raw? && At(data, offset, b)
    ensures ComesBack(UnpackEach(e, |items|, data, offset), items, offset + |b|, IntactEach(e, items))
    decreases e, 1, |items|
  {
    hide At, Pack, Unpack, Intact, RawLast, OneArgument;
    if items != [] {
      var first, rest := Pack(e, items[0]).value, PackEach(e, items[1..]).value;
      AtJoin(data, offset, first, rest);
      RoundTrip(e, items[0], first, data, offset);
      EachRoundTrip(e, items[1..], rest, data, offset + |first|);
      NextComesBack(Unpack(e, data, offset), UnpackEach(e, |items|, data, offset), items);
    }
  }

  /** A list differs as soon as its first element does. */
  lemma NextComesBack(first: Option<(Value, nat)>, r: Option<(seq<Value>, nat)>, items: seq<Value>)
    requires items != [] && (r.Some? ==> first.Some? && r.value.0 != [] && r.value.0[0] == first.value.0)
    ensures first.None? || first.value.0 != items[0] ==> r.Some? ==> r.value.0 != items
    ensures items == [items[0]] + items[1..]
  {
  }

  predicate EndsRaw(fs: seq<Format>) {
    fs != [] && fs[|fs| - 1].Raw?
  }

  /** The round trip of a whole payload. Only a payload that ends with `raw` must be the end of the data. */
  lemma {:induction false} AllRoundTrip(fs: seq<Format>, vs: seq<Value>, b: Bytes, data: Bytes, offset: nat)
    requires PackAll(fs, vs) == Some(b) && RawLastIn(fs) && At(data, offset, b)
    requires EndsRaw(fs) ==> offset + |b| == |data|
    ensures ComesBack(UnpackAll(fs, data, offset), vs, offset + |b|, IntactAll(fs, vs))
    decreases fs, 1, 0
  {
    hide At, Pack, Unpack, Intact, RawLast;
    if fs != [] {
      var first, rest := Pack(fs[0], vs[0]).value, PackAll(fs[1..], vs[1..]).value;
      AtJoin(data, offset, first, rest);
      if fs[0].Raw? { assert fs[1..] == [] && rest == []; }
      RoundTrip(fs[0], vs[0], first, data, offset);
      AllRoundTrip(fs[1..], vs[1..], rest, data, offset + |first|);
      NextComesBack(Unpack(fs[0], data, offset), UnpackAll(fs, data, offset), vs);
    }
  }

  // -------------------------------------------------------- the serializer

  /** pack_serializable_list. */
  function PackMany(classes: seq<seq<Format>>, objects: seq<seq<Value>>): (r: Option<Bytes>) {
    if |classes| != |objects| then None
    else if classes == [] then Some([])
    else Join(PackAll(classes[0], objects[0]), PackMany(classes[1..], objects[1..]))
  }

  function UnpackMany(classes: seq<seq<Format>>, data: Bytes, offset: nat): (r: Option<(seq<seq<Value>>, nat)>) {
    if classes == [] then Some(([], offset))
    else
      var first := UnpackAll(classes[0], data, offset);
      if first.None? then None
      else
        var rest := UnpackMany(classes[1..], data, first.value.1);
        if rest.None? then None else Some(([first.value.0] + rest.value.0, rest.value.1))
  }

  /** Only the last payload may end with `raw`. */
  ghost predicate RawLastOf(classes: seq<seq<Format>>) {
    && (forall i :: 0 <= i < |classes| ==> RawLastIn(classes[i]))
    && (forall i :: 0 <= i < |classes| - 1 ==> !EndsRaw(classes[i]))
  }

  ghost predicate IntactMany(classes: seq<seq<Format>>, objects: seq<seq<Value>>) {
    |classes| == |objects| &&
    (classes == [] || (IntactAll(classes[0], objects[0]) && IntactMany(classes[1..], objects[1..])))
  }

  /** Payloads packed one behind the other come back with nothing left over, if and only if each of them is intact. */
  lemma {:induction false} ManyRoundTrip(classes: seq<seq<Format>>, objects: seq<seq<Value>>, b: Bytes, data: Bytes,
                                         offset: nat)
    requires PackMany(classes, objects) == Some(b) && RawLastOf(classes)
    requires At(data, offset, b) && offset + |b| == |data|
    ensures ComesBack(UnpackMany(classes, data, offset), objects, |data|, IntactMany(classes, objects))
    decreases |classes|
  {
    hide At, PackAll, UnpackAll, IntactAll, RawLastIn;
    if classes != [] {
      var first, rest := PackAll(classes[0], objects[0]).value, PackMany(classes[1..], objects[1..]).value;
      AtJoin(data, offset, first, rest);
      if |classes| == 1 { assert rest == []; }
      AllRoundTrip(classes[0], objects[0], first, data, offset);
      ManyRoundTrip(classes[1..], objects[1..], rest, data, offset + |first|);
      assert objects == [objects[0]] + objects[1..];
    }
  }

  lemma JoinAssociates(a: Option<Bytes>, b: Option<Bytes>, c: Option<Bytes>)
    ensures Join(a, Join(b, c)) == Join(Join(a, b), c)
  {
    if a.Some? && b.Some? && c.Some? {
      assert a.value + (b.value + c.value) == a.value + b.value + c.value;
    }
  }

  /** What is left to unpack, put behind what has been unpacked. */
  function Continued<T>(before: seq<T>, rest: Option<(seq<T>, nat)>): (r: Option<(seq<T>, nat)>) {
    if rest.None? then None else Some((before + rest.value.0, rest.value.1))
  }

  lemma JoinEmpty(a: Option<Bytes>)
    ensures Join(Some([]), a) == a && Join(a, Some([])) == a
  {
    if a.Some? { assert [] + a.value == a.value && a.value + [] == a.value; }
  }

  lemma ContinuedEmpty<T>(rest: Option<(seq<T>, nat)>)
    ensures Continued([], rest) == rest
  {
    if rest.Some? { assert [] + rest.value.0 == rest.value.0; }
  }

  method PackSerializable(fs: seq<Format>, vs: seq<Value>) returns (r: Option<Bytes>)
    requires |fs| == |vs|
    ensures r == PackAll(fs, vs)
  {
    var packed: Bytes := [];
    assert fs[0..] == fs && vs[0..] == vs && fs[|fs|..] == [] && vs[|fs|..] == [];
    JoinEmpty(PackAll(fs, vs));
    for i := 0 to |fs|
      invariant Join(Some(packed), PackAll(fs[i..], vs[i..])) == PackAll(fs, vs)
    {
      var item := Pack(fs[i], vs[i]);
      JoinAssociates(Some(packed), item, PackAll(fs[i + 1..], vs[i + 1..]));
      assert fs[i..][1..] == fs[i + 1..] && vs[i..][1..] == vs[i + 1..];
      if item.None? {
        return None;
      }
      packed := packed + item.value;
    }
    JoinEmpty(Some(packed));
    r := Some(packed);
  }

  method UnpackSerializable(fs: seq<Format>, data: Bytes, start: nat) returns (r: Option<(seq<Value>, nat)>)
    ensures r == UnpackAll(fs, data, start)
  {
    var unpackList: seq<Value>, offset := [], start;
    assert fs[0..] == fs && fs[|fs|..] == [];
    ContinuedEmpty(UnpackAll(fs, data, start));
    for i := 0 to |fs|
      invariant Continued(unpackList, UnpackAll(fs[i..], data, offset)) == UnpackAll(fs, data, start)
    {
      assert fs[i..][1..] == fs[i + 1..];
      var item := Unpack(fs[i], data, offset);
      if item.None? {
        return None;
      }
      ghost var rest := UnpackAll(fs[i + 1..], data, item.value.1);
      assert rest.Some? ==> unpackList + ([item.value.0] + rest.value.0) == unpackList + [item.value.0] + rest.value.0;
      unpackList, offset := unpackList + [item.value.0], item.value.1;
    }
    assert unpackList + [] == unpackList;
    r := Some((unpackList, offset));
  }

  /** unpack_serializable_list: the payloads and, unless everything must be consumed, the remainder. */
  method UnpackSerializableList(classes: seq<seq<Format>>, data: Bytes, start: nat, consumeAll: bool)
    returns (r: Option<(seq<seq<Value>>, Bytes)>)
    ensures r.Some? <==>
      UnpackMany(classes, data, start).Some? && (!consumeAll || UnpackMany(classes, data, start).value.1 >= |data|)
    ensures r.Some? ==>
      var (objects, end) := UnpackMany(classes, data, start).value;
      r.value == (objects, Slice(data, end, |data|))
  {
    var unpacked: seq<seq<Value>>, offset := [], start;
    assert classes[0..] == classes && classes[|classes|..] == [];
    ContinuedEmpty(UnpackMany(classes, data, start));
    for i := 0 to |classes|
      invariant Continued(unpacked, UnpackMany(classes[i..], data, offset)) == UnpackMany(classes, data, start)
    {
      assert classes[i..][1..] == classes[i + 1..];
      var item := UnpackSerializable(classes[i], data, offset);
      if item.None? {
        return None;
      }
      ghost var rest := UnpackMany(classes[i + 1..], data, item.value.1);
      assert rest.Some? ==> unpacked + ([item.value.0] + rest.value.0) == unpacked + [item.value.0] + rest.value.0;
      unpacked, offset := unpacked + [item.value.0], item.value.1;
    }
    assert unpacked + [] == unpacked;
    var remainder := Slice(data, offset, |data|);
    if consumeAll && remainder != [] {
      return None;
    }
    r := Some((unpacked, remainder));
  }
}
