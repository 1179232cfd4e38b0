/**
 Node ids as byte strings, as big-endian integers and as strings of '0' and '1',
 the XOR distance between ids, and how distance and shared prefixes relate.
 */
module BitStrings {
  import opened Collections

  type Byte = b: int | 0 <= b < 256

  type Bytes = seq<Byte>

  const ID_BYTES: nat := 20
  const ID_BITS: nat := 160

  /** A 160-bit node id, held as the 20 bytes the source passes around. */
  type NodeId = s: Bytes | |s| == ID_BYTES witness seq(ID_BYTES, i => 0)

  /** int(hexlify(b), 16): the unsigned big-endian value of a byte string. */
  function BigEndian(b: Bytes): (n: nat)
  {
    if b == [] then 0 else 256 * BigEndian(b[..|b| - 1]) + b[|b| - 1]
  }

  /** format(x, "0<width>b") for an x that fits: the binary digits, most significant first. */
  function ToBits(x: nat, width: nat): (s: string)
    ensures |s| == width && IsBits(s)
  {
    if width == 0 then "" else ToBits(x / 2, width - 1) + [if x % 2 == 0 then '0' else '1']
  }

  ghost predicate IsBits(s: string) {
    forall i :: 0 <= i < |s| ==> s[i] == '0' || s[i] == '1'
  }

  /** id_to_binary_string. */
  function IdToBinaryString(id: NodeId): (s: string)
    ensures |s| == ID_BITS && IsBits(s)
  {
    ToBits(BigEndian(id), ID_BITS)
  }

  /** The `^` operator on non-negative integers. */
  function IntXor(x: nat, y: nat): (r: nat)
    decreases x + y
  {
    if x == 0 && y == 0 then 0
    else 2 * IntXor(x / 2, y / 2) + (if x % 2 == y % 2 then 0 else 1)
  }

  /** distance(a, b): the integer XOR of two ids. */
  function Distance(a: NodeId, b: NodeId): (d: nat) {
    IntXor(BigEndian(a), BigEndian(b))
  }

  /** x >> k. */
  function ShiftRight(x: nat, k: nat): (r: nat) {
    if k == 0 then x else ShiftRight(x / 2, k - 1)
  }

  function Pow2(n: nat): (r: nat)
    ensures r >= 1
  {
    if n == 0 then 1 else 2 * Pow2(n - 1)
  }

  function Flip(c: char): (d: char) {
    if c == '0' then '1' else '0'
  }

  // ---------------------------------------------------------------- values

  lemma {:induction false} BigEndianBound(b: Bytes)
    ensures BigEndian(b) < Pow2(8 * |b|)
  {
    if b != [] {
      var n := |b| - 1;
      BigEndianBound(b[..n]);
      var p := Pow2(8 * n);
      assert Pow2(8 * n + 1) == 2 * p;
      assert Pow2(8 * n + 2) == 4 * p;
      assert Pow2(8 * n + 3) == 8 * p;
      assert Pow2(8 * n + 4) == 16 * p;
      assert Pow2(8 * n + 5) == 32 * p;
      assert Pow2(8 * n + 6) == 64 * p;
      assert Pow2(8 * n + 7) == 128 * p;
      assert Pow2(8 * n + 8) == 256 * p;
    }
  }

  lemma LastDigit(x: nat, p: Byte, y: nat, q: Byte)
    requires 256 * x + p == 256 * y + q
    ensures x == y && p == q
  {
  }

  lemma {:induction false} BigEndianInjective(a: Bytes, b: Bytes)
    requires |a| == |b|
    requires BigEndian(a) == BigEndian(b)
    ensures a == b
  {
    if a != [] {
      var n := |a| - 1;
      LastDigit(BigEndian(a[..n]), a[n], BigEndian(b[..n]), b[n]);
      BigEndianInjective(a[..n], b[..n]);
      assert a == a[..n] + [a[n]] && b == b[..n] + [b[n]];
    }
  }

  lemma {:induction false} ToBitsInjective(x: nat, y: nat, width: nat)
    requires x < Pow2(width) && y < Pow2(width)
    requires ToBits(x, width) == ToBits(y, width)
    ensures x == y
  {
    if width > 0 {
      var s, t := ToBits(x, width), ToBits(y, width);
      assert s[width - 1] == t[width - 1];
      assert s[..width - 1] == ToBits(x / 2, width - 1);
      assert t[..width - 1] == ToBits(y / 2, width - 1);
      ToBitsInjective(x / 2, y / 2, width - 1);
    }
  }

  /** Distinct ids have distinct binary strings. */
  lemma IdBitsInjective(a: NodeId, b: NodeId)
    requires IdToBinaryString(a) == IdToBinaryString(b)
    ensures a == b
  {
    BigEndianBound(a);
    BigEndianBound(b);
    ToBitsInjective(BigEndian(a), BigEndian(b), ID_BITS);
    BigEndianInjective(a, b);
  }

  // ------------------------------------------------------------------- XOR

  lemma {:induction false} XorZero(x: nat, y: nat)
    ensures IntXor(x, y) == 0 <==> x == y
    decreases x + y
  {
    if x != 0 || y != 0 {
      XorZero(x / 2, y / 2);
    }
  }

  lemma {:induction false} XorCancel(x: nat, y: nat, t: nat)
    requires IntXor(x, t) == IntXor(y, t)
    ensures x == y
    decreases x + y + t
  {
    if x != 0 || y != 0 || t != 0 {
      XorHalves(x, t);
      XorHalves(y, t);
      XorCancel(x / 2, y / 2, t / 2);
    }
  }

  /** Halving an XOR halves both operands; its lowest bit says whether theirs differ. */
  lemma XorHalves(x: nat, y: nat)
    ensures IntXor(x, y) / 2 == IntXor(x / 2, y / 2)
    ensures IntXor(x, y) % 2 == (if x % 2 == y % 2 then 0 else 1)
  {
  }

  lemma {:induction false} XorShift(x: nat, y: nat, k: nat)
    ensures ShiftRight(IntXor(x, y), k) == IntXor(ShiftRight(x, k), ShiftRight(y, k))
  {
    if k > 0 {
      XorHalves(x, y);
      XorShift(x / 2, y / 2, k - 1);
    }
  }

  lemma {:induction false} ShiftMonotone(x: nat, y: nat, k: nat)
    requires x <= y
    ensures ShiftRight(x, k) <= ShiftRight(y, k)
  {
    if k > 0 {
      ShiftMonotone(x / 2, y / 2, k - 1);
    }
  }

  lemma {:induction false} ShiftBound(x: nat, n: nat, k: nat)
    requires k <= n && x < Pow2(n)
    ensures ShiftRight(x, k) < Pow2(n - k)
  {
    if k > 0 {
      ShiftBound(x / 2, n - 1, k - 1);
    }
  }

  /** The first digits of a number are the digits of the number shifted right. */
  lemma {:induction false} ToBitsPrefix(x: nat, width: nat, i: nat)
    requires i <= width
    ensures ToBits(x, width)[..i] == ToBits(ShiftRight(x, width - i), i)
    decreases width - i
  {
    if i < width {
      ToBitsPrefix(x / 2, width - 1, i);
      assert ToBits(x, width)[..width - 1] == ToBits(x / 2, width - 1);
      assert ToBits(x, width)[..i] == ToBits(x, width)[..width - 1][..i];
    } else {
      assert ToBits(x, width)[..i] == ToBits(x, width);
    }
  }

  /** Two ids share their first i bits exactly when their distance has no bit above position 160 - i. */
  lemma SharedPrefixDistance(a: NodeId, b: NodeId, i: nat)
    requires i <= ID_BITS
    ensures IdToBinaryString(a)[..i] == IdToBinaryString(b)[..i]
       <==> ShiftRight(Distance(a, b), ID_BITS - i) == 0
  {
    var k := ID_BITS - i;
    var x, y := BigEndian(a), BigEndian(b);
    ToBitsPrefix(x, ID_BITS, i);
    ToBitsPrefix(y, ID_BITS, i);
    XorShift(x, y, k);
    XorZero(ShiftRight(x, k), ShiftRight(y, k));
    BigEndianBound(a);
    BigEndianBound(b);
    ShiftBound(x, ID_BITS, k);
    ShiftBound(y, ID_BITS, k);
    if IdToBinaryString(a)[..i] == IdToBinaryString(b)[..i] {
      ToBitsInjective(ShiftRight(x, k), ShiftRight(y, k), i);
    }
  }

  /** An id that shares i bits with the target is strictly nearer than one that does not. */
  lemma SharedPrefixIsNearer(near: NodeId, far: NodeId, target: NodeId, i: nat)
    requires i <= ID_BITS
    requires IdToBinaryString(near)[..i] == IdToBinaryString(target)[..i]
    requires IdToBinaryString(far)[..i] != IdToBinaryString(target)[..i]
    ensures Distance(near, target) < Distance(far, target)
  {
    SharedPrefixDistance(near, target, i);
    SharedPrefixDistance(far, target, i);
    if Distance(far, target) <= Distance(near, target) {
      ShiftMonotone(Distance(far, target), Distance(near, target), ID_BITS - i);
    }
  }

  /** Seen from one target, no two ids are equally far. */
  lemma DistanceInjective(a: NodeId, b: NodeId, target: NodeId)
    requires Distance(a, target) == Distance(b, target)
    ensures a == b
  {
    XorCancel(BigEndian(a), BigEndian(b), BigEndian(target));
    BigEndianInjective(a, b);
  }

  // ------------------------------------------------------------ byte order

  lemma {:induction false} ShiftJoin(x: nat, j: nat, k: nat)
    ensures ShiftRight(x, j + k) == ShiftRight(ShiftRight(x, j), k)
  {
    if j > 0 {
      ShiftJoin(x / 2, j - 1, k);
    }
  }

  /** The number whose last `width` bits are p, and whose other bits are x. */
  function Behind(x: nat, p: nat, width: nat): (n: nat) {
    Pow2(width) * x + p
  }

  lemma HalfBehind(x: nat, p: nat, width: nat)
    requires width > 0
    ensures Behind(x, p, width) == 2 * Behind(x, p / 2, width - 1) + p % 2
  {
    assert Pow2(width) * x == 2 * (Pow2(width - 1) * x);
  }

  lemma LastByte(b: Bytes)
    requires b != []
    ensures BigEndian(b) == Behind(BigEndian(b[..|b| - 1]), b[|b| - 1], 8)
    ensures b[|b| - 1] < Pow2(8)
  {
    assert Pow2(8) == 256;
  }

  lemma HalvesOf(x: nat, p: nat, width: nat)
    requires width > 0
    ensures Behind(x, p, width) / 2 == Behind(x, p / 2, width - 1) && Behind(x, p, width) % 2 == p % 2
  {
    HalfBehind(x, p, width);
    hide Behind, Pow2;
  }

  /** The last `width` bits of such a number are those of p. */
  lemma {:induction false} LowBits(x: nat, p: nat, width: nat, k: nat)
    requires k < width
    ensures ShiftRight(Behind(x, p, width), k) % 2 == ShiftRight(p, k) % 2
  {
    HalvesOf(x, p, width);
    hide Behind, Pow2;
    if k > 0 {
      LowBits(x, p / 2, width - 1, k - 1);
    }
  }

  lemma {:induction false} HighBits(x: nat, p: nat, width: nat)
    requires p < Pow2(width)
    ensures ShiftRight(Behind(x, p, width), width) == x
  {
    if width > 0 {
      HalvesOf(x, p, width);
      HighBits(x, p / 2, width - 1);
      hide Behind, Pow2;
    }
  }

  lemma {:induction false} ToBitsAt(x: nat, width: nat, k: nat)
    requires k < width
    ensures ToBits(x, width)[k] == '1' <==> ShiftRight(x, width - 1 - k) % 2 == 1
  {
    if k < width - 1 {
      ToBitsAt(x / 2, width - 1, k);
    }
  }

  lemma {:induction false} BigEndianBit(b: Bytes, i: nat, j: nat)
    requires i < |b| && j < 8
    ensures ShiftRight(BigEndian(b), 8 * (|b| - 1 - i) + 7 - j) % 2 == ShiftRight(b[i], 7 - j) % 2
  {
    var n := |b| - 1;
    LastByte(b);
    LowBits(BigEndian(b[..n]), b[n], 8, 7 - j);
    HighBits(BigEndian(b[..n]), b[n], 8);
    hide Behind, Pow2, BigEndian, ShiftRight;
    if i < n {
      ShiftJoin(BigEndian(b), 8, 8 * (n - 1 - i) + 7 - j);
      BigEndianBit(b[..n], i, j);
    }
  }

  /** The first byte of an id is the most significant, and so is the first bit of a byte. */
  lemma IdBit(id: NodeId, i: nat, j: nat)
    requires i < ID_BYTES && j < 8
    ensures IdToBinaryString(id)[8 * i + j] == '1' <==> ShiftRight(id[i], 7 - j) % 2 == 1
  {
    ToBitsAt(BigEndian(id), ID_BITS, 8 * i + j);
    BigEndianBit(id, i, j);
  }

  /** The order of byte strings of one length: the first byte that differs decides. */
  ghost predicate BytesLess(a: Bytes, b: Bytes) {
    exists i :: 0 <= i < |a| && DiffersAt(a, b, i) && a[i] < b[i]
  }

  ghost predicate DiffersAt(a: Bytes, b: Bytes, i: nat) {
    i < |a| && i < |b| && a[..i] == b[..i] && a[i] != b[i]
  }

  lemma {:induction false} FirstDifference(a: Bytes, b: Bytes) returns (i: nat)
    requires |a| == |b| && a != b
    ensures DiffersAt(a, b, i)
  {
    i := 0;
    while i < |a| && a[i] == b[i]
      invariant i <= |a| && a[..i] == b[..i]
    {
      i := i + 1;
    }
    assert a[..|a|] == a && b[..|b|] == b;
  }

  lemma DiffersOnce(a: Bytes, b: Bytes, i: nat, j: nat)
    requires DiffersAt(a, b, i) && DiffersAt(a, b, j)
    ensures i == j
  {
    assert forall m :: 0 <= m < i ==> a[m] == a[..i][m] == b[..i][m] == b[m];
    assert forall m :: 0 <= m < j ==> a[m] == a[..j][m] == b[..j][m] == b[m];
  }

  lemma {:induction false} BigEndianRises(a: Bytes, b: Bytes, i: nat)
    requires |a| == |b| && DiffersAt(a, b, i) && a[i] < b[i]
    ensures BigEndian(a) < BigEndian(b)
    decreases |a|
  {
    var n := |a| - 1;
    if i < n {
      assert a[..n][..i] == a[..i] && b[..n][..i] == b[..i];
      BigEndianRises(a[..n], b[..n], i);
    }
  }

  /** Numbers of one width order as their bytes do. */
  lemma BigEndianOrder(a: Bytes, b: Bytes)
    requires |a| == |b|
    ensures BigEndian(a) < BigEndian(b) <==> BytesLess(a, b)
  {
    if a != b {
      var i := FirstDifference(a, b);
      if a[i] < b[i] {
        BigEndianRises(a, b, i);
      } else {
        BigEndianRises(b, a, i);
        forall j | 0 <= j < |a| && DiffersAt(a, b, j) ensures j == i { DiffersOnce(a, b, i, j); }
      }
    }
  }

  lemma {:induction false} XorBound(x: nat, y: nat, width: nat)
    requires x < Pow2(width) && y < Pow2(width)
    ensures IntXor(x, y) < Pow2(width)
  {
    if width > 0 {
      XorHalves(x, y);
      XorBound(x / 2, y / 2, width - 1);
    } else {
      assert IntXor(0, 0) == 0;
    }
  }

  lemma XorDouble(m: nat, n: nat, a: nat, b: nat)
    requires a <= 1 && b <= 1
    ensures IntXor(2 * m + a, 2 * n + b) == 2 * IntXor(m, n) + (if a == b then 0 else 1)
  {
    hide IntXor;
    XorHalves(2 * m + a, 2 * n + b);
    assert (2 * m + a) / 2 == m && (2 * n + b) / 2 == n && (2 * m + a) % 2 == a && (2 * n + b) % 2 == b;
  }

  /** XOR works on the two parts of a number on their own. */
  lemma {:induction false} XorBehind(x: nat, y: nat, p: nat, q: nat, width: nat)
    requires p < Pow2(width) && q < Pow2(width)
    ensures IntXor(Behind(x, p, width), Behind(y, q, width)) == Behind(IntXor(x, y), IntXor(p, q), width)
  {
    if width > 0 {
      assert p / 2 < Pow2(width - 1) && q / 2 < Pow2(width - 1);
      XorBehindHalf(x, y, p, q, width);
      hide Behind, IntXor, Pow2;
      XorBehind(x, y, p / 2, q / 2, width - 1);
    } else {
      assert IntXor(0, 0) == 0;
    }
  }

  lemma XorBehindHalf(x: nat, y: nat, p: nat, q: nat, width: nat)
    requires width > 0
    ensures var bit := if p % 2 == q % 2 then 0 else 1;
            var half := IntXor(Behind(x, p / 2, width - 1), Behind(y, q / 2, width - 1));
            && IntXor(Behind(x, p, width), Behind(y, q, width)) == 2 * half + bit
            && Behind(IntXor(x, y), IntXor(p, q), width) ==
               2 * Behind(IntXor(x, y), IntXor(p / 2, q / 2), width - 1) + bit
  {
    hide Behind, IntXor, Pow2;
    HalfBehind(x, p, width);
    HalfBehind(y, q, width);
    XorDouble(Behind(x, p / 2, width - 1), Behind(y, q / 2, width - 1), p % 2, q % 2);
    XorHalves(p, q);
    HalfBehind(IntXor(x, y), IntXor(p, q), width);
  }

  function XorByte(x: Byte, y: Byte): (r: Byte) {
    assert Pow2(8) == 256;
    XorBound(x, y, 8);
    IntXor(x, y)
  }

  /** The bytes of a and b, XORed place by place. */
  function XorBytes(a: Bytes, b: Bytes): (r: Bytes)
    requires |a| == |b|
  {
    seq(|a|, i requires 0 <= i < |a| => XorByte(a[i], b[i]))
  }

  lemma {:induction false} XorOfBytes(a: Bytes, b: Bytes)
    requires |a| == |b|
    ensures IntXor(BigEndian(a), BigEndian(b)) == BigEndian(XorBytes(a, b))
  {
    if a != [] {
      var n := |a| - 1;
      var r := XorBytes(a, b);
      LastByte(a);
      LastByte(b);
      LastByte(r);
      assert r[..n] == XorBytes(a[..n], b[..n]) && r[n] == IntXor(a[n], b[n]);
      hide Behind, IntXor, Pow2, BigEndian, XorBytes;
      XorOfBytes(a[..n], b[..n]);
      XorBehind(BigEndian(a[..n]), BigEndian(b[..n]), a[n], b[n], 8);
    } else {
      assert IntXor(0, 0) == 0;
    }
  }

  /** Of two ids the nearer one is decided by the first byte in which they differ. */
  lemma DistanceOrder(a: NodeId, b: NodeId, target: NodeId)
    ensures Distance(a, target) < Distance(b, target)
       <==> exists i :: 0 <= i < ID_BYTES && DiffersAt(a, b, i) && IntXor(a[i], target[i]) < IntXor(b[i], target[i])
  {
    var x, y := XorBytes(a, target), XorBytes(b, target);
    XorOfBytes(a, target);
    XorOfBytes(b, target);
    BigEndianOrder(x, y);
    hide IntXor, BigEndian;
    forall i | 0 <= i < ID_BYTES ensures DiffersAt(x, y, i) <==> DiffersAt(a, b, i) { XorDiffers(a, b, target, i); }
    assert forall i :: 0 <= i < ID_BYTES ==> x[i] == IntXor(a[i], target[i]) && y[i] == IntXor(b[i], target[i]);
  }

  lemma XorDiffers(a: NodeId, b: NodeId, target: NodeId, i: nat)
    requires i < ID_BYTES
    ensures DiffersAt(XorBytes(a, target), XorBytes(b, target), i) <==> DiffersAt(a, b, i)
  {
    var x, y := XorBytes(a, target), XorBytes(b, target);
    forall j | 0 <= j <= i ensures x[j] == y[j] <==> a[j] == b[j] {
      if x[j] == y[j] { XorCancel(a[j], b[j], target[j]); }
    }
    assert x[..i] == y[..i] <==> forall j :: 0 <= j < i ==> x[j] == y[j];
    assert a[..i] == b[..i] <==> forall j :: 0 <= j < i ==> a[j] == b[j];
  }

  // ------------------------------------------------------------ pigeonhole

  /** There are at most 2^n bit strings of length n. */
  lemma {:induction false} BitStringCount(s: set<string>, n: nat)
    requires forall b :: b in s ==> |b| == n && IsBits(b)
    ensures |s| <= Pow2(n)
    decreases n
  {
    if n == 0 {
      assert forall b :: b in s ==> b == "";
      assert s <= {""};
      SubsetSize(s, {""});
    } else {
      var zeros := set b | b in s && b[0] == '0';
      var ones := set b | b in s && b[0] == '1';
      TailsCount(zeros, n, '0');
      TailsCount(ones, n, '1');
      assert s == zeros + ones;
    }
  }

  /** Bit strings with a common first bit are as many as their tails. */
  lemma {:induction false} TailsCount(s: set<string>, n: nat, c: char)
    requires n > 0
    requires forall b :: b in s ==> |b| == n && IsBits(b) && b[0] == c
    ensures |s| <= Pow2(n - 1)
    decreases n, 0
  {
    var tails := set b | b in s :: b[1..];
    SameSizeTails(s, tails, c);
    BitStringCount(tails, n - 1);
  }

  lemma {:induction false} SameSizeTails(s: set<string>, tails: set<string>, c: char)
    requires forall b :: b in s ==> |b| > 0 && b[0] == c
    requires tails == set b | b in s :: b[1..]
    ensures |s| == |tails|
    decreases s
  {
    if s != {} {
      var b :| b in s;
      var rest := s - {b};
      var restTails := set d | d in rest :: d[1..];
      forall d | d in rest ensures d[1..] != b[1..] {
        assert d == [c] + d[1..] && b == [c] + b[1..];
      }
      assert tails == restTails + {b[1..]};
      SameSizeTails(rest, restTails, c);
    }
  }
}
