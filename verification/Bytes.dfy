/** Byte strings, network byte order, exclusive or and circular index arithmetic. */
module Bytes {
  type byte = x: int | 0 <= x < 256

  type Bytes = seq<byte>

  datatype Option<+T> = None | Some(value: T)

  function Min(x: int, y: int): int {
    if x < y then x else y
  }

  function Max(x: int, y: int): int {
    if x > y then x else y
  }

  function Zeros(n: nat): (z: Bytes)
    ensures |z| == n
    ensures forall i :: 0 <= i < n ==> z[i] == 0
  {
    seq(n, _ => 0)
  }

  /** 256 to the power of `n`. */
  function Pow256(n: nat): (p: nat)
    ensures p > 0
  {
    if n == 0 then 1 else 256 * Pow256(n - 1)
  }

  /** The low `n` bytes of `x`, most significant first (`htons`, `htonl`, `htonll`). */
  function BigEndian(x: nat, n: nat): (b: Bytes)
    ensures |b| == n
  {
    if n == 0 then [] else BigEndian(x / 256, n - 1) + [x % 256]
  }

  /** The number a byte string denotes, most significant byte first. */
  function FromBigEndian(b: Bytes): nat {
    if b == [] then 0 else 256 * FromBigEndian(b[..|b| - 1]) + b[|b| - 1]
  }

  /** Reading in network order undoes writing in network order. */
  lemma {:induction false} BigEndianRoundTrip(x: nat, n: nat)
    requires x < Pow256(n)
    ensures FromBigEndian(BigEndian(x, n)) == x
  {
    if n != 0 {
      BigEndianRoundTrip(x / 256, n - 1);
      LastByte(BigEndian(x / 256, n - 1), x % 256);
    }
  }

  lemma LastByte(front: Bytes, last: byte)
    ensures FromBigEndian(front + [last]) == 256 * FromBigEndian(front) + last
  {
    assert (front + [last])[..|front|] == front;
  }

  /** Writing in network order undoes reading in network order. */
  lemma {:induction false} FromBigEndianRoundTrip(b: Bytes)
    ensures FromBigEndian(b) < Pow256(|b|)
    ensures BigEndian(FromBigEndian(b), |b|) == b
  {
    if b != [] {
      FromBigEndianRoundTrip(b[..|b| - 1]);
      assert b == b[..|b| - 1] + [b[|b| - 1]];
    }
  }

  /** The first byte is the most significant. */
  lemma {:induction false} FirstByte(first: byte, rest: Bytes)
    ensures FromBigEndian([first] + rest) == first * Pow256(|rest|) + FromBigEndian(rest)
    decreases |rest|
  {
    if rest == [] {
      assert [first] + rest == [first] && [first][..0] == [];
    } else {
      var init, last := rest[..|rest| - 1], rest[|rest| - 1];
      FirstByte(first, init);
      LastByte([first] + init, last);
      assert [first] + init + [last] == [first] + rest;
    }
  }

  /** Exclusive or of the low `n` bits, bit by bit. */
  function XorBits(a: nat, b: nat, n: nat): (r: nat)
    decreases n
  {
    if n == 0 then 0
    else 2 * XorBits(a / 2, b / 2, n - 1) + (a % 2 + b % 2) % 2
  }

  function Pow2(n: nat): (p: nat)
    ensures p > 0
  {
    if n == 0 then 1 else 2 * Pow2(n - 1)
  }

  lemma {:induction false} XorBitsBound(a: nat, b: nat, n: nat)
    ensures XorBits(a, b, n) < Pow2(n)
  {
    if n != 0 {
      XorBitsBound(a / 2, b / 2, n - 1);
    }
  }

  lemma HalfAndParity(high: nat, low: nat)
    requires low < 2
    ensures (2 * high + low) / 2 == high && (2 * high + low) % 2 == low
  {
  }

  lemma {:induction false} XorBitsCancel(a: nat, b: nat, n: nat)
    requires a < Pow2(n)
    ensures XorBits(XorBits(a, b, n), b, n) == a
  {
    if n != 0 {
      XorBitsCancel(a / 2, b / 2, n - 1);
      var high, low := XorBits(a / 2, b / 2, n - 1), (a % 2 + b % 2) % 2;
      HalfAndParity(high, low);
      assert (low + b % 2) % 2 == a % 2;
    }
  }

  function Xor(a: byte, b: byte): byte {
    XorBitsBound(a, b, 8);
    assert Pow2(8) == 256;
    XorBits(a, b, 8)
  }

  lemma XorCancel(a: byte, b: byte)
    ensures Xor(Xor(a, b), b) == a
  {
    assert Pow2(8) == 256;
    XorBitsCancel(a, b, 8);
  }

  function XorAll(a: Bytes, b: Bytes): (r: Bytes)
    requires |a| <= |b|
    ensures |r| == |a|
  {
    seq(|a|, i requires 0 <= i < |a| => Xor(a[i], b[i]))
  }

  /** Masking with the same pad keeps different strings different. */
  lemma XorAllInjective(a: Bytes, b: Bytes, pad: Bytes)
    requires |a| == |b| <= |pad|
    requires XorAll(a, pad) == XorAll(b, pad)
    ensures a == b
  {
    forall i | 0 <= i < |a|
      ensures a[i] == b[i]
    {
      assert XorAll(a, pad)[i] == XorAll(b, pad)[i];
      XorCancel(a[i], pad[i]);
      XorCancel(b[i], pad[i]);
    }
  }
}

/** Circular index arithmetic. */
module Modulo {
  function Abs(x: int): nat {
    if x < 0 then -x else x
  }

  /** Sum on a circle: the only index in range that differs from `x + y` by whole turns. */
  function Add(x: int, y: int, circumference: int): (sum: int)
    requires 0 <= x < circumference && -circumference <= y <= circumference
    ensures 0 <= sum < circumference
    ensures sum == x + y || sum == x + y - circumference || sum == x + y + circumference
  {
    var s := x + y;
    var t := if s >= circumference then s - circumference else s;
    if t < 0 then t + circumference else t
  }

  /** Difference on a circle by the shortest path. */
  function Subtract(x: int, y: int, circumference: int): (d: int)
    requires 0 <= x < circumference && 0 <= y < circumference
    ensures d == x - y || d == x - y - circumference || d == x - y + circumference
    ensures 2 * Abs(d) <= circumference
  {
    var d1 := x - y;
    var d2 := (if x > y then -circumference else circumference) + d1;
    if Abs(d1) > Abs(d2) then d2 else d1
  }
}
