/** Internet checksums: the incremental update of proto.h and the computation of proto.c. */
module Checksum {
  import opened Bytes

  type Word = x: int | 0 <= x < 0x1_0000

  /** Equal in one's complement arithmetic on 16 bits. */
  predicate Congruent(x: int, y: int) {
    (x - y) % 0xffff == 0
  }

  /** The carries of a sum added back in, twice, and cut to 16 bits. */
  function Folded(x: nat): Word {
    var y := x / 0x1_0000 + x % 0x1_0000;
    (y + y / 0x1_0000) % 0x1_0000
  }

  lemma FoldedIsCongruent(x: nat)
    requires x < 0x8000_0000
    ensures Congruent(Folded(x), x)
  {
    var q := x / 0x1_0000;
    var y := q + x % 0x1_0000;
    assert x == y + 0xffff * q;
    assert y < 0x2_0000;
    var c := y / 0x1_0000;
    assert c == 0 || c == 1;
    assert Folded(x) == y - 0xffff * c;
    Multiples(Folded(x), x, -(c + q));
  }

  lemma Multiples(x: int, y: int, k: int)
    requires x == y + 0xffff * k
    ensures Congruent(x, y)
  {
    assert (0xffff * k) % 0xffff == 0;
  }

  lemma CongruentSum(x: int, y: int, d: int, e: int)
    requires Congruent(x, y) && Congruent(d, e)
    ensures Congruent(x + d, y + e) && Congruent(x - d, y - e)
  {
    var j, k := (x - y) / 0xffff, (d - e) / 0xffff;
    Multiples(x + d, y + e, j + k);
    Multiples(x - d, y - e, j - k);
  }

  lemma Complement(f: int, x: int)
    requires Congruent(f, -x)
    ensures Congruent(0xffff - f, x)
  {
    var k := (f + x) / 0xffff;
    assert f + x == 0xffff * k;
    Multiples(0xffff - f, x, 1 - k);
  }

  /** The update macro: the accumulated change goes into a checksum field. */
  method AdjustChecksum(acc: int, cksum: Word) returns (r: Word)
    requires -0x7fff_0000 <= acc <= 0x7fff_0000
    ensures Congruent(r, cksum + acc)
  {
    var x := acc + cksum;
    if x < 0 {
      var f := Folded(-x);
      FoldedIsCongruent(-x);
      r := 0xffff - f;
      Complement(f, x);
    } else {
      FoldedIsCongruent(x);
      r := Folded(x);
    }
  }

  lemma Unchanged(x: int, now: int, before: int)
    requires now == before
    ensures Congruent(x + now, x + before)
  {
  }

  /** The update macro keeps a field and the words it covers in balance. */
  method Rebalance(accumulate: int, cksum: Word, ghost now: nat, ghost before: nat) returns (r: Word)
    requires accumulate == before - now && -0x4_0000 < accumulate < 0x4_0000
    ensures Congruent(r + now, cksum + before)
  {
    r := AdjustChecksum(accumulate, cksum);
    assert r + now - (cksum + before) == r - (cksum + accumulate);
  }

  /** A translated packet goes out with a correct checksum if it came with one. */
  lemma ChecksumStaysCorrect(rest: int, check: Word, sum: nat, check': Word, sum': nat)
    requires Congruent(check' + sum', check + sum) && Congruent(rest + check + sum, 0)
    ensures Congruent(rest + check' + sum', 0)
  {
    CongruentSum(check' + sum', check + sum, rest, rest);
    CongruentTransitive(rest + check' + sum', rest + check + sum, 0);
  }

  lemma CongruentTransitive(x: int, y: int, z: int)
    requires Congruent(x, y) && Congruent(y, z)
    ensures Congruent(x, z)
  {
    CongruentSum(x, y, y, z);
    CongruentCancel(x, y, z);
  }

  lemma CongruentCancel(x: int, y: int, z: int)
    requires Congruent(x + y, y + z)
    ensures Congruent(x, z)
  {
    assert x + y - (y + z) == x - z;
  }

  // ---- The whole checksum ---------------------------------------------------------------------------

  /** The sum of the 16-bit words of a byte string, an odd byte at the end counted as a high one. */
  function WordSum(b: Bytes): nat {
    if b == [] then 0
    else if |b| == 1 then b[0] * 256
    else b[0] * 256 + b[1] + WordSum(b[2..])
  }

  lemma {:induction false} WordSumConcat(a: Bytes, b: Bytes)
    requires |a| % 2 == 0
    ensures WordSum(a + b) == WordSum(a) + WordSum(b)
  {
    if a == [] {
      assert a + b == b;
    } else {
      WordSumConcat(a[2..], b);
      assert (a + b)[2..] == a[2..] + b;
    }
  }

  lemma {:induction false} WordSumBound(b: Bytes)
    ensures 2 * WordSum(b) <= (|b| + 1) * 0xffff
  {
    if |b| >= 2 {
      WordSumBound(b[2..]);
    }
  }

  /** The loop over the words. */
  method AddWords(b: Bytes) returns (sum: nat)
    ensures sum == WordSum(b)
  {
    sum := 0;
    var i := 0;
    assert b[0..] == b;
    while i < |b|
      invariant 0 <= i <= |b| + 1
      invariant i <= |b| ==> sum + WordSum(b[i..]) == WordSum(b)
      invariant i > |b| ==> sum == WordSum(b)
    {
      var low: nat := if i + 1 < |b| then b[i + 1] else 0;
      if i + 1 < |b| {
        assert b[i..][2..] == b[i + 2..];
      }
      sum := sum + (b[i] * 256 + low);
      i := i + 2;
    }
    if i == |b| {
      assert b[i..] == [];
    }
  }

  /** The loop that adds the carries back in. */
  method FoldCarries(sum: nat) returns (w: Word)
    ensures Congruent(w, sum) && (sum > 0 ==> w > 0)
  {
    var x: nat := sum;
    Multiples(x, sum, 0);
    while x / 0x1_0000 > 0
      invariant Congruent(x, sum) && (sum > 0 ==> x > 0)
      decreases x
    {
      var q: int := x / 0x1_0000;
      Multiples(x % 0x1_0000 + q, x, -q);
      CongruentTransitive(x % 0x1_0000 + q, x, sum);
      x := x % 0x1_0000 + q;
    }
    w := x;
  }

  /** What the pseudo header of the transport checksum adds. */
  function Pseudo(src: Bytes, dest: Bytes, length: nat, proto: nat): nat {
    WordSum(src) + WordSum(dest) + length % 0x1_0000 + proto % 0x1_0000
  }

  /** `ip_checksum`: with the checksum added the words sum to zero. The source's 32-bit sum does not overflow on
      payloads of 16-bit length. */
  method IpChecksum(payload: Bytes, src: Bytes, dest: Bytes, proto: nat) returns (r: Word)
    requires |payload| <= 0xffff && |src| <= 16 && |dest| <= 16
    ensures Congruent(r + WordSum(payload) + Pseudo(src, dest, |payload|, proto), 0)
  {
    var sum := AddWords(payload);
    var s := AddWords(src);
    sum := sum + s;
    var d := AddWords(dest);
    sum := sum + d;
    sum := sum + |payload| % 0x1_0000;
    sum := sum + proto % 0x1_0000;
    WordSumBound(payload);
    WordSumBound(src);
    WordSumBound(dest);
    assert sum < 0x1_0000_0000;
    var folded := FoldCarries(sum);
    r := 0xffff - folded;
    ComplementSum(folded, sum);
  }

  lemma ComplementSum(folded: int, sum: int)
    requires Congruent(folded, sum)
    ensures Congruent(0xffff - folded + sum, 0)
  {
    var k := (folded - sum) / 0xffff;
    assert folded - sum == 0xffff * k;
    Multiples(0xffff - folded + sum, 0, 1 - k);
  }

  // ---- The words as one number --------------------------------------------------------------------------

  lemma {:induction false} EvenPower(n: nat)
    ensures Congruent(Pow256(2 * n), 1)
  {
    if n > 0 {
      EvenPower(n - 1);
      var q := Pow256(2 * n - 2);
      assert Pow256(2 * n) == 256 * Pow256(2 * n - 1) == 65536 * q;
      Multiples(65536 * q, q, q);
      CongruentTransitive(65536 * q, q, 1);
    }
  }

  /** The word sum of a byte string of even length is, in one's complement, the number the string denotes. */
  lemma {:induction false} WordSumIsValue(b: Bytes)
    requires |b| % 2 == 0
    ensures Congruent(WordSum(b), FromBigEndian(b))
    decreases |b|
  {
    if b != [] {
      var rest := b[2..];
      WordSumIsValue(rest);
      TwoBytes(b[0], b[1], rest);
      assert b == [b[0], b[1]] + rest;
      var x: int, y: int := b[0], b[1];
      var w := x * 256 + y;
      EvenPower(|rest| / 2);
      WordInFront(w, Pow256(|rest|), WordSum(rest), FromBigEndian(rest));
    }
  }

  lemma WordInFront(w: int, power: int, sum: int, value: int)
    requires Congruent(power, 1) && Congruent(sum, value)
    ensures Congruent(w + sum, w * power + value)
  {
    var j, k := (power - 1) / 0xffff, (sum - value) / 0xffff;
    assert power == 1 + 0xffff * j && sum == value + 0xffff * k;
    assert w * power == w + 0xffff * (w * j);
    Multiples(w + sum, w * power + value, k - w * j);
  }

  lemma TwoBytes(x: byte, y: byte, rest: Bytes)
    ensures FromBigEndian([x, y] + rest) == (x * 256 + y) * Pow256(|rest|) + FromBigEndian(rest)
  {
    FirstByte(x, [y] + rest);
    FirstByte(y, rest);
    assert [x, y] + rest == [x] + ([y] + rest);
    Regroup(x, y, Pow256(|rest|));
  }

  lemma Regroup(x: int, y: int, q: int)
    ensures x * (256 * q) + y * q == (x * 256 + y) * q
  {
  }

  /** Payload and pseudo header together are, in one's complement, the number that the pseudo header of RFC 768
      followed by the payload denotes. */
  lemma PseudoHeader(src: Bytes, dest: Bytes, proto: byte, high: byte, low: byte, payload: Bytes, whole: Bytes)
    requires |src| == |dest| == 4 && |payload| % 2 == 0 && |payload| == 256 * high + low
    requires whole == src + (dest + ([0, proto, high, low] + payload))
    ensures Congruent(WordSum(payload) + Pseudo(src, dest, |payload|, proto), FromBigEndian(whole))
  {
    FieldSum(proto, high, low);
    FieldsValue(src, dest, [0, proto, high, low], payload, whole, |payload|, proto);
  }

  lemma FieldsValue(src: Bytes, dest: Bytes, fields: Bytes, payload: Bytes, whole: Bytes, n: nat, proto: nat)
    requires |src| == |dest| == |fields| == 4 && |payload| % 2 == 0 && n < 0x1_0000 && proto < 0x1_0000
    requires WordSum(fields) == proto + n && whole == src + (dest + (fields + payload))
    ensures Congruent(WordSum(payload) + Pseudo(src, dest, n, proto), FromBigEndian(whole))
  {
    SumOfWhole(src, dest, fields, payload, whole);
    EvenWhole(whole, |payload|);
    PseudoValue(src, dest, payload, whole, n, proto);
  }

  lemma SumOfWhole(a: Bytes, b: Bytes, c: Bytes, d: Bytes, whole: Bytes)
    requires |a| == |b| == |c| == 4 && whole == a + (b + (c + d))
    ensures |whole| == 12 + |d| && WordSum(whole) == WordSum(a) + WordSum(b) + WordSum(c) + WordSum(d)
  {
    FourParts(a, b, c, d);
  }

  lemma EvenWhole(whole: Bytes, n: nat)
    requires |whole| == 12 + n && n % 2 == 0
    ensures |whole| % 2 == 0
  {
  }

  lemma PseudoValue(src: Bytes, dest: Bytes, payload: Bytes, whole: Bytes, n: nat, proto: nat)
    requires n < 0x1_0000 && proto < 0x1_0000 && |whole| % 2 == 0
    requires WordSum(whole) == WordSum(src) + WordSum(dest) + (proto + n) + WordSum(payload)
    ensures Congruent(WordSum(payload) + Pseudo(src, dest, n, proto), FromBigEndian(whole))
  {
    WordSumIsValue(whole);
    PlainFields(src, dest, n, proto);
    SameSum(WordSum(payload) + Pseudo(src, dest, n, proto), WordSum(whole), FromBigEndian(whole));
  }

  lemma PlainFields(src: Bytes, dest: Bytes, n: nat, proto: nat)
    requires n < 0x1_0000 && proto < 0x1_0000
    ensures Pseudo(src, dest, n, proto) == WordSum(src) + WordSum(dest) + n + proto
  {
  }

  lemma SameSum(x: int, y: int, value: int)
    requires x == y && Congruent(y, value)
    ensures Congruent(x, value)
  {
  }

  lemma FieldSum(proto: byte, high: byte, low: byte)
    ensures WordSum([0, proto, high, low]) == proto + (256 * high + low)
  {
    OneWord(0, proto);
    OneWord(high, low);
    WordSumConcat([0, proto], [high, low]);
    assert [0, proto, high, low] == [0, proto] + [high, low];
  }

  lemma OneWord(high: byte, low: byte)
    ensures WordSum([high, low]) == 256 * high + low
  {
    assert [high, low][2..] == [];
  }

  lemma FourParts(a: Bytes, b: Bytes, c: Bytes, d: Bytes)
    requires |a| % 2 == |b| % 2 == |c| % 2 == 0
    ensures WordSum(a + (b + (c + d))) == WordSum(a) + WordSum(b) + WordSum(c) + WordSum(d)
  {
    ThreeParts(a, b, c + d);
    WordSumConcat(c, d);
  }

  lemma ThreeParts(a: Bytes, b: Bytes, c: Bytes)
    requires |a| % 2 == |b| % 2 == 0
    ensures WordSum(a + (b + c)) == WordSum(a) + WordSum(b) + WordSum(c)
  {
    WordSumConcat(b, c);
    WordSumConcat(a, b + c);
  }
}
