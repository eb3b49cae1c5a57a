/** HKDF-Expand (section 2.3 of RFC 5869) and the labelled expansion built on it
    (section 7.1 of RFC 8446 with the prefix "ovpn "). HMAC-SHA256 is a parameter. */
module Hkdf {
  import opened Bytes

  const DIGEST_LENGTH := 32

  type Digest = d: Bytes | |d| == DIGEST_LENGTH witness Zeros(DIGEST_LENGTH)

  /** A keyed hash: key, then message. */
  type Hmac = (Bytes, Bytes) -> Digest

  /** T(n) of section 2.3 of RFC 5869. */
  function T(hmac: Hmac, secret: Bytes, info: Bytes, n: nat): (t: Bytes)
    requires n <= 255
    ensures |t| == if n == 0 then 0 else DIGEST_LENGTH
  {
    if n == 0 then [] else hmac(secret, T(hmac, secret, info, n - 1) + info + [n])
  }

  /** T(1) | T(2) | ... | T(n). */
  function Stream(hmac: Hmac, secret: Bytes, info: Bytes, n: nat): (s: Bytes)
    requires n <= 255
    ensures |s| == n * DIGEST_LENGTH
  {
    if n == 0 then [] else Stream(hmac, secret, info, n - 1) + T(hmac, secret, info, n)
  }

  function BlocksFor(length: nat): (n: nat)
    ensures length <= n * DIGEST_LENGTH < length + DIGEST_LENGTH
  {
    (length + DIGEST_LENGTH - 1) / DIGEST_LENGTH
  }

  /** The output keying material of RFC 5869, defined for the whole range of the standard. */
  function OutputKey(hmac: Hmac, secret: Bytes, info: Bytes, length: nat): (okm: Bytes)
    requires length <= 255 * DIGEST_LENGTH
    ensures |okm| == length
  {
    Stream(hmac, secret, info, BlocksFor(length))[..length]
  }

  lemma {:induction false} StreamPrefix(hmac: Hmac, secret: Bytes, info: Bytes, m: nat, n: nat)
    requires m <= n <= 255
    ensures m * DIGEST_LENGTH <= |Stream(hmac, secret, info, n)|
    ensures Stream(hmac, secret, info, n)[..m * DIGEST_LENGTH] == Stream(hmac, secret, info, m)
  {
    if m < n {
      StreamPrefix(hmac, secret, info, m, n - 1);
    }
  }

  /** A shorter output is a prefix of a longer one. */
  lemma OutputKeyPrefix(hmac: Hmac, secret: Bytes, info: Bytes, short: nat, long: nat)
    requires short <= long <= 255 * DIGEST_LENGTH
    ensures OutputKey(hmac, secret, info, long)[..short] == OutputKey(hmac, secret, info, short)
  {
    var m, n := BlocksFor(short), BlocksFor(long);
    StreamPrefix(hmac, secret, info, m, n);
    var s := Stream(hmac, secret, info, n);
    assert s[..long][..short] == s[..m * DIGEST_LENGTH][..short];
  }

  /** The longest output for which the 8-bit block counter does not wrap before the loop ends. */
  const MAX_OUTPUT := 254 * DIGEST_LENGTH

  /** `ovpn_hkdf_expand`: fills `out`. The block counter is 8 bits wide, so for outputs that
      need T(255) it wraps to 0 and the next copy would go in front of the buffer; the model
      stops there and reports it. */
  method Expand(hmac: Hmac, secret: Bytes, info: Bytes, out: array<byte>) returns (inBounds: bool)
    modifies out
    ensures inBounds <==> out.Length <= MAX_OUTPUT
    ensures inBounds ==> out[..] == OutputKey(hmac, secret, info, out.Length)
  {
    var previous: Bytes := [];
    var block := 1;
    while (block - 1) * DIGEST_LENGTH < out.Length
      invariant 0 <= block <= 255
      invariant block == 0 ==> out.Length > MAX_OUTPUT
      invariant block >= 1 ==> previous == T(hmac, secret, info, block - 1)
      invariant block >= 2 ==> (block - 2) * DIGEST_LENGTH < out.Length
      invariant block >= 1 ==> Filled(hmac, secret, info, out[..], block - 1)
      decreases if block == 0 then 0 else 256 - block
    {
      previous := hmac(secret, previous + info + [block]);
      var offset := (block - 1) * DIGEST_LENGTH;
      if offset < 0 {
        return false;
      }
      CopyBlock(hmac, secret, info, out, block, previous);
      block := (block + 1) % 256;
    }
    FilledIsOutput(hmac, secret, info, out[..], block - 1);
    return true;
  }

  /** The copy of one block, cut at the end of the buffer. */
  method CopyBlock(ghost hmac: Hmac, ghost secret: Bytes, ghost info: Bytes, out: array<byte>, block: nat, t: Bytes)
    requires 1 <= block <= 255 && (block - 1) * DIGEST_LENGTH < out.Length
    requires t == T(hmac, secret, info, block) && Filled(hmac, secret, info, out[..], block - 1)
    modifies out
    ensures Filled(hmac, secret, info, out[..], block)
  {
    var offset := (block - 1) * DIGEST_LENGTH;
    var copyLen := Min(DIGEST_LENGTH, out.Length - offset);
    ghost var before := out[..];
    forall i | 0 <= i < copyLen {
      out[offset + i] := t[i];
    }
    FillBlock(hmac, secret, info, before, out[..], block, t, offset);
  }

  /** The first `n` blocks, cut at the end of the buffer, are in place. */
  ghost predicate Filled(hmac: Hmac, secret: Bytes, info: Bytes, out: Bytes, n: nat)
    requires n <= 255
  {
    var done := Min(|out|, n * DIGEST_LENGTH);
    out[..done] == Stream(hmac, secret, info, n)[..done]
  }

  lemma FillBlock(hmac: Hmac, secret: Bytes, info: Bytes, before: Bytes, after: Bytes, block: nat, t: Bytes, start: nat)
    requires 1 <= block <= 255 && start == (block - 1) * DIGEST_LENGTH < |before| == |after|
    requires Filled(hmac, secret, info, before, block - 1) && t == T(hmac, secret, info, block)
    requires forall i :: 0 <= i < start ==> after[i] == before[i]
    requires forall i :: 0 <= i < |t| && start + i < |after| ==> after[start + i] == t[i]
    ensures Filled(hmac, secret, info, after, block)
  {
    FilledFront(hmac, secret, info, before, block - 1);
    FillAt(Stream(hmac, secret, info, block - 1), t, before, after, start, Min(|after|, start + |t|));
    FilledBack(hmac, secret, info, after, block, t);
  }

  lemma FilledFront(hmac: Hmac, secret: Bytes, info: Bytes, out: Bytes, n: nat)
    requires n <= 255 && n * DIGEST_LENGTH <= |out| && Filled(hmac, secret, info, out, n)
    ensures out[..n * DIGEST_LENGTH] == Stream(hmac, secret, info, n)
  {
    var s := Stream(hmac, secret, info, n);
    assert s[..n * DIGEST_LENGTH] == s;
  }

  lemma FilledBack(hmac: Hmac, secret: Bytes, info: Bytes, out: Bytes, n: nat, t: Bytes)
    requires 1 <= n <= 255 && t == T(hmac, secret, info, n)
    requires var done := Min(|out|, (n - 1) * DIGEST_LENGTH + |t|);
             out[..done] == (Stream(hmac, secret, info, n - 1) + t)[..done]
    ensures Filled(hmac, secret, info, out, n)
  {
  }

  lemma FillAt(earlier: Bytes, t: Bytes, before: Bytes, after: Bytes, start: nat, done: nat)
    requires |earlier| == start < |before| == |after| && before[..start] == earlier
    requires done == Min(|after|, start + |t|)
    requires forall i :: 0 <= i < start ==> after[i] == before[i]
    requires forall i :: 0 <= i < |t| && start + i < |after| ==> after[start + i] == t[i]
    ensures after[..done] == (earlier + t)[..done]
  {
    forall i | 0 <= i < done
      ensures after[i] == (earlier + t)[i]
    {
      if i < start {
        assert before[..start][i] == before[i];
      } else {
        assert after[start + (i - start)] == t[i - start];
      }
    }
  }

  lemma FilledIsOutput(hmac: Hmac, secret: Bytes, info: Bytes, out: Bytes, n: nat)
    requires n <= 254 && |out| <= n * DIGEST_LENGTH
    requires n >= 1 ==> (n - 1) * DIGEST_LENGTH < |out|
    requires Filled(hmac, secret, info, out, n)
    ensures |out| <= MAX_OUTPUT
    ensures out == OutputKey(hmac, secret, info, |out|)
  {
    assert BlocksFor(|out|) == n;
    assert out[..|out|] == out;
  }

  const LABEL_PREFIX: Bytes := [111, 118, 112, 110, 32] // "ovpn "

  /** The HkdfLabel structure of section 7.1 of RFC 8446. */
  function HkdfLabel(outLen: nat, lbl: Bytes, context: Bytes): (b: Bytes)
    requires outLen < 65536 && |lbl| <= 250 && |context| <= 255
    ensures |b| == 2 + 1 + |LABEL_PREFIX| + |lbl| + 1 + |context|
  {
    BigEndian(outLen, 2) + [|LABEL_PREFIX| + |lbl|] + LABEL_PREFIX + lbl + [|context|] + context
  }

  /** No two different requests share an encoding. */
  lemma HkdfLabelInjective(len1: nat, label1: Bytes, context1: Bytes, len2: nat, label2: Bytes, context2: Bytes)
    requires len1 < 65536 && |label1| <= 250 && |context1| <= 255
    requires len2 < 65536 && |label2| <= 250 && |context2| <= 255
    requires HkdfLabel(len1, label1, context1) == HkdfLabel(len2, label2, context2)
    ensures len1 == len2 && label1 == label2 && context1 == context2
  {
    var a, b := HkdfLabel(len1, label1, context1), HkdfLabel(len2, label2, context2);
    assert a[..2] == BigEndian(len1, 2) && b[..2] == BigEndian(len2, 2);
    assert Pow256(2) == 65536;
    BigEndianRoundTrip(len1, 2);
    BigEndianRoundTrip(len2, 2);
    assert a[2] == |LABEL_PREFIX| + |label1| && b[2] == |LABEL_PREFIX| + |label2|;
    assert a[8..8 + |label1|] == label1 && b[8..8 + |label2|] == label2;
    assert a[9 + |label1|..] == context1 && b[9 + |label2|..] == context2;
  }

  datatype LabelOutcome = Refused | Written | Overrun

  ghost predicate LabelAccepted(secret: Bytes, lbl: Bytes, context: Bytes) {
    |secret| == 32 && 1 <= |lbl| <= 250 && |context| <= 255
  }

  /** `ovpn_expand_label`. The output length is a 16-bit number. */
  method ExpandLabel(hmac: Hmac, secret: Bytes, lbl: Bytes, context: Bytes, out: array<byte>)
    returns (r: LabelOutcome)
    requires out.Length < 65536
    modifies out
    ensures r.Refused? <==> !LabelAccepted(secret, lbl, context)
    ensures r.Refused? ==> out[..] == old(out[..])
    ensures r.Written? <==> LabelAccepted(secret, lbl, context) && out.Length <= MAX_OUTPUT
    ensures r.Written? ==> out[..] == OutputKey(hmac, secret, HkdfLabel(out.Length, lbl, context), out.Length)
  {
    if |secret| != 32 || |lbl| > 250 || |context| > 255 || |lbl| < 1 {
      return Refused;
    }
    var labelLen := 2 + |LABEL_PREFIX| + 1 + |lbl| + 1 + |context|;
    var encoded := BigEndian(out.Length, 2);
    encoded := encoded + [|LABEL_PREFIX| + |lbl|];
    encoded := encoded + LABEL_PREFIX;
    encoded := encoded + lbl;
    encoded := encoded + [|context|];
    if |context| > 0 {
      encoded := encoded + context;
    }
    assert |encoded| == labelLen && encoded == HkdfLabel(out.Length, lbl, context);
    var inBounds := Expand(hmac, secret, encoded, out);
    return if inBounds then Written else Overrun;
  }

  /** The value `ExpandLabel` writes when the context is empty. */
  function Derive(hmac: Hmac, secret: Bytes, lbl: Bytes, length: nat): (key: Bytes)
    requires |lbl| <= 250 && length <= MAX_OUTPUT
    ensures |key| == length
  {
    OutputKey(hmac, secret, HkdfLabel(length, lbl, []), length)
  }

  /** Every block of the output is the HMAC of the block before it, the info and its own number; the first has
      none before it (section 2.3 of RFC 5869). */
  lemma BlocksAreChained(hmac: Hmac, secret: Bytes, info: Bytes, length: nat, i: nat)
    requires 1 <= i && i * 32 <= length <= 255 * 32
    ensures var out := OutputKey(hmac, secret, info, length);
            out[(i - 1) * 32..i * 32]
            == hmac(secret, (if i == 1 then [] else out[(i - 2) * 32..(i - 1) * 32]) + info + [i])
  {
    BlockOf(hmac, secret, info, length, i);
    if i > 1 {
      BlockOf(hmac, secret, info, length, i - 1);
    }
  }

  lemma BlockOf(hmac: Hmac, secret: Bytes, info: Bytes, length: nat, i: nat)
    requires 1 <= i && i * 32 <= length <= 255 * 32
    ensures OutputKey(hmac, secret, info, length)[(i - 1) * 32..i * 32] == T(hmac, secret, info, i)
  {
    var n := BlocksFor(length);
    var all, front := Stream(hmac, secret, info, n), Stream(hmac, secret, info, i);
    StreamPrefix(hmac, secret, info, i, n);
    assert front[(i - 1) * 32..] == T(hmac, secret, info, i);
    assert all[..length][(i - 1) * 32..i * 32] == all[..i * 32][(i - 1) * 32..];
  }

  /** The encoded label of a 32-byte output without context, byte by byte up to the label itself. */
  lemma LabelOnWire(lbl: Bytes)
    requires |lbl| <= 250
    ensures HkdfLabel(32, lbl, []) == [0x00, 0x20, 5 + |lbl|, 0x6f, 0x76, 0x70, 0x6e, 0x20] + lbl + [0x00]
  {
    TwoByteLength();
    assert [0, 32] + [5 + |lbl|] + LABEL_PREFIX == [0x00, 0x20, 5 + |lbl|, 0x6f, 0x76, 0x70, 0x6e, 0x20];
  }

  lemma TwoByteLength()
    ensures BigEndian(32, 2) == [0, 32]
  {
  }
}
