/** Layout of AEAD data channel packets in the two wire formats. The cipher itself is a parameter. */
module Aead {
  import opened Bytes

  const TAG_LENGTH := 16
  const MIN_IV_LENGTH := 12
  const MAX_IV_LENGTH := 16

  datatype Sealed = Sealed(text: Bytes, tag: Bytes)

  /** An AEAD cipher: `seal(key, iv, ad, plaintext)` and `open(key, iv, ad, text, tag)`; of a text of some
      length, `finalLength` bytes come out of the final call and the others out of the update call. */
  datatype Cipher = Cipher(
    seal: (Bytes, Bytes, Bytes, Bytes) -> Sealed,
    open: (Bytes, Bytes, Bytes, Bytes, Bytes) -> Option<Bytes>,
    blockSize: nat,
    finalLength: nat -> nat)

  function UpdateLength(c: Cipher, n: nat): nat {
    n - Min(n, c.finalLength(n))
  }

  /** What the two calls give out is the whole text, if the final call gives out no more than that. */
  lemma OutputIsWhole(c: Cipher, n: nat)
    requires c.finalLength(n) <= n
    ensures UpdateLength(c, n) + c.finalLength(n) == n
  {
  }

  /** Opening undoes sealing, and ciphertext and tag have their usual sizes. */
  ghost predicate Sound(c: Cipher) {
    forall key, iv, ad, plain ::
      var s := c.seal(key, iv, ad, plain);
      && |s.text| == |plain|
      && |s.tag| == TAG_LENGTH
      && c.open(key, iv, ad, s.text, s.tag) == Some(plain)
  }

  /** `Legacy`: 32-bit packet id, tag in front of the ciphertext.
      `Epoch`: 16-bit epoch and 48-bit counter, tag behind the ciphertext. */
  datatype Format = Legacy | Epoch

  function IdLength(format: Format): nat {
    if format.Epoch? then 8 else 4
  }

  /** `key_ctx_update_implicit_iv`: where the derived bytes go in the implicit IV. */
  function ImplicitIv(format: Format, material: Bytes, ivLength: nat): (iv: Bytes)
    requires MIN_IV_LENGTH <= ivLength <= MAX_IV_LENGTH && ivLength <= |material|
    ensures |iv| == ivLength
  {
    if format.Epoch? then material[..ivLength]
    else Zeros(4) + material[..ivLength - 4]
  }

  /** The nonce: the packet id padded with zeros, masked with the implicit IV. */
  function Nonce(idBytes: Bytes, implicitIv: Bytes): (iv: Bytes)
    requires |idBytes| <= |implicitIv|
    ensures |iv| == |implicitIv|
  {
    XorAll(idBytes + Zeros(|implicitIv| - |idBytes|), implicitIv)
  }

  /** The IV buffer of encryption and decryption: packet id, zeros, then masked in place. */
  method BuildNonce(idBytes: Bytes, implicitIv: Bytes) returns (nonce: Bytes)
    requires |idBytes| <= |implicitIv|
    ensures nonce == Nonce(idBytes, implicitIv)
  {
    var iv := new byte[|implicitIv|](i => if 0 <= i < |idBytes| then idBytes[i] else 0);
    ghost var padded := idBytes + Zeros(|implicitIv| - |idBytes|);
    for i := 0 to iv.Length
      invariant forall k :: 0 <= k < i ==> iv[k] == Xor(padded[k], implicitIv[k])
      invariant forall k :: i <= k < iv.Length ==> iv[k] == padded[k]
    {
      iv[i] := Xor(iv[i], implicitIv[i]);
    }
    nonce := iv[..];
  }

  /** Different packet ids give different nonces under one key. */
  lemma NonceInjective(id1: Bytes, id2: Bytes, implicitIv: Bytes)
    requires |id1| == |id2| <= |implicitIv|
    requires Nonce(id1, implicitIv) == Nonce(id2, implicitIv)
    ensures id1 == id2
  {
    var padding := Zeros(|implicitIv| - |id1|);
    XorAllInjective(id1 + padding, id2 + padding, implicitIv);
    assert (id1 + padding)[..|id1|] == id1 && (id2 + padding)[..|id1|] == id2;
  }

  /** Masking the nonce once more uncovers the packet id, then zeros. */
  lemma NonceUncovered(idBytes: Bytes, implicitIv: Bytes)
    requires |idBytes| <= |implicitIv|
    ensures XorAll(Nonce(idBytes, implicitIv), implicitIv) == idBytes + Zeros(|implicitIv| - |idBytes|)
  {
    var padded := idBytes + Zeros(|implicitIv| - |idBytes|);
    forall i | 0 <= i < |padded|
      ensures XorAll(Nonce(idBytes, implicitIv), implicitIv)[i] == padded[i]
    {
      XorCancel(padded[i], implicitIv[i]);
    }
  }

  /** In the legacy format masking is concatenation of packet id and implicit part. */
  lemma LegacyNonceIsConcatenation(idBytes: Bytes, material: Bytes, ivLength: nat)
    requires |idBytes| == 4
    requires MIN_IV_LENGTH <= ivLength <= MAX_IV_LENGTH && ivLength <= |material|
    ensures Nonce(idBytes, ImplicitIv(Legacy, material, ivLength)) == idBytes + material[..ivLength - 4]
  {
    var implicit := ImplicitIv(Legacy, material, ivLength);
    var padded := idBytes + Zeros(ivLength - 4);
    forall i | 0 <= i < ivLength
      ensures Nonce(idBytes, implicit)[i] == (idBytes + material[..ivLength - 4])[i]
    {
      if i < 4 {
        XorZero(padded[i]);
      } else {
        XorZero(implicit[i]);
      }
    }
  }

  lemma {:induction false} XorBitsZero(a: nat, n: nat)
    requires a < Pow2(n)
    ensures XorBits(a, 0, n) == a == XorBits(0, a, n)
  {
    if n != 0 {
      XorBitsZero(a / 2, n - 1);
    }
  }

  lemma XorZero(a: byte)
    ensures Xor(a, 0) == a == Xor(0, a)
  {
    assert Pow2(8) == 256;
    XorBitsZero(a, 8);
  }

  /** What follows the header on the wire. */
  function SealBody(c: Cipher, format: Format, key: Bytes, implicitIv: Bytes,
                    header: Bytes, idBytes: Bytes, payload: Bytes): Bytes
    requires |idBytes| == IdLength(format) <= |implicitIv|
  {
    var s := c.seal(key, Nonce(idBytes, implicitIv), header + idBytes, payload);
    if format.Epoch? then idBytes + s.text + s.tag else idBytes + s.tag + s.text
  }

  function MinBody(format: Format): nat {
    4 + TAG_LENGTH + 1 + if format.Epoch? then 4 else 0
  }

  /** Authenticates and decrypts a body that is long enough. */
  function OpenBody(c: Cipher, format: Format, key: Bytes, implicitIv: Bytes,
                    header: Bytes, body: Bytes): Option<Bytes>
    requires IdLength(format) <= |implicitIv| && MinBody(format) <= |body|
  {
    var idBytes, rest := body[..IdLength(format)], body[IdLength(format)..];
    var (text, tag) :=
      if format.Epoch? then (rest[..|rest| - TAG_LENGTH], rest[|rest| - TAG_LENGTH..])
      else (rest[TAG_LENGTH..], rest[..TAG_LENGTH]);
    c.open(key, Nonce(idBytes, implicitIv), header + idBytes, text, tag)
  }

  /** In both formats the receiver cuts packet id, ciphertext and tag from the wire as they were put there. */
  lemma SealedParts(c: Cipher, format: Format, key: Bytes, implicitIv: Bytes,
                    header: Bytes, idBytes: Bytes, payload: Bytes)
    requires Sound(c) && |idBytes| == IdLength(format) <= |implicitIv| && payload != []
    ensures var s := c.seal(key, Nonce(idBytes, implicitIv), header + idBytes, payload);
            var body := SealBody(c, format, key, implicitIv, header, idBytes, payload);
            var rest := body[IdLength(format)..];
            && |s.text| == |payload| && |s.tag| == TAG_LENGTH
            && MinBody(format) <= |body| && body[..IdLength(format)] == idBytes
            && (if format.Epoch? then rest[..|rest| - TAG_LENGTH] == s.text && rest[|rest| - TAG_LENGTH..] == s.tag
                else rest[TAG_LENGTH..] == s.text && rest[..TAG_LENGTH] == s.tag)
  {
    var iv, ad := Nonce(idBytes, implicitIv), header + idBytes;
    var s := c.seal(key, iv, ad, payload);
    assert |s.text| == |payload| && |s.tag| == TAG_LENGTH && c.open(key, iv, ad, s.text, s.tag) == Some(payload);
    var body := SealBody(c, format, key, implicitIv, header, idBytes, payload);
    assert body[IdLength(format)..] == if format.Epoch? then s.text + s.tag else s.tag + s.text;
  }

  /** The receiver rebuilds nonce and additional data as well and gets the payload back. */
  lemma OpenUndoesSeal(c: Cipher, format: Format, key: Bytes, implicitIv: Bytes,
                       header: Bytes, idBytes: Bytes, payload: Bytes)
    requires Sound(c) && |idBytes| == IdLength(format) <= |implicitIv| && payload != []
    ensures var body := SealBody(c, format, key, implicitIv, header, idBytes, payload);
            && MinBody(format) <= |body|
            && body[..IdLength(format)] == idBytes
            && OpenBody(c, format, key, implicitIv, header, body) == Some(payload)
  {
    var iv, ad := Nonce(idBytes, implicitIv), header + idBytes;
    var s := c.seal(key, iv, ad, payload);
    SealedParts(c, format, key, implicitIv, header, idBytes, payload);
    assert c.open(key, iv, ad, s.text, s.tag) == Some(payload);
  }

  /** A cipher that opens nothing under other additional data than it was sealed with. */
  ghost predicate Binds(c: Cipher) {
    forall key, iv, ad, other, plain ::
      other != ad ==> var s := c.seal(key, iv, ad, plain); c.open(key, iv, other, s.text, s.tag).None?
  }

  /** The header is authenticated: under such a cipher a packet with another header is refused. */
  lemma ChangedHeaderIsRefused(c: Cipher, format: Format, key: Bytes, implicitIv: Bytes,
                               header: Bytes, other: Bytes, idBytes: Bytes, payload: Bytes)
    requires Sound(c) && Binds(c) && |idBytes| == IdLength(format) <= |implicitIv| && payload != [] && other != header
    ensures var body := SealBody(c, format, key, implicitIv, header, idBytes, payload);
            && MinBody(format) <= |body|
            && OpenBody(c, format, key, implicitIv, other, body).None?
  {
    var iv, ad := Nonce(idBytes, implicitIv), header + idBytes;
    var s := c.seal(key, iv, ad, payload);
    SealedParts(c, format, key, implicitIv, header, idBytes, payload);
    if |other| == |header| {
      var i :| 0 <= i < |header| && header[i] != other[i];
      assert ad[i] != (other + idBytes)[i];
    } else {
      assert |ad| != |other + idBytes|;
    }
    assert c.open(key, iv, other + idBytes, s.text, s.tag).None?;
  }
}
