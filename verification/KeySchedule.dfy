/** The key schedule of the epoch data keys, computed with the labelled expansion. */
module KeySchedule {
  import opened Bytes
  import opened Hkdf
  import opened EpochKeys
  import Aead

  datatype KeyType = KeyType(keySize: nat, ivSize: nat) {
    predicate Valid() {
      keySize <= 64 && Aead.MIN_IV_LENGTH <= ivSize <= Aead.MAX_IV_LENGTH
    }
  }

  const EPOCH_KEY_LENGTH := 32

  function Ascii(s: string): (b: Bytes)
    ensures |b| == |s|
  {
    seq(|s|, i requires 0 <= i < |s| => s[i] as int % 256)
  }

  const UPDATE_LABEL := Ascii("datakey upd")
  const DATA_KEY_LABEL := Ascii("data_key")
  const DATA_IV_LABEL := Ascii("data_iv")

  /** E_N+1, K_i and the implicit IV as labelled expansions of the epoch secret. */
  function HkdfSchedule(hmac: Hmac, kt: KeyType): Schedule
    requires kt.Valid()
  {
    Schedule(
      (secret: Bytes) => Derive(hmac, secret, UPDATE_LABEL, EPOCH_KEY_LENGTH),
      (secret: Bytes) => Derive(hmac, secret, DATA_KEY_LABEL, kt.keySize),
      (secret: Bytes) => Derive(hmac, secret, DATA_IV_LABEL, kt.ivSize))
  }

  /** One labelled expansion with empty context into a buffer of its own. */
  method Expanded(hmac: Hmac, secret: Bytes, lbl: Bytes, length: nat) returns (out: Bytes)
    requires |secret| == 32 && 1 <= |lbl| <= 250 && length <= MAX_OUTPUT
    ensures out == Derive(hmac, secret, lbl, length)
  {
    var buffer := new byte[length](_ => 0);
    var r := ExpandLabel(hmac, secret, lbl, [], buffer);
    assert r.Written?;
    out := buffer[..];
  }

  /** `epoch_key_iterate`: the expansions it calls never fail on a 32-byte secret. */
  method IterateEpochKey(hmac: Hmac, kt: KeyType, k: EpochKey) returns (next: EpochKey)
    requires kt.Valid() && |k.secret| == EPOCH_KEY_LENGTH
    ensures next == Iterated(HkdfSchedule(hmac, kt), k)
    ensures next.secret
         == Derive(hmac, k.secret, [0x64, 0x61, 0x74, 0x61, 0x6b, 0x65, 0x79, 0x20, 0x75, 0x70, 0x64], 32)
    ensures |next.secret| == EPOCH_KEY_LENGTH
  {
    var secret := Expanded(hmac, k.secret, UPDATE_LABEL, EPOCH_KEY_LENGTH);
    assert UPDATE_LABEL == [0x64, 0x61, 0x74, 0x61, 0x6b, 0x65, 0x79, 0x20, 0x75, 0x70, 0x64];
    next := EpochKey(secret, (k.epoch + 1) % 65536);
  }

  /** `epoch_data_key_derive` and the key context set up from its result. */
  method DeriveDataKey(hmac: Hmac, kt: KeyType, k: EpochKey) returns (ctx: KeyCtx)
    requires kt.Valid() && |k.secret| == EPOCH_KEY_LENGTH
    ensures ctx == DataKey(HkdfSchedule(hmac, kt), k)
    ensures ctx.cipherKey == Derive(hmac, k.secret, [0x64, 0x61, 0x74, 0x61, 0x5f, 0x6b, 0x65, 0x79], kt.keySize)
    ensures ctx.implicitIv == Derive(hmac, k.secret, [0x64, 0x61, 0x74, 0x61, 0x5f, 0x69, 0x76], kt.ivSize)
  {
    var cipherKey := Expanded(hmac, k.secret, DATA_KEY_LABEL, kt.keySize);
    var material := Expanded(hmac, k.secret, DATA_IV_LABEL, kt.ivSize);
    assert DATA_KEY_LABEL == [0x64, 0x61, 0x74, 0x61, 0x5f, 0x6b, 0x65, 0x79];
    assert DATA_IV_LABEL == [0x64, 0x61, 0x74, 0x61, 0x5f, 0x69, 0x76];
    var iv := Aead.ImplicitIv(Aead.Epoch, material, kt.ivSize);
    assert iv == material;
    ctx := KeyCtx(k.epoch, cipherKey, iv, 0, 0);
  }
}
