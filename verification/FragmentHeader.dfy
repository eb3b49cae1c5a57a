/** The 32-bit fragmentation header and the choice of the fragment size. Masks and shifts of the
    header fields are written as remainders and quotients. */
module FragmentHeader {
  import opened Bytes
  import opened Arithmetic

  const FRAG_WHOLE := 0
  const FRAG_YES_NOTLAST := 1
  const FRAG_YES_LAST := 2
  const FRAG_TEST := 3
  const N_SEQ_ID := 256
  const MAX_FRAGS := 32
  const ROUND := 4
  const SIZE_FIELD := 16384
  const HEADER_LENGTH := 4

  /** Fragment sizes the header can carry. */
  const MAX_SIZE := 65532

  /** The value `fragment_prepend_flags` writes. */
  function Pack(kind: nat, seqId: nat, fragId: nat, size: nat): (flags: nat)
    ensures flags < 0x1_0000_0000
  {
    kind % 4 + seqId % 256 * 4 + fragId % 32 * 1024
      + if kind == FRAG_WHOLE || kind == FRAG_YES_NOTLAST then 0 else size / ROUND % SIZE_FIELD * 32768
  }

  function Kind(flags: nat): nat {
    flags % 4
  }

  function SeqId(flags: nat): nat {
    flags / 4 % 256
  }

  function FragId(flags: nat): nat {
    flags / 1024 % 32
  }

  function Size(flags: nat): nat {
    flags / 32768 % SIZE_FIELD * ROUND
  }

  lemma Fields(kind: nat, seqId: nat, fragId: nat, field: nat)
    requires kind < 4 && seqId < 256 && fragId < 32 && field < SIZE_FIELD
    ensures var flags := kind + seqId * 4 + fragId * 1024 + field * 32768;
            flags % 4 == kind && flags / 4 % 256 == seqId && flags / 1024 % 32 == fragId && flags / 32768 % SIZE_FIELD == field
  {
    var y := seqId + 256 * fragId + 8192 * field;
    var z := fragId + 32 * field;
    var flags := kind + seqId * 4 + fragId * 1024 + field * 32768;
    Field(flags, 4, y, kind);
    Field(y, 256, z, seqId);
    Field(flags, 1024, z, kind + 4 * seqId);
    Field(z, 32, field, fragId);
    Field(flags, 32768, field, kind + 4 * seqId + 1024 * fragId);
  }

  lemma Field(x: nat, d: nat, q: nat, r: nat)
    requires r < d && x == q * d + r
    ensures x / d == q && x % d == r
  {
    DivIs(x, d, q);
    DivBounds(x, d);
  }

  /** Reading the header gives back every field of a fragment; the size of a last fragment comes
      back exactly when it is aligned and below 64 KiB. */
  lemma UnpackUndoesPack(kind: nat, seqId: nat, fragId: nat, size: nat)
    requires kind < 4 && seqId < N_SEQ_ID && fragId < MAX_FRAGS
    ensures var flags := Pack(kind, seqId, fragId, size);
            && Kind(flags) == kind && SeqId(flags) == seqId && FragId(flags) == fragId
            && (kind == FRAG_YES_LAST ==> (Size(flags) == size <==> size % ROUND == 0 && size <= MAX_SIZE))
  {
    Fields(kind, seqId, fragId, if kind <= FRAG_YES_NOTLAST then 0 else size / ROUND % SIZE_FIELD);
  }

  function HeaderBytes(kind: nat, seqId: nat, fragId: nat, size: nat): (b: Bytes)
    ensures |b| == HEADER_LENGTH
  {
    BigEndian(Pack(kind, seqId, fragId, size), 4)
  }

  lemma HeaderOnWire(kind: nat, seqId: nat, fragId: nat, size: nat)
    ensures FromBigEndian(HeaderBytes(kind, seqId, fragId, size)) == Pack(kind, seqId, fragId, size)
  {
    assert Pow256(4) == 0x1_0000_0000;
    BigEndianRoundTrip(Pack(kind, seqId, fragId, size), 4);
  }

  /** The four bytes of the header: kind and sequence number from the low end, then fragment number, then the size
      of a last fragment in units of four. */
  lemma HeaderLayout(seqId: nat, fragId: nat, units: nat)
    requires seqId < 256 && fragId < 32 && units < 16384
    ensures HeaderBytes(FRAG_YES_LAST, seqId, fragId, 4 * units)
         == [units / 512, units / 2 % 256, units % 2 * 128 + fragId * 4 + seqId / 64, seqId % 64 * 4 + 2]
    ensures HeaderBytes(FRAG_YES_NOTLAST, seqId, fragId, 4 * units) == [0, 0, fragId * 4 + seqId / 64, seqId % 64 * 4 + 1]
  {
    var low, high, a, b, c := seqId % 64, seqId / 64, units / 512, units / 2 % 256, units % 2;
    assert seqId == 64 * high + low && units == 512 * a + 2 * b + c by {
      Halves(units);
    }
    LayoutOf(seqId, fragId, units, low, high, a, b, c);
  }

  lemma LayoutOf(seqId: nat, fragId: nat, units: nat, low: nat, high: nat, a: nat, b: nat, c: nat)
    requires seqId == 64 * high + low && low < 64 && high < 4 && fragId < 32
    requires units == 512 * a + 2 * b + c && a < 32 && b < 256 && c < 2
    ensures HeaderBytes(FRAG_YES_LAST, seqId, fragId, 4 * units) == [a, b, c * 128 + fragId * 4 + high, low * 4 + 2]
    ensures HeaderBytes(FRAG_YES_NOTLAST, seqId, fragId, 4 * units) == [0, 0, fragId * 4 + high, low * 4 + 1]
  {
    PackIs(seqId, fragId, units);
    HeaderIs(FRAG_YES_LAST, seqId, fragId, 4 * units, a, b, c * 128 + fragId * 4 + high, low * 4 + 2);
    HeaderIs(FRAG_YES_NOTLAST, seqId, fragId, 4 * units, 0, 0, fragId * 4 + high, low * 4 + 1);
  }

  lemma HeaderIs(kind: nat, seqId: nat, fragId: nat, size: nat, a: byte, b: byte, c: byte, d: byte)
    requires Pack(kind, seqId, fragId, size) == 16777216 * a + 65536 * b + 256 * c + d
    ensures HeaderBytes(kind, seqId, fragId, size) == [a, b, c, d]
  {
    FourBytes(a, b, c, d);
  }

  lemma Halves(units: nat)
    ensures units == 512 * (units / 512) + 2 * (units / 2 % 256) + units % 2
  {
    var h := units / 2;
    assert h == 256 * (h / 256) + h % 256;
    Field(units, 512, h / 256, 2 * (h % 256) + units % 2);
  }

  lemma PackIs(seqId: nat, fragId: nat, units: nat)
    requires seqId < 256 && fragId < 32 && units < 16384
    ensures Pack(FRAG_YES_LAST, seqId, fragId, 4 * units) == 2 + 4 * seqId + 1024 * fragId + 32768 * units
    ensures Pack(FRAG_YES_NOTLAST, seqId, fragId, 4 * units) == 1 + 4 * seqId + 1024 * fragId
  {
    Field(4 * units, 4, units, 0);
  }

  lemma FourBytes(a: byte, b: byte, c: byte, d: byte)
    ensures BigEndian(16777216 * a + 65536 * b + 256 * c + d, 4) == [a, b, c, d]
  {
    assert [a][..0] == [];
    LastByte([a], b);
    LastByte([a, b], c);
    LastByte([a, b, c], d);
    assert [a] + [b] == [a, b] && [a, b] + [c] == [a, b, c] && [a, b, c] + [d] == [a, b, c, d];
    FromBigEndianRoundTrip([a, b, c, d]);
  }

  function AlignDown(x: nat): (r: nat)
    ensures r % ROUND == 0 && r <= x < r + ROUND
  {
    x / ROUND * ROUND
  }

  /** How many fragments of `size` bytes a datagram needs. */
  function CountFor(length: nat, size: nat): (n: nat)
    requires size > 0
  {
    (length + size - 1) / size
  }

  /** The defining property of the number of fragments. */
  lemma CountIs(length: nat, size: nat, n: nat)
    requires size > 0 && length > 0
    requires n >= 1 && (n - 1) * size < length <= n * size
    ensures CountFor(length, size) == n
  {
    MulDistributes(n - 1, 1, size);
    DivIs(length + size - 1, size, n);
  }

  /** `optimal_fragment_size`. */
  function OptimalSize(length: nat, maxSize: nat): (r: nat)
    requires maxSize >= ROUND
  {
    var aligned := AlignDown(maxSize);
    var div, rem := length / aligned, length % aligned;
    if div > 0 && rem > 0 && rem < aligned * 3 / 4 then
      Min(aligned, AlignDown(maxSize - (maxSize - rem) / (div + 1) + (ROUND - 1)))
    else
      aligned
  }

  /** The chosen size is positive, aligned, no larger than the aligned maximum, and splits the
      datagram into exactly as many fragments as the aligned maximum would; so the limit on the
      number of fragments decides the same way for both. */
  lemma OptimalSizeKeepsCount(length: nat, maxSize: nat)
    requires maxSize >= ROUND && length > 0
    ensures var r, aligned := OptimalSize(length, maxSize), AlignDown(maxSize);
            && 0 < r <= aligned && r % ROUND == 0
            && CountFor(length, r) == CountFor(length, aligned)
            && (length > r * MAX_FRAGS <==> length > aligned * MAX_FRAGS)
  {
    var aligned := AlignDown(maxSize);
    var div, rem := length / aligned, length % aligned;
    DivBounds(length, aligned);
    if div > 0 && rem > 0 && rem < aligned * 3 / 4 {
      var r := BalancedBounds(maxSize, aligned, div, rem);
      MulDistributes(div, 1, aligned);
      SameCount(length, aligned, r, div + 1);
    }
  }

  lemma BalancedBounds(maxSize: nat, aligned: nat, div: nat, rem: nat) returns (r: nat)
    requires 0 < aligned <= maxSize && div > 0 && 0 < rem < aligned && aligned % ROUND == 0
    ensures (maxSize - rem) / (div + 1) <= maxSize
    ensures r == Min(aligned, AlignDown(maxSize - (maxSize - rem) / (div + 1) + (ROUND - 1)))
    ensures 0 < r <= aligned && r % ROUND == 0
    ensures div * r < div * aligned + rem <= (div + 1) * r
  {
    var q := (maxSize - rem) / (div + 1);
    DivBounds(maxSize - rem, div + 1);
    QuotientBelow(maxSize - rem, div + 1);
    var raw := maxSize - q;
    r := Min(aligned, AlignDown(raw + (ROUND - 1)));
    assert raw >= rem;
    MulLe(r, aligned, div);
    MulCommutes(r, div);
    MulCommutes(aligned, div);
    if r == aligned {
      MulDistributes(div, 1, aligned);
    } else {
      RawIsEnough(maxSize, aligned, div, rem, q);
      MulLe(raw, r, div + 1);
      MulCommutes(raw, div + 1);
      MulCommutes(r, div + 1);
    }
  }

  /** The last fragment is of similar size as the others: at least about three quarters of it, or shorter by no
      more than the rounding of each fragment adds up to. */
  lemma LastIsSimilar(length: nat, maxSize: nat)
    requires maxSize >= ROUND && length > maxSize
    ensures var r := OptimalSize(length, maxSize);
            && r > 0
            && var n := CountFor(length, r);
               var last := length - (n - 1) * r;
               0 < last <= r && (4 * last + 3 >= 3 * r || r - last <= 7 * n)
  {
    var aligned := AlignDown(maxSize);
    var div, rem := length / aligned, length % aligned;
    DivBounds(length, aligned);
    assert div != 0;
    MulDistributes(div, 1, aligned);
    MulCommutes(div, aligned);
    if rem > 0 && rem < aligned * 3 / 4 {
      var r := BalancedBounds(maxSize, aligned, div, rem);
      CountIs(length, r, div + 1);
      BalancedGap(maxSize, aligned, div, rem, r);
      MulDistributes(div, 1, r);
    } else if rem > 0 {
      CountIs(length, aligned, div + 1);
    } else {
      MulDistributes(div - 1, 1, aligned);
      CountIs(length, aligned, div);
    }
  }

  lemma BalancedGap(maxSize: nat, aligned: nat, div: nat, rem: nat, r: nat)
    requires aligned <= maxSize < aligned + ROUND && rem <= maxSize
    requires (maxSize - rem) / (div + 1) <= maxSize && r <= maxSize - (maxSize - rem) / (div + 1) + (ROUND - 1)
    ensures (div + 1) * r <= div * aligned + rem + 7 * div + 3
  {
    var q, d := (maxSize - rem) / (div + 1), div + 1;
    DivBounds(maxSize - rem, d);
    calc {
      d * r;
      <= { MulLe(r, maxSize - q + 3, d); MulCommutes(r, d); }
      (maxSize - q + 3) * d;
      == { SpreadThree(maxSize, q, d); }
      maxSize * d - q * d + 3 * d;
      <=
      maxSize * d - (maxSize - rem - div) + 3 * d;
      == { MulDistributes(div, 1, maxSize); MulCommutes(maxSize, d); MulCommutes(div, maxSize); }
      maxSize * div + rem + 4 * div + 3;
      <= { MulLe(maxSize, aligned + 3, div); MulDistributes(aligned, 3, div); MulCommutes(aligned, div); }
      div * aligned + rem + 7 * div + 3;
    }
  }

  lemma SpreadThree(x: int, y: int, d: int)
    ensures (x - y + 3) * d == x * d - y * d + 3 * d
  {
  }

  lemma QuotientBelow(x: nat, d: nat)
    requires d > 0
    ensures x / d <= x
  {
    DivBounds(x, d);
    MulLe(1, d, x / d);
    MulCommutes(d, x / d);
  }

  lemma RawIsEnough(maxSize: nat, aligned: nat, div: nat, rem: nat, q: nat)
    requires aligned <= maxSize && rem <= maxSize && q <= maxSize
    requires q * (div + 1) <= maxSize - rem
    ensures (div + 1) * (maxSize - q) >= div * aligned + rem
  {
    MulDistributes(maxSize, 0 - q, div + 1);
    MulCommutes(maxSize - q, div + 1);
    assert (0 - q) * (div + 1) == 0 - q * (div + 1);
    MulDistributes(div, 1, maxSize);
    MulCommutes(maxSize, div + 1);
    MulLe(aligned, maxSize, div);
    MulCommutes(aligned, div);
    MulCommutes(maxSize, div);
  }

  lemma SameCount(length: nat, aligned: nat, r: nat, n: nat)
    requires 0 < r <= aligned && n >= 2 && length > 0
    requires (n - 1) * aligned < length <= n * aligned
    requires (n - 1) * r < length <= n * r
    ensures CountFor(length, r) == n == CountFor(length, aligned)
    ensures length > r * MAX_FRAGS <==> length > aligned * MAX_FRAGS
  {
    CountIs(length, r, n);
    CountIs(length, aligned, n);
    if n <= MAX_FRAGS {
      MulLe(n, MAX_FRAGS, r);
      MulLe(n, MAX_FRAGS, aligned);
    } else {
      MulLe(MAX_FRAGS, n - 1, r);
      MulLe(MAX_FRAGS, n - 1, aligned);
    }
  }
}
