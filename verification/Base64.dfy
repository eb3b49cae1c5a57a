/** Base64 (section 4 of RFC 4648). */
module Base64 {
  import opened Bytes
  import opened Arithmetic

  /** The character for six bits: the alphabet of the source, by ranges. */
  function Char(v: nat): (c: char)
    requires v < 64
  {
    if v < 26 then 'A' + v as char
    else if v < 52 then 'a' + (v - 26) as char
    else if v < 62 then '0' + (v - 52) as char
    else if v == 62 then '+'
    else '/'
  }

  /** `pos`: the place of a character in the alphabet, or -1. */
  function Pos(c: char): int {
    if 'A' <= c <= 'Z' then c as int - 'A' as int
    else if 'a' <= c <= 'z' then c as int - 'a' as int + 26
    else if '0' <= c <= '9' then c as int - '0' as int + 52
    else if c == '+' then 62
    else if c == '/' then 63
    else -1
  }

  lemma PosUndoesChar(v: nat)
    requires v < 64
    ensures Pos(Char(v)) == v && Char(v) != '=' && Char(v) != '\0'
  {
  }

  lemma CharUndoesPos(c: char)
    requires Pos(c) != -1
    ensures 0 <= Pos(c) < 64 && Char(Pos(c)) == c
  {
  }

  /** Four characters for 24 bits. */
  function Quad(c: nat): (q: string)
    requires c < 0x100_0000
    ensures |q| == 4
  {
    [Char(c / 0x4_0000), Char(c / 0x1000 % 64), Char(c / 64 % 64), Char(c % 64)]
  }

  function Group(b0: byte, b1: byte, b2: byte): (c: nat)
    ensures c < 0x100_0000
  {
    (b0 * 256 + b1) * 256 + b2
  }

  /** The text of a byte string, three bytes at a time. */
  function Encode(b: Bytes): (s: string) {
    if b == [] then []
    else if |b| == 1 then Quad(Group(b[0], 0, 0))[..2] + "=="
    else if |b| == 2 then Quad(Group(b[0], b[1], 0))[..3] + "="
    else Quad(Group(b[0], b[1], b[2])) + Encode(b[3..])
  }

  lemma {:induction false} EncodeLength(b: Bytes)
    ensures |Encode(b)| == (|b| + 2) / 3 * 4
  {
    if |b| >= 3 {
      EncodeLength(b[3..]);
      assert (|b| + 2) / 3 == (|b| - 3 + 2) / 3 + 1;
    }
  }

  lemma EncodedSize(b: Bytes, n: nat)
    requires |b| == 3 * n
    ensures |Encode(b)| == 4 * n
  {
    EncodeLength(b);
    WholeGroups(n);
  }

  lemma WholeGroups(n: nat)
    ensures (3 * n + 2) / 3 * 4 == 4 * n
  {
    DivIs(3 * n + 2, 3, n);
  }

  /** Encoding goes group by group, so it respects concatenation at multiples of three bytes. */
  lemma {:induction false} EncodeConcat(a: Bytes, b: Bytes)
    requires |a| % 3 == 0
    ensures Encode(a + b) == Encode(a) + Encode(b)
  {
    if a == [] {
      assert a + b == b;
    } else {
      EncodeConcat(a[3..], b);
      DropThree(a, b);
    }
  }

  lemma DropThree(a: Bytes, b: Bytes)
    requires |a| >= 3
    ensures (a + b)[3..] == a[3..] + b
    ensures (a + b)[0] == a[0] && (a + b)[1] == a[1] && (a + b)[2] == a[2]
  {
  }

  /** The size allocated for the text and its terminator, and the length macro. */
  lemma EncodedLength(n: nat)
    ensures (n + 2) / 3 * 4 + 1 <= n * 4 / 3 + 4
    ensures (8 * n / 6 + 3) / 4 * 4 == (n + 2) / 3 * 4
    ensures (n + 2) / 3 * 4 / 4 * 3 >= n
  {
    var q, r := n / 3, n % 3;
    DivBounds(n, 3);
    var k := if r == 0 then 0 else 1;
    DivIs(n + 2, 3, q + k);
    DivIs(n * 4, 3, 4 * q + r);
    DivIs(8 * n, 6, 4 * q + r);
    DivIs(4 * q + r + 3, 4, q + k);
    DivIs((q + k) * 4, 4, q + k);
  }

  const DECODE_ERROR := 0xffff_ffff
  const TWO_32 := 0x1_0000_0000

  /** Sets one bit of an unsigned number. */
  function SetBit(v: nat, bit: nat): nat
    requires bit > 0
  {
    if v / bit % 2 == 1 then v else v + bit
  }

  /** Room for six more bits, in 32-bit arithmetic. */
  function Shifted(v: nat): nat {
    v * 64 % TWO_32
  }

  /** `token_decode` as a loop over the four characters, in 32-bit arithmetic. */
  function TokenValue(token: string, i: nat, v: nat, marker: nat): (r: nat)
    requires |token| == 4 && i <= 4 && marker <= i
    decreases 4 - i
  {
    if i == 4 then
      if marker > 2 then DECODE_ERROR
      else if marker == 0 then v
      else SetBit(v, if marker == 1 then 0x100_0000 else 0x200_0000)
    else
      if token[i] == '=' then TokenValue(token, i + 1, Shifted(v), marker + 1)
      else if marker > 0 then DECODE_ERROR
      else TokenValue(token, i + 1, (Shifted(v) + Pos(token[i])) % TWO_32, marker)
  }

  /** `token_decode` on the text from some point on. */
  function TokenDecode(s: string): nat {
    if |s| < 4 || s[0] == '\0' || s[1] == '\0' || s[2] == '\0' || s[3] == '\0' then DECODE_ERROR
    else TokenValue(s[..4], 0, 0, 0)
  }

  /** The bytes one token stands for. */
  function TokenBytes(v: nat): (b: Bytes)
    ensures 1 <= |b| <= 3
  {
    var marker := v / 0x100_0000 % 256;
    var b0, b1, b2 := v / 0x1_0000 % 256, v / 256 % 256, v % 256;
    if marker < 1 then [b0, b1, b2] else if marker < 2 then [b0, b1] else [b0]
  }

  predicate Continues(s: string) {
    s != [] && s[0] != '\0' && (s[0] == '=' || Pos(s[0]) != -1)
  }

  /** The room left once `n` bytes have been written. */
  function Left(size: int, n: nat): int {
    if size < 0 then size else size - n
  }

  function Prepend(front: Bytes, r: Option<Bytes>): Option<Bytes> {
    match r
    case None => None
    case Some(rest) => Some(front + rest)
  }

  /** `openvpn_base64_decode`: the bytes, or nothing for -1; `size` is the room left in the output
      buffer, negative for no limit. */
  function Decode(s: string, size: int): (r: Option<Bytes>)
    decreases |s|
  {
    if !Continues(s) then Some([])
    else
      var v := TokenDecode(s);
      if v == DECODE_ERROR then None
      else
        var bytes := TokenBytes(v);
        if 0 <= size < |bytes| then None
        else
          Prepend(bytes, Decode(s[4..], Left(size, |bytes|)))
  }

  lemma QuadDigits(c: nat)
    requires c < 0x100_0000
    ensures c / 0x4_0000 < 64
    ensures ((c / 0x4_0000 * 64 + c / 0x1000 % 64) * 64 + c / 64 % 64) * 64 + c % 64 == c
  {
    var d3, d2, d1, d0 := c / 0x4_0000, c / 0x1000 % 64, c / 64 % 64, c % 64;
    assert c / 64 == c / 0x1000 * 64 + d1 by {
      assert c / 0x1000 == c / 64 / 64;
    }
    assert c / 0x1000 == d3 * 64 + d2 by {
      assert c / 0x4_0000 == c / 0x1000 / 64;
    }
  }

  lemma TokenStep(token: string, i: nat, v: nat, d: nat)
    requires |token| == 4 && i < 4 && d < 64 && token[i] == Char(d) && v * 64 + d < TWO_32
    ensures TokenValue(token, i, v, 0) == TokenValue(token, i + 1, v * 64 + d, 0)
  {
    PosUndoesChar(d);
    assert Shifted(v) == v * 64;
    assert (v * 64 + d) % TWO_32 == v * 64 + d;
  }

  lemma TokenPadStep(token: string, i: nat, v: nat, marker: nat)
    requires |token| == 4 && marker <= i < 4 && token[i] == '=' && v * 64 < TWO_32
    ensures TokenValue(token, i, v, marker) == TokenValue(token, i + 1, v * 64, marker + 1)
  {
    assert Shifted(v) == v * 64;
  }

  lemma TwoDigits(token: string, d3: nat, d2: nat)
    requires |token| == 4 && d3 < 64 && d2 < 64 && token[0] == Char(d3) && token[1] == Char(d2)
    ensures TokenValue(token, 0, 0, 0) == TokenValue(token, 2, d3 * 64 + d2, 0)
    ensures token[0] != '\0' && token[1] != '\0'
  {
    TokenStep(token, 0, 0, d3);
    TokenStep(token, 1, d3, d2);
    PosUndoesChar(d3);
    PosUndoesChar(d2);
  }

  lemma SetClearBit(v: nat, bit: nat)
    requires v < bit
    ensures SetBit(v, bit) == v + bit
  {
  }

  /** A whole token decodes to the number its digits make. */
  lemma FullToken(d3: nat, d2: nat, d1: nat, d0: nat, rest: string)
    requires d3 < 64 && d2 < 64 && d1 < 64 && d0 < 64
    ensures var s := [Char(d3), Char(d2), Char(d1), Char(d0)] + rest;
            && Continues(s)
            && TokenDecode(s) == ((d3 * 64 + d2) * 64 + d1) * 64 + d0
  {
    var token := [Char(d3), Char(d2), Char(d1), Char(d0)];
    var s := token + rest;
    assert s[..4] == token;
    TwoDigits(token, d3, d2);
    TokenStep(token, 2, d3 * 64 + d2, d1);
    TokenStep(token, 3, (d3 * 64 + d2) * 64 + d1, d0);
    PosUndoesChar(d3);
    PosUndoesChar(d1);
    PosUndoesChar(d0);
    assert s[0] == token[0] && s[1] == token[1] && s[2] == token[2] && s[3] == token[3];
  }

  /** A padded token marks how many characters are missing above its 24 bits. */
  lemma TokenPaddedOnce(d3: nat, d2: nat, d1: nat)
    requires d3 < 64 && d2 < 64 && d1 < 64
    ensures var s := [Char(d3), Char(d2), Char(d1), '='];
            && Continues(s)
            && TokenDecode(s) == ((d3 * 64 + d2) * 64 + d1) * 64 + 0x100_0000
  {
    var token := [Char(d3), Char(d2), Char(d1), '='];
    var v := (d3 * 64 + d2) * 64 + d1;
    assert token[..4] == token;
    TwoDigits(token, d3, d2);
    TokenStep(token, 2, d3 * 64 + d2, d1);
    PosUndoesChar(d3);
    PosUndoesChar(d1);
    TokenPadStep(token, 3, v, 0);
    SetClearBit(v * 64, 0x100_0000);
  }

  lemma TokenPaddedTwice(d3: nat, d2: nat)
    requires d3 < 64 && d2 < 64
    ensures var s := [Char(d3), Char(d2), '=', '='];
            && Continues(s)
            && TokenDecode(s) == (d3 * 64 + d2) * 4096 + 0x200_0000
  {
    var token := [Char(d3), Char(d2), '=', '='];
    var v := d3 * 64 + d2;
    assert token[..4] == token;
    TwoDigits(token, d3, d2);
    PosUndoesChar(d3);
    TokenPadStep(token, 2, v, 0);
    TokenPadStep(token, 3, v * 64, 1);
    SetClearBit(v * 64 * 64, 0x200_0000);
  }

  lemma SplitBytes(v: nat, marker: nat, b0: byte, b1: byte, b2: byte)
    requires marker < 256 && v == ((marker * 256 + b0) * 256 + b1) * 256 + b2
    ensures v / 0x100_0000 % 256 == marker && v / 0x1_0000 % 256 == b0 && v / 256 % 256 == b1 && v % 256 == b2
  {
    var z: nat := marker * 256 + b0;
    var y: nat := z * 256 + b1;
    assert v / 256 == y && v % 256 == b2;
    assert y / 256 == z && y % 256 == b1;
    assert z / 256 == marker && z % 256 == b0;
    assert v / 0x1_0000 == y / 256;
    assert v / 0x100_0000 == z / 256;
  }

  lemma BytesOfGroup(b0: byte, b1: byte, b2: byte)
    ensures TokenBytes(Group(b0, b1, b2)) == [b0, b1, b2]
  {
    SplitBytes(Group(b0, b1, b2), 0, b0, b1, b2);
  }

  /** Room for `n` bytes in a buffer of `size`; a negative size is no limit. */
  predicate Fits(n: nat, size: int) {
    size < 0 || n <= size
  }

  lemma DecodeStep(s: string, v: nat, bytes: Bytes, rest: string, size: int)
    requires Continues(s) && |s| >= 4 && TokenDecode(s) == v && v != DECODE_ERROR
    requires TokenBytes(v) == bytes && s[4..] == rest
    ensures Decode(s, size) == if Fits(|bytes|, size) then Prepend(bytes, Decode(rest, Left(size, |bytes|))) else None
  {
  }

  /** A text that ends with the token. */
  lemma DecodeLast(s: string, v: nat, bytes: Bytes, size: int)
    requires |s| == 4 && Continues(s) && TokenDecode(s) == v && v != DECODE_ERROR && TokenBytes(v) == bytes
    ensures Decode(s, size) == if Fits(|bytes|, size) then Some(bytes) else None
  {
    DecodeStep(s, v, bytes, [], size);
    assert bytes + [] == bytes;
  }

  lemma LastByteDigits(b0: byte)
    ensures var c := Group(b0, 0, 0);
            c / 0x4_0000 < 64 && (c / 0x4_0000 * 64 + c / 0x1000 % 64) * 4096 == c
  {
    var c := Group(b0, 0, 0);
    QuadDigits(c);
    DivIs(c, 64, 1024 * b0);
    DivBounds(c, 64);
    DivIs(1024 * b0, 64, 16 * b0);
    DivBounds(1024 * b0, 64);
  }

  lemma LastTwoBytesDigits(b0: byte, b1: byte)
    ensures var c := Group(b0, b1, 0);
            c / 0x4_0000 < 64 && ((c / 0x4_0000 * 64 + c / 0x1000 % 64) * 64 + c / 64 % 64) * 64 == c
  {
    var c := Group(b0, b1, 0);
    QuadDigits(c);
    DivIs(c, 64, 1024 * b0 + 4 * b1);
    DivBounds(c, 64);
  }

  lemma EncodeOne(b: Bytes)
    requires |b| == 1
    ensures var c := Group(b[0], 0, 0);
            Encode(b) == [Char(c / 0x4_0000), Char(c / 0x1000 % 64), '=', '=']
  {
  }

  lemma EncodeTwo(b: Bytes)
    requires |b| == 2
    ensures var c := Group(b[0], b[1], 0);
            Encode(b) == [Char(c / 0x4_0000), Char(c / 0x1000 % 64), Char(c / 64 % 64), '=']
  {
  }

  lemma TokenOfOne(b: Bytes, v: nat)
    requires |b| == 1 && v == Group(b[0], 0, 0) + 0x200_0000
    ensures var s := Encode(b); |s| == 4 && Continues(s) && TokenDecode(s) == v
  {
    var c := Group(b[0], 0, 0);
    EncodeOne(b);
    LastByteDigits(b[0]);
    TokenPaddedTwice(c / 0x4_0000, c / 0x1000 % 64);
  }

  lemma TokenOfTwo(b: Bytes, v: nat)
    requires |b| == 2 && v == Group(b[0], b[1], 0) + 0x100_0000
    ensures var s := Encode(b); |s| == 4 && Continues(s) && TokenDecode(s) == v
  {
    var c := Group(b[0], b[1], 0);
    EncodeTwo(b);
    LastTwoBytesDigits(b[0], b[1]);
    TokenPaddedOnce(c / 0x4_0000, c / 0x1000 % 64, c / 64 % 64);
  }

  lemma BytesOfOne(b: Bytes, v: nat)
    requires |b| == 1 && v == Group(b[0], 0, 0) + 0x200_0000
    ensures TokenBytes(v) == b && v != DECODE_ERROR
  {
    SplitBytes(v, 2, b[0], 0, 0);
  }

  lemma BytesOfTwo(b: Bytes, v: nat)
    requires |b| == 2 && v == Group(b[0], b[1], 0) + 0x100_0000
    ensures TokenBytes(v) == b && v != DECODE_ERROR
  {
    SplitBytes(v, 1, b[0], b[1], 0);
  }

  lemma DecodeOne(b: Bytes, size: int)
    requires |b| == 1
    ensures Decode(Encode(b), size) == if Fits(1, size) then Some(b) else None
  {
    var v := Group(b[0], 0, 0) + 0x200_0000;
    TokenOfOne(b, v);
    BytesOfOne(b, v);
    DecodeLast(Encode(b), v, b, size);
  }

  lemma DecodeTwo(b: Bytes, size: int)
    requires |b| == 2
    ensures Decode(Encode(b), size) == if Fits(2, size) then Some(b) else None
  {
    var v := Group(b[0], b[1], 0) + 0x100_0000;
    TokenOfTwo(b, v);
    BytesOfTwo(b, v);
    DecodeLast(Encode(b), v, b, size);
  }

  /** Decoding a text whose first token is the encoding of three bytes. */
  lemma DecodeThree(b: Bytes, rest: string, size: int)
    requires |b| == 3
    ensures Decode(Quad(Group(b[0], b[1], b[2])) + rest, size)
         == if Fits(3, size) then Prepend(b, Decode(rest, Left(size, 3))) else None
  {
    var c := Group(b[0], b[1], b[2]);
    var s := Quad(c) + rest;
    QuadDigits(c);
    FullToken(c / 0x4_0000, c / 0x1000 % 64, c / 64 % 64, c % 64, rest);
    BytesOfGroup(b[0], b[1], b[2]);
    assert s[4..] == rest;
    DecodeStep(s, c, b, rest, size);
  }

  /** Whole groups decode to themselves whatever text follows them. */
  lemma {:induction false} DecodePrefix(b: Bytes, rest: string, size: int)
    requires |b| % 3 == 0 && Fits(|b|, size)
    ensures Decode(Encode(b) + rest, size) == Prepend(b, Decode(rest, Left(size, |b|)))
    decreases |b|
  {
    if b == [] {
      assert Encode(b) + rest == rest;
      PrependNothing(Decode(rest, size));
    } else {
      DecodePrefix(b[3..], rest, Left(size, 3));
      GroupInFront(b[..3], b[3..], Encode(b[3..]) + rest, Decode(rest, Left(size, |b|)), size);
      EncodeFront(b, rest);
    }
  }

  lemma GroupInFront(front: Bytes, back: Bytes, more: string, r: Option<Bytes>, size: int)
    requires |front| == 3 && Fits(3, size) && Decode(more, Left(size, 3)) == Prepend(back, r)
    ensures Decode(Quad(Group(front[0], front[1], front[2])) + more, size) == Prepend(front + back, r)
  {
    DecodeThree(front, more, size);
    PrependTwice(front, back, r);
  }

  lemma EncodeFront(b: Bytes, rest: string)
    requires |b| >= 3
    ensures Encode(b) + rest == Quad(Group(b[0], b[1], b[2])) + (Encode(b[3..]) + rest)
    ensures b == b[..3] + b[3..]
  {
    Associate(Quad(Group(b[0], b[1], b[2])), Encode(b[3..]), rest);
  }

  lemma Associate(a: string, b: string, c: string)
    ensures a + b + c == a + (b + c)
  {
  }

  /** What decodes fits the buffer. */
  lemma {:induction false} DecodeFits(s: string, size: int)
    ensures Decode(s, size).Some? ==> Fits(|Decode(s, size).value|, size)
    decreases |s|
  {
    if Decode(s, size).Some? && Continues(s) {
      DecodeFits(s[4..], Left(size, |TokenBytes(TokenDecode(s))|));
    }
  }

  /** Four characters never give more than three bytes. */
  lemma {:induction false} DecodeShrinks(s: string, size: int)
    ensures Decode(s, size).Some? ==> 4 * |Decode(s, size).value| <= 3 * |s|
    decreases |s|
  {
    if Decode(s, size).Some? && Continues(s) {
      DecodeShrinks(s[4..], Left(size, |TokenBytes(TokenDecode(s))|));
    }
  }

  /** Decoding undoes encoding, and fails exactly when the output buffer is too small. */
  lemma {:induction false} DecodeUndoesEncode(b: Bytes, size: int)
    ensures Decode(Encode(b), size) == if Fits(|b|, size) then Some(b) else None
    decreases |b|
  {
    if |b| == 1 {
      DecodeOne(b, size);
    } else if |b| == 2 {
      DecodeTwo(b, size);
    } else if |b| >= 3 {
      DecodeThree(b[..3], Encode(b[3..]), size);
      if Fits(3, size) {
        DecodeUndoesEncode(b[3..], Left(size, 3));
        assert b == b[..3] + b[3..];
      }
    }
  }

  /** One round of `openvpn_base64_encode`: the four characters for the bytes at `at`. */
  method EncodeRound(data: Bytes, at: nat) returns (p: string)
    requires at < |data|
    ensures Encode(data[at..]) == if at + 3 <= |data| then p + Encode(data[at + 3..]) else p
  {
    var i := at;
    var c: nat := data[i];
    i := i + 1;
    c := c * 256;
    if i < |data| {
      c := c + data[i];
    }
    i := i + 1;
    c := c * 256;
    if i < |data| {
      c := c + data[i];
    }
    i := i + 1;
    p := Quad(c);
    if i > |data| {
      p := p[3 := '='];
    }
    if i > |data| + 1 {
      p := p[2 := '='];
    }
    OneGroup(data[at..], p, c);
  }

  /** `openvpn_base64_encode`. */
  method EncodeText(data: Bytes) returns (text: string)
    ensures text == Encode(data)
  {
    text := [];
    var i := 0;
    assert data[0..] == data;
    while i < |data|
      invariant 0 <= i
      invariant i <= |data| ==> text + Encode(data[i..]) == Encode(data)
      invariant i > |data| ==> text == Encode(data)
    {
      var p := EncodeRound(data, i);
      if i + 3 <= |data| {
        assert text + (p + Encode(data[i + 3..])) == text + p + Encode(data[i + 3..]);
      }
      text := text + p;
      i := i + 3;
    }
    if i == |data| {
      assert data[i..] == [];
    }
  }

  lemma OneGroup(rest: Bytes, p: string, c: nat)
    requires rest != [] && |p| == 4
    requires c == Group(rest[0], if |rest| > 1 then rest[1] else 0, if |rest| > 2 then rest[2] else 0)
    requires p == if |rest| >= 3 then Quad(c) else if |rest| == 2 then Quad(c)[3 := '=']
                  else Quad(c)[3 := '='][2 := '=']
    ensures Encode(rest) == if |rest| > 3 then p + Encode(rest[3..]) else p
  {
    if |rest| == 3 {
      assert rest[3..] == [];
    }
  }

  /** `token_decode`. */
  method DecodeToken(s: string) returns (v: nat)
    ensures v == TokenDecode(s)
  {
    if |s| < 4 || s[0] == '\0' || s[1] == '\0' || s[2] == '\0' || s[3] == '\0' {
      return DECODE_ERROR;
    }
    ghost var token := s[..4];
    v := 0;
    var marker := 0;
    var i := 0;
    while i < 4
      invariant 0 <= i <= 4 && 0 <= marker <= i
      invariant TokenValue(token, i, v, marker) == TokenValue(token, 0, 0, 0)
    {
      assert token[i] == s[i];
      v := Shifted(v);
      if s[i] == '=' {
        marker := marker + 1;
      } else if marker > 0 {
        return DECODE_ERROR;
      } else {
        v := (v + Pos(s[i])) % TWO_32;
      }
      i := i + 1;
    }
    if marker > 2 {
      return DECODE_ERROR;
    }
    v := if marker == 0 then v else SetBit(v, if marker == 1 then 0x100_0000 else 0x200_0000);
  }

  /** One token of `openvpn_base64_decode`: its bytes go to the buffer while there is room. */
  method PutToken(v: nat, size: int, data: Bytes) returns (ok: bool, out: Bytes)
    requires size >= 0 ==> |data| <= size
    ensures ok <==> Fits(|TokenBytes(v)|, Left(size, |data|))
    ensures ok ==> out == data + TokenBytes(v)
  {
    var marker := v / 0x100_0000 % 256;
    out := data;
    if size >= 0 && |out| >= size {
      return false, out;
    }
    out := out + [v / 0x1_0000 % 256];
    if marker < 2 {
      if size >= 0 && |out| >= size {
        return false, out;
      }
      out := out + [v / 256 % 256];
    }
    if marker < 1 {
      if size >= 0 && |out| >= size {
        return false, out;
      }
      out := out + [v % 256];
    }
    ok := true;
  }

  lemma TokenTaken(total: Option<Bytes>, before: Bytes, rest: string, v: nat, size: int)
    requires Continues(rest) && |rest| >= 4 && TokenDecode(rest) == v && v != DECODE_ERROR
    requires Fits(|before|, size) && total == Prepend(before, Decode(rest, Left(size, |before|)))
    ensures var bytes := TokenBytes(v);
            if Fits(|bytes|, Left(size, |before|))
            then total == Prepend(before + bytes, Decode(rest[4..], Left(size, |before + bytes|)))
            else total == None
  {
    DecodeStep(rest, v, TokenBytes(v), rest[4..], Left(size, |before|));
    PrependTwice(before, TokenBytes(v), Decode(rest[4..], Left(size, |before + TokenBytes(v)|)));
  }

  /** `openvpn_base64_decode`: the number of bytes written or -1, and the bytes written. */
  method DecodeText(str: string, size: int) returns (n: int, data: Bytes)
    ensures match Decode(str, size)
            case None => n == -1
            case Some(bytes) => n == |bytes| && data == bytes
  {
    data := [];
    var p := 0;
    assert str[0..] == str;
    PrependNothing(Decode(str, size));
    while p < |str| && str[p] != '\0' && (str[p] == '=' || Pos(str[p]) != -1)
      invariant 0 <= p <= |str|
      invariant size >= 0 ==> |data| <= size
      invariant Decode(str, size) == Prepend(data, Decode(str[p..], Left(size, |data|)))
    {
      ghost var rest, before := str[p..], data;
      assert Continues(rest);
      var v := DecodeToken(str[p..]);
      if v == DECODE_ERROR {
        return -1, data;
      }
      var ok;
      ok, data := PutToken(v, size, data);
      TokenTaken(Decode(str, size), before, rest, v, size);
      if !ok {
        return -1, data;
      }
      assert rest[4..] == str[p + 4..];
      p := p + 4;
    }
    assert !Continues(str[p..]);
    n := |data|;
  }

  lemma PrependNothing(r: Option<Bytes>)
    ensures Prepend([], r) == r
  {
    if r.Some? {
      assert [] + r.value == r.value;
    }
  }

  lemma PrependTwice(a: Bytes, b: Bytes, r: Option<Bytes>)
    ensures Prepend(a, Prepend(b, r)) == Prepend(a + b, r)
  {
    if r.Some? {
      assert a + (b + r.value) == a + b + r.value;
    }
  }

  /** The alphabet (table 1 of RFC 4648). */
  lemma AlphabetIs(v: nat)
    ensures v < 26 ==> Char(v) == "ABCDEFGHIJKLMNOPQRSTUVWXYZ"[v] && Char(26 + v) == "abcdefghijklmnopqrstuvwxyz"[v]
    ensures v < 10 ==> Char(52 + v) == "0123456789"[v]
    ensures Char(62) == '+' && Char(63) == '/'
  {
  }

  /** Test vectors of section 10 of RFC 4648: the encodings of "f", "fo" and "foo". */
  lemma Rfc4648Vectors()
    ensures Encode([0x66]) == "Zg==" && Encode([0x66, 0x6f]) == "Zm8=" && Encode([0x66, 0x6f, 0x6f]) == "Zm9v"
  {
    assert [0x66, 0x6f, 0x6f][3..] == [];
  }

  /** A token with a character after a padding character, or with more than two of these, is refused. */
  lemma BadPaddingIsRefused(s: string, i: nat, j: nat)
    requires |s| >= 4 && i < j < 4 && s[i] == '='
    requires s[j] != '=' || i == 0 || (i == 1 && s[2] == s[3] == '=')
    ensures TokenDecode(s) == DECODE_ERROR
  {
  }
}
