/** Static key files (crypto.c): the writer, the hex formatter it uses, and the six-state parser. */
module StaticKey {
  import opened Bytes
  import opened Arithmetic

  // ---- Text -----------------------------------------------------------------------------------

  function HexDigit(d: nat, caps: bool): char
    requires d < 16
  {
    if d < 10 then '0' + d as char else if caps then 'A' + (d - 10) as char else 'a' + (d - 10) as char
  }

  /** The value of a hexadecimal digit, or -1. */
  function HexValue(c: char): (v: int)
    ensures -1 <= v < 16
  {
    if '0' <= c <= '9' then c as int - '0' as int
    else if 'a' <= c <= 'f' then c as int - 'a' as int + 10
    else if 'A' <= c <= 'F' then c as int - 'A' as int + 10
    else -1
  }

  predicate IsSpace(c: char) {
    c == ' ' || c == '\t' || c == '\r' || c == '\U{000B}' || c == '\U{000C}'
  }

  function Hex2(b: byte, caps: bool): (s: string)
    ensures |s| == 2
  {
    [HexDigit(b / 16, caps), HexDigit(b % 16, caps)]
  }

  lemma HexUndone(b: byte, caps: bool)
    ensures HexValue(Hex2(b, caps)[0]) == b / 16 && HexValue(Hex2(b, caps)[1]) == b % 16
    ensures Hex2(b, caps)[0] != '\n' && Hex2(b, caps)[1] != '\n'
    ensures Hex2(b, caps)[0] != '-' && Hex2(b, caps)[1] != '-'
  {
  }

  /** The two digits of a byte, the high one first. */
  lemma HexDigitsAre(b: byte)
    ensures Hex2(b, false) == ["0123456789abcdef"[b / 16], "0123456789abcdef"[b % 16]]
    ensures Hex2(b, true) == ["0123456789ABCDEF"[b / 16], "0123456789ABCDEF"[b % 16]]
  {
  }

  /** The hex text of `data` from byte `i` on, a separator before every block but the first. */
  function HexFrom(data: Bytes, i: nat, block: nat, separator: string, caps: bool): (s: string)
    requires i <= |data| && block > 0
    decreases |data| - i
  {
    if i == |data| then []
    else Separate(i, block, separator) + Hex2(data[i], caps) + HexFrom(data, i + 1, block, separator, caps)
  }

  function Separate(i: nat, block: nat, separator: string): string
    requires block > 0
  {
    if i > 0 && i % block == 0 then separator else []
  }

  // ---- Bounded buffers --------------------------------------------------------------------------

  /** The first `n` characters, or all of them. */
  function Take(s: string, n: int): string {
    if n <= 0 then [] else if n < |s| then s[..n] else s
  }

  /** `buf_printf` on a buffer of the given capacity: one place is kept for the terminator. */
  function Printed(out: string, capacity: nat, text: string): string {
    if |out| < capacity then out + Take(text, capacity - |out| - 1) else out
  }

  /** A buffer printed into from the start holds as much of the whole text as fits. */
  lemma PrintedIsTaken(whole: string, capacity: nat, text: string)
    requires capacity > 0
    ensures Printed(Take(whole, capacity - 1), capacity, text) == Take(whole + text, capacity - 1)
  {
  }

  /** The size `format_hex_ex` allocates. */
  function HexCapacity(size: nat, maxOutput: nat, block: nat, separatorLen: nat): (n: nat)
    requires block > 0
    ensures n > 0
  {
    if maxOutput > 0 then maxOutput else size * 2 + size / block * separatorLen + 2
  }

  /** `buf_catrunc`: a full buffer has its end overwritten, if it is long enough. */
  function CatTruncated(out: string, capacity: nat, note: string): string {
    if capacity - |out| <= 1 && |note| + 1 < capacity && capacity - |note| - 1 <= |out|
    then out[..capacity - |note| - 1] + note else out
  }

  /** `format_hex_ex`. */
  method FormatHex(data: Bytes, maxOutput: nat, block: nat, separator: string, caps: bool) returns (out: string)
    requires block > 0
    ensures var capacity := HexCapacity(|data|, maxOutput, block, |separator|);
            out == CatTruncated(Take(HexFrom(data, 0, block, separator, caps), capacity - 1), capacity, "[more...]")
  {
    var capacity := HexCapacity(|data|, maxOutput, block, |separator|);
    out := FormatInto(capacity, data, block, separator, caps);
    out := CatTruncated(out, capacity, "[more...]");
  }

  /** Its loop, printing into a buffer of the given capacity. */
  method FormatInto(capacity: nat, data: Bytes, block: nat, separator: string, caps: bool) returns (out: string)
    requires block > 0 && capacity > 0
    ensures out == Take(HexFrom(data, 0, block, separator, caps), capacity - 1)
  {
    ghost var full := HexFrom(data, 0, block, separator, caps);
    ghost var done: string := [];
    out := [];
    var i := 0;
    while i < |data|
      invariant 0 <= i <= |data|
      invariant full == done + HexFrom(data, i, block, separator, caps)
      invariant out == Take(done, capacity - 1)
    {
      FormatStep(full, done, data, i, block, separator, caps);
      out := FormatOne(done, out, capacity, data[i], i, block, separator, caps);
      done := done + Separate(i, block, separator) + Hex2(data[i], caps);
      i := i + 1;
    }
    assert done + [] == done;
  }

  /** One round of the loop of `format_hex_ex`. */
  method FormatOne(ghost done: string, before: string, capacity: nat, b: byte, i: nat, block: nat,
                   separator: string, caps: bool) returns (out: string)
    requires block > 0 && capacity > 0 && before == Take(done, capacity - 1)
    ensures out == Take(done + Separate(i, block, separator) + Hex2(b, caps), capacity - 1)
  {
    out := before;
    if i != 0 && i % block == 0 {
      out := Printed(out, capacity, separator);
      PrintedIsTaken(done, capacity, separator);
    } else {
      assert done + [] == done;
    }
    PrintedIsTaken(done + Separate(i, block, separator), capacity, Hex2(b, caps));
    out := Printed(out, capacity, Hex2(b, caps));
  }

  lemma FormatStep(full: string, done: string, data: Bytes, i: nat, block: nat, separator: string, caps: bool)
    requires block > 0 && i < |data| && full == done + HexFrom(data, i, block, separator, caps)
    ensures full == done + Separate(i, block, separator) + Hex2(data[i], caps)
                    + HexFrom(data, i + 1, block, separator, caps)
  {
  }

  lemma {:induction false} HexLength(data: Bytes, i: nat, block: nat, separator: string, caps: bool)
    requires block > 0 && i <= |data|
    ensures |HexFrom(data, i, block, separator, caps)| == 2 * (|data| - i) + |separator| * Breaks(i, |data|, block)
    decreases |data| - i
  {
    if i < |data| {
      HexLength(data, i + 1, block, separator, caps);
      OneBreak(|separator|, Breaks(i + 1, |data|, block));
    }
  }

  lemma OneBreak(len: nat, more: nat)
    ensures len * (1 + more) == len + len * more && len * (0 + more) == len * more
  {
  }

  /** How many separators stand before the bytes from `i` to `n`. */
  function Breaks(i: nat, n: nat, block: nat): nat
    requires block > 0 && i <= n
    decreases n - i
  {
    if i == n then 0 else (if i > 0 && i % block == 0 then 1 else 0) + Breaks(i + 1, n, block)
  }

  lemma {:induction false} BreaksBound(i: nat, n: nat, block: nat)
    requires block > 0 && 0 < i <= n
    ensures Breaks(i, n, block) == (n - 1) / block - (i - 1) / block
    decreases n - i
  {
    if i < n {
      BreaksBound(i + 1, n, block);
      BlockStep(i, block);
    }
  }

  lemma BlockStep(i: nat, block: nat)
    requires i > 0 && block > 0
    ensures i / block - (i - 1) / block == if i % block == 0 then 1 else 0
  {
    var q, r := (i - 1) / block, (i - 1) % block;
    DivBounds(i - 1, block);
    DivBounds(i, block);
    if r + 1 == block {
      MulDistributes(q, 1, block);
      DivIs(i, block, q + 1);
    } else {
      DivIs(i, block, q);
    }
  }

  lemma BreaksFit(n: nat, block: nat)
    requires block > 0
    ensures Breaks(0, n, block) <= n / block
  {
    if n > 0 {
      BreaksBound(1, n, block);
      assert 0 / block == 0;
      BlockStep(n, block);
    }
  }

  lemma HexRoom(data: Bytes, block: nat, separator: string, caps: bool)
    requires block > 0
    ensures |HexFrom(data, 0, block, separator, caps)| + 2 <= HexCapacity(|data|, 0, block, |separator|)
  {
    HexLength(data, 0, block, separator, caps);
    BreaksFit(|data|, block);
    var n, m := Breaks(0, |data|, block), |data| / block;
    MulLe(n, m, |separator|);
    MulCommutes(|separator|, n);
  }

  lemma RoomToSpare(full: string, capacity: nat, note: string)
    requires |full| + 2 <= capacity
    ensures CatTruncated(Take(full, capacity - 1), capacity, note) == full
  {
  }

  /** The size formula leaves room: nothing is cut and nothing is overwritten. */
  lemma HexIsNeverTruncated(data: Bytes, block: nat, separator: string, caps: bool)
    requires block > 0
    ensures var full := HexFrom(data, 0, block, separator, caps);
            var capacity := HexCapacity(|data|, 0, block, |separator|);
            CatTruncated(Take(full, capacity - 1), capacity, "[more...]") == full
  {
    HexRoom(data, block, separator, caps);
    RoomToSpare(HexFrom(data, 0, block, separator, caps), HexCapacity(|data|, 0, block, |separator|), "[more...]");
  }

  // ---- The writer ---------------------------------------------------------------------------------

  type Key = k: Bytes | |k| == 128 witness Zeros(128)

  const BLOCK := 16
  const FILE_CAPACITY := 2048

  /** The first and last lines of the file. */
  datatype Marks = Marks(head: string, foot: string)

  const STATIC_KEY := Marks("-----BEGIN OpenVPN Static key V1-----", "-----END OpenVPN Static key V1-----")

  ghost predicate OneLine(s: string) {
    forall i :: 0 <= i < |s| ==> s[i] != '\n'
  }

  ghost predicate Usable(m: Marks) {
    && m.head != [] && m.head[0] == '-' && OneLine(m.head)
    && m.foot != [] && m.foot[0] == '-' && OneLine(m.foot)
  }

  lemma StaticKeyMarks()
    ensures Usable(STATIC_KEY) && |STATIC_KEY.head| == 37 && |STATIC_KEY.foot| == 35
  {
  }

  function Decimal(n: nat): (s: string) {
    if n < 10 then ['0' + n as char] else Decimal(n / 10) + ['0' + (n % 10) as char]
  }

  function Comment(nbits: nat): string {
    "# " + Decimal(nbits) + " bit OpenVPN static key"
  }

  function Preamble(nbits: nat): string {
    "#\n" + (Comment(nbits) + "\n") + "#\n"
  }

  function KeyText(key: Key): string {
    HexFrom(key, 0, BLOCK, "\n", false) + "\n"
  }

  function Body(keys: seq<Key>): string {
    if keys == [] then [] else Body(keys[..|keys| - 1]) + KeyText(keys[|keys| - 1])
  }

  /** The whole text of a key file. */
  function FileText(m: Marks, keys: seq<Key>): string {
    Preamble(|keys| * 1024) + (m.head + "\n") + Body(keys) + (m.foot + "\n")
  }

  /** `write_key_file`, the random keys given: the buffer written to the file. */
  method WriteKeyFile(m: Marks, keys: seq<Key>) returns (out: string)
    ensures out == Take(FileText(m, keys), FILE_CAPACITY - 1)
  {
    var preamble := Preamble(|keys| * 1024);
    PrintedIsTaken([], FILE_CAPACITY, preamble);
    out := Printed([], FILE_CAPACITY, preamble);
    assert [] + preamble == preamble;
    PrintedIsTaken(preamble, FILE_CAPACITY, m.head + "\n");
    out := Printed(out, FILE_CAPACITY, m.head + "\n");
    ghost var start := preamble + (m.head + "\n");
    var i := 0;
    assert start + Body([]) == start;
    while i < |keys|
      invariant 0 <= i <= |keys|
      invariant out == Take(start + Body(keys[..i]), FILE_CAPACITY - 1)
    {
      out := WriteKey(start + Body(keys[..i]), out, keys[i]);
      BodyGrows(start, keys, i);
      i := i + 1;
    }
    assert keys[..|keys|] == keys;
    PrintedIsTaken(start + Body(keys), FILE_CAPACITY, m.foot + "\n");
    out := Printed(out, FILE_CAPACITY, m.foot + "\n");
  }

  /** One key of the file. */
  method WriteKey(ghost done: string, before: string, key: Key) returns (out: string)
    requires before == Take(done, FILE_CAPACITY - 1)
    ensures out == Take(done + KeyText(key), FILE_CAPACITY - 1)
  {
    var fmt := FormatHex(key, 0, BLOCK, "\n", false);
    HexIsNeverTruncated(key, BLOCK, "\n", false);
    PrintedIsTaken(done, FILE_CAPACITY, KeyText(key));
    out := Printed(before, FILE_CAPACITY, fmt + "\n");
  }

  lemma BodyGrows(start: string, keys: seq<Key>, i: nat)
    requires i < |keys|
    ensures start + Body(keys[..i]) + KeyText(keys[i]) == start + Body(keys[..i + 1])
  {
    assert keys[..i + 1][..i] == keys[..i];
  }

  lemma {:induction false} BodyLength(keys: seq<Key>)
    ensures |Body(keys)| == 264 * |keys|
  {
    if keys != [] {
      var key := keys[|keys| - 1];
      BodyLength(keys[..|keys| - 1]);
      HexLength(key, 0, BLOCK, "\n", false);
      BreaksBound(1, 128, BLOCK);
    }
  }

  lemma DecimalLength(n: nat)
    requires n < 10000
    ensures |Decimal(n)| <= 4
  {
    var a, b, c := n / 10, n / 10 / 10, n / 10 / 10 / 10;
    assert c < 10 && |Decimal(c)| == 1;
    assert |Decimal(b)| <= 2;
    assert |Decimal(a)| <= 3;
  }

  /** The buffer holds the whole file exactly when there are at most seven keys. */
  lemma FileFits(keys: seq<Key>)
    ensures |FileText(STATIC_KEY, keys)| < FILE_CAPACITY <==> |keys| <= 7
  {
    BodyLength(keys);
    StaticKeyMarks();
    if |keys| <= 7 {
      DecimalLength(|keys| * 1024);
    }
  }

  // ---- The parser -----------------------------------------------------------------------------------

  const KEY_LEN := 128
  const MATERIAL_LEN := 256

  /** The parse states; `Fatal` is the exit on a character that is neither hex nor white space. */
  datatype Phase = Initial | Head | Reading | Complete | Foot | Finished | Fatal

  datatype Parser = Parser(phase: Phase, lineIndex: nat, matched: nat, pending: Option<char>, out: Bytes)

  const START := Parser(Initial, 0, 0, None, [])

  /** The phase once the first character of a line has been looked at. */
  function LineStart(p: Parser, c: char): Phase {
    if p.lineIndex != 0 then p.phase
    else
      var phase := if p.phase == Head then Reading else p.phase;
      if (phase == Reading || phase == Complete) && c == '-' then Foot else phase
  }

  predicate Matches(line: string, i: nat, c: char) {
    i < |line| && line[i] == c
  }

  function Compared(m: Marks, phase: Phase, i: nat, matched: nat, c: char): (Phase, nat) {
    if phase == Initial && Matches(m.head, i, c) then
      (if matched + 1 == |m.head| then Head else Initial, matched + 1)
    else if phase == Foot && Matches(m.foot, i, c) then
      (if matched + 1 == |m.foot| then Finished else Foot, matched + 1)
    else (phase, matched)
  }

  /** A character of key material. */
  function Took(p: Parser, c: char): Parser {
    if HexValue(c) >= 0 then
      match p.pending
      case None => p.(pending := Some(c))
      case Some(high) =>
        if HexValue(high) < 0 then p.(phase := Fatal)
        else
          var out := p.out + [HexValue(high) * 16 + HexValue(c)];
          p.(pending := None, out := out, phase := if |out| == MATERIAL_LEN then Complete else Reading)
    else if IsSpace(c) then p
    else p.(phase := Fatal)
  }

  /** One character of `read_key_file`. */
  function Step(m: Marks, p: Parser, c: char): Parser {
    if p.phase == Fatal then p
    else if c == '\n' then p.(lineIndex := 0, matched := 0)
    else
      var (phase, matched) := Compared(m, LineStart(p, c), p.lineIndex, p.matched, c);
      var q := p.(phase := phase, matched := matched);
      var r := if phase == Reading then Took(q, c) else q;
      r.(lineIndex := p.lineIndex + 1)
  }

  function Run(m: Marks, p: Parser, s: string): Parser
    decreases |s|
  {
    if s == [] then p else Run(m, Step(m, p, s[0]), s[1..])
  }

  /** What the caller of `read_key_file` gets: the count and the key array, cleared beforehand. */
  datatype Key2 = Key2(n: nat, material: Bytes)

  function Result(p: Parser, mustSucceed: bool): Option<Key2>
    requires |p.out| <= MATERIAL_LEN
  {
    var n := |p.out| / KEY_LEN;
    if p.phase == Fatal || (mustSucceed && (n == 0 || p.phase != Finished)) then None
    else Some(Key2(n, p.out + Zeros(MATERIAL_LEN - |p.out|)))
  }

  /** What holds of the parser after any text. */
  predicate Sound(p: Parser) {
    && |p.out| <= MATERIAL_LEN
    && (p.phase == Reading ==> |p.out| < MATERIAL_LEN)
    && (p.phase == Initial || p.phase == Head ==> p.out == [] && p.pending == None)
    && (p.pending.Some? ==> HexValue(p.pending.value) >= 0)
  }

  function Rank(phase: Phase): nat {
    match phase
    case Initial => 0
    case Head => 1
    case Reading => 2
    case Complete => 3
    case Foot => 4
    case Finished => 5
    case Fatal => 6
  }

  lemma StepIsSafe(m: Marks, p: Parser, c: char)
    requires Sound(p)
    ensures var q := Step(m, p, c);
            Sound(q) && p.out <= q.out && Rank(p.phase) <= Rank(q.phase)
  {
  }

  /** On every text the key array is never overrun, key bytes are never taken back and the states only
      advance. */
  lemma {:induction false} ParserIsSafe(m: Marks, p: Parser, s: string)
    requires Sound(p)
    ensures var q := Run(m, p, s);
            Sound(q) && p.out <= q.out && Rank(p.phase) <= Rank(q.phase)
    decreases |s|
  {
    if s != [] {
      StepIsSafe(m, p, s[0]);
      ParserIsSafe(m, Step(m, p, s[0]), s[1..]);
    }
  }

  /** `read_key_file`. */
  method ReadKeyFile(m: Marks, text: string, mustSucceed: bool) returns (key2: Option<Key2>)
    ensures |Run(m, START, text).out| <= MATERIAL_LEN
    ensures key2 == Result(Run(m, START, text), mustSucceed)
  {
    ParserIsSafe(m, START, text);
    var p := START;
    var i := 0;
    assert text[0..] == text;
    while i < |text|
      invariant 0 <= i <= |text|
      invariant Run(m, p, text[i..]) == Run(m, START, text)
    {
      assert text[i..][0] == text[i] && text[i..][1..] == text[i + 1..];
      p := ReadChar(m, p, text[i]);
      i := i + 1;
    }
    assert text[i..] == [];
    key2 := Result(p, mustSucceed);
  }

  /** The body of its loop. */
  method ReadChar(m: Marks, p: Parser, c: char) returns (q: Parser)
    ensures q == Step(m, p, c)
  {
    if p.phase == Fatal {
      return p;
    }
    if c == '\n' {
      return p.(lineIndex := 0, matched := 0);
    }
    var phase, matched := p.phase, p.matched;
    if p.lineIndex == 0 {
      if phase == Head {
        phase := Reading;
      }
      if (phase == Reading || phase == Complete) && c == '-' {
        phase := Foot;
      }
    }
    if phase == Initial {
      if p.lineIndex < |m.head| && c == m.head[p.lineIndex] {
        matched := matched + 1;
        if matched == |m.head| {
          phase := Head;
        }
      }
    }
    if phase == Foot {
      if p.lineIndex < |m.foot| && c == m.foot[p.lineIndex] {
        matched := matched + 1;
        if matched == |m.foot| {
          phase := Finished;
        }
      }
    }
    q := p.(phase := phase, matched := matched);
    if phase == Reading {
      q := Took(q, c);
    }
    q := q.(lineIndex := p.lineIndex + 1);
  }

  // ---- Reading what was written -------------------------------------------------------------------------

  lemma {:induction false} RunConcat(m: Marks, p: Parser, s: string, t: string)
    ensures Run(m, p, s + t) == Run(m, Run(m, p, s), t)
    decreases |s|
  {
    if s == [] {
      assert s + t == t;
    } else {
      RunConcat(m, Step(m, p, s[0]), s[1..], t);
      assert (s + t)[1..] == s[1..] + t;
    }
  }

  lemma RunNewline(m: Marks, p: Parser)
    requires p.phase != Fatal
    ensures Run(m, p, "\n") == p.(lineIndex := 0, matched := 0)
  {
    assert "\n"[1..] == [];
  }

  /** A line that differs from the header in its first character cannot complete it. */
  lemma {:induction false} OtherLine(m: Marks, p: Parser, s: string)
    requires Usable(m) && OneLine(s) && p.phase == Initial && p.matched < p.lineIndex && p.matched < |m.head|
    ensures Run(m, p, s) == p.(lineIndex := p.lineIndex + |s|, matched := Run(m, p, s).matched)
    decreases |s|
  {
    if s != [] {
      var q := Step(m, p, s[0]);
      assert q.phase == Initial && q == p.(lineIndex := p.lineIndex + 1, matched := q.matched);
      OtherLine(m, q, s[1..]);
    }
  }

  lemma CommentLine(m: Marks, s: string)
    requires Usable(m) && OneLine(s) && s != [] && s[0] != '-'
    ensures Run(m, START, s + "\n") == START
  {
    var q := Step(m, START, s[0]);
    OtherLine(m, q, s[1..]);
    RunConcat(m, START, s, "\n");
    RunNewline(m, Run(m, START, s));
  }

  lemma {:induction false} DecimalOneLine(n: nat)
    ensures OneLine(Decimal(n))
  {
    if n >= 10 {
      DecimalOneLine(n / 10);
    }
  }

  lemma PreambleIsSkipped(m: Marks, nbits: nat)
    requires Usable(m)
    ensures Run(m, START, Preamble(nbits)) == START
  {
    DecimalOneLine(nbits);
    var first, second, third := "#\n", Comment(nbits) + "\n", "#\n";
    CommentLine(m, "#");
    assert "#" + "\n" == "#\n";
    CommentLine(m, Comment(nbits));
    RunConcat(m, START, first, second);
    RunConcat(m, START, first + second, third);
  }

  /** The rest of the header line. */
  lemma {:induction false} HeadRest(m: Marks, i: nat)
    requires Usable(m) && i < |m.head|
    ensures Run(m, Parser(Initial, i, i, None, []), m.head[i..]) == Parser(Head, |m.head|, |m.head|, None, [])
    decreases |m.head| - i
  {
    var p := Parser(Initial, i, i, None, []);
    assert m.head[i..][1..] == m.head[i + 1..];
    if i + 1 < |m.head| {
      HeadRest(m, i + 1);
    }
  }

  lemma HeadLine(m: Marks)
    requires Usable(m)
    ensures Run(m, START, m.head + "\n") == Parser(Head, 0, 0, None, [])
  {
    HeadRest(m, 0);
    assert m.head[0..] == m.head;
    RunConcat(m, START, m.head, "\n");
    RunNewline(m, Parser(Head, |m.head|, |m.head|, None, []));
  }

  lemma {:induction false} FootRest(m: Marks, i: nat, out: Bytes)
    requires Usable(m) && 0 < i <= |m.foot|
    ensures Run(m, Parser(if i == |m.foot| then Finished else Foot, i, i, None, out), m.foot[i..])
         == Parser(Finished, |m.foot|, |m.foot|, None, out)
    decreases |m.foot| - i
  {
    if i < |m.foot| {
      assert m.foot[i..][1..] == m.foot[i + 1..];
      FootRest(m, i + 1, out);
    }
  }

  /** The parser in the middle of the key material. */
  function At(out: Bytes, lineIndex: nat): Parser {
    Parser(if |out| == MATERIAL_LEN then Complete else Reading, lineIndex, 0, None, out)
  }

  lemma FootLine(m: Marks, out: Bytes)
    requires Usable(m)
    ensures Run(m, At(out, 0), m.foot + "\n") == Parser(Finished, 0, 0, None, out)
  {
    FootRest(m, 1, out);
    RunConcat(m, At(out, 0), m.foot, "\n");
    RunNewline(m, Parser(Finished, |m.foot|, |m.foot|, None, out));
  }

  function Capped(s: Bytes): (r: Bytes)
    ensures |r| <= MATERIAL_LEN
  {
    if |s| <= MATERIAL_LEN then s else s[..MATERIAL_LEN]
  }

  lemma RunTwo(m: Marks, p: Parser, s: string)
    requires |s| == 2
    ensures Run(m, p, s) == Step(m, Step(m, p, s[0]), s[1])
  {
    var q := Step(m, p, s[0]);
    assert s[1..][0] == s[1] && s[1..][1..] == [];
    assert Run(m, q, s[1..]) == Run(m, Step(m, q, s[1]), []);
  }

  /** Two hex digits give one byte, while there is room. */
  lemma ByteIsRead(m: Marks, out: Bytes, lineIndex: nat, b: byte)
    requires |out| <= MATERIAL_LEN
    ensures Run(m, At(out, lineIndex), Hex2(b, false)) == At(Capped(out + [b]), lineIndex + 2)
  {
    var p, s := At(out, lineIndex), Hex2(b, false);
    HexUndone(b, false);
    RunTwo(m, p, s);
    if |out| < MATERIAL_LEN {
      var q := Step(m, p, s[0]);
      assert q == p.(lineIndex := lineIndex + 1, pending := Some(s[0]));
      assert b / 16 * 16 + b % 16 == b;
    } else {
      assert Capped(out + [b]) == out;
    }
  }

  lemma BreakIsRead(m: Marks, out: Bytes, lineIndex: nat, i: nat)
    ensures Run(m, At(out, lineIndex), Separate(i, BLOCK, "\n"))
         == At(out, if i > 0 && i % BLOCK == 0 then 0 else lineIndex)
  {
    if i > 0 && i % BLOCK == 0 {
      RunNewline(m, At(out, lineIndex));
    }
  }

  lemma CappedTwice(s: Bytes, b: byte)
    ensures Capped(Capped(s) + [b]) == Capped(s + [b])
  {
  }

  /** Somewhere on a line, the given bytes read. */
  ghost predicate HasRead(p: Parser, out: Bytes) {
    p == At(out, p.lineIndex)
  }

  /** The hex lines of a key, from byte `i`. */
  lemma {:induction false} LinesAreRead(m: Marks, before: Bytes, key: Key, i: nat, lineIndex: nat)
    requires i <= |key|
    ensures HasRead(Run(m, At(Capped(before + key[..i]), lineIndex), HexFrom(key, i, BLOCK, "\n", false)),
                    Capped(before + key))
    decreases |key| - i
  {
    if i == |key| {
      assert key[..i] == key;
    } else {
      var li := if i > 0 && i % BLOCK == 0 then 0 else lineIndex;
      LinesAreRead(m, before, key, i + 1, li + 2);
      LinesOneMore(m, before, key, i, lineIndex, li);
    }
  }

  lemma LinesOneMore(m: Marks, before: Bytes, key: Key, i: nat, lineIndex: nat, li: nat)
    requires i < |key| && li == if i > 0 && i % BLOCK == 0 then 0 else lineIndex
    requires HasRead(Run(m, At(Capped(before + key[..i + 1]), li + 2), HexFrom(key, i + 1, BLOCK, "\n", false)),
                     Capped(before + key))
    ensures HasRead(Run(m, At(Capped(before + key[..i]), lineIndex), HexFrom(key, i, BLOCK, "\n", false)),
                    Capped(before + key))
  {
    PieceIsRead(m, before + key[..i], lineIndex, li, key, i);
    OneByteMore(before, key, i);
  }

  lemma OneByteMore(before: Bytes, key: Key, i: nat)
    requires i < |key|
    ensures before + key[..i] + [key[i]] == before + key[..i + 1]
  {
  }

  lemma PieceIsRead(m: Marks, s: Bytes, lineIndex: nat, li: nat, key: Key, i: nat)
    requires i < |key| && li == if i > 0 && i % BLOCK == 0 then 0 else lineIndex
    ensures Run(m, At(Capped(s), lineIndex), HexFrom(key, i, BLOCK, "\n", false))
         == Run(m, At(Capped(s + [key[i]]), li + 2), HexFrom(key, i + 1, BLOCK, "\n", false))
  {
    var p, sep, hex, rest :=
      At(Capped(s), lineIndex), Separate(i, BLOCK, "\n"), Hex2(key[i], false), HexFrom(key, i + 1, BLOCK, "\n", false);
    RunConcat(m, p, sep + hex, rest);
    RunConcat(m, p, sep, hex);
    BreakIsRead(m, Capped(s), lineIndex, i);
    ByteIsRead(m, Capped(s), li, key[i]);
    CappedTwice(s, key[i]);
  }

  lemma KeyIsRead(m: Marks, before: Bytes, key: Key)
    ensures Run(m, At(Capped(before), 0), KeyText(key)) == At(Capped(before + key), 0)
  {
    assert before + key[..0] == before;
    LinesAreRead(m, before, key, 0, 0);
    var hex := HexFrom(key, 0, BLOCK, "\n", false);
    RunConcat(m, At(Capped(before), 0), hex, "\n");
    RunNewline(m, Run(m, At(Capped(before), 0), hex));
  }

  function AllBytes(keys: seq<Key>): (b: Bytes)
    ensures |b| == 128 * |keys|
  {
    if keys == [] then [] else AllBytes(keys[..|keys| - 1]) + keys[|keys| - 1]
  }

  lemma {:induction false} BodyIsRead(m: Marks, keys: seq<Key>)
    ensures Run(m, At([], 0), Body(keys)) == At(Capped(AllBytes(keys)), 0)
  {
    if keys != [] {
      var front, key := keys[..|keys| - 1], keys[|keys| - 1];
      BodyIsRead(m, front);
      RunConcat(m, At([], 0), Body(front), KeyText(key));
      KeyIsRead(m, AllBytes(front), key);
    }
  }

  /** After the header, the first character of the next line decides as it does within the data. */
  lemma AfterHead(m: Marks, s: string)
    requires s != [] && s[0] != '\n'
    ensures Run(m, Parser(Head, 0, 0, None, []), s) == Run(m, At([], 0), s)
  {
  }

  lemma {:induction false} BodyStart(keys: seq<Key>)
    requires keys != []
    ensures Body(keys) != [] && Body(keys)[0] != '\n'
  {
    if |keys| == 1 {
      assert keys[..0] == [];
      HexUndone(keys[0][0], false);
    } else {
      BodyStart(keys[..|keys| - 1]);
    }
  }

  lemma {:induction false} FinishedForGood(m: Marks, p: Parser, s: string)
    requires p.phase == Finished
    ensures var q := Run(m, p, s); q.phase == Finished && q.out == p.out
    decreases |s|
  {
    if s != [] {
      FinishedForGood(m, Step(m, p, s[0]), s[1..]);
    }
  }

  lemma FileIsRead(m: Marks, keys: seq<Key>)
    requires Usable(m)
    ensures Run(m, START, FileText(m, keys)) == Parser(Finished, 0, 0, None, Capped(AllBytes(keys)))
  {
    var pre, head, body, foot := Preamble(|keys| * 1024), m.head + "\n", Body(keys), m.foot + "\n";
    var after := Parser(Head, 0, 0, None, []);
    PreambleIsSkipped(m, |keys| * 1024);
    HeadLine(m);
    RunConcat(m, START, pre, head);
    RunConcat(m, START, pre + head, body);
    RunConcat(m, START, pre + head + body, foot);
    RunConcat(m, after, body, foot);
    BodyAndFoot(m, keys);
  }

  lemma BodyAndFoot(m: Marks, keys: seq<Key>)
    requires Usable(m)
    ensures Run(m, Parser(Head, 0, 0, None, []), Body(keys) + (m.foot + "\n"))
         == Parser(Finished, 0, 0, None, Capped(AllBytes(keys)))
  {
    var body, foot := Body(keys), m.foot + "\n";
    BodyIsRead(m, keys);
    FootLine(m, Capped(AllBytes(keys)));
    RunConcat(m, At([], 0), body, foot);
    if keys == [] {
      assert body + foot == foot;
    } else {
      BodyStart(keys);
    }
    AfterHead(m, body + foot);
  }

  lemma CappedCount(keys: seq<Key>)
    ensures |Capped(AllBytes(keys))| / KEY_LEN == Min(|keys|, 2)
  {
  }

  /** The parser on the whole text of a key file, with any text behind it. */
  lemma WholeFileIsRead(keys: seq<Key>, tail: string)
    ensures var p := Run(STATIC_KEY, START, FileText(STATIC_KEY, keys) + tail);
            p.phase == Finished && p.out == Capped(AllBytes(keys))
  {
    StaticKeyMarks();
    var text := FileText(STATIC_KEY, keys);
    FileIsRead(STATIC_KEY, keys);
    RunConcat(STATIC_KEY, START, text, tail);
    FinishedForGood(STATIC_KEY, Run(STATIC_KEY, START, text), tail);
  }

  /** Everything of the file before its last line. */
  function BeforeFoot(m: Marks, keys: seq<Key>): string {
    Preamble(|keys| * 1024) + (m.head + "\n") + Body(keys)
  }

  lemma BeforeFootIsRead(m: Marks, keys: seq<Key>)
    requires Usable(m)
    ensures Rank(Run(m, START, BeforeFoot(m, keys)).phase) < Rank(Foot)
  {
    var pre, head, body := Preamble(|keys| * 1024), m.head + "\n", Body(keys);
    PreambleIsSkipped(m, |keys| * 1024);
    HeadLine(m);
    RunConcat(m, START, pre, head);
    RunConcat(m, START, pre + head, body);
    if keys != [] {
      BodyStart(keys);
      AfterHead(m, body);
      BodyIsRead(m, keys);
    }
  }

  /** A file cut before its last line is never finished: the states only advance. */
  lemma CutFileIsNotFinished(m: Marks, keys: seq<Key>, n: nat)
    requires Usable(m) && n <= |BeforeFoot(m, keys)|
    ensures Rank(Run(m, START, BeforeFoot(m, keys)[..n]).phase) < Rank(Foot)
    ensures |Run(m, START, BeforeFoot(m, keys)[..n]).out| <= MATERIAL_LEN
  {
    var text := BeforeFoot(m, keys);
    var p := Run(m, START, text[..n]);
    assert text == text[..n] + text[n..];
    RunConcat(m, START, text[..n], text[n..]);
    ParserIsSafe(m, START, text[..n]);
    ParserIsSafe(m, p, text[n..]);
    BeforeFootIsRead(m, keys);
  }

  lemma EightKeysAreCut(keys: seq<Key>)
    requires |keys| >= 8
    ensures FILE_CAPACITY - 1 <= |BeforeFoot(STATIC_KEY, keys)|
    ensures Take(FileText(STATIC_KEY, keys), FILE_CAPACITY - 1) == BeforeFoot(STATIC_KEY, keys)[..FILE_CAPACITY - 1]
  {
    BodyLength(keys);
  }

  lemma FirstTwoKeys(keys: seq<Key>)
    ensures Capped(AllBytes(keys)) == AllBytes(keys[..Min(2, |keys|)])
  {
    if |keys| <= 2 {
      assert keys[..|keys|] == keys;
    } else {
      FrontBytes(keys, 2);
    }
  }

  lemma {:induction false} FrontBytes(keys: seq<Key>, n: nat)
    requires n <= |keys|
    ensures AllBytes(keys[..n]) <= AllBytes(keys)
    decreases |keys|
  {
    if n == |keys| {
      assert keys[..n] == keys;
    } else {
      var front := keys[..|keys| - 1];
      FrontBytes(front, n);
      assert front[..n] == keys[..n];
    }
  }

  /** What a key file that was written gives when it is read, for every number of keys: nothing if there is no
      key, or if eight or more did not fit the buffer of the writer; one or two keys come back byte for byte; of
      three to seven the first two do. */
  lemma WriteThenRead(keys: seq<Key>)
    ensures var p := Run(STATIC_KEY, START, Take(FileText(STATIC_KEY, keys), FILE_CAPACITY - 1));
            && |p.out| <= MATERIAL_LEN
            && Result(p, true) ==
                 if |keys| == 0 || |keys| >= 8 then None
                 else
                   var n := Min(|keys|, 2);
                   Some(Key2(n, AllBytes(keys[..n]) + Zeros(MATERIAL_LEN - 128 * n)))
  {
    if |keys| >= 8 {
      StaticKeyMarks();
      EightKeysAreCut(keys);
      CutFileIsNotFinished(STATIC_KEY, keys, FILE_CAPACITY - 1);
    } else {
      FittingFileIsRead(keys, []);
      assert FileText(STATIC_KEY, keys) + [] == FileText(STATIC_KEY, keys);
      FileFits(keys);
    }
  }

  /** Up to seven keys: what follows the file, such as the terminator of an inline file, does not matter. */
  lemma FittingFileIsRead(keys: seq<Key>, tail: string)
    requires |keys| <= 7
    ensures var p := Run(STATIC_KEY, START, Take(FileText(STATIC_KEY, keys), FILE_CAPACITY - 1) + tail);
            && |p.out| <= MATERIAL_LEN
            && Result(p, true) ==
                 if |keys| == 0 then None
                 else
                   var n := Min(|keys|, 2);
                   Some(Key2(n, AllBytes(keys[..n]) + Zeros(MATERIAL_LEN - 128 * n)))
  {
    FileFits(keys);
    WholeFileIsRead(keys, tail);
    CappedCount(keys);
    FirstTwoKeys(keys);
  }

  // ---- What a finished parser has seen ------------------------------------------------------------------

  predicate LineAt(s: string, i: nat, line: string) {
    i + |line| <= |s| && (i == 0 || s[i - 1] == '\n') && s[i..i + |line|] == line
  }

  /** Some line of the text starts with the given one. */
  ghost predicate HasLine(s: string, line: string) {
    exists i: nat :: LineAt(s, i, line)
  }

  lemma HasLineGrows(s: string, c: char, line: string)
    requires HasLine(s, line)
    ensures HasLine(s + [c], line)
  {
    var i: nat :| LineAt(s, i, line);
    assert (s + [c])[i..i + |line|] == s[i..i + |line|];
    assert LineAt(s + [c], i, line);
  }

  /** `matched` counts at most the characters of the current line compared so far, and all of them only
      if they are the start of the marker. */
  ghost predicate Tracking(p: Parser, s: string, line: string) {
    var n := Min(p.lineIndex, |line|);
    p.matched <= n && p.lineIndex <= |s|
    && (p.matched == n ==> s[|s| - p.lineIndex..][..n] == line[..n])
  }

  ghost predicate OnLine(p: Parser, s: string) {
    && p.lineIndex <= |s| && (p.lineIndex == |s| || s[|s| - p.lineIndex - 1] == '\n')
    && (p.lineIndex == 0 ==> p.matched == 0)
  }

  ghost predicate Seen(m: Marks, p: Parser, s: string) {
    p.phase != Fatal ==>
      && OnLine(p, s)
      && (p.phase == Initial ==> Tracking(p, s, m.head))
      && (p.phase != Initial ==> HasLine(s, m.head))
      && (p.phase == Foot ==> Tracking(p, s, m.foot))
      && (p.phase == Finished ==> HasLine(s, m.foot))
  }

  lemma TrackingStep(p: Parser, q: Parser, s: string, c: char, line: string)
    requires Tracking(p, s, line) && q.lineIndex == p.lineIndex + 1
    requires q.matched == if Matches(line, p.lineIndex, c) then p.matched + 1 else p.matched
    requires p.matched < |line|
    ensures Tracking(q, s + [c], line)
  {
    var n, n1 := Min(p.lineIndex, |line|), Min(q.lineIndex, |line|);
    var now, after := s[|s| - p.lineIndex..], (s + [c])[|s + [c]| - q.lineIndex..];
    assert after == now + [c];
    if q.matched == n1 {
      assert n1 == n + 1 && Matches(line, p.lineIndex, c);
      assert after[..n1] == now[..n] + [c];
      assert line[..n1] == line[..n] + [c];
    }
  }

  lemma TrackedIsLine(p: Parser, s: string, line: string)
    requires Tracking(p, s, line) && OnLine(p, s) && p.matched == |line|
    ensures HasLine(s, line)
  {
    var i := |s| - p.lineIndex;
    assert s[i..i + |line|] == s[i..][..|line|];
    assert LineAt(s, i, line);
  }

  lemma OnLineStep(m: Marks, p: Parser, s: string, c: char)
    requires OnLine(p, s) && p.phase != Fatal
    ensures OnLine(Step(m, p, c), s + [c])
  {
  }

  /** The cases in which the phase compares with a marker, one step. */
  lemma SeenInitial(m: Marks, p: Parser, s: string, c: char)
    requires m.head != [] && Seen(m, p, s) && p.phase == Initial && c != '\n' && p.matched < |m.head|
    ensures Seen(m, Step(m, p, c), s + [c])
  {
    var q := Step(m, p, c);
    OnLineStep(m, p, s, c);
    TrackingStep(p, q, s, c, m.head);
    if q.phase == Head {
      TrackedIsLine(q, s + [c], m.head);
    }
  }

  lemma SeenFoot(m: Marks, p: Parser, s: string, c: char)
    requires m.foot != [] && Seen(m, p, s) && LineStart(p, c) == Foot && c != '\n' && p.matched < |m.foot|
    requires p.phase != Initial && p.phase != Fatal
    ensures Seen(m, Step(m, p, c), s + [c])
  {
    var q := Step(m, p, c);
    OnLineStep(m, p, s, c);
    HasLineGrows(s, c, m.head);
    TrackingStep(p, q, s, c, m.foot);
    if q.phase == Finished {
      TrackedIsLine(q, s + [c], m.foot);
    }
  }

  lemma SeenNewline(m: Marks, p: Parser, s: string)
    requires Seen(m, p, s) && p.phase != Fatal
    ensures Seen(m, Step(m, p, '\n'), s + ['\n'])
  {
    OnLineStep(m, p, s, '\n');
    if p.phase != Initial {
      HasLineGrows(s, '\n', m.head);
    }
    if p.phase == Finished {
      HasLineGrows(s, '\n', m.foot);
    }
  }

  lemma SeenElsewhere(m: Marks, p: Parser, s: string, c: char)
    requires Seen(m, p, s) && p.phase != Initial && p.phase != Fatal && LineStart(p, c) != Foot && c != '\n'
    ensures Seen(m, Step(m, p, c), s + [c])
  {
    OnLineStep(m, p, s, c);
    HasLineGrows(s, c, m.head);
    if p.phase == Finished {
      HasLineGrows(s, c, m.foot);
    }
  }

  /** A marker under comparison is never complete: the phase moves on when it is. */
  predicate Incomplete(m: Marks, p: Parser) {
    && (p.phase == Initial ==> p.matched < |m.head|)
    && (p.phase == Foot ==> p.matched < |m.foot|)
    && (p.lineIndex == 0 ==> p.matched == 0)
  }

  lemma SeenStep(m: Marks, p: Parser, s: string, c: char)
    requires Usable(m) && Seen(m, p, s) && Incomplete(m, p)
    ensures Seen(m, Step(m, p, c), s + [c]) && Incomplete(m, Step(m, p, c))
  {
    if p.phase == Fatal {
    } else if c == '\n' {
      SeenNewline(m, p, s);
    } else if p.phase == Initial {
      SeenInitial(m, p, s, c);
    } else if LineStart(p, c) == Foot {
      SeenFoot(m, p, s, c);
    } else {
      SeenElsewhere(m, p, s, c);
    }
  }

  lemma {:induction false} SeenRun(m: Marks, p: Parser, s: string, t: string)
    requires Usable(m) && Seen(m, p, s) && Incomplete(m, p)
    ensures Seen(m, Run(m, p, t), s + t)
    decreases |t|
  {
    if t == [] {
      assert s + t == s;
    } else {
      SeenStep(m, p, s, t[0]);
      SeenRun(m, Step(m, p, t[0]), s + [t[0]], t[1..]);
      assert s + [t[0]] + t[1..] == s + t;
    }
  }

  /** Whatever the text, `read_key_file` demands success only of texts that hold a header line and a footer
      line, and then hands out whole keys. */
  lemma AcceptedTextHasMarks(text: string)
    ensures var p := Run(STATIC_KEY, START, text);
            && |p.out| <= MATERIAL_LEN
            && (Result(p, true).Some? ==>
                  && HasLine(text, STATIC_KEY.head) && HasLine(text, STATIC_KEY.foot)
                  && 1 <= Result(p, true).value.n <= 2 && |Result(p, true).value.material| == MATERIAL_LEN)
  {
    StaticKeyMarks();
    ParserIsSafe(STATIC_KEY, START, text);
    SeenRun(STATIC_KEY, START, [], text);
    assert [] + text == text;
    if Result(Run(STATIC_KEY, START, text), true).Some? {
      AcceptedWasSeen(STATIC_KEY, Run(STATIC_KEY, START, text), text);
    }
  }

  lemma AcceptedWasSeen(m: Marks, p: Parser, s: string)
    requires Seen(m, p, s) && |p.out| <= MATERIAL_LEN && Result(p, true).Some?
    ensures HasLine(s, m.head) && HasLine(s, m.foot)
    ensures 1 <= Result(p, true).value.n <= 2 && |Result(p, true).value.material| == MATERIAL_LEN
  {
  }

  // ---- What is between the lines ------------------------------------------------------------------------

  /** The number that a decimal text denotes. */
  function Denoted(s: string): int {
    if s == [] then 0 else 10 * Denoted(s[..|s| - 1]) + (s[|s| - 1] as int - '0' as int)
  }

  lemma {:induction false} DecimalDenotes(n: nat)
    ensures Denoted(Decimal(n)) == n
  {
    if n < 10 {
      assert ['0' + n as char][..0] == [];
    } else {
      DecimalDenotes(n / 10);
      var front := Decimal(n / 10);
      assert Decimal(n)[..|front|] == front;
    }
  }

  /** White space between the digits of a key changes nothing but the column. */
  lemma SpaceIsSkipped(m: Marks, p: Parser, c: char)
    requires p.phase == Reading && c in " \t\r\U{000B}\U{000C}"
    ensures Step(m, p, c) == p.(lineIndex := p.lineIndex + 1)
  {
  }

  /** Anything else there that is neither a digit, a line end nor the start of a footer line ends the reading,
      whatever follows. */
  lemma BadCharacterIsFatal(m: Marks, p: Parser, c: char, s: string, mustSucceed: bool)
    requires Sound(p) && p.phase == Reading
    requires c !in "0123456789abcdefABCDEF \t\r\n\U{000B}\U{000C}" && (c == '-' ==> p.lineIndex > 0)
    ensures var q := Run(m, p, [c] + s); |q.out| <= MATERIAL_LEN && Result(q, mustSucceed) == None
  {
    NotADigit(c);
    assert Step(m, p, c).phase == Fatal;
    FatalForGood(m, Step(m, p, c), s);
    assert ([c] + s)[1..] == s;
  }

  lemma NotADigit(c: char)
    requires c !in "0123456789abcdefABCDEF"
    ensures HexValue(c) == -1
  {
  }

  lemma {:induction false} FatalForGood(m: Marks, p: Parser, s: string)
    requires p.phase == Fatal
    ensures Run(m, p, s) == p
    decreases |s|
  {
    if s != [] {
      FatalForGood(m, p, s[1..]);
    }
  }

  /** A text that fills the buffer or is cut by it ends in the note, if that fits, with the start of the text before;
      any other text stays as it is. */
  lemma TruncationIsMarked(text: string, capacity: nat, note: string)
    ensures var cut := Take(text, capacity - 1);
            var out := CatTruncated(cut, capacity, note);
            if |note| + 1 < capacity <= |text| + 1 then
              && |out| == capacity - 1
              && out[|out| - |note|..] == note && out[..|out| - |note|] == text[..|out| - |note|]
            else out == cut
  {
  }
}
