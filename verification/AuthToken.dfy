/** Authentication tokens (auth_token.c): issuing, renewing and verifying. */
module AuthToken {
  import opened Bytes
  import B = Base64

  const PREFIX := "SESS_ID_AT_"
  const TWO_32 := 0x1_0000_0000
  const TWO_64 := 0x1_0000_0000_0000_0000

  /** A SHA256 HMAC under the server's key. */
  type Digest = b: Bytes | |b| == 32 witness Zeros(32)

  type Mac = Bytes -> Digest

  type SessionId = b: Bytes | |b| == 12 witness Zeros(12)

  /** A time as an unsigned 64-bit number. */
  type Time = t: nat | t < TWO_64

  /** The token state of a client instance: the newest token and the first one. */
  datatype Multi = Multi(authToken: Option<string>, initial: Option<string>)

  datatype Options = Options(renewal: nat, lifetime: nat, userPassLen: nat)

  /** The flags of `auth_token_state_flags`. */
  datatype Flags = Flags(hmacOk: bool, expired: bool, emptyUser: bool)

  const NO_FLAGS := Flags(false, false, false)

  function Stamp(t: Time): (b: Bytes)
    ensures |b| == 8
  {
    BigEndian(t, 8)
  }

  /** The part of a token that its HMAC covers, after the user name. */
  function Claims(sid: SessionId, t0: Time, t: Time): (b: Bytes)
    ensures |b| == 28
  {
    sid + Stamp(t0) + Stamp(t)
  }

  function Data(mac: Mac, user: Bytes, sid: SessionId, t0: Time, t: Time): (b: Bytes)
    ensures |b| == 60
  {
    Claims(sid, t0, t) + mac(user + Claims(sid, t0, t))
  }

  function Text(data: Bytes): string {
    PREFIX + B.Encode(data)
  }

  /** The session id and first timestamp read back from a token by cutting its text. */
  function Recovered(text: string): Option<(SessionId, Time)>
    requires |text| >= 39
  {
    match B.Decode(text[27..39], 9)
    case None => None
    case Some(stamp) =>
      match B.Decode(text[11..27], 12)
      case None => None
      case Some(sid) =>
        if |stamp| == 9 && |sid| == 12 then Some((sid, ReadStamp(stamp[..8]))) else None
  }

  function ReadStamp(b: Bytes): Time
    requires |b| == 8
  {
    StampBound(b);
    FromBigEndian(b)
  }

  lemma StampBound(b: Bytes)
    requires |b| == 8
    ensures FromBigEndian(b) < TWO_64
  {
    FromBigEndianRoundTrip(b);
    Pow256Of8();
  }

  lemma Pow256Of8()
    ensures Pow256(8) == TWO_64
  {
    assert Pow256(4) == TWO_32;
    assert Pow256(6) == 0x1_0000 * Pow256(4);
  }

  lemma StampReadsBack(t: Time)
    ensures ReadStamp(Stamp(t)) == t
  {
    Pow256Of8();
    BigEndianRoundTrip(t, 8);
  }

  datatype Renewal = Renewal(user: Bytes, emptyUser: bool, now: Time, random: SessionId)

  /** The name a token is signed for. */
  function Signer(r: Renewal): Bytes {
    if r.emptyUser then [] else r.user
  }

  predicate LongEnough(m: Multi) {
    m.initial.Some? ==> |m.initial.value| >= 39
  }

  /** `generate_auth_token`; nothing when one of its assertions fails. */
  function Generated(mac: Mac, m: Multi, r: Renewal): Option<Multi>
    requires LongEnough(m)
  {
    var first: Option<(SessionId, Time)> :=
      if m.initial.None? then Some((r.random, r.now)) else Recovered(m.initial.value);
    match first
    case None => None
    case Some((sid, t0)) =>
      var text := Text(Data(mac, Signer(r), sid, t0, r.now));
      Some(Multi(Some(text), if m.initial.None? then Some(text) else m.initial))
  }

  predicate IsAuthToken(password: string) {
    PREFIX <= password
  }

  predicate Expired(o: Options, t0: Time, t: Time, now: Time) {
    || !(t <= now < (t + 2 * o.renewal % TWO_32) % TWO_64)
    || t < t0
    || (o.lifetime != 0 && now > (t0 + o.lifetime) % TWO_64)
  }

  /** What a decoded token earns its bearer, before its session is compared. */
  function Judged(mac: Mac, o: Options, user: Bytes, data: Bytes, now: Time): (Flags, Bytes)
    requires |data| == 60
  {
    var claims, tag := data[..28], data[28..];
    if mac(user + claims) != tag && mac([] + claims) != tag then (NO_FLAGS, user)
    else
      var byUser := mac(user + claims) == tag;
      (Flags(true, Expired(o, ReadStamp(data[12..20]), ReadStamp(data[20..28]), now), !byUser),
       if byUser then user else [])
  }

  /** `verify_auth_token`: the flags, and the user name it leaves behind. */
  function Verified(mac: Mac, o: Options, m: Multi, user: Bytes, password: string, now: Time): (Flags, Bytes)
    requires LongEnough(m) && IsAuthToken(password)
  {
    match B.Decode(password[11..], o.userPassLen)
    case None => (NO_FLAGS, user)
    case Some(data) =>
      if |data| != 60 then (NO_FLAGS, user)
      else
        DecodedLength(password, o.userPassLen);
        var (flags, who) := Judged(mac, o, user, data, now);
        if m.initial.Some? && m.initial.value[..27] != password[..27] then (NO_FLAGS, who) else (flags, who)
  }

  lemma DecodedLength(password: string, size: int)
    requires IsAuthToken(password) && B.Decode(password[11..], size).Some?
    requires |B.Decode(password[11..], size).value| == 60
    ensures |password| >= 91
  {
    B.DecodeShrinks(password[11..], size);
  }

  // ---- Reading a token back -----------------------------------------------------------------

  lemma TextLength(data: Bytes)
    requires |data| == 60
    ensures |Text(data)| == 91 && IsAuthToken(Text(data)) && Text(data)[11..] == B.Encode(data)
  {
    B.EncodeLength(data);
    Prefixed(PREFIX, B.Encode(data));
  }

  lemma Prefixed(p: string, s: string)
    ensures |p + s| == |p| + |s| && p <= p + s && (p + s)[|p|..] == s
  {
  }

  /** The whole text decodes to the whole token. */
  lemma TextReadsBack(data: Bytes, size: nat)
    requires |data| == 60 && size >= 60
    ensures IsAuthToken(Text(data)) && B.Decode(Text(data)[11..], size) == Some(data)
  {
    TextLength(data);
    B.DecodeUndoesEncode(data, size);
  }

  lemma TextOfParts(a: Bytes, b: Bytes, c: Bytes)
    requires |a| % 3 == 0 && |b| % 3 == 0
    ensures Text(a + (b + c)) == PREFIX + (B.Encode(a) + (B.Encode(b) + B.Encode(c)))
  {
    B.EncodeConcat(a, b + c);
    B.EncodeConcat(b, c);
  }

  /** Cutting the text after 16 and after 28 characters cuts the token after 12 and after 21 bytes. */
  lemma TextCuts(data: Bytes)
    requires |data| == 60
    ensures |Text(data)| == 91
    ensures Text(data)[11..27] == B.Encode(data[..12])
    ensures Text(data)[27..39] == B.Encode(data[12..21])
  {
    var a, b, c := data[..12], data[12..21], data[21..];
    TextLength(data);
    assert data == a + (b + c);
    TextOfParts(a, b, c);
    B.EncodedSize(a, 4);
    B.EncodedSize(b, 3);
    CutText(PREFIX, B.Encode(a), B.Encode(b), B.Encode(c));
  }

  lemma CutText(p: string, a: string, b: string, c: string)
    requires |p| == 11 && |a| == 16 && |b| == 12
    ensures var s := p + (a + (b + c)); s[11..27] == a && s[27..39] == b
  {
  }

  /** Renewal reads the session id and the first timestamp back from the first token's text. */
  lemma RecoveredFromText(data: Bytes)
    requires |data| == 60
    ensures |Text(data)| == 91
    ensures Recovered(Text(data)) == Some((data[..12], ReadStamp(data[12..20])))
  {
    TextCuts(data);
    B.DecodeUndoesEncode(data[..12], 12);
    B.DecodeUndoesEncode(data[12..21], 9);
    assert data[12..21][..8] == data[12..20];
  }

  lemma ClaimsParts(sid: SessionId, t0: Time, t: Time, tag: Bytes)
    requires |tag| == 32
    ensures var data := Claims(sid, t0, t) + tag;
            && data[..28] == Claims(sid, t0, t) && data[28..] == tag
            && data[..12] == sid && data[12..20] == Stamp(t0) && data[20..28] == Stamp(t)
  {
  }

  lemma RecoveredFromToken(mac: Mac, user: Bytes, sid: SessionId, t0: Time, t: Time)
    ensures var text := Text(Data(mac, user, sid, t0, t));
            |text| == 91 && Recovered(text) == Some((sid, t0))
  {
    var tag := mac(user + Claims(sid, t0, t));
    ClaimsParts(sid, t0, t, tag);
    RecoveredFromText(Data(mac, user, sid, t0, t));
    StampReadsBack(t0);
  }

  // ---- Chains of renewals --------------------------------------------------------------------

  const FRESH := Multi(None, None)

  /** Issuing a token once for every element. */
  function Chain(mac: Mac, rs: seq<Renewal>): (r: Option<Multi>)
    ensures r.Some? ==> LongEnough(r.value)
  {
    if rs == [] then Some(FRESH)
    else
      match Chain(mac, rs[..|rs| - 1])
      case None => None
      case Some(m) =>
        var next := Generated(mac, m, rs[|rs| - 1]);
        if next.Some? && LongEnough(next.value) then next else None
  }

  /** The token that the k-th element of a chain issues, were the session that of the first. */
  function Issued(mac: Mac, rs: seq<Renewal>, k: nat): string
    requires k < |rs|
  {
    Text(Data(mac, Signer(rs[k]), rs[0].random, rs[0].now, rs[k].now))
  }

  /** No renewal ever fails, the first token is kept, and the newest carries the session id and the
      first timestamp of the first, whatever the clock did in between. */
  lemma {:induction false} ChainKeepsSession(mac: Mac, rs: seq<Renewal>)
    requires rs != []
    ensures Chain(mac, rs) == Some(Multi(Some(Issued(mac, rs, |rs| - 1)), Some(Issued(mac, rs, 0))))
    decreases |rs|
  {
    var r := rs[|rs| - 1];
    RecoveredFromToken(mac, Signer(rs[0]), rs[0].random, rs[0].now, rs[0].now);
    if |rs| == 1 {
      assert rs[..0] == [];
    } else {
      ChainKeepsSession(mac, rs[..|rs| - 1]);
    }
  }

  // ---- Verification --------------------------------------------------------------------------

  /** Exactly what a token earns, by the name it was signed for, its times and the bearer. */
  function Earned(mac: Mac, o: Options, signer: Bytes, sid: SessionId, t0: Time, t: Time, user: Bytes, now: Time)
    : (Flags, Bytes)
  {
    var claims := Claims(sid, t0, t);
    var tag := mac(signer + claims);
    if mac(user + claims) == tag then (Flags(true, Expired(o, t0, t, now), false), user)
    else if mac([] + claims) == tag then (Flags(true, Expired(o, t0, t, now), true), [])
    else (NO_FLAGS, user)
  }

  lemma JudgedToken(mac: Mac, o: Options, signer: Bytes, sid: SessionId, t0: Time, t: Time, user: Bytes, now: Time)
    ensures Judged(mac, o, user, Data(mac, signer, sid, t0, t), now)
         == Earned(mac, o, signer, sid, t0, t, user, now)
  {
    var claims := Claims(sid, t0, t);
    ClaimsParts(sid, t0, t, mac(signer + claims));
    StampReadsBack(t0);
    StampReadsBack(t);
  }

  lemma SameSessionText(x: Bytes, y: Bytes)
    requires |x| == 60 && |y| == 60 && x[..12] == y[..12]
    ensures |Text(x)| == 91 && |Text(y)| == 91 && Text(x)[..27] == Text(y)[..27]
  {
    TextCuts(x);
    TextCuts(y);
    assert forall s: string :: |s| >= 27 && PREFIX <= s ==> s[..27] == PREFIX + s[11..27];
  }

  /** Every token a chain has issued, presented at any later point of the chain, earns exactly what
      its own signer and times deserve. */
  lemma IssuedTokenVerifies(mac: Mac, o: Options, rs: seq<Renewal>, k: nat, user: Bytes, now: Time)
    requires k < |rs| && o.userPassLen >= 60
    ensures Chain(mac, rs).Some? && IsAuthToken(Issued(mac, rs, k))
    ensures Verified(mac, o, Chain(mac, rs).value, user, Issued(mac, rs, k), now)
         == Earned(mac, o, Signer(rs[k]), rs[0].random, rs[0].now, rs[k].now, user, now)
  {
    var sid, t0 := rs[0].random, rs[0].now;
    var first := Data(mac, Signer(rs[0]), sid, t0, t0);
    var data := Data(mac, Signer(rs[k]), sid, t0, rs[k].now);
    ChainKeepsSession(mac, rs);
    TextReadsBack(data, o.userPassLen);
    JudgedToken(mac, o, Signer(rs[k]), sid, t0, rs[k].now, user, now);
    ClaimsParts(sid, t0, t0, mac(Signer(rs[0]) + Claims(sid, t0, t0)));
    ClaimsParts(sid, t0, rs[k].now, mac(Signer(rs[k]) + Claims(sid, t0, rs[k].now)));
    SameSessionText(first, data);
  }

  /** Times a clock can show and intervals an option can hold: no sum wraps. */
  predicate Sane(o: Options, t0: Time, t: Time) {
    o.renewal < 0x8000_0000 && o.lifetime < 0x8000_0000 && t0 < TWO_64 / 2 && t < TWO_64 / 2
  }

  /** The token is inside its renewal window and the lifetime that began with the first token. */
  predicate Good(o: Options, t0: Time, t: Time, now: Time) {
    t <= now < t + 2 * o.renewal && (o.lifetime == 0 || now <= t0 + o.lifetime)
  }

  lemma GoodMeansNotExpired(o: Options, t0: Time, t: Time, now: Time)
    requires Sane(o, t0, t) && t0 <= t
    ensures Expired(o, t0, t, now) == !Good(o, t0, t, now)
  {
    WindowsDoNotWrap(o, t0, t);
  }

  /** The HMACs of bearer and empty name are that of the name a token is for only if the names are the same. */
  ghost predicate Unforged(mac: Mac, claims: Bytes, name: Bytes, user: Bytes) {
    && (mac(user + claims) == mac(name + claims) ==> user == name)
    && (mac([] + claims) == mac(name + claims) ==> name == [])
  }

  /** Who a token of a chain is good for, by the name and the flag it was renewed with: the user of that name,
      who keeps the name; everybody, at the price of flag and name, if it was made for nobody; else no one. */
  lemma TokenIsForItsUser(mac: Mac, o: Options, rs: seq<Renewal>, k: nat, user: Bytes, now: Time)
    requires k < |rs| && o.userPassLen >= 60
    requires Unforged(mac, Claims(rs[0].random, rs[0].now, rs[k].now), if rs[k].emptyUser then [] else rs[k].user, user)
    ensures Chain(mac, rs).Some? && IsAuthToken(Issued(mac, rs, k))
    ensures var name := if rs[k].emptyUser then [] else rs[k].user;
            var expired := Expired(o, rs[0].now, rs[k].now, now);
            Verified(mac, o, Chain(mac, rs).value, user, Issued(mac, rs, k), now)
            == if user == name then (Flags(true, expired, false), user)
               else if name == [] then (Flags(true, expired, true), [])
               else (NO_FLAGS, user)
  {
    IssuedTokenVerifies(mac, o, rs, k, user, now);
  }

  /** For the user it was issued to, the newest token of a chain is good exactly inside its renewal
      window and the lifetime of the session. */
  lemma NewestTokenIsGood(mac: Mac, o: Options, rs: seq<Renewal>, now: Time)
    requires rs != [] && o.userPassLen >= 60 && Sane(o, rs[0].now, rs[|rs| - 1].now)
    requires forall i, j :: 0 <= i < j < |rs| ==> rs[i].now <= rs[j].now
    ensures Chain(mac, rs).Some? && Chain(mac, rs).value.authToken == Some(Issued(mac, rs, |rs| - 1))
    ensures IsAuthToken(Issued(mac, rs, |rs| - 1))
    ensures var last := rs[|rs| - 1];
            var name := if last.emptyUser then [] else last.user;
            Verified(mac, o, Chain(mac, rs).value, name, Issued(mac, rs, |rs| - 1), now)
            == (Flags(true, !Good(o, rs[0].now, last.now, now), false), name)
  {
    var n := |rs| - 1;
    ChainKeepsSession(mac, rs);
    IssuedTokenVerifies(mac, o, rs, n, Signer(rs[n]), now);
    EarnedBySigner(mac, o, Signer(rs[n]), rs[0].random, rs[0].now, rs[n].now, now);
  }

  lemma EarnedBySigner(mac: Mac, o: Options, signer: Bytes, sid: SessionId, t0: Time, t: Time, now: Time)
    requires Sane(o, t0, t) && t0 <= t
    ensures Earned(mac, o, signer, sid, t0, t, signer, now) == (Flags(true, !Good(o, t0, t, now), false), signer)
  {
    GoodMeansNotExpired(o, t0, t, now);
  }

  lemma WindowsDoNotWrap(o: Options, t0: Time, t: Time)
    requires Sane(o, t0, t)
    ensures (t + 2 * o.renewal % TWO_32) % TWO_64 == t + 2 * o.renewal
    ensures (t0 + o.lifetime) % TWO_64 == t0 + o.lifetime
  {
    assert 2 * o.renewal % TWO_32 == 2 * o.renewal;
  }

  /** A renewal without a name. */
  predicate ForNobody(r: Renewal) {
    r.emptyUser || r.user == []
  }

  /** A token issued for the empty user name, whoever presents it, is flagged, and the name is lost, unless
      the two HMAC inputs collide. */
  lemma EmptyUserIsFlagged(mac: Mac, o: Options, rs: seq<Renewal>, k: nat, user: Bytes, now: Time)
    requires k < |rs| && o.userPassLen >= 60 && ForNobody(rs[k])
    requires var claims := Claims(rs[0].random, rs[0].now, rs[k].now); mac(user + claims) != mac([] + claims)
    ensures Chain(mac, rs).Some? && IsAuthToken(Issued(mac, rs, k))
    ensures var (flags, who) := Verified(mac, o, Chain(mac, rs).value, user, Issued(mac, rs, k), now);
            flags.hmacOk && flags.emptyUser && who == []
  {
    IssuedTokenVerifies(mac, o, rs, k, user, now);
  }

  /** A client comes back with a user name and its newest token. */
  datatype Renegotiation = Renegotiation(user: Bytes, now: Time, random: SessionId)

  /** The renewals of a session: each is made for the name and with the flag that verifying the newest token
      left behind. */
  ghost function SessionOf(mac: Mac, o: Options, first: Renewal, rs: seq<Renegotiation>): (r: seq<Renewal>)
    requires o.userPassLen >= 60
    ensures |r| == |rs| + 1 && r[0] == first
  {
    if rs == [] then [first]
    else
      var before := SessionOf(mac, o, first, rs[..|rs| - 1]);
      before + [Renewed(mac, o, before, rs[|rs| - 1])]
  }

  ghost function Renewed(mac: Mac, o: Options, before: seq<Renewal>, r: Renegotiation): Renewal
    requires before != [] && o.userPassLen >= 60
  {
    var n := |before| - 1;
    IssuedTokenVerifies(mac, o, before, n, r.user, r.now);
    var (flags, who) := Verified(mac, o, Chain(mac, before).value, r.user, Issued(mac, before, n), r.now);
    Renewal(who, flags.emptyUser, r.now, r.random)
  }

  /** The name presented does not collide with the empty one on the newest token. */
  ghost predicate NoCollision(mac: Mac, before: seq<Renewal>, user: Bytes)
    requires before != []
  {
    var claims := Claims(before[0].random, before[0].now, before[|before| - 1].now);
    mac(user + claims) == mac([] + claims) ==> user == []
  }

  lemma RenewedForNobody(mac: Mac, o: Options, before: seq<Renewal>, r: Renegotiation)
    requires before != [] && o.userPassLen >= 60 && ForNobody(before[|before| - 1])
    requires NoCollision(mac, before, r.user)
    ensures ForNobody(Renewed(mac, o, before, r))
  {
    IssuedTokenVerifies(mac, o, before, |before| - 1, r.user, r.now);
  }

  ghost predicate Collisionless(mac: Mac, o: Options, first: Renewal, rs: seq<Renegotiation>)
    requires o.userPassLen >= 60
  {
    rs == [] ||
    (&& Collisionless(mac, o, first, rs[..|rs| - 1])
     && NoCollision(mac, SessionOf(mac, o, first, rs[..|rs| - 1]), rs[|rs| - 1].user))
  }

  /** Once a token of a session is signed for the empty name, every later one is, whatever names are presented
      with them. */
  lemma {:induction false} EmptyUserSticks(mac: Mac, o: Options, first: Renewal, rs: seq<Renegotiation>, j: nat, k: nat)
    requires o.userPassLen >= 60 && j <= k <= |rs| && Collisionless(mac, o, first, rs)
    requires ForNobody(SessionOf(mac, o, first, rs)[j])
    ensures ForNobody(SessionOf(mac, o, first, rs)[k])
    decreases |rs|
  {
    if j < k {
      var init := rs[..|rs| - 1];
      var before := SessionOf(mac, o, first, init);
      EmptyUserSticks(mac, o, first, init, j, Min(k, |rs| - 1));
      if k == |rs| {
        RenewedForNobody(mac, o, before, rs[|rs| - 1]);
      }
    }
  }

  /** Whatever text is presented, it is accepted only if it decodes to a token of this session. */
  lemma OnlyThisSession(mac: Mac, o: Options, rs: seq<Renewal>, user: Bytes, password: string, now: Time)
    requires rs != [] && IsAuthToken(password)
    ensures Chain(mac, rs).Some?
    ensures Verified(mac, o, Chain(mac, rs).value, user, password, now).0.hmacOk ==>
              && B.Decode(password[11..], o.userPassLen).Some?
              && var data := B.Decode(password[11..], o.userPassLen).value;
              && |data| == 60 && data[..12] == rs[0].random
              && (mac(user + data[..28]) == data[28..] || mac([] + data[..28]) == data[28..])
  {
    ChainKeepsSession(mac, rs);
    var m := Chain(mac, rs).value;
    if Verified(mac, o, m, user, password, now).0.hmacOk {
      var data := B.Decode(password[11..], o.userPassLen).value;
      DecodedLength(password, o.userPassLen);
      var first := Data(mac, Signer(rs[0]), rs[0].random, rs[0].now, rs[0].now);
      ClaimsParts(rs[0].random, rs[0].now, rs[0].now, first[28..]);
      TextCuts(first);
      assert password[11..27] == password[..27][11..];
      assert Text(first)[11..27] == Text(first)[..27][11..];
      FirstBytes(password[11..], rs[0].random, o.userPassLen);
    }
  }

  lemma FirstBytes(s: string, sid: SessionId, size: nat)
    requires |s| >= 16 && s[..16] == B.Encode(sid) && B.Decode(s, size).Some?
    requires |B.Decode(s, size).value| >= 12
    ensures B.Decode(s, size).value[..12] == sid
  {
    var rest := s[16..];
    assert s == B.Encode(sid) + rest;
    B.DecodeFits(s, size);
    B.DecodePrefix(sid, rest, size);
    FrontOf(sid, B.Decode(rest, B.Left(size, 12)));
  }

  lemma FrontOf(front: Bytes, r: Option<Bytes>)
    ensures B.Prepend(front, r).Some? ==> B.Prepend(front, r).value[..|front|] == front
  {
  }

  // ---- The operations ------------------------------------------------------------------------

  /** The middle of `verify_auth_token`: the HMAC and the times of a decoded token. */
  method JudgeToken(mac: Mac, o: Options, user: Bytes, data: Bytes, now: Time)
    returns (passed: bool, flags: Flags, username: Bytes)
    requires |data| == 60
    ensures (flags, username) == Judged(mac, o, user, data, now)
    ensures !passed ==> flags == NO_FLAGS
  {
    username := user;
    flags := NO_FLAGS;
    var initial, timestamp := ReadStamp(data[12..20]), ReadStamp(data[20..28]);
    if mac(user + data[..28]) == data[28..] {
      flags := flags.(hmacOk := true);
    } else if mac([] + data[..28]) == data[28..] {
      flags := flags.(hmacOk := true, emptyUser := true);
      username := [];
    } else {
      return false, flags, username;
    }
    var inRenegotiationTime := timestamp <= now < (timestamp + 2 * o.renewal % TWO_32) % TWO_64;
    if !inRenegotiationTime {
      flags := flags.(expired := true);
    }
    if timestamp < initial {
      flags := flags.(expired := true);
    }
    if o.lifetime != 0 && now > (initial + o.lifetime) % TWO_64 {
      flags := flags.(expired := true);
    }
    passed := true;
  }

  class TlsMulti {
    var authToken: Option<string>
    var authTokenInitial: Option<string>

    ghost function State(): Multi
      reads this
    {
      Multi(authToken, authTokenInitial)
    }

    constructor ()
      ensures State() == FRESH
    {
      authToken := None;
      authTokenInitial := None;
    }

    /** `generate_auth_token`; `ok` is false where an assertion stops the program. */
    method GenerateAuthToken(mac: Mac, r: Renewal) returns (ok: bool)
      requires LongEnough(State())
      modifies this
      ensures ok == Generated(mac, old(State()), r).Some?
      ensures State() == if ok then Generated(mac, old(State()), r).value else old(State())
      ensures old(authTokenInitial).None? ==>
                && ok && authTokenInitial == authToken
                && authToken == Some(Text(Data(mac, if r.emptyUser then [] else r.user, r.random, r.now, r.now)))
    {
      var timestamp := Stamp(r.now);
      var initialTimestamp := timestamp;
      var sessid: Bytes := r.random;
      ghost var t0: Time := r.now;
      if authTokenInitial.Some? {
        var copy := authTokenInitial.value;
        var n, oldStamp := B.DecodeText(copy[27..39], 9);
        if n != 9 {
          return false;
        }
        initialTimestamp := oldStamp[..8];
        n, sessid := B.DecodeText(copy[11..27], 12);
        if n != 12 {
          return false;
        }
        t0 := ReadStamp(initialTimestamp);
        StampWritesBack(initialTimestamp);
      }
      var claims := sessid + initialTimestamp + timestamp;
      assert claims == Claims(sessid, t0, r.now);
      var hmacOutput := mac(Signer(r) + claims);
      var token := claims + hmacOutput;
      var b64output := B.EncodeText(token);
      authToken := Some(PREFIX + b64output);
      if authTokenInitial.None? {
        authTokenInitial := authToken;
      }
      ok := true;
    }

    /** `verify_auth_token`. */
    method VerifyAuthToken(mac: Mac, o: Options, user: Bytes, password: string, now: Time)
      returns (flags: Flags, username: Bytes)
      requires LongEnough(State()) && IsAuthToken(password)
      ensures (flags, username) == Verified(mac, o, State(), user, password, now)
    {
      username := user;
      flags := NO_FLAGS;
      var n, data := B.DecodeText(password[11..], o.userPassLen);
      if n != 60 {
        return;
      }
      DecodedLength(password, o.userPassLen);
      var passed;
      passed, flags, username := JudgeToken(mac, o, user, data, now);
      if !passed {
        return;
      }
      if authTokenInitial.Some? && authTokenInitial.value[..27] != password[..27] {
        flags := NO_FLAGS;
      }
    }

    /** `wipe_auth_token`. */
    method WipeAuthToken()
      modifies this
      ensures State() == FRESH
    {
      authToken := None;
      authTokenInitial := None;
    }
  }

  lemma StampWritesBack(b: Bytes)
    requires |b| == 8
    ensures Stamp(ReadStamp(b)) == b
  {
    FromBigEndianRoundTrip(b);
  }
}
