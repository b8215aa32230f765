/**
 The OPEN / OPEN_ACK exchange: the frame the client builds, and what an accepted answer guarantees.
 MD5 is a parameter.
 */
module OpenAck {
  import opened Bytes
  import opened Tlv
  import Dotted

  const HDR_LEN := 8
  const CTRL_LEN := 24
  const MTU_MIN := 576
  const MTU_MAX := 1500
  const MTU_DEFAULT := 1400

  const PT_OPEN_REJECT: byte := 0x11
  const PT_OPEN_ACK: byte := 0x12
  const PT_OPEN: byte := 0x13

  const T_USERNAME: byte := 1
  const T_PASSWORD: byte := 2
  const T_MTU: byte := 3
  const T_IP: byte := 4
  const T_DNS: byte := 5
  const T_GATEWAY: byte := 6
  const T_ENCRYPT: byte := 8
  const T_AUTH_VERIFY: byte := 0x0F

  /** The signature's key, "mw". */
  const MW: bytes := [109, 119]

  /** An MD5 digest. */
  type digest = d: bytes | |d| == 16 witness [0, 0, 0, 0, 0, 0, 0, 0, 0, 0, 0, 0, 0, 0, 0, 0]

  // ---------------------------------------------------------------- big-endian fields

  function Put16(n: u16): (b: bytes)
    ensures |b| == 2
  {
    [n / 256, n % 256]
  }

  function Get16(b: bytes): u16
    requires |b| >= 2
  {
    var hi: int := b[0];
    hi * 256 + b[1]
  }

  function Get32(b: bytes): u32
    requires |b| >= 4
  {
    var b0: int, b1: int, b2: int := b[0], b[1], b[2];
    b0 * 0x1000000 + b1 * 0x10000 + b2 * 256 + b[3]
  }

  lemma Fields(m: u16, n: u32)
    ensures Get16(Put16(m)) == m && Get32(Put32(n)) == n
  {
    var a, b, c := n / 256, n / 0x10000, n / 0x1000000;
    assert b == a / 256 && c == b / 256;
    assert n == a * 256 + n % 256 && a == b * 256 + a % 256 && b == c * 256 + b % 256;
  }

  // ---------------------------------------------------------------- the control header

  function PktHdr(typ: byte, enc: byte, sid: u16, tok: u32): (h: bytes)
    ensures |h| == HDR_LEN
  {
    [typ, enc] + Put16(sid) + Put32(tok)
  }

  /** `ctrl_hdr`: the header and its signature. */
  function CtrlHdr(typ: byte, enc: byte, sid: u16, tok: u32, md5: bytes -> digest): bytes {
    var h := PktHdr(typ, enc, sid, tok);
    h + md5(h + MW)
  }

  /** `verify_sig`. */
  predicate VerifySig(buf: bytes, md5: bytes -> digest) {
    |buf| >= CTRL_LEN && md5(buf[..HDR_LEN] + MW) == buf[HDR_LEN..CTRL_LEN]
  }

  // ---------------------------------------------------------------- OPEN

  datatype Open = Open(user: bytes, ct: digest, mtu: u16, enc: byte, nonce: u32)

  /** The five fields in the order they are written. */
  function OpenFields(o: Open): seq<Tlv> {
    [Tlv(T_MTU, Put16(o.mtu)), Tlv(T_USERNAME, o.user), Tlv(T_PASSWORD, o.ct), Tlv(T_ENCRYPT, [o.enc]),
     Tlv(T_AUTH_VERIFY, Put32(o.nonce))]
  }

  /** `build_open`; a longer user name is refused. */
  function BuildOpen(o: Open, md5: bytes -> digest): Option<bytes> {
    if |o.user| > VLEN_MAX then None
    else
      assert AllShort(OpenFields(o)) by { assert |Put16(o.mtu)| == 2 && |Put32(o.nonce)| == 4; }
      Some(CtrlHdr(PT_OPEN, o.enc, 0, 0, md5) + EncodeAll(OpenFields(o)))
  }

  lemma CtrlHdrSigned(typ: byte, enc: byte, sid: u16, tok: u32, md5: bytes -> digest, rest: bytes)
    ensures var buf := CtrlHdr(typ, enc, sid, tok, md5) + rest;
            && VerifySig(buf, md5) && buf[CTRL_LEN..] == rest
            && buf[0] == typ && Get16(buf[2..4]) == sid && Get32(buf[4..8]) == tok
  {
    hide Get16, Get32, Put16, Put32;
    var h := PktHdr(typ, enc, sid, tok);
    var buf := h + md5(h + MW) + rest;
    assert buf[..HDR_LEN] == h && buf[HDR_LEN..CTRL_LEN] == md5(h + MW);
    assert buf[2..4] == Put16(sid) && buf[4..8] == Put32(tok);
    Fields(sid, tok);
  }

  /** For every user name of at most 253 bytes the server reads exactly the five fields back; a
      longer one builds no frame. */
  lemma OpenRoundTrip(o: Open, md5: bytes -> digest)
    ensures BuildOpen(o, md5).Some? <==> |o.user| <= VLEN_MAX
    ensures BuildOpen(o, md5).Some? ==>
              var buf := BuildOpen(o, md5).value;
              && VerifySig(buf, md5) && buf[0] == PT_OPEN
              && Decode(buf[CTRL_LEN..]) == Some(OpenFields(o))
              && Get16(OpenFields(o)[0].val) == o.mtu && OpenFields(o)[1].val == o.user
              && OpenFields(o)[2].val == o.ct && OpenFields(o)[3].val == [o.enc]
              && Get32(OpenFields(o)[4].val) == o.nonce
  {
    hide EncodeAll, Decode, CtrlHdr, VerifySig, Put16, Put32, Get16, Get32;
    if |o.user| <= VLEN_MAX {
      assert AllShort(OpenFields(o));
      CtrlHdrSigned(PT_OPEN, o.enc, 0, 0, md5, EncodeAll(OpenFields(o)));
      DecodeComplete(OpenFields(o));
      Fields(o.mtu, o.nonce);
    }
  }

  // ---------------------------------------------------------------- OPEN_ACK

  /** The callback's context and the result it fills. */
  datatype Ack = Ack(nonce: u32, tun: bytes, gw: bytes, dns: bytes, mtu: u16, enc: byte,
                     err: byte, echo: u32, got: set<byte>)

  const MANDATORY := {T_IP, T_GATEWAY, T_DNS, T_MTU}

  function Blank(nonce: u32): Ack {
    Ack(nonce, [], [], [], MTU_DEFAULT, 1, 0, 0, {})
  }

  function Clamp(m: u16): (r: u16)
    ensures MTU_MIN <= r <= MTU_MAX
    ensures MTU_MIN <= m <= MTU_MAX ==> r == m
  {
    if m < MTU_MIN then MTU_MIN else if m > MTU_MAX then MTU_MAX else m
  }

  /** `ack_tlv`: the new context and whether to go on. */
  function AckTlv(c: Ack, t: Tlv): (Ack, bool) {
    if t.typ in {T_IP, T_GATEWAY, T_DNS} then
      if |t.val| < 4 then (c.(err := 3), false)
      else
        var a := Dotted.Print(t.val[..4]);
        var d := c.(got := c.got + {t.typ});
        (if t.typ == T_IP then d.(tun := a) else if t.typ == T_GATEWAY then d.(gw := a) else d.(dns := a), true)
    else if t.typ == T_MTU then
      if |t.val| < 2 then (c.(err := 3), false)
      else (c.(mtu := Clamp(Get16(t.val)), got := c.got + {t.typ}), true)
    else if t.typ == T_ENCRYPT then
      if |t.val| < 1 then (c.(err := 3), false)
      else (c.(enc := if t.val[0] != 0 then 1 else 0), true)
    else if t.typ == T_AUTH_VERIFY then
      if |t.val| != 4 then (c.(err := 1), false)
      else
        var d := c.(echo := Get32(t.val));
        if d.echo != c.nonce then (d.(err := 2), false) else (d, true)
    else (c, true)
  }

  datatype Reason =
    | TooShort | BadSig | OpenReject | UnexpectedType | Oversized | ZeroToken | Malformed | Missing | BadTlv(err: byte)

  /** The session an accepted answer opens. */
  datatype Session = Session(sid: u16, tok: u32, tun: bytes, gw: bytes, dns: bytes, mtu: u16, enc: byte)

  datatype Answer = Accepted(s: Session) | Rejected(why: Reason)

  /** `parse_ack`. */
  function ParseAck(buf: bytes, nonce: u32, md5: bytes -> digest): Answer {
    if |buf| < CTRL_LEN then Rejected(TooShort)
    else if buf[0] == PT_OPEN_REJECT then
      Rejected(if VerifySig(buf, md5) then OpenReject else BadSig)
    else if buf[0] != PT_OPEN_ACK then Rejected(UnexpectedType)
    else if |buf| > CTRL_LEN + 31 then Rejected(Oversized)
    else if !VerifySig(buf, md5) then Rejected(BadSig)
    else
      var tok := Get32(buf[4..8]);
      if tok == 0 then Rejected(ZeroToken)
      else
        var w := Visit(buf[CTRL_LEN..], Blank(nonce), AckTlv);
        var c := w.state;
        if !w.ok then Rejected(Malformed)
        else if !(MANDATORY <= c.got) then Rejected(Missing)
        else if c.err != 0 then Rejected(BadTlv(c.err))
        else Accepted(Session(Get16(buf[2..4]), tok, c.tun, c.gw, c.dns, c.mtu, c.enc))
  }

  // ---------------------------------------------------------------- what acceptance means

  /** The value of the last TLV of a type. */
  function Last(ts: seq<Tlv>, typ: byte): Option<bytes> {
    if ts == [] then None
    else
      var r := Last(ts[1..], typ);
      if r.Some? then r else if ts[0].typ == typ then Some(ts[0].val) else None
  }

  /** A TLV the client does not object to. */
  predicate Fine(t: Tlv, nonce: u32) {
    && (t.typ in {T_IP, T_GATEWAY, T_DNS} ==> |t.val| >= 4)
    && (t.typ == T_MTU ==> |t.val| >= 2)
    && (t.typ == T_ENCRYPT ==> |t.val| >= 1)
    && (t.typ == T_AUTH_VERIFY ==> |t.val| == 4 && Get32(t.val) == nonce)
  }

  ghost predicate AllFine(ts: seq<Tlv>, nonce: u32) {
    forall i :: 0 <= i < |ts| ==> Fine(ts[i], nonce)
  }

  function Types(ts: seq<Tlv>): set<byte> {
    if ts == [] then {} else {ts[0].typ} + Types(ts[1..])
  }

  function Addr(v: Option<bytes>, was: bytes): bytes {
    if v.Some? && |v.value| >= 4 then Dotted.Print(v.value[..4]) else was
  }

  function Mtu(v: Option<bytes>, was: u16): u16 {
    if v.Some? && |v.value| >= 2 then Clamp(Get16(v.value)) else was
  }

  function Enc(v: Option<bytes>, was: byte): byte {
    if v.Some? && |v.value| >= 1 then (if v.value[0] != 0 then 1 else 0) else was
  }

  function Echo(v: Option<bytes>, was: u32): u32 {
    if v.Some? && |v.value| >= 4 then Get32(v.value) else was
  }

  /** What the last TLV of each type makes of a context. */
  function Final(ts: seq<Tlv>, c: Ack): Ack {
    Ack(c.nonce, Addr(Last(ts, T_IP), c.tun), Addr(Last(ts, T_GATEWAY), c.gw), Addr(Last(ts, T_DNS), c.dns),
        Mtu(Last(ts, T_MTU), c.mtu), Enc(Last(ts, T_ENCRYPT), c.enc), c.err,
        Echo(Last(ts, T_AUTH_VERIFY), c.echo), c.got + Types(ts) * MANDATORY)
  }

  lemma {:induction false} LastTyped(ts: seq<Tlv>, typ: byte, nonce: u32)
    requires AllFine(ts, nonce)
    ensures typ in Types(ts) <==> Last(ts, typ).Some?
    ensures Last(ts, typ).Some? ==> Fine(Tlv(typ, Last(ts, typ).value), nonce)
  {
    hide Fine;
    if ts != [] {
      assert AllFine(ts[1..], nonce);
      LastTyped(ts[1..], typ, nonce);
    }
  }

  lemma StepGoes(c: Ack, t: Tlv)
    requires Fine(t, c.nonce)
    ensures var (d, go) := AckTlv(c, t); go && d.nonce == c.nonce && d.err == c.err
  {
    hide Dotted.Print, Get16, Get32, Clamp;
  }

  lemma StepAddrs(ts: seq<Tlv>, c: Ack)
    requires ts != [] && Fine(ts[0], c.nonce) && AllFine(ts[1..], c.nonce)
    ensures var f, g := Final(ts[1..], AckTlv(c, ts[0]).0), Final(ts, c);
            f.tun == g.tun && f.gw == g.gw && f.dns == g.dns
  {
    hide Dotted.Print, Get16, Get32, Clamp, Last, Types, Mtu, Enc, Echo;
    LastOne(ts, T_IP, c.nonce);
    LastOne(ts, T_GATEWAY, c.nonce);
    LastOne(ts, T_DNS, c.nonce);
  }

  lemma StepOthers(ts: seq<Tlv>, c: Ack)
    requires ts != [] && Fine(ts[0], c.nonce) && AllFine(ts[1..], c.nonce)
    ensures var f, g := Final(ts[1..], AckTlv(c, ts[0]).0), Final(ts, c);
            f.mtu == g.mtu && f.enc == g.enc && f.echo == g.echo
  {
    hide Dotted.Print, Get16, Get32, Clamp, Last, Types, Addr;
    LastOne(ts, T_MTU, c.nonce);
    LastOne(ts, T_ENCRYPT, c.nonce);
    LastOne(ts, T_AUTH_VERIFY, c.nonce);
  }

  lemma StepGot(ts: seq<Tlv>, c: Ack)
    requires ts != [] && Fine(ts[0], c.nonce)
    ensures Final(ts[1..], AckTlv(c, ts[0]).0).got == Final(ts, c).got
  {
    hide Dotted.Print, Get16, Get32, Clamp, Last, Types, Addr, Mtu, Enc, Echo;
    TypesOne(ts);
    assert AckTlv(c, ts[0]).0.got == c.got + {ts[0].typ} * MANDATORY;
  }

  lemma StepFinal(ts: seq<Tlv>, c: Ack)
    requires ts != [] && Fine(ts[0], c.nonce) && AllFine(ts[1..], c.nonce)
    ensures Final(ts[1..], AckTlv(c, ts[0]).0) == Final(ts, c)
  {
    hide AckTlv, Fine, Last, Types, Addr, Mtu, Enc, Echo;
    StepGoes(c, ts[0]);
    StepAddrs(ts, c);
    StepOthers(ts, c);
    StepGot(ts, c);
  }

  lemma TypesOne(ts: seq<Tlv>)
    requires ts != []
    ensures Types(ts) == {ts[0].typ} + Types(ts[1..])
  {
  }

  lemma LastOne(ts: seq<Tlv>, typ: byte, nonce: u32)
    requires ts != [] && AllFine(ts[1..], nonce)
    ensures var r := Last(ts[1..], typ);
            && Last(ts, typ) == (if r.Some? then r else if ts[0].typ == typ then Some(ts[0].val) else None)
            && (r.Some? ==> Fine(Tlv(typ, r.value), nonce))
  {
    LastTyped(ts[1..], typ, nonce);
  }

  lemma StepStops(c: Ack, t: Tlv)
    requires !Fine(t, c.nonce)
    ensures !AckTlv(c, t).1 && AckTlv(c, t).0.err != 0
  {
    hide Dotted.Print, Get16, Clamp;
  }

  /** The callback sees the whole list exactly when it objects to none of it; then the last TLV of
      each type decides, and otherwise an error is on record. */
  lemma {:induction false} FoldIs(ts: seq<Tlv>, c: Ack)
    requires c.err == 0
    ensures AllFine(ts, c.nonce) ==> Fold(ts, c, AckTlv) == (Final(ts, c), true)
    ensures !AllFine(ts, c.nonce) ==> !Fold(ts, c, AckTlv).1 && Fold(ts, c, AckTlv).0.err != 0
    decreases |ts|
  {
    hide AckTlv, Fine;
    if ts == [] {
      assert c.got + {} * MANDATORY == c.got;
    } else {
      assert AllFine(ts, c.nonce) <==> Fine(ts[0], c.nonce) && AllFine(ts[1..], c.nonce);
      if Fine(ts[0], c.nonce) {
        StepGoes(c, ts[0]);
        if AllFine(ts[1..], c.nonce) { StepFinal(ts, c); }
        hide Final;
        FoldIs(ts[1..], AckTlv(c, ts[0]).0);
      } else {
        StepStops(c, ts[0]);
      }
    }
  }

  /** What a client that accepts may rely on, said about the frame alone. */
  ghost predicate Sound(buf: bytes, nonce: u32, md5: bytes -> digest) {
    && CTRL_LEN <= |buf| <= CTRL_LEN + 31 && buf[0] == PT_OPEN_ACK && VerifySig(buf, md5)
    && Get32(buf[4..8]) != 0
    && Decode(buf[CTRL_LEN..]).Some?
    && var ts := Decode(buf[CTRL_LEN..]).value;
       AllFine(ts, nonce) && MANDATORY <= Types(ts)
  }

  function Opened(buf: bytes, nonce: u32): Session
    requires |buf| >= CTRL_LEN && Decode(buf[CTRL_LEN..]).Some?
  {
    var c := Final(Decode(buf[CTRL_LEN..]).value, Blank(nonce));
    Session(Get16(buf[2..4]), Get32(buf[4..8]), c.tun, c.gw, c.dns, c.mtu, c.enc)
  }

  /** An answer is accepted exactly when the frame is sound, with the session its TLVs spell. */
  lemma AcceptedIff(buf: bytes, nonce: u32, md5: bytes -> digest)
    ensures ParseAck(buf, nonce, md5).Accepted? <==> Sound(buf, nonce, md5)
    ensures Sound(buf, nonce, md5) ==> ParseAck(buf, nonce, md5).s == Opened(buf, nonce)
  {
    hide VerifySig, Get16, Get32, Decode, Visit, Fold, Fine, AckTlv, Types, Last, Prefix;
    if |buf| >= CTRL_LEN {
      var d, c := buf[CTRL_LEN..], Blank(nonce);
      VisitIs(d, c, AckTlv);
      FoldIs(Prefix(d), c);
      if Decode(d).Some? { PrefixIs(d); }
    }
  }

  // ---------------------------------------------------------------- the session's addresses

  datatype Addrs = Usable(inner: u32, gateway: u32) | BadInner | BadGateway

  /** `auth_result_addrs`. */
  function SessionAddrs(s: Session): Addrs {
    var a := Dotted.Read(s.tun);
    if a.None? || |a.value| != 4 then BadInner
    else
      var g := Dotted.Read(s.gw);
      if g.None? || |g.value| != 4 then BadGateway else Usable(Get32(a.value), Get32(g.value))
  }

  lemma PrintReads(b: bytes)
    requires |b| == 4
    ensures Dotted.Read(Dotted.Print(b)) == Some(b)
  {
    hide Dotted.Read, Dotted.Print;
    Dotted.ReadIff(Dotted.Print(b), b);
  }

  /** Every accepted answer has a token, an MTU in range, an echo that matches if there is one, and
      addresses that are never refused afterwards. */
  lemma AcceptedIsUsable(buf: bytes, nonce: u32, md5: bytes -> digest)
    requires ParseAck(buf, nonce, md5).Accepted?
    ensures var s := ParseAck(buf, nonce, md5).s;
            var ts := Decode(buf[CTRL_LEN..]);
            && s.tok != 0 && MTU_MIN <= s.mtu <= MTU_MAX && s.enc <= 1 && ts.Some?
            && (forall i :: 0 <= i < |ts.value| && ts.value[i].typ == T_AUTH_VERIFY ==>
                  ts.value[i].val == Put32(nonce))
            && Last(ts.value, T_IP).Some? && |Last(ts.value, T_IP).value| >= 4
            && Last(ts.value, T_GATEWAY).Some? && |Last(ts.value, T_GATEWAY).value| >= 4
            && SessionAddrs(s) == Usable(Get32(Last(ts.value, T_IP).value[..4]),
                                         Get32(Last(ts.value, T_GATEWAY).value[..4]))
  {
    hide Get16, Get32, Put32, Decode, Dotted.Print, Dotted.Read, Types, Last;
    AcceptedIff(buf, nonce, md5);
    hide ParseAck;
    var ts := Decode(buf[CTRL_LEN..]).value;
    LastTyped(ts, T_IP, nonce);
    LastTyped(ts, T_GATEWAY, nonce);
    LastTyped(ts, T_MTU, nonce);
    PrintReads(Last(ts, T_IP).value[..4]);
    PrintReads(Last(ts, T_GATEWAY).value[..4]);
    forall i | 0 <= i < |ts| && ts[i].typ == T_AUTH_VERIFY ensures ts[i].val == Put32(nonce) {
      EchoIs(ts[i].val, nonce);
    }
  }

  lemma EchoIs(v: bytes, nonce: u32)
    requires |v| == 4 && Get32(v) == nonce
    ensures v == Put32(nonce)
  {
    var b0: int, b1: int, b2: int, b3: int := v[0], v[1], v[2], v[3];
    assert nonce / 0x1000000 == b0;
    assert nonce / 0x10000 == b0 * 256 + b1;
    assert nonce / 256 == b0 * 0x10000 + b1 * 256 + b2;
    assert (b0 * 256 + b1) % 256 == b1 && (b0 * 0x10000 + b1 * 256 + b2) % 256 == b2 && nonce % 256 == b3;
  }
}
