/** The OPEN / OPEN_ACK code as it runs: appending buffers, a context updated TLV by TLV, loops. */
module OpenAckRun {
  import opened Bytes
  import opened Tlv
  import opened OpenAck
  import Dotted

  /** `buf_t`. */
  class Buf {
    var data: bytes

    constructor ()
      ensures data == []
    {
      data := [];
    }

    method Put(b: bytes)
      modifies this
      ensures data == old(data) + b
    {
      data := data + b;
    }

    /** `tlv_put`; the caller guards the length. */
    method PutTlv(typ: byte, val: bytes)
      requires |val| <= VLEN_MAX
      modifies this
      ensures data == old(data) + Encode(Tlv(typ, val))
    {
      data := data + [typ];
      data := data + [|val| + 2];
      if |val| > 0 {
        data := data + val;
      }
    }

    method PutCtrlHdr(typ: byte, enc: byte, sid: u16, tok: u32, md5: bytes -> digest)
      modifies this
      ensures data == old(data) + CtrlHdr(typ, enc, sid, tok, md5)
    {
      var h := PktHdr(typ, enc, sid, tok);
      Put(h);
      Put(md5(h + MW));
    }
  }

  lemma FiveTlvs(a: Tlv, b: Tlv, c: Tlv, d: Tlv, e: Tlv)
    requires Short(a) && Short(b) && Short(c) && Short(d) && Short(e)
    ensures AllShort([a, b, c, d, e])
    ensures EncodeAll([a, b, c, d, e]) == Encode(a) + Encode(b) + Encode(c) + Encode(d) + Encode(e)
  {
    hide Encode;
    var ts := [a, b, c, d, e];
    assert ts[1..] == [b, c, d, e] && ts[1..][1..] == [c, d, e] && ts[1..][1..][1..] == [d, e];
    assert [e][1..] == [] && [d, e][1..] == [e];
    assert EncodeAll([e]) == Encode(e);
    assert EncodeAll([d, e]) == Encode(d) + Encode(e);
    assert EncodeAll([c, d, e]) == Encode(c) + EncodeAll([d, e]);
    assert EncodeAll([b, c, d, e]) == Encode(b) + EncodeAll([c, d, e]);
  }

  /** `build_open`. */
  method WriteOpen(out: Buf, o: Open, md5: bytes -> digest) returns (ok: bool)
    modifies out
    ensures ok <==> BuildOpen(o, md5).Some?
    ensures out.data == old(out.data) + if ok then BuildOpen(o, md5).value else []
  {
    hide Encode, CtrlHdr, EncodeAll, Put16, Put32;
    if |o.user| > VLEN_MAX {
      return false;
    }
    var pl := new Buf();
    pl.PutTlv(T_MTU, Put16(o.mtu));
    pl.PutTlv(T_USERNAME, o.user);
    pl.PutTlv(T_PASSWORD, o.ct);
    pl.PutTlv(T_ENCRYPT, [o.enc]);
    pl.PutTlv(T_AUTH_VERIFY, Put32(o.nonce));
    FiveTlvs(Tlv(T_MTU, Put16(o.mtu)), Tlv(T_USERNAME, o.user), Tlv(T_PASSWORD, o.ct), Tlv(T_ENCRYPT, [o.enc]),
             Tlv(T_AUTH_VERIFY, Put32(o.nonce)));
    assert pl.data == EncodeAll(OpenFields(o));
    out.PutCtrlHdr(PT_OPEN, o.enc, 0, 0, md5);
    out.Put(pl.data);
    ok := true;
  }

  // ---------------------------------------------------------------- the answer

  /** `struct ack_ctx` and the result it points to. */
  class Reader {
    const nonce: u32
    var tun: bytes
    var gw: bytes
    var dns: bytes
    var mtu: u16
    var enc: byte
    var err: byte
    var echo: u32
    var got: set<byte>

    constructor (expected: u32)
      ensures View() == Blank(expected)
    {
      nonce := expected;
      tun, gw, dns := [], [], [];
      mtu, enc, err, echo, got := MTU_DEFAULT, 1, 0, 0, {};
    }

    function View(): Ack
      reads this
    {
      Ack(nonce, tun, gw, dns, mtu, enc, err, echo, got)
    }

    /** `ack_tlv`. */
    method OneTlv(t: Tlv) returns (go: bool)
      modifies this
      ensures (View(), go) == AckTlv(old(View()), t)
    {
      hide Dotted.Print, Get16, Get32, Clamp;
      go := true;
      if t.typ == T_IP || t.typ == T_GATEWAY || t.typ == T_DNS {
        if |t.val| < 4 {
          err := 3;
          return false;
        }
        var a := Dotted.Print(t.val[..4]);
        if t.typ == T_IP {
          tun := a;
        } else if t.typ == T_GATEWAY {
          gw := a;
        } else {
          dns := a;
        }
        got := got + {t.typ};
      } else if t.typ == T_MTU {
        if |t.val| < 2 {
          err := 3;
          return false;
        }
        mtu := Clamp(Get16(t.val));
        got := got + {t.typ};
      } else if t.typ == T_ENCRYPT {
        if |t.val| < 1 {
          err := 3;
          return false;
        }
        enc := if t.val[0] != 0 then 1 else 0;
      } else if t.typ == T_AUTH_VERIFY {
        if |t.val| != 4 {
          err := 1;
          return false;
        }
        echo := Get32(t.val);
        if echo != nonce {
          err := 2;
          return false;
        }
      }
    }

    /** `parse_tlvs` over this context. */
    method Tlvs(data: bytes) returns (ok: bool)
      modifies this
      ensures Visit(data, old(View()), AckTlv) == Walk(ok, View())
    {
      hide AckTlv;
      var i := 0;
      assert data[0..] == data;
      while i + 2 <= |data|
        invariant i <= |data|
        invariant Visit(data[i..], View(), AckTlv) == Visit(data, old(View()), AckTlv)
      {
        var t, l := data[i], data[i + 1];
        ghost var d := data[i..];
        if l < 2 || l > |data| - i {
          return false;
        }
        assert data[i + 2..i + l] == d[2..d[1]] && d[d[1]..] == data[i + l..];
        var go := OneTlv(Tlv(t, data[i + 2..i + l]));
        if !go {
          return true;
        }
        i := i + l;
      }
      ok := i == |data|;
    }
  }

  /** `parse_ack`. */
  method ReadAck(buf: bytes, nonce: u32, md5: bytes -> digest) returns (a: Answer)
    ensures a == ParseAck(buf, nonce, md5)
  {
    hide AckTlv, Visit, Get16, Get32, VerifySig;
    if |buf| < CTRL_LEN {
      return Rejected(TooShort);
    }
    if buf[0] == PT_OPEN_REJECT {
      if !VerifySig(buf, md5) {
        return Rejected(BadSig);
      }
      return Rejected(OpenReject);
    }
    if buf[0] != PT_OPEN_ACK {
      return Rejected(UnexpectedType);
    }
    if |buf| > CTRL_LEN + 31 {
      return Rejected(Oversized);
    }
    if !VerifySig(buf, md5) {
      return Rejected(BadSig);
    }
    var sid, tok := Get16(buf[2..4]), Get32(buf[4..8]);
    if tok == 0 {
      return Rejected(ZeroToken);
    }
    var c := new Reader(nonce);
    var ok := c.Tlvs(buf[CTRL_LEN..]);
    if !ok {
      return Rejected(Malformed);
    }
    if !(MANDATORY <= c.got) {
      return Rejected(Missing);
    }
    if c.err != 0 {
      return Rejected(BadTlv(c.err));
    }
    a := Accepted(Session(sid, tok, c.tun, c.gw, c.dns, c.mtu, c.enc));
  }

  /** `s2ip4`. */
  method ReadAddr(s: bytes) returns (r: Option<bytes>)
    ensures r == Dotted.Read(s)
  {
    hide Dotted.Octet;
    var out: bytes, i, k: nat := [], 0, 4;
    ghost var want := Dotted.Read(s);
    assert want.Some? ==> [] + want.value == want.value;
    while true
      invariant 0 < k <= 4 && i <= |s|
      invariant match Dotted.Octets(s, i, k)
                case None => want == None
                case Some(x) => want == Some(out + x)
      decreases k
    {
      var o := ReadOctet(s, i);
      if o.None? {
        return None;
      }
      var (v, e) := o.value;
      if k == 1 {
        r := if e == |s| then Some(out + [v]) else None;
        return;
      }
      if At(s, e) != DOT {
        return None;
      }
      ghost var rest := Dotted.Octets(s, e + 1, k - 1);
      assert rest.Some? ==> out + ([v] + rest.value) == out + [v] + rest.value;
      out, i, k := out + [v], e + 1, k - 1;
    }
  }

  method ReadOctet(s: bytes, i: nat) returns (o: Option<(byte, nat)>)
    requires i <= |s|
    ensures o == Dotted.Octet(s, i)
  {
    if !Digit(At(s, i)) {
      return None;
    }
    if At(s, i) == 48 && Digit(At(s, i + 1)) {
      return None;
    }
    var v: nat, e: nat := 0, i;
    while e < |s| && Digit(s[e])
      invariant e <= |s| && Dotted.Run(s, e, v) == Dotted.Run(s, i, 0)
    {
      v, e := v * 10 + Dotted.Worth(s[e]), e + 1;
    }
    o := if v > 255 then None else Some((v, e));
  }
}
