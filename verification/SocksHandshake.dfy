/**
 The relay's SOCKS5 handshake (RFC 1928 sections 3, 4 and 6, RFC 1929 section 2): the frame
 parsers, and the verdict they give on a client's whole byte stream.
 */
module SocksHandshake {
  import opened Bytes

  const BUF := 4096                 // b[4096], as large as the caller's first read
  const RP_HS_INPUT_MAX := 65536
  const USER_MAX := 64              // char user[64]

  // ---------------------------------------------------------------- the frames

  /** The method the server picks among those offered; 255 for none. */
  function PickMethod(offered: seq<byte>, haveToken: bool): byte {
    if haveToken then (if 2 in offered then 2 else 255)
    else if 0 in offered then 0
    else if 2 in offered then 2
    else 255
  }

  /** `pp_socks_greeting`: the greeting's length and the picked method, once it is complete. */
  function Greeting(d: seq<byte>, haveToken: bool): Option<(nat, byte)> {
    if |d| < 2 || d[0] != 5 then None
    else
      var n: nat := d[1];
      if |d| < 2 + n then None else Some((2 + n, PickMethod(d[2..2 + n], haveToken)))
  }

  /** `pp_socks_auth_frame`. */
  datatype Auth = AuthMore | AuthMalformed | AuthLongUser | AuthOk(user: seq<byte>, pass: seq<byte>)

  function AuthFrame(d: seq<byte>): Auth {
    if |d| < 2 then AuthMore
    else if d[0] != 1 || d[1] == 0 then AuthMalformed
    else
      var u: nat := d[1];
      if |d| < 2 + u + 1 then AuthMore
      else if d[2 + u] == 0 then AuthMalformed
      else if |d| < 2 + u + 1 + d[2 + u] then AuthMore
      else if u >= USER_MAX then AuthLongUser
      else AuthOk(d[2..2 + u], d[3 + u..3 + u + d[2 + u]])
  }

  /** Where a client wants to go; the host is the C string the request's bytes are stored as. */
  datatype Target =
    | V4(ip4: seq<byte>, port: nat)
    | V6(ip6: seq<byte>, port: nat)
    | Domain(host: seq<byte>, port: nat)

  /** `pp_socks_request`, with the frame length its caller recomputes. */
  datatype Request = ReqMore | ReqRefused(rep: byte) | ReqOk(target: Target, len: nat)

  function Port(hi: byte, lo: byte): nat {
    hi * 256 + lo
  }

  function RequestFrame(d: seq<byte>): Request {
    if |d| < 4 then ReqMore
    else if d[0] != 5 then ReqRefused(1)
    else if d[1] != 1 || d[2] != 0 then ReqRefused(7)
    else if d[3] == 1 then (if |d| < 10 then ReqMore else ReqOk(V4(d[4..8], Port(d[8], d[9])), 10))
    else if d[3] == 4 then (if |d| < 22 then ReqMore else ReqOk(V6(d[4..20], Port(d[20], d[21])), 22))
    else if d[3] == 3 then
      if |d| < 5 then ReqMore
      else if d[4] == 0 then ReqRefused(8)
      else
        var l: nat := d[4];
        if |d| < 5 + l + 2 then ReqMore
        else
          var host := d[5..5 + l];
          ReqOk(Domain(host[..Nul(host)], Port(d[5 + l], d[6 + l])), 5 + l + 2)
    else ReqRefused(8)
  }

  /** A parser that has made up its mind does not change it when more bytes arrive, and it makes up
      its mind long before the buffer is full. */
  lemma FramesStable(d: seq<byte>, e: seq<byte>)
    requires d <= e
    ensures AuthFrame(d) != AuthMore ==> AuthFrame(e) == AuthFrame(d)
    ensures RequestFrame(d) != ReqMore ==> RequestFrame(e) == RequestFrame(d)
    ensures AuthFrame(d) == AuthMore ==> |d| < 513
    ensures RequestFrame(d) == ReqMore ==> |d| < 262
  {
    assert forall i :: 0 <= i < |d| ==> d[i] == e[i];
    assert forall i, j :: 0 <= i <= j <= |d| ==> d[i..j] == e[i..j];
  }

  // ---------------------------------------------------------------- the verdict on a whole stream

  /** How the handshake ends. `Go(target, at)`: the tunnel's bytes start at offset `at`. */
  datatype End =
    | Closed                     // the stream ends inside a frame
    | NoMethod
    | BadAuth(counted: bool)     // counted: it goes to the lockout table
    | BadRequest(rep: byte)
    | Go(target: Target, at: nat)

  datatype Outcome = Outcome(replies: seq<seq<byte>>, end: End)

  function AfterAuth(s: seq<byte>, at: nat, replies: seq<seq<byte>>): Outcome
    requires at <= |s|
  {
    match RequestFrame(s[at..])
    case ReqMore => Outcome(replies, Closed)
    case ReqRefused(rep) => Outcome(replies, BadRequest(rep))
    case ReqOk(t, len) => Outcome(replies, Go(t, at + len))
  }

  function AuthLen(user: seq<byte>, pass: seq<byte>): nat {
    2 + |user| + 1 + |pass|
  }

  /** Behind the greeting, with method 0 or 2 picked. */
  function AfterGreeting(s: seq<byte>, g: nat, m: byte, token: Option<seq<byte>>): Outcome
    requires g <= |s|
  {
    if m == 0 then AfterAuth(s, g, [[5, 0]])
    else
      match AuthFrame(s[g..])
      case AuthMore => Outcome([[5, 2]], Closed)
      case AuthMalformed => Outcome([[5, 2], [1, 1]], BadAuth(false))
      case AuthLongUser => Outcome([[5, 2], [1, 1]], BadAuth(true))
      case AuthOk(user, pass) =>
        if token.Some? && token.value != pass then Outcome([[5, 2], [1, 1]], BadAuth(true))
        else AfterAuth(s, g + AuthLen(user, pass), [[5, 2], [1, 0]])
  }

  function Verdict(s: seq<byte>, token: Option<seq<byte>>): Outcome {
    match Greeting(s, token.Some?)
    case None => Outcome([], Closed)
    case Some((g, m)) => if m == 255 then Outcome([[5, 255]], NoMethod) else AfterGreeting(s, g, m, token)
  }

  // ---------------------------------------------------------------- the scan of the offered methods

  /** `pp_socks_greeting`'s two scans over the offered methods. */
  method ScanMethods(offered: seq<byte>, haveToken: bool) returns (m: byte)
    ensures m == PickMethod(offered, haveToken)
  {
    var want: byte := if haveToken then 2 else 0;
    m := 255;
    for i := 0 to |offered|
      invariant m == 255 && want !in offered[..i]
    {
      if offered[i] == want {
        return want;
      }
    }
    if !haveToken {
      for i := 0 to |offered|
        invariant m == 255 && 2 !in offered[..i]
      {
        if offered[i] == 2 {
          return 2;
        }
      }
    }
  }

  // ---------------------------------------------------------------- what a client sends is what the server reads

  function ConnectBytes(t: Target): seq<byte>
    requires t.port < 65536 && (t.Domain? ==> |t.host| < 256)
  {
    var port := [t.port / 256, t.port % 256];
    match t
    case V4(ip, _) => [5, 1, 0, 1] + ip + port
    case V6(ip, _) => [5, 1, 0, 4] + ip + port
    case Domain(host, _) => [5, 1, 0, 3, |host|] + host + port
  }

  predicate TargetOk(t: Target) {
    && t.port < 65536
    && (t.V4? ==> |t.ip4| == 4) && (t.V6? ==> |t.ip6| == 16)
    && (t.Domain? ==> 0 < |t.host| < 256)
  }

  /** A target as it is stored: a host name ends at its first NUL. */
  function Stored(t: Target): Target {
    if t.Domain? then t.(host := t.host[..Nul(t.host)]) else t
  }

  lemma StoredIff(t: Target)
    ensures Stored(t) == t <==> (t.Domain? ==> 0 !in t.host)
  {
    if t.Domain? && 0 !in t.host { assert t.host[..|t.host|] == t.host; }
  }

  /** Every well-formed CONNECT is read as the target it names, a host name up to its first NUL. */
  lemma RequestRoundTrip(t: Target, tail: seq<byte>)
    requires TargetOk(t)
    ensures RequestFrame(ConnectBytes(t) + tail) == ReqOk(Stored(t), |ConnectBytes(t)|)
  {
    var d := ConnectBytes(t) + tail;
    match t
    case V4(ip, _) => assert d[4..8] == ip;
    case V6(ip, _) => assert d[4..20] == ip;
    case Domain(host, _) => assert d[5..5 + |host|] == host;
  }

  function AuthBytes(user: seq<byte>, pass: seq<byte>): seq<byte>
    requires |user| < 256 && |pass| < 256
  {
    [1, |user|] + user + [|pass|] + pass
  }

  lemma AuthRoundTrip(user: seq<byte>, pass: seq<byte>, tail: seq<byte>)
    requires 0 < |user| < USER_MAX && 0 < |pass| < 256
    ensures AuthFrame(AuthBytes(user, pass) + tail) == AuthOk(user, pass)
  {
    var d := AuthBytes(user, pass) + tail;
    assert d[2..2 + |user|] == user;
    assert d[2 + |user|] == |pass|;
    assert d[3 + |user|..3 + |user| + |pass|] == pass;
  }

  function Hello(methods: seq<byte>): seq<byte>
    requires |methods| < 256
  {
    [5, |methods|] + methods
  }

  lemma HelloRoundTrip(methods: seq<byte>, tail: seq<byte>)
    requires |methods| < 256 && 2 in methods
    ensures var g := Greeting(Hello(methods) + tail, true);
            g.Some? && g.value.0 == |Hello(methods)| && g.value.1 == 2
  {
    var d := Hello(methods) + tail;
    assert d[2..2 + |methods|] == methods;
  }

  lemma Slices(a: seq<byte>, b: seq<byte>, c: seq<byte>, d: seq<byte>)
    ensures var s := a + (b + (c + d));
            && |s| == |a| + |b| + |c| + |d|
            && s[|a|..] == b + (c + d) && s[|a| + |b|..] == c + d
  {
  }

  lemma VerdictOf(s: seq<byte>, g: nat, user: seq<byte>, pass: seq<byte>, t: Target, len: nat)
    requires var h := Greeting(s, true); h.Some? && h.value.0 == g && h.value.1 == 2
    requires g <= |s| && AuthFrame(s[g..]) == AuthOk(user, pass)
    requires g + AuthLen(user, pass) <= |s| && RequestFrame(s[g + AuthLen(user, pass)..]) == ReqOk(t, len)
    ensures Verdict(s, Some(pass)) == Outcome([[5, 2], [1, 0]], Go(t, g + AuthLen(user, pass) + len))
  {
    hide AuthFrame, RequestFrame, Greeting;
  }

  /** A client that offers password authentication and knows the token reaches its target, and its
      tunnel starts right after its CONNECT frame. */
  lemma ClientReachesTarget(methods: seq<byte>, user: seq<byte>, pass: seq<byte>, t: Target, tail: seq<byte>)
    requires |methods| < 256 && 2 in methods
    requires 0 < |user| < USER_MAX && 0 < |pass| < 256 && TargetOk(t)
    ensures var s := Hello(methods) + (AuthBytes(user, pass) + (ConnectBytes(t) + tail));
            Verdict(s, Some(pass)) == Outcome([[5, 2], [1, 0]], Go(Stored(t), |s| - |tail|))
  {
    hide AuthFrame, RequestFrame, Greeting, Hello, AuthBytes, ConnectBytes, Verdict, AuthLen, Stored;
    var hello, auth, conn := Hello(methods), AuthBytes(user, pass), ConnectBytes(t);
    AuthBytesLen(user, pass);
    Slices(hello, auth, conn, tail);
    HelloRoundTrip(methods, auth + (conn + tail));
    AuthRoundTrip(user, pass, conn + tail);
    RequestRoundTrip(t, tail);
    VerdictOf(hello + (auth + (conn + tail)), |hello|, user, pass, Stored(t), |conn|);
  }

  lemma AuthBytesLen(user: seq<byte>, pass: seq<byte>)
    requires |user| < 256 && |pass| < 256
    ensures |AuthBytes(user, pass)| == AuthLen(user, pass)
  {
  }
}
