/**
 The SOCKS5 exchange as it runs: one 4096-byte buffer filled by reads of any size, frames consumed by
 moving the rest to the front, and the pipelined tail handed to the upstream.
 */
module SocksSession {
  import opened Bytes
  import opened SocksHandshake

  /** One read of up to `len` bytes: the schedule says how many it would like to deliver; it
      delivers at least one while the stream lasts, and none at its end. */
  function Chunk(sizes: seq<nat>, len: nat, left: nat): (k: nat)
    requires len > 0
    ensures k <= len && k <= left && (left > 0 ==> k > 0)
  {
    var wish := if sizes == [] then len else if sizes[0] == 0 then 1 else sizes[0];
    var k := if wish < len then wish else len;
    if k < left then k else left
  }

  /** The client's socket. */
  class Client {
    const stream: bytes       // everything the client will ever send
    var pos: nat              // bytes read so far; also the handshake's input count
    var sizes: seq<nat>       // how the network cuts the rest

    constructor (stream: bytes, pos: nat, sizes: seq<nat>)
      requires pos <= |stream|
      ensures this.stream == stream && this.pos == pos && this.sizes == sizes
    {
      this.stream, this.pos, this.sizes := stream, pos, sizes;
    }

    method Recv(len: nat) returns (got: bytes)
      requires len > 0 && pos <= |stream|
      modifies this
      ensures old(pos) <= pos <= |stream| && got == stream[old(pos)..pos]
      ensures |got| == Chunk(old(sizes), len, |stream| - old(pos))
    {
      var k := Chunk(sizes, len, |stream| - pos);
      got := stream[pos..pos + k];
      pos, sizes := pos + k, if sizes == [] then [] else sizes[1..];
    }
  }

  /** `uint8_t b[4096]` with its fill `n`. */
  class Session {
    const sock: Client
    const b: array<byte>
    var n: nat
    ghost var c: nat          // where the buffer's contents start in the stream

    /** The buffer is the part of the stream that was read and not yet consumed. */
    ghost predicate Valid()
      reads this, sock, b
    {
      && b.Length == BUF && n <= BUF
      && c + n == sock.pos <= |sock.stream|
      && b[..n] == sock.stream[c..sock.pos]
    }

    constructor (sock: Client, first: bytes)
      requires sock.pos == |first| <= |sock.stream| && first == sock.stream[..|first|] && |first| <= BUF
      ensures Valid() && fresh(b) && this.sock == sock && c == 0 && n == |first|
    {
      this.sock := sock;
      b := new byte[BUF];
      n, c := |first|, 0;
      new;
      forall i | 0 <= i < |first| {
        b[i] := first[i];
      }
      assert b[..n] == first;
    }

    /** Read up to `len` bytes behind the contents. */
    method Receive(len: nat) returns (k: nat)
      requires Valid() && 0 < len && n + len <= BUF
      modifies this`n, sock, b
      ensures Valid() && n == old(n) + k && k <= len
      ensures k == 0 <==> old(sock.pos) == |sock.stream|
      ensures sock.pos == old(sock.pos) + k
    {
      var got := sock.Recv(len);
      k := |got|;
      forall i | 0 <= i < k {
        b[n + i] := got[i];
      }
      n := n + k;
      assert b[..n] == old(b[..n]) + got;
      assert sock.stream[c..sock.pos] == sock.stream[c..old(sock.pos)] + got;
    }

    /** Consume a frame of `g` bytes by moving the rest to the front of the buffer. */
    method Consume(g: nat)
      requires Valid() && 0 < g <= n
      modifies this`n, this`c, b
      ensures Valid() && n == old(n) - g && c == old(c) + g
    {
      ghost var was := b[..n];
      var i := 0;
      while i < n - g
        invariant 0 <= i <= n - g && n == old(n) && c == old(c)
        invariant forall j :: 0 <= j < i ==> b[j] == was[j + g]
        invariant forall j :: i <= j < n ==> b[j] == was[j]
      {
        b[i] := b[i + g];
        i := i + 1;
      }
      n, c := n - g, c + g;
      assert b[..n] == was[g..];
    }

    /** `rp_read_full`: exactly `want` more bytes, or failure at the end of the stream. The test of the
        input cap never fires. */
    method ReadFull(want: nat) returns (ok: bool)
      requires Valid() && n + want <= BUF && c == 0
      modifies this`n, sock, b
      ensures Valid() && n >= old(n)
      ensures ok <==> old(n) + want <= |sock.stream|
      ensures ok ==> n == old(n) + want
    {
      var end := n + want;
      while n < end
        invariant Valid() && old(n) <= n <= end
        decreases end - n
      {
        var k := Receive(end - n);
        if sock.pos > RP_HS_INPUT_MAX {
          assert false;
        }
        if k == 0 {
          return false;
        }
      }
      ok := true;
    }

    /** The greeting, topped up to its two fixed bytes and then to its length. */
    method ReadGreeting(haveToken: bool) returns (g: Option<(nat, byte)>)
      requires Valid() && c == 0 && n > 0 && b[0] == 5
      modifies this`n, sock, b
      ensures Valid() && old(sock.pos) <= sock.pos && g == Greeting(sock.stream, haveToken)
      ensures g.Some? ==> 2 <= g.value.0 <= n && g.value.0 <= 257
    {
      hide PickMethod;
      assert b[..n][0] == sock.stream[0] == 5;
      var ok;
      if n == 1 {
        ok := ReadFull(1);
        if !ok {
          return None;
        }
      }
      assert b[..n][1] == sock.stream[1];
      var want: nat := 2 + (b[1] as nat);
      if n < want {
        ok := ReadFull(want - n);
        if !ok {
          return None;
        }
      }
      var d := b[..n];
      assert d == sock.stream[..sock.pos];
      TakeSlice(sock.stream, sock.pos, 2, want);
      var m := ScanMethods(d[2..want], haveToken);
      g := Some((want, m));
    }

    /** The authentication loop. The test for a full buffer never fires. */
    method AwaitAuth() returns (a: Auth)
      requires Valid() && c <= 257
      modifies this`n, sock, b
      ensures Valid() && old(sock.pos) <= sock.pos && a == AuthFrame(sock.stream[c..])
      ensures a.AuthOk? ==> AuthLen(a.user, a.pass) <= n && AuthLen(a.user, a.pass) <= 513
      ensures a.AuthOk? ==> n > 1 && 2 + b[1] + 1 + |a.pass| == AuthLen(a.user, a.pass)
    {
      hide AuthFrame;
      while true
        invariant Valid() && n >= old(n)
        decreases |sock.stream| - sock.pos
      {
        a := AuthFrame(b[..n]);
        Decided(b[..n], sock.stream[c..]);
        if a != AuthMore {
          return;
        }
        if n >= BUF {
          assert false;
        }
        var k := Receive(BUF - n);
        if k == 0 {
          assert b[..n] == sock.stream[c..];
          return;
        }
        if sock.pos > RP_HS_INPUT_MAX {
          assert false;
        }
      }
    }

    /** The CONNECT loop. */
    method AwaitRequest() returns (r: Request)
      requires Valid() && c <= 257 + 513
      modifies this`n, sock, b
      ensures Valid() && old(sock.pos) <= sock.pos && r == RequestFrame(sock.stream[c..])
      ensures r.ReqOk? ==> r == RequestFrame(b[..n]) && r.len <= n
    {
      hide RequestFrame;
      while true
        invariant Valid() && n >= old(n)
        decreases |sock.stream| - sock.pos
      {
        r := RequestFrame(b[..n]);
        Decided(b[..n], sock.stream[c..]);
        if r != ReqMore {
          return;
        }
        if n >= BUF {
          assert false;
        }
        var k := Receive(BUF - n);
        if k == 0 {
          assert b[..n] == sock.stream[c..];
          return;
        }
        if sock.pos > RP_HS_INPUT_MAX {
          assert false;
        }
      }
    }

    /** The end of the CONNECT frame, worked out again from its address type. */
    method FrameEnd() returns (e: nat)
      requires Valid() && RequestFrame(b[..n]).ReqOk?
      ensures e == RequestFrame(b[..n]).len <= n
    {
      if b[3] == 1 {
        e := 10;
      } else if b[3] == 4 {
        e := 22;
      } else {
        e := 5 + (b[4] as nat) + 2;
      }
    }

    /** From the CONNECT frame on: the tail behind it is what the upstream gets. */
    method Connect(replies: seq<bytes>) returns (out: Outcome, forwarded: bytes)
      requires Valid() && c <= 257 + 513
      modifies this`n, sock, b
      ensures old(sock.pos) <= sock.pos <= |sock.stream| && c <= |sock.stream|
      ensures out == AfterAuth(sock.stream, c, replies)
      ensures out.end.Go? ==> out.end.at <= sock.pos && forwarded == sock.stream[out.end.at..sock.pos]
    {
      hide RequestFrame;
      forwarded := [];
      var r := AwaitRequest();
      match r {
        case ReqMore => out := Outcome(replies, Closed);
        case ReqRefused(rep) => out := Outcome(replies, BadRequest(rep));
        case ReqOk(t, len) =>
          var e := FrameEnd();
          out := Outcome(replies, Go(t, sock.pos - (n - e)));
          forwarded := b[e..n];
          assert forwarded == b[..n][e..];
      }
    }

    /** From behind the greeting on. */
    method Negotiate(m: byte, token: Option<bytes>) returns (out: Outcome, forwarded: bytes)
      requires Valid() && c <= 257
      modifies this`n, this`c, sock, b
      ensures old(sock.pos) <= sock.pos <= |sock.stream| && old(c) <= |sock.stream|
      ensures out == AfterGreeting(sock.stream, old(c), m, token)
      ensures out.end.Go? ==> out.end.at <= sock.pos && forwarded == sock.stream[out.end.at..sock.pos]
    {
      hide AuthFrame, AfterAuth;
      if m == 0 {
        out, forwarded := Connect([[5, 0]]);
        return;
      }
      forwarded := [];
      var a := AwaitAuth();
      match a {
        case AuthMore => out := Outcome([[5, 2]], Closed);
        case AuthMalformed => out := Outcome([[5, 2], [1, 1]], BadAuth(false));
        case AuthLongUser => out := Outcome([[5, 2], [1, 1]], BadAuth(true));
        case AuthOk(user, pass) =>
          if token.Some? && token.value != pass {
            out := Outcome([[5, 2], [1, 1]], BadAuth(true));
          } else {
            Consume(2 + b[1] + 1 + |pass|);
            out, forwarded := Connect([[5, 2], [1, 0]]);
          }
      }
    }
  }

  /** `rp_handle_socks` up to the upstream connect. However the network cuts the stream, replies, verdict
      and target are those of the whole stream, and what is handed to the upstream is exactly what was
      read behind the CONNECT frame, so that the socket goes on where it ends. */
  method Handle(sock: Client, first: bytes, token: Option<bytes>) returns (out: Outcome, forwarded: bytes)
    requires 1 <= |first| <= BUF && |first| == sock.pos <= |sock.stream|
    requires first == sock.stream[..|first|] && first[0] == 5
    modifies sock
    ensures old(sock.pos) <= sock.pos <= |sock.stream|
    ensures out == Verdict(sock.stream, token)
    ensures out.end.Go? ==> out.end.at <= sock.pos && forwarded == sock.stream[out.end.at..sock.pos]
  {
    hide AfterGreeting, Greeting;
    var ss := new Session(sock, first);
    assert ss.b[..ss.n] == first;
    var greeting := ss.ReadGreeting(token.Some?);
    if greeting.None? {
      return Outcome([], Closed), [];
    }
    var (g, m) := greeting.value;
    if m == 255 {
      return Outcome([[5, 255]], NoMethod), [];
    }
    ss.Consume(g);
    out, forwarded := ss.Negotiate(m, token);
  }

  lemma TakeSlice(x: bytes, n: nat, i: nat, j: nat)
    requires i <= j <= n <= |x|
    ensures x[..n][i..j] == x[i..j]
  {
  }

  /** What a parser decided on a prefix holds for the stream, and it decides before the buffer fills. */
  lemma Decided(d: bytes, s: bytes)
    requires d <= s
    ensures AuthFrame(d) != AuthMore ==> AuthFrame(s) == AuthFrame(d)
    ensures RequestFrame(d) != ReqMore ==> RequestFrame(s) == RequestFrame(d)
    ensures AuthFrame(d) == AuthMore ==> |d| < 513
    ensures RequestFrame(d) == ReqMore ==> |d| < 262
    ensures var a := AuthFrame(d);
            a.AuthOk? ==> && AuthLen(a.user, a.pass) <= |d| && |d| > 1
                          && 2 + d[1] + 1 + |a.pass| == AuthLen(a.user, a.pass) <= 513
    ensures RequestFrame(d).ReqOk? ==> RequestFrame(d).len <= |d|
  {
    FramesStable(d, s);
  }
}
