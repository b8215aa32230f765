/** Dotted-quad IPv4 addresses: the printer and the strict reader, which are inverse both ways. */
module Dotted {
  import opened Bytes

  // ---------------------------------------------------------------- printing

  function Dec(n: byte): bytes {
    if n < 10 then [48 + n]
    else if n < 100 then [48 + n / 10, 48 + n % 10]
    else [48 + n / 100, 48 + n / 10 % 10, 48 + n % 10]
  }

  /** `ip_to_string`. */
  function Print(b: bytes): bytes
    requires |b| == 4
  {
    Dec(b[0]) + [DOT] + Dec(b[1]) + [DOT] + Dec(b[2]) + [DOT] + Dec(b[3])
  }

  // ---------------------------------------------------------------- reading

  function Worth(c: byte): nat
    requires Digit(c)
  {
    c - 48
  }

  /** `strtol` on a run of digits: its value and where it ends. */
  function Run(s: bytes, i: nat, v: nat): (r: (nat, nat))
    requires i <= |s|
    ensures i <= r.1 <= |s|
    decreases |s| - i
  {
    if i < |s| && Digit(s[i]) then Run(s, i + 1, v * 10 + Worth(s[i])) else (v, i)
  }

  /** One octet at `i`: no leading zero, at most 255. */
  function Octet(s: bytes, i: nat): (o: Option<(byte, nat)>)
    requires i <= |s|
    ensures o.Some? ==> i <= o.value.1 <= |s|
  {
    if !Digit(At(s, i)) then None
    else if At(s, i) == 48 && Digit(At(s, i + 1)) then None
    else
      var (v, e) := Run(s, i, 0);
      if v > 255 then None else Some((v, e))
  }

  /** `s2ip4` with `k` octets to go. */
  function Octets(s: bytes, i: nat, k: nat): Option<bytes>
    requires k > 0 && i <= |s|
    decreases k
  {
    var o := Octet(s, i);
    if o.None? then None
    else if k == 1 then if o.value.1 == |s| then Some([o.value.0]) else None
    else if At(s, o.value.1) != DOT then None
    else
      var rest := Octets(s, o.value.1 + 1, k - 1);
      if rest.None? then None else Some([o.value.0] + rest.value)
  }

  function Read(s: bytes): Option<bytes> {
    Octets(s, 0, 4)
  }

  // ---------------------------------------------------------------- digits

  /** The number a digit string spells, behind the value `v`. */
  function Num(x: bytes, v: nat): nat
    requires AllDigits(x)
  {
    if x == [] then v else Num(x[1..], v * 10 + Worth(x[0]))
  }

  lemma {:induction false} NumGrows(x: bytes, v: nat)
    requires AllDigits(x)
    ensures Num(x, v) >= if x == [] then v else 10 * v
  {
    if x != [] { NumGrows(x[1..], v * 10 + Worth(x[0])); }
  }

  lemma NumOne(x: bytes, v: nat)
    requires AllDigits(x) && x != []
    ensures AllDigits(x[1..]) && Num(x, v) == Num(x[1..], v * 10 + Worth(x[0]))
  {
  }

  lemma DecOf(a: nat, b: nat, c: nat)
    requires a < 10 && b < 10 && c < 10
    ensures Dec(c) == [48 + c]
    ensures b > 0 ==> Dec(b * 10 + c) == [48 + b, 48 + c]
    ensures a > 0 && a * 100 + b * 10 + c < 256 ==> Dec(a * 100 + b * 10 + c) == [48 + a, 48 + b, 48 + c]
  {
    var m, n := b * 10 + c, a * 100 + b * 10 + c;
    assert m / 10 == b && m % 10 == c;
    assert n / 100 == a && n / 10 == a * 10 + b && (a * 10 + b) % 10 == b && n % 10 == c;
  }

  lemma NumUpTo3(x: bytes)
    requires AllDigits(x)
    ensures |x| == 1 ==> Num(x, 0) == Worth(x[0])
    ensures |x| == 2 ==> Num(x, 0) == Worth(x[0]) * 10 + Worth(x[1])
    ensures |x| >= 3 ==> Num(x, 0) == Num(x[3..], Worth(x[0]) * 100 + Worth(x[1]) * 10 + Worth(x[2]))
    ensures |x| == 3 ==> Num(x, 0) == Worth(x[0]) * 100 + Worth(x[1]) * 10 + Worth(x[2])
  {
    hide Num;
    if |x| > 0 {
      NumOne(x, 0);
      NumEnd(x[1..], Worth(x[0]));
      if |x| > 1 {
        NumOne(x[1..], Worth(x[0]));
        assert x[1..][1..] == x[2..];
        var b := Worth(x[0]) * 10 + Worth(x[1]);
        NumEnd(x[2..], b);
        if |x| > 2 {
          NumOne(x[2..], b);
          assert x[2..][1..] == x[3..];
          NumEnd(x[3..], b * 10 + Worth(x[2]));
        }
      }
    }
  }

  /** A short enough spelling without a leading zero is the printer's. */
  lemma Canonical(x: bytes)
    requires AllDigits(x) && x != [] && (|x| > 1 ==> x[0] != 48) && Num(x, 0) <= 255
    ensures x == Dec(Num(x, 0))
  {
    hide Num, Dec;
    NumUpTo3(x);
    if |x| == 1 {
      DecOf(0, 0, Worth(x[0]));
    } else if |x| == 2 {
      DecOf(0, Worth(x[0]), Worth(x[1]));
    } else {
      var v := Worth(x[0]) * 100 + Worth(x[1]) * 10 + Worth(x[2]);
      NumGrows(x[3..], v);
      DecOf(Worth(x[0]), Worth(x[1]), Worth(x[2]));
    }
  }

  lemma NumEnd(x: bytes, v: nat)
    requires AllDigits(x)
    ensures x == [] ==> Num(x, v) == v
  {
  }

  lemma DecNum(n: byte)
    ensures AllDigits(Dec(n)) && Num(Dec(n), 0) == n
    ensures |Dec(n)| > 1 ==> Dec(n)[0] != 48
  {
    hide Num;
    NumUpTo3(Dec(n));
  }

  lemma {:induction false} RunIs(s: bytes, i: nat, v: nat)
    requires i <= |s|
    ensures var (w, e) := Run(s, i, v);
            i <= e <= |s| && AllDigits(s[i..e]) && w == Num(s[i..e], v) && !Digit(At(s, e))
    ensures Digit(At(s, i)) ==> Run(s, i, v).1 > i
    decreases |s| - i
  {
    if i < |s| && Digit(s[i]) {
      var u := v * 10 + Worth(s[i]);
      RunIs(s, i + 1, u);
      var (w, e) := Run(s, i + 1, u);
      assert s[i..e] == [s[i]] + s[i + 1..e];
      assert s[i..e][1..] == s[i + 1..e];
    }
  }

  /** A digit run has one end. */
  lemma RunEnd(s: bytes, i: nat, e: nat, f: nat)
    requires i <= e <= |s| && AllDigits(s[i..e]) && !Digit(At(s, e))
    requires i <= f <= |s| && AllDigits(s[i..f]) && !Digit(At(s, f))
    ensures e == f
  {
    assert forall k :: i <= k < e ==> s[k] == s[i..e][k - i];
    assert forall k :: i <= k < f ==> s[k] == s[i..f][k - i];
  }

  // ---------------------------------------------------------------- octets

  /** An octet is accepted exactly when it is spelled the way the printer spells it, up to a byte
      that is no digit. */
  lemma OctetIff(s: bytes, i: nat, n: byte, e: nat)
    requires i <= |s|
    ensures Octet(s, i) == Some((n, e)) <==>
              i <= e <= |s| && s[i..e] == Dec(n) && !Digit(At(s, e))
  {
    hide Num, Dec, Run;
    RunIs(s, i, 0);
    DecNum(n);
    var (v, f) := Run(s, i, 0);
    if Octet(s, i) == Some((n, e)) {
      var x := s[i..f];
      assert x[0] == s[i] && (|x| > 1 ==> x[1] == s[i + 1]);
      Canonical(x);
    }
    if i <= e <= |s| && s[i..e] == Dec(n) && !Digit(At(s, e)) {
      RunEnd(s, i, e, f);
      DecSome(n);
      assert s[i..e][0] == s[i] && (|Dec(n)| > 1 ==> s[i..e][1] == s[i + 1]);
    }
  }

  lemma DecSome(n: byte)
    ensures 1 <= |Dec(n)| <= 3
  {
  }

  // ---------------------------------------------------------------- addresses

  function Tail(b: bytes): bytes
    requires b != []
  {
    if |b| == 1 then Dec(b[0]) else Dec(b[0]) + [DOT] + Tail(b[1..])
  }

  lemma Cut(s: bytes, i: nat, x: bytes, rest: bytes)
    requires i <= |s|
    ensures s[i..] == x + [DOT] + rest <==>
              i + |x| < |s| && s[i..i + |x|] == x && s[i + |x|] == DOT && s[i + |x| + 1..] == rest
  {
    var e := i + |x|;
    if s[i..] == x + [DOT] + rest {
      assert s[i..][..|x|] == s[i..e] && s[i..][|x|] == s[e] && s[i..][|x| + 1..] == s[e + 1..];
    }
    if e < |s| && s[i..e] == x && s[e] == DOT && s[e + 1..] == rest {
      assert s[i..] == s[i..e] + [s[e]] + s[e + 1..];
    }
  }

  lemma {:induction false} OctetsIff(s: bytes, i: nat, b: bytes)
    requires b != [] && i <= |s|
    ensures Octets(s, i, |b|) == Some(b) <==> s[i..] == Tail(b)
    decreases |b|
  {
    hide Octet, Dec;
    if |b| == 1 {
      OctetIff(s, i, b[0], |s|);
      assert s[i..|s|] == s[i..];
      assert [b[0]] == b;
    } else {
      var e := i + |Dec(b[0])|;
      OctetIff(s, i, b[0], e);
      Cut(s, i, Dec(b[0]), Tail(b[1..]));
      if Octet(s, i).Some? {
        var (n, f) := Octet(s, i).value;
        OctetIff(s, i, n, f);
        if n == b[0] { assert f == e; }
      }
      if Octet(s, i) == Some((b[0], e)) && At(s, e) == DOT {
        OctetsIff(s, e + 1, b[1..]);
        assert [b[0]] + b[1..] == b;
      }
    }
  }

  lemma TailOf(b: bytes)
    requires |b| == 4
    ensures Tail(b) == Dec(b[0]) + [DOT] + (Dec(b[1]) + [DOT] + (Dec(b[2]) + [DOT] + Dec(b[3])))
  {
    hide Dec;
    assert b[1..][1..] == b[2..] && b[2..][1..] == b[3..];
    assert Tail(b[3..]) == Dec(b[3]);
    assert Tail(b[2..]) == Dec(b[2]) + [DOT] + Tail(b[3..]);
    assert Tail(b[1..]) == Dec(b[1]) + [DOT] + Tail(b[2..]);
  }

  /** The reader accepts exactly the printer's spellings, each as the address printed. */
  lemma ReadIff(s: bytes, b: bytes)
    requires |b| == 4
    ensures Read(s) == Some(b) <==> s == Print(b)
  {
    hide Octets, Dec;
    OctetsIff(s, 0, b);
    assert s[0..] == s;
    TailOf(b);
    assert Tail(b) == Dec(b[0]) + [DOT] + (Dec(b[1]) + [DOT] + (Dec(b[2]) + [DOT] + Dec(b[3])));
  }

  /** A printed address and its NUL fit the 16-byte field. */
  lemma PrintFits(b: bytes)
    requires |b| == 4
    ensures 7 <= |Print(b)| < 16
  {
    hide Dec;
    DecSome(b[0]);
    DecSome(b[1]);
    DecSome(b[2]);
    DecSome(b[3]);
  }
}
