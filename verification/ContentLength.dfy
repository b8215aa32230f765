/**
 The Content-Length of a response's head: the first line with that name decides, however the lines
 end, and its value must be digits that stay within the size limit.
 */
module ContentLength {
  import opened Bytes
  import opened HeadRewrite
  import Dotted

  const HTTPS_MAX_RESP := 0x100_0000

  /** `content-length:`. */
  const NAME: bytes := [99, 111, 110, 116, 101, 110, 116, 45, 108, 101, 110, 103, 116, 104, 58]

  // ---------------------------------------------------------------- one line

  predicate Declares(line: bytes) {
    |line| >= 15 && forall k :: 0 <= k < 15 ==> Lower(line[k]) == NAME[k]
  }

  function Digits(x: bytes, v: nat): Option<nat>
    decreases |x|
  {
    if x == [] then Some(v)
    else if !Digit(x[0]) || v * 10 + (x[0] - 48) > HTTPS_MAX_RESP then None
    else Digits(x[1..], v * 10 + (x[0] - 48))
  }

  function LengthOf(line: bytes): Option<nat>
    requires Declares(line)
  {
    Digits(line[Value(line, 15)..], 0)
  }

  /** A value is accepted exactly when it is digits that spell at most the limit, as that number. */
  lemma {:induction false} DigitsIs(x: bytes, v: nat)
    requires v <= HTTPS_MAX_RESP
    ensures Digits(x, v) == if AllDigits(x) && Dotted.Num(x, v) <= HTTPS_MAX_RESP then Some(Dotted.Num(x, v)) else None
    decreases |x|
  {
    if x != [] && Digit(x[0]) {
      var w := v * 10 + (x[0] - 48);
      assert AllDigits(x) <==> AllDigits(x[1..]) by {
        assert forall k :: 1 <= k < |x| ==> x[k] == x[1..][k - 1];
      }
      if w <= HTTPS_MAX_RESP {
        DigitsIs(x[1..], w);
      } else if AllDigits(x) {
        Dotted.NumGrows(x[1..], w);
      }
    }
  }

  // ---------------------------------------------------------------- the lines of a head

  /** Length of the line endings a text starts with. */
  function Ends(h: bytes): (n: nat)
    ensures n <= |h| && (n < |h| ==> !Eol(h[n]))
    ensures h != [] && Eol(h[0]) ==> n > 0
  {
    if h == [] || !Eol(h[0]) then 0 else 1 + Ends(h[1..])
  }

  /** What follows the first line and all the line endings behind it. */
  function Rest(h: bytes): (r: bytes)
    ensures h != [] ==> |r| < |h|
  {
    var e := LineLen(h);
    h[e + Ends(h[e..])..]
  }

  /** `https_content_length`, `None` for -1. */
  function Length(h: bytes): Option<nat>
    decreases |h|
  {
    if h == [] then None
    else
      var line := h[..LineLen(h)];
      if Declares(line) then LengthOf(line) else Length(Rest(h))
  }

  /** The lines of a head that are not empty. */
  function Lines(h: bytes): seq<bytes>
    decreases |h|
  {
    if h == [] then []
    else (if LineLen(h) == 0 then [] else [h[..LineLen(h)]]) + Lines(Rest(h))
  }

  /** The first line that declares a length. */
  ghost predicate Decides(lines: seq<bytes>, k: nat) {
    k < |lines| && Declares(lines[k]) && forall i :: 0 <= i < k ==> !Declares(lines[i])
  }

  /** The first declaring line decides, whether or not its value is accepted; without one there is
      no length. */
  lemma {:induction false} LengthIs(h: bytes)
    ensures forall k: nat :: Decides(Lines(h), k) ==> Length(h) == LengthOf(Lines(h)[k])
    ensures (forall k: nat :: !Decides(Lines(h), k)) ==> Length(h) == None
    decreases |h|
  {
    hide Declares, LengthOf, Rest, LineLen;
    if h != [] {
      LengthIs(Rest(h));
      var lines, rest := Lines(h), Lines(Rest(h));
      var line := h[..LineLen(h)];
      EmptyDeclaresNothing();
      if LineLen(h) == 0 {
        assert lines == rest;
        assert line == [];
      } else {
        FirstLine(line, rest);
        assert lines == [line] + rest;
        if Declares(line) {
          assert Decides(lines, 0);
        } else {
          assert forall k: nat :: Decides(rest, k) ==> Decides(lines, k + 1);
        }
      }
    }
  }

  lemma EmptyDeclaresNothing()
    ensures !Declares([])
  {
  }

  lemma FirstLine(line: bytes, rest: seq<bytes>)
    ensures Declares(line) ==> forall k: nat :: Decides([line] + rest, k) ==> k == 0
    ensures !Declares(line) ==> forall k: nat :: Decides([line] + rest, k) <==> k > 0 && Decides(rest, k - 1)
  {
    hide Declares;
    var lines := [line] + rest;
    assert lines[0] == line;
    assert forall i :: 0 <= i < |rest| ==> lines[i + 1] == rest[i];
    forall k: nat | !Declares(line) && k > 0 && Decides(rest, k - 1) ensures Decides(lines, k) {
      assert forall i :: 0 < i < k ==> lines[i] == rest[i - 1];
    }
  }

  // ---------------------------------------------------------------- heads put together

  /** A declaring line decides when it comes first. */
  lemma LengthHere(line: bytes, rest: bytes)
    requires Clean(line) && Declares(line) && (rest != [] ==> Eol(rest[0]))
    ensures Length(line + rest) == LengthOf(line)
  {
    hide Declares, LengthOf, LineLen;
    LineLenIs(line, rest);
    assert (line + rest)[..|line|] == line;
  }

  /** Any other line is passed over. */
  lemma LengthBehind(line: bytes, rest: bytes)
    requires Clean(line) && !Declares(line) && rest != [] && !Eol(rest[0])
    ensures Length(line + ([LF] + rest)) == Length(rest)
  {
    hide Declares, LengthOf, LineLen, Length;
    LineLenIs(line, [LF] + rest);
    var h := line + ([LF] + rest);
    assert h[|line|..] == [LF] + rest && h[..|line|] == line;
    OneEnd(rest);
    assert h[|line| + 1..] == rest;
    LengthSkips(h);
  }

  lemma LengthSkips(h: bytes)
    requires h != [] && !Declares(h[..LineLen(h)])
    ensures Length(h) == Length(Rest(h))
  {
  }

  lemma OneEnd(rest: bytes)
    requires rest != [] && !Eol(rest[0])
    ensures Ends([LF] + rest) == 1
  {
    assert ([LF] + rest)[1..] == rest;
  }

  /** Two line endings behind the deciding line change nothing either. */
  lemma TwoLineHead(status: bytes, field: bytes, rest: bytes)
    requires Clean(status) && !Declares(status) && Clean(field) && Declares(field) && (rest != [] ==> Eol(rest[0]))
    ensures Length(status + ([LF] + (field + rest))) == LengthOf(field)
  {
    hide Declares, LengthOf, Length;
    LengthBehind(status, field + rest);
    LengthHere(field, rest);
  }

  // ---------------------------------------------------------------- the loop

  lemma RestAt(h: bytes, i: nat, e: nat)
    requires i < |h| && e <= |h| && e == i + LineLen(h[i..])
    ensures e + Ends(h[e..]) > i && Rest(h[i..]) == h[e + Ends(h[e..])..]
  {
    assert h[i..][e - i..] == h[e..];
    assert h[i..][0] == h[i];
  }

  /** What one turn of the loop is about. */
  lemma LineAt(h: bytes, i: nat, e: nat)
    requires i < |h| && e <= |h| && e == i + LineLen(h[i..])
    ensures Declares(h[i..e]) ==> Length(h[i..]) == LengthOf(h[i..e])
    ensures !Declares(h[i..e]) ==> Length(h[i..]) == Length(h[e + Ends(h[e..])..])
    ensures e + Ends(h[e..]) > i
  {
    hide Declares, LengthOf, LineLen, Ends, Rest;
    RestAt(h, i, e);
    assert h[i..][..e - i] == h[i..e];
  }

  lemma LengthNone()
    ensures Length([]) == None
  {
  }

  /** One declaring line. */
  method ParseValue(h: bytes, i: nat, eol: nat) returns (r: Option<nat>)
    requires i <= eol <= |h| && Declares(h[i..eol])
    ensures r == LengthOf(h[i..eol])
  {
    var line := h[i..eol];
    var j := 15;
    while j < |line| && Ows(line[j])
      invariant 15 <= j <= |line| && Value(line, j) == Value(line, 15)
    {
      j := j + 1;
    }
    var v: nat := 0;
    while j < |line|
      invariant 15 <= j <= |line| && Digits(line[j..], v) == LengthOf(line)
    {
      assert line[j..][0] == line[j] && line[j..][1..] == line[j + 1..];
      if !Digit(line[j]) {
        return None;
      }
      v := v * 10 + (line[j] - 48);
      if v > HTTPS_MAX_RESP {
        return None;
      }
      j := j + 1;
    }
    return Some(v);
  }

  method SkipEnds(h: bytes, e: nat) returns (i: nat)
    requires e <= |h|
    ensures e <= i <= |h| && i == e + Ends(h[e..])
  {
    i := e;
    while i < |h| && Eol(h[i])
      invariant e <= i <= |h| && i + Ends(h[i..]) == e + Ends(h[e..])
    {
      assert h[i..][0] == h[i] && h[i..][1..] == h[i + 1..];
      i := i + 1;
    }
  }

  method NameAt(line: bytes) returns (yes: bool)
    ensures yes <==> Declares(line)
  {
    if |line| < 15 {
      return false;
    }
    for k := 0 to 15
      invariant forall i :: 0 <= i < k ==> Lower(line[i]) == NAME[i]
    {
      if Lower(line[k]) != NAME[k] {
        return false;
      }
    }
    return true;
  }

  method Scan(h: bytes) returns (r: Option<nat>)
    ensures r == Length(h)
  {
    hide Declares, LengthOf, LineLen, Ends, Length, Rest;
    var i := 0;
    assert h[0..] == h;
    while i < |h|
      invariant i <= |h| && Length(h[i..]) == Length(h)
      decreases |h| - i
    {
      var eol := FindEol(h, i);
      LineAt(h, i, eol);
      var yes := NameAt(h[i..eol]);
      if yes {
        r := ParseValue(h, i, eol);
        return;
      }
      i := SkipEnds(h, eol);
    }
    LengthNone();
    assert h[i..] == [];
    return None;
  }
}
