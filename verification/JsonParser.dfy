/**
 The parser and the escaper as the program runs them: one cursor moved by loops and by mutually
 recursive calls, and a two-pass fill of a buffer.
 */
module JsonParser {
  import opened Bytes
  import opened JsonText
  import opened JsonNumber
  import opened JsonTree

  class Parser {
    const t: bytes
    var s: nat

    constructor (text: bytes)
      ensures t == text && s == 0
    {
      t, s := text, 0;
    }

    ghost predicate Valid()
      reads this
    {
      CString(t) && s <= |t|
    }

    method SkipSpace(w: Space)
      requires Valid()
      modifies this`s
      ensures Valid() && s == SkipWs(t, old(s), w)
    {
      while Ws(At(t, s), w)
        invariant Valid() && SkipWs(t, s, w) == SkipWs(t, old(s), w)
        decreases |t| - s
      {
        s := s + 1;
      }
    }

    /** `hex4`. */
    method ReadHex4(i: nat) returns (r: Hex)
      requires Valid() && i <= |t|
      ensures r == Unit(t, i)
    {
      var v: nat, bad, k: nat := 0, false, 0;
      ghost var want := Unit(t, i);
      hide Hex4, CString;
      while k < 4
        invariant k <= 4 && i + k <= |t|
        invariant Hex4(t, i + k, 4 - k, v, bad) == want
      {
        Hex4Step(t, i + k, 4 - k, v, bad);
        var h := Nibble(At(t, i + k));
        if At(t, i + k) == 0 {
          return Cut;
        }
        if h < 0 {
          bad := true;
        } else {
          v := v * 16 + h;
        }
        k := k + 1;
      }
      Hex4End(t, i + k, v, bad);
      r := if bad then BadHex else Hex(v);
    }

    /** `parse_string`, cursor on the opening quote. */
    method ParseString() returns (r: Outcome<bytes>)
      requires Valid() && At(t, s) == QUOTE
      modifies this`s
      ensures Valid() && r == Str(t, old(s) + 1, [])
      ensures s > old(s) && (r.Ok? ==> s == r.next)
    {
      hide Utf8, Hex4;
      s := s + 1;
      var b: bytes := [];
      while true
        invariant Valid() && old(s) < s && Str(t, s, b) == Str(t, old(s) + 1, [])
        decreases |t| - s
      {
        var c := At(t, s);
        if c == 0 {
          return Fail(|t|);
        }
        if c == QUOTE {
          s := s + 1;
          return Ok(b, s);
        }
        if c == BACKSLASH {
          var e := At(t, s + 1);
          if e == LOWER_U {
            var out, next;
            r, out, next := ParseEscape();
            if r.Fail? {
              return;
            }
            b, s := b + out, next;
          } else if e == 0 {
            return Fail(|t|);
          } else {
            var m := Simple(e);
            if m.Fail? {
              return Fail(s + 2);
            }
            b, s := b + [m.val], s + 2;
          }
        } else if c < 0x20 {
          return Fail(s + 1);
        } else {
          b, s := b + [c], s + 1;
        }
      }
    }

    /** The `u` branch of `parse_string`. */
    method ParseEscape() returns (r: Outcome<bytes>, out: bytes, next: nat)
      requires Valid() && s + 2 <= |t|
      ensures match UTurn(t, s)
              case Stop(at) => r == Fail(at)
              case Chars(o, n) => r.Ok? && out == o && next == n
              case Closed => false
    {
      hide Utf8, Unit;
      out, next, r := [], 0, Ok([], 0);
      var u := ReadHex4(s + 2);
      if u.Cut? {
        return Fail(|t|), out, next;
      }
      if u.BadHex? || u.v == 0 {
        return Fail(s + 6), out, next;
      }
      if High(u.v) && At(t, s + 6) == BACKSLASH && At(t, s + 7) == LOWER_U {
        var l := ReadHex4(s + 8);
        if l.Cut? {
          return Fail(|t|), out, next;
        }
        if l.Hex? && Low(l.v) {
          out, next := Utf8(Pair(u.v, l.v)), s + 12;
          return;
        }
      }
      out, next := Utf8(u.v), s + 6;
    }

    method SkipDigits()
      requires Valid()
      modifies this`s
      ensures Valid() && s == DigitsEnd(t, old(s))
    {
      while Digit(At(t, s))
        invariant Valid() && DigitsEnd(t, s) == DigitsEnd(t, old(s))
        decreases |t| - s
      {
        s := s + 1;
      }
    }

    method NeedDigits() returns (r: Scan)
      requires Valid()
      modifies this`s
      ensures Valid() && r == DigitsDue(t, old(s)) && s >= old(s) && (r.To? ==> s == r.next)
    {
      if At(t, s) == 0 {
        return Bad(|t|);
      }
      if !Digit(At(t, s)) {
        return Bad(s + 1);
      }
      SkipDigits();
      r := To(s);
    }

    method ScanInt() returns (r: Scan)
      requires Valid() && s < |t| && (t[s] == MINUS || Digit(t[s]))
      modifies this`s
      ensures Valid() && r == IntPart(t, old(s)) && s >= old(s) && (r.To? ==> s == r.next)
    {
      if At(t, s) == MINUS {
        s := s + 1;
        if At(t, s) == 0 {
          return Bad(|t|);
        }
        if !Digit(At(t, s)) {
          return Bad(s + 1);
        }
      }
      if At(t, s) == ZERO {
        s := s + 1;
        if Digit(At(t, s)) {
          return Bad(s + 1);
        }
      } else {
        SkipDigits();
      }
      r := To(s);
    }

    method ScanFrac() returns (r: Scan)
      requires Valid()
      modifies this`s
      ensures Valid() && r == FracPart(t, old(s)) && s >= old(s) && (r.To? ==> s == r.next)
    {
      r := To(s);
      if At(t, s) == DOT {
        s := s + 1;
        r := NeedDigits();
      }
    }

    method ScanExp() returns (r: Scan)
      requires Valid()
      modifies this`s
      ensures Valid() && r == ExpPart(t, old(s)) && s >= old(s) && (r.To? ==> s == r.next)
    {
      r := To(s);
      if ExpMark(At(t, s)) {
        s := s + 1;
        if Sign(At(t, s)) {
          s := s + 1;
        }
        r := NeedDigits();
      }
    }

    /** `parse_number`. */
    method ParseNumber(lib: Lib) returns (r: Outcome<bytes>)
      requires Valid() && s < |t| && (t[s] == MINUS || Digit(t[s]))
      modifies this`s
      ensures Valid() && r == Number(t, old(s), lib.fits)
      ensures s >= old(s) && (r.Ok? ==> s == r.next)
    {
      hide IntPart, FracPart, ExpPart, CString;
      var start := s;
      var d := ScanInt();
      if d.Bad? {
        return Fail(d.at);
      }
      d := ScanFrac();
      if d.Bad? {
        return Fail(d.at);
      }
      d := ScanExp();
      if d.Bad? {
        return Fail(d.at);
      }
      if s - start >= 128 {
        s := start;
        return Fail(s + 1);
      }
      if !lib.fits(t[start..s]) {
        return Fail(s + 1);
      }
      r := Ok(t[start..s], s);
    }

    method ParseLit(lit: bytes, v: Value) returns (r: Outcome<Value>)
      requires Valid() && CString(lit)
      modifies this`s
      ensures Valid() && r == Leaf(v, Lit(t, old(s), lit)) && s >= old(s) && (r.Ok? ==> s == r.next)
    {
      var l := 0;
      assert lit[0..] == lit;
      while l < |lit|
        invariant l <= |lit| && Valid() && s >= old(s) && Lit(t, s, lit[l..]) == Lit(t, old(s), lit)
      {
        if At(t, s) == 0 {
          return Fail(|t|);
        }
        if At(t, s) != lit[l] {
          return Fail(s + 1);
        }
        s, l := s + 1, l + 1;
      }
      r := Ok(v, s);
    }

    /** One turn of the array loop. */
    method ArrayTurn(depth: nat, lib: Lib, arr: seq<Value>, comma: bool)
      returns (more: bool, arr': seq<Value>, r: Outcome<Value>)
      requires Valid()
      modifies this`s
      ensures Valid() && s >= old(s) && (more ==> s > old(s))
      ensures var want := ParseItems(t, old(s), depth, lib, arr, comma);
              if more then ParseItems(t, s, depth, lib, arr', true) == want else r == want && (r.Ok? ==> s == r.next)
      decreases |t| - s, 2
    {
      hide JsonTree.ParseValue, SkipWs, CString;
      more, arr' := false, arr;
      SkipSpace(lib.space);
      if At(t, s) == RBRACKET {
        if comma {
          r := Fail(s + 1);
          return;
        }
        s := s + 1;
        r := Ok(JArr(arr), s);
        return;
      }
      if At(t, s) == 0 {
        r := Fail(|t|);
        return;
      }
      r := Value(depth + 1, lib);
      if r.Fail? {
        return;
      }
      arr' := arr + [r.val];
      SkipSpace(lib.space);
      if At(t, s) == COMMA {
        s, more := s + 1, true;
      } else if At(t, s) == RBRACKET {
        s := s + 1;
        r := Ok(JArr(arr'), s);
      } else {
        r := Fail(if At(t, s) == 0 then |t| else s + 1);
      }
    }

    /** `parse_array`, cursor on the bracket. */
    method ParseArray(depth: nat, lib: Lib) returns (r: Outcome<Value>)
      requires Valid() && At(t, s) == LBRACKET
      modifies this`s
      ensures Valid() && r == ParseItems(t, old(s) + 1, depth, lib, [], false)
      ensures s > old(s) && (r.Ok? ==> s == r.next)
      decreases |t| - s, 0
    {
      hide ParseItems, CString;
      s := s + 1;
      var arr: seq<Value>, comma, more := [], false, true;
      ghost var want := ParseItems(t, s, depth, lib, arr, comma);
      r := Fail(0);
      while more
        invariant Valid() && old(s) < s
        invariant if more then ParseItems(t, s, depth, lib, arr, comma) == want
                  else r == want && (r.Ok? ==> s == r.next)
        decreases more, |t| - s
      {
        more, arr, r := ArrayTurn(depth, lib, arr, comma);
        comma := true;
      }
    }

    method ParseKey(w: Space) returns (r: Outcome<bytes>)
      requires Valid() && At(t, s) == QUOTE
      modifies this`s
      ensures Valid() && r == Key(t, old(s), w) && s > old(s) && (r.Ok? ==> s == r.next)
    {
      hide Str, SkipWs;
      r := ParseString();
      if r.Fail? {
        return;
      }
      SkipSpace(w);
      if At(t, s) == 0 {
        return Fail(|t|);
      }
      if At(t, s) != COLON {
        return Fail(s + 1);
      }
      s := s + 1;
      r := Ok(r.val, s);
    }

    /** One turn of the object loop. */
    method ObjectTurn(depth: nat, lib: Lib, obj: seq<Member>, comma: bool)
      returns (more: bool, obj': seq<Member>, r: Outcome<Value>)
      requires Valid()
      modifies this`s
      ensures Valid() && s >= old(s) && (more ==> s > old(s))
      ensures var want := ParseMembers(t, old(s), depth, lib, obj, comma);
              if more then ParseMembers(t, s, depth, lib, obj', true) == want else r == want && (r.Ok? ==> s == r.next)
      decreases |t| - s, 2
    {
      hide JsonTree.ParseValue, SkipWs, CString, Key;
      more, obj' := false, obj;
      SkipSpace(lib.space);
      if At(t, s) == RBRACE {
        if comma {
          r := Fail(s + 1);
          return;
        }
        s := s + 1;
        r := Ok(JObj(obj), s);
        return;
      }
      if At(t, s) == 0 {
        r := Fail(|t|);
        return;
      }
      if At(t, s) != QUOTE {
        r := Fail(s + 1);
        return;
      }
      var key := ParseKey(lib.space);
      if key.Fail? {
        r := Fail(key.at);
        return;
      }
      r := Value(depth + 1, lib);
      if r.Fail? {
        return;
      }
      obj' := obj + [Member(key.val, r.val)];
      SkipSpace(lib.space);
      if At(t, s) == COMMA {
        s, more := s + 1, true;
      } else if At(t, s) == RBRACE {
        s := s + 1;
        r := Ok(JObj(obj'), s);
      } else {
        r := Fail(if At(t, s) == 0 then |t| else s + 1);
      }
    }

    /** `parse_object`, cursor on the brace. */
    method ParseObject(depth: nat, lib: Lib) returns (r: Outcome<Value>)
      requires Valid() && At(t, s) == LBRACE
      modifies this`s
      ensures Valid() && r == ParseMembers(t, old(s) + 1, depth, lib, [], false)
      ensures s > old(s) && (r.Ok? ==> s == r.next)
      decreases |t| - s, 0
    {
      hide ParseMembers, CString;
      s := s + 1;
      var obj: seq<Member>, comma, more := [], false, true;
      ghost var want := ParseMembers(t, s, depth, lib, obj, comma);
      r := Fail(0);
      while more
        invariant Valid() && old(s) < s
        invariant if more then ParseMembers(t, s, depth, lib, obj, comma) == want
                  else r == want && (r.Ok? ==> s == r.next)
        decreases more, |t| - s
      {
        more, obj, r := ObjectTurn(depth, lib, obj, comma);
        comma := true;
      }
    }

    /** `parse_value`. */
    method Value(depth: nat, lib: Lib) returns (r: Outcome<Value>)
      requires Valid()
      modifies this`s
      ensures Valid() && r == JsonTree.ParseValue(t, old(s), depth, lib)
      ensures s >= old(s) && (r.Ok? ==> s == r.next)
      decreases |t| - s, 1
    {
      hide ParseItems, ParseMembers, Str, Number, Lit, CString, SkipWs;
      SkipSpace(lib.space);
      var c := At(t, s);
      if depth > MAX_DEPTH {
        return Fail(s + 1);
      }
      if c == 0 {
        return Fail(|t|);
      }
      if c == LBRACE {
        r := ParseObject(depth, lib);
      } else if c == LBRACKET {
        r := ParseArray(depth, lib);
      } else if c == QUOTE {
        var q := ParseString();
        r := if q.Ok? then Ok(JStr(q.val), q.next) else Fail(q.at);
      } else if c == 116 {
        r := ParseLit(TRUE, JBool(true));
      } else if c == 102 {
        r := ParseLit(FALSE, JBool(false));
      } else if c == 110 {
        r := ParseLit(NULL, JNull);
      } else if c == MINUS || Digit(c) {
        var n := ParseNumber(lib);
        r := if n.Ok? then Ok(JNum(n.val), n.next) else Fail(n.at);
      } else {
        r := Fail(s + 1);
      }
    }
  }

  /** `json_parse_ex`. */
  method ParseText(text: bytes, lib: Lib) returns (r: Outcome<Value>)
    requires CString(text)
    ensures r == Parse(text, lib)
  {
    hide JsonTree.ParseValue;
    var p := new Parser(text);
    r := p.Value(0, lib);
    if r.Fail? {
      return;
    }
    p.SkipSpace(lib.space);
    r := if At(text, p.s) != 0 then Fail(p.s + 1) else Ok(r.val, p.s);
  }

  // ---------------------------------------------------------------- the escaper's two passes

  /** The first pass counts six bytes for every escape. */
  function Room(s: bytes): nat {
    if s == [] then 0
    else (if s[0] == QUOTE || s[0] == BACKSLASH || s[0] < 0x20 then 6 else 1) + Room(s[1..])
  }

  /** The room counted is enough, and exact when no quote or backslash occurs. */
  lemma {:induction false} RoomEnough(s: bytes)
    ensures |Escape(s)| <= Room(s)
    ensures (forall i :: 0 <= i < |s| ==> s[i] != QUOTE && s[i] != BACKSLASH) <==> |Escape(s)| == Room(s)
  {
    if s != [] {
      RoomEnough(s[1..]);
      assert forall i :: 0 < i < |s| ==> s[i] == s[1..][i - 1];
      assert forall i :: 0 <= i < |s[1..]| ==> s[1..][i] == s[i + 1];
    }
  }

  method CountRoom(s: bytes) returns (n: nat)
    ensures n == Room(s)
  {
    n := 0;
    var p := 0;
    assert s[0..] == s;
    while p < |s|
      invariant p <= |s| && n + Room(s[p..]) == Room(s)
    {
      if s[p] == QUOTE || s[p] == BACKSLASH || s[p] < 0x20 {
        n := n + 6;
      } else {
        n := n + 1;
      }
      p := p + 1;
    }
  }

  /** Copy one byte's escape to `o`. */
  method Emit(out: array<byte>, o: nat, x: bytes) returns (end: nat)
    requires o + |x| <= out.Length
    modifies out
    ensures end == o + |x| && out[..end] == old(out[..o]) + x
  {
    end := o;
    var k := 0;
    while k < |x|
      invariant k <= |x| && end == o + k && out[..end] == old(out[..o]) + x[..k]
    {
      out[end] := x[k];
      end, k := end + 1, k + 1;
    }
  }

  /** `json_escape`: the buffer sized by the first pass holds the escape and its NUL. */
  method EscapeText(s: bytes) returns (out: array<byte>, n: nat)
    requires CString(s)
    ensures fresh(out) && n < out.Length && out[..n] == Escape(s) && out[n] == 0
  {
    hide EscapeByte, Escape;
    var room := CountRoom(s);
    out := new byte[room + 1];
    n := 0;
    var p := 0;
    RoomEnough(s);
    assert s[0..] == s;
    while p < |s|
      invariant p <= |s| && n <= room && out[..n] + Escape(s[p..]) == Escape(s)
    {
      EscapeAt(s, p);
      ghost var was := out[..n];
      n := Emit(out, n, EscapeByte(s[p]));
      assert out[..n] + Escape(s[p + 1..]) == was + Escape(s[p..]);
      p := p + 1;
    }
    assert out[..n] == Escape(s) by { EscapeNone(s[p..]); }
    out[n] := 0;
  }

  lemma EscapeAt(s: bytes, p: nat)
    requires p < |s|
    ensures Escape(s[p..]) == EscapeByte(s[p]) + Escape(s[p + 1..])
  {
    assert s[p..][1..] == s[p + 1..];
  }

  lemma EscapeNone(s: bytes)
    requires s == []
    ensures Escape(s) == []
  {
  }
}
