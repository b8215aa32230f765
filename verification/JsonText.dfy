/**
 JSON strings and numbers as the parser reads them: a NUL-terminated text, a cursor into it, and
 the escaper that writes strings (sections 6 and 7 of RFC 8259).
 */
module JsonText {
  import opened Bytes

  const QUOTE: byte := 34
  const BACKSLASH: byte := 92
  const LOWER_U: byte := 117
  const ZERO: byte := 48

  /** A C string: no byte of it is NUL. */
  ghost predicate CString(t: bytes) {
    forall i :: 0 <= i < |t| ==> t[i] != 0
  }

  /** A parse step's outcome: a value and the new cursor, or the byte offset the error reports. */
  datatype Outcome<T> = Ok(val: T, next: nat) | Fail(at: nat)

  // ---------------------------------------------------------------- hex and UTF-8

  /** `hex_nibble`: -1 for a byte that is no hex digit. */
  function Nibble(c: byte): (h: int)
    ensures -1 <= h < 16
  {
    if 48 <= c <= 57 then c - 48
    else if 97 <= c <= 102 then c - 97 + 10
    else if 65 <= c <= 70 then c - 65 + 10
    else -1
  }

  datatype Hex = Cut | BadHex | Hex(v: nat)

  /** `hex4`, with `k` digits still to read: running off the text wins over a bad digit. */
  function Hex4(t: bytes, i: nat, k: nat, v: nat, bad: bool): (r: Hex)
    requires i <= |t| && CString(t)
    ensures !r.Cut? ==> i + k <= |t|
    decreases k
  {
    if k == 0 then if bad then BadHex else Hex(v)
    else if At(t, i) == 0 then Cut
    else
      var h := Nibble(At(t, i));
      if h < 0 then Hex4(t, i + 1, k - 1, v, true) else Hex4(t, i + 1, k - 1, v * 16 + h, bad)
  }

  function Low6(n: nat): byte {
    0x80 + n % 64
  }

  /** `utf8_encode`; a lone surrogate becomes '?'. */
  function Utf8(cp: nat): (r: bytes)
    requires cp < 0x110000
    ensures 1 <= |r| <= 4
  {
    if cp < 0x80 then [cp]
    else if cp < 0x800 then [0xC0 + cp / 64, Low6(cp)]
    else if cp < 0x10000 then
      if 0xD800 <= cp <= 0xDFFF then [63] else [0xE0 + cp / 4096, Low6(cp / 64), Low6(cp)]
    else [0xF0 + cp / 262144, Low6(cp / 4096), Low6(cp / 64), Low6(cp)]
  }

  // ---------------------------------------------------------------- strings

  /** One turn of the string loop. */
  datatype Turn = Closed | Chars(out: bytes, next: nat) | Stop(at: nat)

  /** The byte a one-letter escape stands for. */
  function Simple(e: byte): Outcome<byte> {
    if e == QUOTE || e == BACKSLASH || e == 47 then Ok(e, 2)
    else if e == 98 then Ok(8, 2)
    else if e == 102 then Ok(12, 2)
    else if e == 110 then Ok(10, 2)
    else if e == 114 then Ok(13, 2)
    else if e == 116 then Ok(9, 2)
    else Fail(0)
  }

  predicate High(cp: nat) {
    0xD800 <= cp <= 0xDBFF
  }

  predicate Low(cp: nat) {
    0xDC00 <= cp <= 0xDFFF
  }

  function Pow16(k: nat): nat {
    if k == 0 then 1 else 16 * Pow16(k - 1)
  }

  lemma {:induction false} Hex4Bound(t: bytes, i: nat, k: nat, v: nat, bad: bool, top: nat)
    requires i <= |t| && CString(t) && v < top
    ensures var r := Hex4(t, i, k, v, bad); r.Hex? ==> r.v < top * Pow16(k)
    decreases k
  {
    if k > 0 && At(t, i) != 0 {
      var h := Nibble(At(t, i));
      if h < 0 {
        Hex4Bound(t, i + 1, k - 1, v, true, top * 16);
      } else {
        Hex4Bound(t, i + 1, k - 1, v * 16 + h, bad, top * 16);
      }
      assert top * 16 * Pow16(k - 1) == top * Pow16(k);
    }
  }

  lemma Hex4Step(t: bytes, i: nat, k: nat, v: nat, bad: bool)
    requires i <= |t| && CString(t) && k > 0
    ensures var h := Nibble(At(t, i));
            if At(t, i) == 0 then Hex4(t, i, k, v, bad) == Cut
            else if h < 0 then Hex4(t, i, k, v, bad) == Hex4(t, i + 1, k - 1, v, true)
            else Hex4(t, i, k, v, bad) == Hex4(t, i + 1, k - 1, v * 16 + h, bad)
  {
  }

  lemma Hex4End(t: bytes, i: nat, v: nat, bad: bool)
    requires i <= |t| && CString(t)
    ensures Hex4(t, i, 0, v, bad) == if bad then BadHex else Hex(v)
  {
  }

  /** Four hex digits at `i`. */
  function Unit(t: bytes, i: nat): (r: Hex)
    requires i <= |t| && CString(t)
    ensures !r.Cut? ==> i + 4 <= |t|
    ensures r.Hex? ==> r.v < 0x10000
  {
    Hex4Bound(t, i, 4, 0, false, 1);
    assert Pow16(4) == 0x10000;
    Hex4(t, i, 4, 0, false)
  }

  /** The code point a surrogate pair spells. */
  function Pair(hi: nat, lo: nat): (cp: nat)
    requires High(hi) && Low(lo)
    ensures 0x10000 <= cp < 0x110000
  {
    0x10000 + (hi - 0xD800) * 1024 + (lo - 0xDC00)
  }

  /** The `u` escape at `i`: a high surrogate takes a following low one with it. */
  function UTurn(t: bytes, i: nat): (r: Turn)
    requires i + 2 <= |t| && CString(t)
    ensures r.Chars? ==> i + 6 <= r.next <= |t|
    ensures r.Stop? ==> r.at <= |t|
  {
    var u := Unit(t, i + 2);
    if u.Cut? then Stop(|t|)
    else if u.BadHex? || u.v == 0 then Stop(i + 6)
    else if High(u.v) && At(t, i + 6) == BACKSLASH && At(t, i + 7) == LOWER_U then
      var l := Unit(t, i + 8);
      if l.Cut? then Stop(|t|)
      else if l.Hex? && Low(l.v) then Chars(Utf8(Pair(u.v, l.v)), i + 12)
      else Chars(Utf8(u.v), i + 6)
    else Chars(Utf8(u.v), i + 6)
  }

  function StrTurn(t: bytes, i: nat): (r: Turn)
    requires i <= |t| && CString(t)
    ensures r.Closed? ==> i < |t|
    ensures r.Chars? ==> i < r.next <= |t|
    ensures r.Stop? ==> r.at <= |t|
  {
    var c := At(t, i);
    if c == 0 then Stop(|t|)
    else if c == QUOTE then Closed
    else if c == BACKSLASH then
      var e := At(t, i + 1);
      if e == LOWER_U then UTurn(t, i)
      else if e == 0 then Stop(|t|)
      else
        var b := Simple(e);
        if b.Ok? then Chars([b.val], i + 2) else Stop(i + 2)
    else if c < 0x20 then Stop(i + 1)
    else Chars([c], i + 1)
  }

  /** `parse_string` behind the opening quote. */
  function Str(t: bytes, i: nat, acc: bytes): (r: Outcome<bytes>)
    requires i <= |t| && CString(t)
    ensures r.Ok? ==> i < r.next <= |t|
    ensures r.Fail? ==> r.at <= |t|
    decreases |t| - i
  {
    var turn := StrTurn(t, i);
    match turn
    case Closed => Ok(acc, i + 1)
    case Stop(at) => Fail(at)
    case Chars(out, next) => Str(t, next, acc + out)
  }

  // ---------------------------------------------------------------- what is read is a C string again

  lemma Utf8NoNul(cp: nat)
    requires 0 < cp < 0x110000
    ensures CString(Utf8(cp))
  {
  }

  lemma TurnNoNul(t: bytes, i: nat)
    requires i <= |t| && CString(t) && StrTurn(t, i).Chars?
    ensures CString(StrTurn(t, i).out)
  {
    hide Utf8, Unit, Pair;
    if At(t, i) == BACKSLASH && At(t, i + 1) == LOWER_U {
      var u := Unit(t, i + 2);
      Utf8NoNul(u.v);
      if High(u.v) && At(t, i + 6) == BACKSLASH && At(t, i + 7) == LOWER_U {
        var l := Unit(t, i + 8);
        if l.Hex? && Low(l.v) { Utf8NoNul(Pair(u.v, l.v)); }
      }
    }
  }

  /** An accepted string can be stored as a C string: no escape smuggles a NUL into it. */
  lemma {:induction false} StrNoNul(t: bytes, i: nat, acc: bytes)
    requires i <= |t| && CString(t) && CString(acc)
    ensures Str(t, i, acc).Ok? ==> CString(Str(t, i, acc).val)
    decreases |t| - i
  {
    hide StrTurn;
    var turn := StrTurn(t, i);
    if turn.Chars? {
      TurnNoNul(t, i);
      StrNoNul(t, turn.next, acc + turn.out);
    }
  }

  // ---------------------------------------------------------------- UTF-8 read back

  function Bits(b: byte, lead: nat): nat
    requires b >= lead
  {
    b - lead
  }

  /** The code point of a UTF-8 sequence (section 3 of RFC 3629). */
  function Utf8Value(b: bytes): nat
    requires 1 <= |b| <= 4
    requires |b| > 1 ==> b[0] >= 0xC0 && forall k :: 1 <= k < |b| ==> b[k] >= 0x80
    requires |b| > 2 ==> b[0] >= 0xE0
    requires |b| > 3 ==> b[0] >= 0xF0
  {
    if |b| == 1 then b[0]
    else if |b| == 2 then Bits(b[0], 0xC0) * 64 + Bits(b[1], 0x80)
    else if |b| == 3 then Bits(b[0], 0xE0) * 4096 + Bits(b[1], 0x80) * 64 + Bits(b[2], 0x80)
    else Bits(b[0], 0xF0) * 262144 + Bits(b[1], 0x80) * 4096 + Bits(b[2], 0x80) * 64 + Bits(b[3], 0x80)
  }

  /** Every code point except the surrogates is encoded so that it can be read back. */
  lemma Utf8RoundTrip(cp: nat)
    requires cp < 0x110000
    ensures Utf8Value(Utf8(cp)) == if 0xD800 <= cp <= 0xDFFF then 63 else cp
  {
    var a, b, c := cp / 64, cp / 4096, cp / 262144;
    assert a / 64 == b && b / 64 == c;
    assert cp == a * 64 + cp % 64 && a == b * 64 + a % 64 && b == c * 64 + b % 64;
  }

  /** The two surrogates of a supplementary code point spell it. */
  lemma PairRoundTrip(cp: nat)
    requires 0x10000 <= cp < 0x110000
    ensures var hi, lo := 0xD800 + (cp - 0x10000) / 1024, 0xDC00 + (cp - 0x10000) % 1024;
            High(hi) && Low(lo) && Pair(hi, lo) == cp
  {
  }

  // ---------------------------------------------------------------- the escaper

  function HexDigit(n: nat): byte
    requires n < 16
  {
    if n < 10 then 48 + n else 97 + (n - 10)
  }

  /** What `json_escape` writes for one byte. */
  function EscapeByte(c: byte): bytes {
    if c == QUOTE || c == BACKSLASH then [BACKSLASH, c]
    else if c < 0x20 then [BACKSLASH, LOWER_U, ZERO, ZERO, HexDigit(c / 16), HexDigit(c % 16)]
    else [c]
  }

  function Escape(s: bytes): bytes {
    if s == [] then [] else EscapeByte(s[0]) + Escape(s[1..])
  }

  /** The text from `i` on starts with `x`. */
  ghost predicate Here(t: bytes, i: nat, x: bytes) {
    i + |x| <= |t| && t[i..i + |x|] == x
  }

  lemma HereSplit(t: bytes, i: nat, x: bytes, y: bytes)
    requires Here(t, i, x + y)
    ensures Here(t, i, x) && Here(t, i + |x|, y)
  {
    assert t[i..i + |x|] == (x + y)[..|x|] == x;
    assert t[i + |x|..i + |x| + |y|] == (x + y)[|x|..] == y;
  }

  lemma HereAt(t: bytes, i: nat, x: bytes, k: nat)
    requires Here(t, i, x) && k < |x|
    ensures At(t, i + k) == x[k]
  {
    assert t[i..i + |x|][k] == x[k];
  }

  lemma EscapeTurn(t: bytes, i: nat, c: byte)
    requires CString(t) && c != 0 && Here(t, i, EscapeByte(c))
    ensures StrTurn(t, i) == Chars([c], i + |EscapeByte(c)|)
  {
    var x := EscapeByte(c);
    HereAt(t, i, x, 0);
    if |x| == 2 {
      HereAt(t, i, x, 1);
    } else if |x| == 6 {
      HereAt(t, i, x, 1);
      EscapeUnit(t, i, c);
    }
  }

  lemma EscapeUnit(t: bytes, i: nat, c: byte)
    requires CString(t) && c < 0x20 && Here(t, i, EscapeByte(c))
    ensures Unit(t, i + 2) == Hex(c)
  {
    var x := EscapeByte(c);
    HereAt(t, i, x, 2);
    HereAt(t, i, x, 3);
    HereAt(t, i, x, 4);
    HereAt(t, i, x, 5);
    assert Hex4(t, i + 2, 4, 0, false) == Hex4(t, i + 3, 3, 0, false) == Hex4(t, i + 4, 2, 0, false)
        == Hex4(t, i + 5, 1, c / 16, false) == Hex4(t, i + 6, 0, c, false);
  }

  /** For every NUL-free string, reading back its quoted escape gives the string. */
  lemma {:induction false} EscapeRoundTrip(s: bytes, t: bytes, i: nat, acc: bytes)
    requires CString(s) && CString(t) && Here(t, i, Escape(s) + [QUOTE])
    ensures Str(t, i, acc) == Ok(acc + s, i + |Escape(s)| + 1)
    decreases |s|
  {
    hide EscapeByte, Here, StrTurn;
    if s == [] {
      HereAt(t, i, Escape(s) + [QUOTE], 0);
      QuoteCloses(t, i);
      assert acc + s == acc;
    } else {
      var x, rest := EscapeByte(s[0]), Escape(s[1..]) + [QUOTE];
      assert Escape(s) + [QUOTE] == x + rest;
      HereSplit(t, i, x, rest);
      EscapeTurn(t, i, s[0]);
      EscapeRoundTrip(s[1..], t, i + |x|, acc + [s[0]]);
      assert acc + [s[0]] + s[1..] == acc + s;
    }
  }

  lemma QuoteCloses(t: bytes, i: nat)
    requires i <= |t| && CString(t) && At(t, i) == QUOTE
    ensures StrTurn(t, i) == Closed
  {
  }
}
