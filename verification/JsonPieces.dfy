/**
 The strings of section 7 of RFC 8259 as lists of pieces, over bytes, and the string parser as their
 reader: it reads a spelling as what it means, unless it escapes U+0000, which the RFC allows.
 */
module JsonPieces {
  import opened Bytes
  import opened JsonText

  /** What a string is written with: a plain byte, a one-letter escape, a unicode escape of four hex
      digits, or two of them that spell one supplementary code point. */
  datatype Piece = Raw(c: byte) | Short(e: byte) | Code(d: bytes) | Both(hi: bytes, lo: bytes)

  /** Four hex digits. */
  predicate Hex4Text(d: bytes) {
    |d| == 4 && Nibble(d[0]) >= 0 && Nibble(d[1]) >= 0 && Nibble(d[2]) >= 0 && Nibble(d[3]) >= 0
  }

  function Hex4Value(d: bytes): (v: nat)
    requires Hex4Text(d)
    ensures v < 0x10000
  {
    ((Nibble(d[0]) * 16 + Nibble(d[1])) * 16 + Nibble(d[2])) * 16 + Nibble(d[3])
  }

  predicate PieceOk(p: Piece) {
    match p
    case Raw(c) => c >= 0x20 && c != QUOTE && c != BACKSLASH
    case Short(e) => Simple(e).Ok?
    case Code(d) => Hex4Text(d)
    case Both(hi, lo) => Hex4Text(hi) && Hex4Text(lo) && High(Hex4Value(hi)) && Low(Hex4Value(lo))
  }

  function PieceText(p: Piece): bytes {
    match p
    case Raw(c) => [c]
    case Short(e) => [BACKSLASH, e]
    case Code(d) => [BACKSLASH, LOWER_U] + d
    case Both(hi, lo) => [BACKSLASH, LOWER_U] + hi + [BACKSLASH, LOWER_U] + lo
  }

  function PieceMeans(p: Piece): bytes
    requires PieceOk(p)
  {
    match p
    case Raw(c) => [c]
    case Short(e) => [Simple(e).val]
    case Code(d) => Utf8(Hex4Value(d))
    case Both(hi, lo) => Utf8(Pair(Hex4Value(hi), Hex4Value(lo)))
  }

  /** The escape of U+0000. */
  predicate NulCode(p: Piece) {
    p.Code? && Hex4Text(p.d) && Hex4Value(p.d) == 0
  }

  predicate HighCode(p: Piece) {
    p.Code? && Hex4Text(p.d) && High(Hex4Value(p.d))
  }

  predicate LowCode(p: Piece) {
    p.Code? && Hex4Text(p.d) && Low(Hex4Value(p.d))
  }

  /** Well-formed pieces, with no two separate escapes where one pair is meant. */
  ghost predicate PiecesOk(ps: seq<Piece>) {
    && (forall k :: 0 <= k < |ps| ==> PieceOk(ps[k]))
    && (forall k :: 0 <= k < |ps| - 1 ==> !(HighCode(ps[k]) && LowCode(ps[k + 1])))
  }

  function TextOf(ps: seq<Piece>): bytes {
    if ps == [] then [] else PieceText(ps[0]) + TextOf(ps[1..])
  }

  ghost function MeansOf(ps: seq<Piece>): bytes
    requires PiecesOk(ps)
  {
    if ps == [] then [] else PieceMeans(ps[0]) + MeansOf(ps[1..])
  }

  // ---------------------------------------------------------------- hex digits in place

  lemma UnitIs(t: bytes, i: nat)
    requires i + 4 <= |t| && CString(t)
    ensures Hex4Text(t[i..i + 4]) ==> Unit(t, i) == Hex(Hex4Value(t[i..i + 4]))
    ensures !Hex4Text(t[i..i + 4]) ==> Unit(t, i) == BadHex
  {
    var d := t[i..i + 4];
    assert d[0] == At(t, i) && d[1] == At(t, i + 1) && d[2] == At(t, i + 2) && d[3] == At(t, i + 3);
    hide Hex4;
    Hex4Step(t, i, 4, 0, false);
    var a := Nibble(d[0]);
    var v1, b1 := if a < 0 then 0 else a, a < 0;
    Hex4Step(t, i + 1, 3, v1, b1);
    var b := Nibble(d[1]);
    var v2, b2 := if b < 0 then v1 else v1 * 16 + b, b1 || b < 0;
    Hex4Step(t, i + 2, 2, v2, b2);
    var c := Nibble(d[2]);
    var v3, b3 := if c < 0 then v2 else v2 * 16 + c, b2 || c < 0;
    Hex4Step(t, i + 3, 1, v3, b3);
    var e := Nibble(d[3]);
    Hex4End(t, i + 4, if e < 0 then v3 else v3 * 16 + e, b3 || e < 0);
    assert Unit(t, i) == Hex4(t, i, 4, 0, false);
  }

  // ---------------------------------------------------------------- one turn reads one piece

  /** The piece a turn of the string loop reads. */
  function ReadPiece(t: bytes, i: nat): Piece
    requires i <= |t| && CString(t) && StrTurn(t, i).Chars?
  {
    var r := StrTurn(t, i);
    if t[i] != BACKSLASH then Raw(t[i])
    else if t[i + 1] != LOWER_U then Short(t[i + 1])
    else if r.next == i + 12 then Both(t[i + 2..i + 6], t[i + 8..i + 12])
    else Code(t[i + 2..i + 6])
  }

  lemma TurnReads(t: bytes, i: nat)
    requires i <= |t| && CString(t) && StrTurn(t, i).Chars?
    ensures var p, r := ReadPiece(t, i), StrTurn(t, i);
            PieceOk(p) && r.next <= |t| && t[i..r.next] == PieceText(p) && r.out == PieceMeans(p)
  {
    hide Utf8, Unit, Pair, Hex4Text, Hex4Value;
    if t[i] == BACKSLASH && t[i + 1] == LOWER_U {
      UnitIs(t, i + 2);
      assert t[i..i + 6] == [BACKSLASH, LOWER_U] + t[i + 2..i + 6];
      if StrTurn(t, i).next == i + 12 {
        UnitIs(t, i + 8);
        assert t[i..i + 12] == t[i..i + 6] + [BACKSLASH, LOWER_U] + t[i + 8..i + 12];
      }
    }
  }

  /** Two turns never read apart what belongs together. */
  lemma TurnsApart(t: bytes, i: nat)
    requires i <= |t| && CString(t) && StrTurn(t, i).Chars? && StrTurn(t, StrTurn(t, i).next).Chars?
    ensures !(HighCode(ReadPiece(t, i)) && LowCode(ReadPiece(t, StrTurn(t, i).next)))
  {
    hide Utf8, Unit, Pair, Hex4Text, Hex4Value;
    var j := StrTurn(t, i).next;
    if HighCode(ReadPiece(t, i)) && LowCode(ReadPiece(t, j)) {
      UnitIs(t, i + 2);
      UnitIs(t, j + 2);
      assert false;
    }
  }

  lemma PiecesCons(p: Piece, ps: seq<Piece>)
    requires PieceOk(p) && PiecesOk(ps) && (ps != [] ==> !(HighCode(p) && LowCode(ps[0])))
    ensures PiecesOk([p] + ps) && TextOf([p] + ps) == PieceText(p) + TextOf(ps)
    ensures MeansOf([p] + ps) == PieceMeans(p) + MeansOf(ps)
  {
    hide PieceOk, HighCode, LowCode, PieceMeans, PieceText;
    assert ([p] + ps)[1..] == ps;
  }

  /** Whatever the string parser accepts is spelled by pieces, and means what they mean. */
  lemma {:induction false} StrSpelled(t: bytes, i: nat, acc: bytes) returns (ps: seq<Piece>)
    requires i <= |t| && CString(t) && Str(t, i, acc).Ok?
    ensures PiecesOk(ps) && var r := Str(t, i, acc);
            r.next <= |t| && t[i..r.next] == TextOf(ps) + [QUOTE] && r.val == acc + MeansOf(ps)
    ensures ps != [] <==> StrTurn(t, i).Chars?
    ensures ps != [] ==> ps[0] == ReadPiece(t, i)
    decreases |t| - i
  {
    hide PieceOk, PieceText, PieceMeans, HighCode, LowCode;
    var turn := StrTurn(t, i);
    if turn.Closed? {
      ps := [];
      assert t[i..i + 1] == [QUOTE];
      assert acc + [] == acc;
    } else {
      hide StrTurn, ReadPiece;
      var rest := StrSpelled(t, turn.next, acc + turn.out);
      TurnReads(t, i);
      if rest != [] { TurnsApart(t, i); }
      var p := ReadPiece(t, i);
      PiecesCons(p, rest);
      ps := [p] + rest;
      Joined(t, i, turn.next, Str(t, i, acc).next);
      Grouped(PieceText(p), TextOf(rest), [QUOTE]);
      Grouped(acc, turn.out, MeansOf(rest));
    }
  }

  lemma Joined(t: bytes, i: nat, j: nat, k: nat)
    requires i <= j <= k <= |t|
    ensures t[i..k] == t[i..j] + t[j..k]
  {
  }

  lemma Grouped(a: bytes, b: bytes, c: bytes)
    ensures (a + b) + c == a + (b + c)
  {
  }

  // ---------------------------------------------------------------- and every spelling is accepted

  /** No low half follows at `j`. */
  ghost predicate NoLow(t: bytes, j: nat) {
    && j <= |t|
    && (At(t, j) == BACKSLASH && j + 1 <= |t| && At(t, j + 1) == LOWER_U ==>
          j + 6 <= |t| && !(Hex4Text(t[j + 2..j + 6]) && Low(Hex4Value(t[j + 2..j + 6]))))
  }

  lemma HereSlice(t: bytes, i: nat, x: bytes, a: nat, b: nat)
    requires Here(t, i, x) && a <= b <= |x|
    ensures i + b <= |t| && t[i + a..i + b] == x[a..b]
  {
    forall k | a <= k < b ensures t[i + k] == x[k] {
      assert t[i..i + |x|][k] == x[k];
    }
  }

  lemma CodeRead(t: bytes, i: nat, d: bytes)
    requires CString(t) && PieceOk(Code(d)) && Here(t, i, PieceText(Code(d)))
    requires HighCode(Code(d)) ==> NoLow(t, i + 6)
    ensures StrTurn(t, i) == if Hex4Value(d) == 0 then Stop(i + 6) else Chars(Utf8(Hex4Value(d)), i + 6)
  {
    hide Utf8, Unit, Pair, Hex4Text, Hex4Value;
    var x := PieceText(Code(d));
    FourDigits(d);
    HereAt(t, i, x, 0);
    HereAt(t, i, x, 1);
    HereSlice(t, i, x, 2, 6);
    assert x[2..6] == d;
    UnitIs(t, i + 2);
    if High(Hex4Value(d)) && At(t, i + 6) == BACKSLASH && At(t, i + 7) == LOWER_U {
      UnitIs(t, i + 8);
    }
  }

  lemma BothRead(t: bytes, i: nat, hi: bytes, lo: bytes)
    requires CString(t) && PieceOk(Both(hi, lo)) && Here(t, i, PieceText(Both(hi, lo)))
    ensures StrTurn(t, i) == Chars(PieceMeans(Both(hi, lo)), i + 12)
  {
    hide Utf8, Unit, Pair, Hex4Text, Hex4Value;
    var x := PieceText(Both(hi, lo));
    FourDigits(hi);
    FourDigits(lo);
    HereAt(t, i, x, 0);
    HereAt(t, i, x, 1);
    HereAt(t, i, x, 6);
    HereAt(t, i, x, 7);
    HereSlice(t, i, x, 2, 6);
    HereSlice(t, i, x, 8, 12);
    assert x[2..6] == hi && x[8..12] == lo;
    UnitIs(t, i + 2);
    UnitIs(t, i + 8);
  }

  lemma FourDigits(d: bytes)
    requires Hex4Text(d)
    ensures |d| == 4
  {
  }

  /** A piece is read back, cursor behind it, unless it is the escape of U+0000. */
  lemma PieceRead(t: bytes, i: nat, p: Piece)
    requires CString(t) && PieceOk(p) && Here(t, i, PieceText(p))
    requires HighCode(p) ==> NoLow(t, i + 6)
    ensures StrTurn(t, i) == if NulCode(p) then Stop(i + 6) else Chars(PieceMeans(p), i + |PieceText(p)|)
  {
    hide Hex4Text, Hex4Value, Utf8, Unit, Pair, UTurn;
    match p
    case Raw(c) => HereAt(t, i, PieceText(p), 0);
    case Short(e) => HereAt(t, i, PieceText(p), 0); HereAt(t, i, PieceText(p), 1);
    case Code(d) => FourDigits(d); CodeRead(t, i, d);
    case Both(hi, lo) => FourDigits(hi); FourDigits(lo); BothRead(t, i, hi, lo);
  }

  lemma NextNotLow(t: bytes, j: nat, p: Piece)
    requires CString(t) && PieceOk(p) && !LowCode(p) && Here(t, j, PieceText(p))
    ensures NoLow(t, j)
  {
    hide Hex4Value, Hex4Text;
    var x := PieceText(p);
    if p.Code? || p.Both? { FourDigits(if p.Code? then p.d else p.hi); }
    HereAt(t, j, x, 0);
    if |x| > 1 { HereAt(t, j, x, 1); }
    if |x| >= 6 {
      HereSlice(t, j, x, 2, 6);
      assert x[2..6] == if p.Code? then p.d else p.hi;
    }
  }

  /** A string means something with a NUL in it exactly when it escapes one. */
  lemma {:induction false} NulEscapeIff(ps: seq<Piece>)
    requires PiecesOk(ps)
    ensures CString(MeansOf(ps)) <==> forall k :: 0 <= k < |ps| ==> !NulCode(ps[k])
    decreases |ps|
  {
    hide PieceOk, PieceText, PieceMeans, HighCode, LowCode, NulCode;
    if ps != [] {
      PiecesUncons(ps);
      PieceNul(ps[0]);
      NulEscapeIff(ps[1..]);
      CStringJoin(PieceMeans(ps[0]), MeansOf(ps[1..]));
      assert forall k :: 1 <= k < |ps| ==> ps[k] == ps[1..][k - 1];
    }
  }

  lemma PieceNul(p: Piece)
    requires PieceOk(p)
    ensures CString(PieceMeans(p)) <==> !NulCode(p)
  {
    hide Hex4Text, Hex4Value, Utf8, Pair;
    match p
    case Raw(_) =>
    case Short(_) =>
    case Code(d) =>
      var v := Hex4Value(d);
      if v != 0 { Utf8NoNul(v); } else { Utf8Nul(); }
    case Both(hi, lo) => Utf8NoNul(Pair(Hex4Value(hi), Hex4Value(lo)));
  }

  lemma Utf8Nul()
    ensures !CString(Utf8(0))
  {
    assert Utf8(0)[0] == 0;
  }

  lemma CStringJoin(x: bytes, y: bytes)
    ensures CString(x + y) <==> CString(x) && CString(y)
  {
    assert forall k :: 0 <= k < |x| ==> (x + y)[k] == x[k];
    assert forall k :: 0 <= k < |y| ==> (x + y)[|x| + k] == y[k];
  }

  /** Every list of pieces is read back as what it means, cursor behind the closing quote, if and only
      if that is a C string. */
  lemma {:induction false} PiecesRead(ps: seq<Piece>, t: bytes, i: nat, acc: bytes)
    requires CString(t) && PiecesOk(ps) && Here(t, i, TextOf(ps) + [QUOTE])
    ensures if CString(MeansOf(ps)) then Str(t, i, acc) == Ok(acc + MeansOf(ps), i + |TextOf(ps)| + 1)
            else Str(t, i, acc).Fail?
    decreases |ps|
  {
    hide PieceOk, PieceText, PieceMeans, HighCode, LowCode, NulCode, StrTurn, NoLow, Here, PiecesOk, TextOf, MeansOf,
      Str, CString;
    if ps == [] {
      NoPieces(t, i, acc);
    } else {
      var p, rest := ps[0], ps[1..];
      PiecesUncons(ps);
      var x := PieceText(p);
      Grouped(x, TextOf(rest), [QUOTE]);
      HereSplit(t, i, x, TextOf(rest) + [QUOTE]);
      RestNotLow(p, rest, t, i + |x|);
      if HighCode(p) { HighSix(p); }
      PieceRead(t, i, p);
      PieceNul(p);
      CStringJoin(PieceMeans(p), MeansOf(rest));
      StrStep(t, i, acc);
      if !NulCode(p) {
        PiecesRead(rest, t, i + |x|, acc + PieceMeans(p));
        Grouped(acc, PieceMeans(p), MeansOf(rest));
      }
    }
  }

  lemma NoPieces(t: bytes, i: nat, acc: bytes)
    requires CString(t) && Here(t, i, TextOf([]) + [QUOTE])
    ensures PiecesOk([]) && CString(MeansOf([])) && Str(t, i, acc) == Ok(acc + MeansOf([]), i + |TextOf([])| + 1)
  {
    HereAt(t, i, TextOf([]) + [QUOTE], 0);
    QuoteCloses(t, i);
    assert acc + [] == acc;
  }

  lemma PiecesUncons(ps: seq<Piece>)
    requires ps != [] && PiecesOk(ps)
    ensures PieceOk(ps[0]) && PiecesOk(ps[1..]) && ps == [ps[0]] + ps[1..]
    ensures TextOf(ps) == PieceText(ps[0]) + TextOf(ps[1..]) && MeansOf(ps) == PieceMeans(ps[0]) + MeansOf(ps[1..])
  {
    hide PieceOk, HighCode, LowCode, PieceMeans, PieceText;
  }

  lemma StrStep(t: bytes, i: nat, acc: bytes)
    requires i <= |t| && CString(t)
    ensures var r := StrTurn(t, i);
            && (r.Chars? ==> Str(t, i, acc) == Str(t, r.next, acc + r.out))
            && (r.Stop? ==> Str(t, i, acc).Fail?)
  {
    hide StrTurn;
  }

  lemma HighSix(p: Piece)
    requires HighCode(p)
    ensures |PieceText(p)| == 6
  {
  }

  lemma RestNotLow(p: Piece, rest: seq<Piece>, t: bytes, j: nat)
    requires CString(t) && PiecesOk([p] + rest) && Here(t, j, TextOf(rest) + [QUOTE])
    ensures HighCode(p) ==> NoLow(t, j)
  {
    hide PieceText, LowCode, HighCode, PieceOk;
    if rest == [] {
      HereAt(t, j, TextOf(rest) + [QUOTE], 0);
    } else {
      var q := rest[0];
      assert ([p] + rest)[0] == p && ([p] + rest)[1] == q;
      Grouped(PieceText(q), TextOf(rest[1..]), [QUOTE]);
      HereSplit(t, j, PieceText(q), TextOf(rest[1..]) + [QUOTE]);
      if HighCode(p) { NextNotLow(t, j, q); }
    }
  }
}
