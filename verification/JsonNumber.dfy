/**
 JSON numbers: the scanner accepts exactly the grammar of section 6 of RFC 8259. The value is kept
 as its spelling; whether the C library can represent it is a parameter.
 */
module JsonNumber {
  import opened Bytes
  import opened JsonText

  const MINUS: byte := 45

  predicate ExpMark(c: byte) {
    c == 101 || c == 69
  }

  predicate Sign(c: byte) {
    c == 43 || c == 45
  }

  function DigitsEnd(t: bytes, i: nat): (j: nat)
    requires i <= |t|
    ensures i <= j <= |t|
    decreases |t| - i
  {
    if Digit(At(t, i)) then DigitsEnd(t, i + 1) else i
  }

  /** The scan of one part: where it ends, or the offset of the error. */
  datatype Scan = To(next: nat) | Bad(at: nat)

  /** At least one digit is due at `i`. */
  function DigitsDue(t: bytes, i: nat): (r: Scan)
    requires i <= |t|
    ensures r.To? ==> i < r.next <= |t|
    ensures r.Bad? ==> r.at <= |t|
  {
    if At(t, i) == 0 then Bad(|t|)
    else if !Digit(At(t, i)) then Bad(i + 1)
    else To(DigitsEnd(t, i + 1))
  }

  function IntPart(t: bytes, i: nat): (r: Scan)
    requires i < |t| && CString(t) && (t[i] == MINUS || Digit(t[i]))
    ensures r.To? ==> i < r.next <= |t|
    ensures r.Bad? ==> r.at <= |t|
  {
    var j := if t[i] == MINUS then i + 1 else i;
    if DigitsDue(t, j).Bad? then DigitsDue(t, j)
    else if At(t, j) == ZERO then
      if Digit(At(t, j + 1)) then Bad(j + 2) else To(j + 1)
    else DigitsDue(t, j)
  }

  function FracPart(t: bytes, i: nat): (r: Scan)
    requires i <= |t|
    ensures r.To? ==> i <= r.next <= |t|
    ensures r.Bad? ==> r.at <= |t|
  {
    if At(t, i) == DOT then DigitsDue(t, i + 1) else To(i)
  }

  function ExpPart(t: bytes, i: nat): (r: Scan)
    requires i <= |t|
    ensures r.To? ==> i <= r.next <= |t|
    ensures r.Bad? ==> r.at <= |t|
  {
    if ExpMark(At(t, i)) then
      DigitsDue(t, if Sign(At(t, i + 1)) then i + 2 else i + 1)
    else To(i)
  }

  function NumScan(t: bytes, i: nat): (r: Scan)
    requires i < |t| && CString(t) && (t[i] == MINUS || Digit(t[i]))
    ensures r.To? ==> i < r.next <= |t|
    ensures r.Bad? ==> r.at <= |t|
  {
    var a := IntPart(t, i);
    if a.Bad? then a
    else
      var b := FracPart(t, a.next);
      if b.Bad? then b else ExpPart(t, b.next)
  }

  /** `parse_number`: at most 127 bytes, and only what the C library can represent. */
  function Number(t: bytes, i: nat, fits: bytes -> bool): (r: Outcome<bytes>)
    requires i < |t| && CString(t) && (t[i] == MINUS || Digit(t[i]))
    ensures r.Ok? ==> i < r.next <= |t|
    ensures r.Fail? ==> r.at <= |t| + 1
  {
    var a := NumScan(t, i);
    if a.Bad? then Fail(a.at)
    else if a.next - i >= 128 then Fail(i + 1)
    else if !fits(t[i..a.next]) then Fail(a.next + 1)
    else Ok(t[i..a.next], a.next)
  }

  // ---------------------------------------------------------------- the grammar

  ghost predicate IsInt(x: bytes) {
    |x| > 0 && AllDigits(x) && (x[0] == ZERO ==> |x| == 1)
  }

  ghost predicate IsFrac(x: bytes) {
    x == [] || (|x| > 1 && x[0] == DOT && AllDigits(x[1..]))
  }

  ghost predicate IsExp(x: bytes) {
    || x == []
    || (|x| > 1 && ExpMark(x[0]) && AllDigits(x[1..]))
    || (|x| > 2 && ExpMark(x[0]) && Sign(x[1]) && AllDigits(x[2..]))
  }

  /** The four parts of a number. */
  datatype Parts = Parts(neg: bool, whole: bytes, frac: bytes, exp: bytes) {
    ghost predicate Good() {
      IsInt(whole) && IsFrac(frac) && IsExp(exp)
    }

    function Spell(): bytes {
      (if neg then [MINUS] else []) + whole + frac + exp
    }
  }

  ghost predicate IsNumber(x: bytes) {
    exists p: Parts :: p.Good() && x == p.Spell()
  }

  // ---------------------------------------------------------------- accepted spellings are in the grammar

  lemma {:induction false} DigitsEndDigits(t: bytes, i: nat)
    requires i <= |t|
    ensures AllDigits(t[i..DigitsEnd(t, i)])
    decreases |t| - i
  {
    if Digit(At(t, i)) {
      DigitsEndDigits(t, i + 1);
      var x := t[i..DigitsEnd(t, i)];
      assert x == [t[i]] + t[i + 1..DigitsEnd(t, i + 1)];
    }
  }

  lemma DigitsDueDigits(t: bytes, i: nat)
    requires i <= |t|
    ensures DigitsDue(t, i).To? ==> AllDigits(t[i..DigitsDue(t, i).next])
  {
    if DigitsDue(t, i).To? {
      DigitsEndDigits(t, i + 1);
      assert t[i..DigitsDue(t, i).next] == [t[i]] + t[i + 1..DigitsEnd(t, i + 1)];
    }
  }

  lemma IntPartSound(t: bytes, i: nat) returns (neg: bool, whole: bytes)
    requires i < |t| && CString(t) && (t[i] == MINUS || Digit(t[i])) && IntPart(t, i).To?
    ensures IsInt(whole) && t[i..IntPart(t, i).next] == (if neg then [MINUS] else []) + whole
  {
    neg := t[i] == MINUS;
    var j, e := if neg then i + 1 else i, IntPart(t, i).next;
    whole := t[j..e];
    DigitsDueDigits(t, j);
    assert t[i..e] == (if neg then [MINUS] else []) + whole;
  }

  lemma FracPartSound(t: bytes, i: nat)
    requires i <= |t| && FracPart(t, i).To?
    ensures IsFrac(t[i..FracPart(t, i).next])
  {
    if At(t, i) == DOT {
      DigitsDueDigits(t, i + 1);
      assert t[i..FracPart(t, i).next][1..] == t[i + 1..FracPart(t, i).next];
    }
  }

  lemma ExpPartSound(t: bytes, i: nat)
    requires i <= |t| && ExpPart(t, i).To?
    ensures IsExp(t[i..ExpPart(t, i).next])
  {
    if ExpMark(At(t, i)) {
      var k := if Sign(At(t, i + 1)) then 2 else 1;
      DigitsDueDigits(t, i + k);
      assert t[i..ExpPart(t, i).next][k..] == t[i + k..ExpPart(t, i).next];
    }
  }

  lemma Spelled(p: Parts, x: bytes)
    requires p.Good() && x == p.Spell()
    ensures IsNumber(x)
  {
  }

  lemma ScanSound(t: bytes, i: nat)
    requires i < |t| && CString(t) && (t[i] == MINUS || Digit(t[i])) && NumScan(t, i).To?
    ensures IsNumber(t[i..NumScan(t, i).next])
  {
    hide IntPart, FracPart, ExpPart, IsInt, IsFrac, IsExp, IsNumber;
    var a := IntPart(t, i).next;
    var b := FracPart(t, a).next;
    var c := ExpPart(t, b).next;
    var neg, whole := IntPartSound(t, i);
    FracPartSound(t, a);
    ExpPartSound(t, b);
    var p := Parts(neg, whole, t[a..b], t[b..c]);
    assert t[i..c] == t[i..a] + t[a..b] + t[b..c];
    Spelled(p, t[i..c]);
  }

  // ---------------------------------------------------------------- and every spelling is accepted

  /** What stands behind a number does not continue it. */
  predicate Follows(c: byte) {
    !Digit(c) && c != DOT && !ExpMark(c)
  }

  lemma {:induction false} DigitsEndIs(t: bytes, i: nat, x: bytes)
    requires Here(t, i, x) && AllDigits(x) && !Digit(At(t, i + |x|))
    ensures DigitsEnd(t, i) == i + |x|
    decreases |x|
  {
    if x != [] {
      HereAt(t, i, x, 0);
      assert x == [x[0]] + x[1..];
      HereSplit(t, i, [x[0]], x[1..]);
      DigitsEndIs(t, i + 1, x[1..]);
    }
  }

  lemma DigitsDueIs(t: bytes, i: nat, x: bytes)
    requires Here(t, i, x) && |x| > 0 && AllDigits(x) && !Digit(At(t, i + |x|))
    ensures DigitsDue(t, i) == To(i + |x|)
  {
    DigitsEndIs(t, i, x);
    HereAt(t, i, x, 0);
  }

  lemma IntPartIs(t: bytes, i: nat, neg: bool, whole: bytes)
    requires CString(t) && IsInt(whole)
    requires Here(t, i, (if neg then [MINUS] else []) + whole)
    requires !Digit(At(t, i + (if neg then 1 else 0) + |whole|))
    ensures i < |t| && (t[i] == MINUS || Digit(t[i]))
    ensures IntPart(t, i) == To(i + (if neg then 1 else 0) + |whole|)
  {
    var sign: bytes := if neg then [MINUS] else [];
    HereSplit(t, i, sign, whole);
    HereAt(t, i, sign + whole, 0);
    HereAt(t, i + |sign|, whole, 0);
    DigitsDueIs(t, i + |sign|, whole);
  }

  lemma FracPartIs(t: bytes, i: nat, x: bytes)
    requires Here(t, i, x) && IsFrac(x)
    requires !Digit(At(t, i + |x|)) && (x == [] ==> At(t, i) != DOT)
    ensures FracPart(t, i) == To(i + |x|)
  {
    if x != [] {
      HereAt(t, i, x, 0);
      assert x == [x[0]] + x[1..];
      HereSplit(t, i, [x[0]], x[1..]);
      DigitsDueIs(t, i + 1, x[1..]);
    }
  }

  lemma ExpPartIs(t: bytes, i: nat, x: bytes)
    requires Here(t, i, x) && IsExp(x) && Follows(At(t, i + |x|))
    ensures ExpPart(t, i) == To(i + |x|)
  {
    if x != [] {
      HereAt(t, i, x, 0);
      HereAt(t, i, x, 1);
      var k := if Sign(x[1]) then 2 else 1;
      assert x == x[..k] + x[k..];
      HereSplit(t, i, x[..k], x[k..]);
      DigitsDueIs(t, i + k, x[k..]);
    }
  }

  /** What starts a fraction or an exponent is no digit. */
  lemma TailStart(t: bytes, i: nat, frac: bytes, exp: bytes)
    requires Here(t, i, frac) && Here(t, i + |frac|, exp) && IsFrac(frac) && IsExp(exp)
    requires Follows(At(t, i + |frac| + |exp|))
    ensures !Digit(At(t, i)) && !Digit(At(t, i + |frac|))
    ensures frac == [] ==> At(t, i) != DOT
  {
    if frac != [] { HereAt(t, i, frac, 0); }
    if exp != [] { HereAt(t, i + |frac|, exp, 0); }
  }

  lemma ScanComplete(t: bytes, i: nat, p: Parts)
    requires CString(t) && p.Good() && Here(t, i, p.Spell())
    requires Follows(At(t, i + |p.Spell()|))
    ensures i < |t| && (t[i] == MINUS || Digit(t[i]))
    ensures NumScan(t, i) == To(i + |p.Spell()|)
  {
    hide IntPart, FracPart, ExpPart, IsInt, IsFrac, IsExp, Here, At, Follows;
    var head := (if p.neg then [MINUS] else []) + p.whole;
    HereSplit(t, i, head + p.frac, p.exp);
    HereSplit(t, i, head, p.frac);
    TailStart(t, i + |head|, p.frac, p.exp);
    IntPartIs(t, i, p.neg, p.whole);
    FracPartIs(t, i + |head|, p.frac);
    ExpPartIs(t, i + |head| + |p.frac|, p.exp);
  }

  /** In front of a byte that cannot continue it, a spelling is read to its end exactly when the
      grammar allows it. */
  lemma NumberIff(t: bytes, i: nat, x: bytes)
    requires CString(t) && Here(t, i, x) && Follows(At(t, i + |x|))
    requires |x| > 0 && (x[0] == MINUS || Digit(x[0]))
    ensures i < |t| && (t[i] == MINUS || Digit(t[i]))
    ensures NumScan(t, i) == To(i + |x|) <==> IsNumber(x)
  {
    hide NumScan;
    HereAt(t, i, x, 0);
    if NumScan(t, i) == To(i + |x|) {
      ScanSound(t, i);
    }
    if IsNumber(x) {
      var p: Parts :| p.Good() && x == p.Spell();
      ScanComplete(t, i, p);
    }
  }
}
