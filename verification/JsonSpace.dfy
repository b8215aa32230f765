/**
 White space: the parser skips what `isspace` says, two bytes more than section 2 of RFC 8259
 allows. For every text it accepts, the RFC's reading agrees exactly when neither byte occurs.
 */
module JsonSpace {
  import opened Bytes
  import opened JsonText
  import opened JsonNumber
  import opened JsonTree

  const VT: byte := 11
  const FF: byte := 12

  /** Neither a vertical tab nor a form feed between two offsets. */
  ghost predicate Avoids(t: bytes, i: nat, j: nat)
    requires i <= j <= |t|
  {
    forall k :: i <= k < j ==> t[k] != VT && t[k] != FF
  }

  lemma Avoids2(t: bytes, i: nat, j: nat, k: nat)
    requires i <= j <= k <= |t| && Avoids(t, i, j) && Avoids(t, j, k)
    ensures Avoids(t, i, k)
  {
  }

  // ---------------------------------------------------------------- what the RFC's reading consumes

  lemma {:induction false} SkipAvoids(t: bytes, i: nat)
    requires i <= |t|
    ensures Avoids(t, i, SkipWs(t, i, Rfc8259))
    decreases |t| - i
  {
    if Ws(At(t, i), Rfc8259) {
      SkipAvoids(t, i + 1);
    }
  }

  lemma {:induction false} HexAvoids(t: bytes, i: nat, k: nat, v: nat, bad: bool)
    requires i <= |t| && CString(t) && Hex4(t, i, k, v, bad).Hex?
    ensures !bad && i + k <= |t| && Avoids(t, i, i + k)
    decreases k
  {
    if k > 0 {
      var h := Nibble(At(t, i));
      HexAvoids(t, i + 1, k - 1, if h < 0 then v else v * 16 + h, if h < 0 then true else bad);
    }
  }

  lemma UnitAvoids(t: bytes, i: nat)
    requires i <= |t| && CString(t) && Unit(t, i).Hex?
    ensures i + 4 <= |t| && Avoids(t, i, i + 4)
  {
    HexAvoids(t, i, 4, 0, false);
  }

  lemma TurnAvoids(t: bytes, i: nat)
    requires i <= |t| && CString(t)
    ensures var r := StrTurn(t, i); r.Chars? ==> Avoids(t, i, r.next)
  {
    hide Unit, Utf8, Pair;
    if At(t, i) == BACKSLASH && At(t, i + 1) == LOWER_U && UTurn(t, i).Chars? {
      UnitAvoids(t, i + 2);
      if UTurn(t, i).next == i + 12 { UnitAvoids(t, i + 8); }
    }
  }

  lemma {:induction false} StrAvoids(t: bytes, i: nat, acc: bytes)
    requires i <= |t| && CString(t) && Str(t, i, acc).Ok?
    ensures Avoids(t, i, Str(t, i, acc).next)
    decreases |t| - i
  {
    TurnAvoids(t, i);
    if StrTurn(t, i).Chars? {
      hide StrTurn;
      var r := StrTurn(t, i);
      StrAvoids(t, r.next, acc + r.out);
      Avoids2(t, i, r.next, Str(t, i, acc).next);
    }
  }

  lemma {:induction false} LitAvoids(t: bytes, i: nat, lit: bytes)
    requires i <= |t| && CString(lit) && Lit(t, i, lit).To? && VT !in lit && FF !in lit
    ensures Avoids(t, i, i + |lit|)
    decreases |lit|
  {
    if lit != [] {
      assert lit[0] in lit;
      LitAvoids(t, i + 1, lit[1..]);
    }
  }

  lemma {:induction false} DigitsAvoid(t: bytes, i: nat)
    requires i <= |t|
    ensures Avoids(t, i, DigitsEnd(t, i))
    decreases |t| - i
  {
    if Digit(At(t, i)) { DigitsAvoid(t, i + 1); }
  }

  lemma DueAvoids(t: bytes, i: nat)
    requires i <= |t| && DigitsDue(t, i).To?
    ensures Avoids(t, i, DigitsDue(t, i).next)
  {
    DigitsAvoid(t, i + 1);
  }

  lemma NumberAvoids(t: bytes, i: nat)
    requires i < |t| && CString(t) && (t[i] == MINUS || Digit(t[i])) && NumScan(t, i).To?
    ensures Avoids(t, i, NumScan(t, i).next)
  {
    hide DigitsDue, IntPart, FracPart, ExpPart, Avoids;
    var a := IntPart(t, i).next;
    var b := FracPart(t, a).next;
    IntAvoids(t, i);
    FracAvoids(t, a);
    ExpAvoids(t, b);
    Avoids2(t, i, a, b);
    Avoids2(t, i, b, NumScan(t, i).next);
  }

  lemma IntAvoids(t: bytes, i: nat)
    requires i < |t| && CString(t) && (t[i] == MINUS || Digit(t[i])) && IntPart(t, i).To?
    ensures i <= IntPart(t, i).next <= |t| && Avoids(t, i, IntPart(t, i).next)
  {
    hide DigitsDue;
    DueAvoids(t, if t[i] == MINUS then i + 1 else i);
  }

  lemma FracAvoids(t: bytes, a: nat)
    requires a <= |t| && CString(t) && FracPart(t, a).To?
    ensures a <= FracPart(t, a).next <= |t| && Avoids(t, a, FracPart(t, a).next)
  {
    hide DigitsDue;
    if At(t, a) == DOT { DueAvoids(t, a + 1); }
  }

  lemma ExpAvoids(t: bytes, b: nat)
    requires b <= |t| && CString(t) && ExpPart(t, b).To?
    ensures b <= ExpPart(t, b).next <= |t| && Avoids(t, b, ExpPart(t, b).next)
  {
    hide DigitsDue;
    if ExpMark(At(t, b)) { DueAvoids(t, if Sign(At(t, b + 1)) then b + 2 else b + 1); }
  }

  lemma KeyAvoids(t: bytes, i: nat)
    requires i < |t| && CString(t) && t[i] == QUOTE && Key(t, i, Rfc8259).Ok?
    ensures Avoids(t, i, Key(t, i, Rfc8259).next)
  {
    hide Str, SkipWs;
    var key := Str(t, i + 1, []);
    StrAvoids(t, i + 1, []);
    SkipAvoids(t, key.next);
    Avoids2(t, i + 1, key.next, SkipWs(t, key.next, Rfc8259));
  }

  lemma LeafAvoids(t: bytes, i: nat, depth: nat, lib: Lib)
    requires i <= |t| && CString(t) && lib.space == Rfc8259 && !Ws(At(t, i), Rfc8259)
    requires At(t, i) != LBRACE && At(t, i) != LBRACKET
    ensures var r := ParseValue(t, i, depth, lib); r.Ok? ==> Avoids(t, i, r.next)
  {
    hide Str, NumScan, Lit, Avoids;
    var c, r := At(t, i), ParseValue(t, i, depth, lib);
    assert SkipWs(t, i, Rfc8259) == i;
    if r.Ok? {
      if c == QUOTE {
        StrAvoids(t, i + 1, []);
        assert Avoids(t, i, i + 1) by { OneAvoids(t, i); }
        Avoids2(t, i, i + 1, r.next);
      } else if c == 116 {
        LitAvoids(t, i, TRUE);
      } else if c == 102 {
        LitAvoids(t, i, FALSE);
      } else if c == 110 {
        LitAvoids(t, i, NULL);
      } else {
        NumberAvoids(t, i);
      }
    }
  }

  lemma OneAvoids(t: bytes, i: nat)
    requires i < |t| && t[i] != VT && t[i] != FF
    ensures Avoids(t, i, i + 1)
  {
  }

  lemma ValueSkips(t: bytes, at: nat, depth: nat, lib: Lib)
    requires at <= |t| && CString(t)
    ensures var i := SkipWs(t, at, lib.space);
            && ParseValue(t, at, depth, lib) == ParseValue(t, i, depth, lib)
            && (depth <= MAX_DEPTH && At(t, i) == LBRACKET ==>
                  ParseValue(t, i, depth, lib) == ParseItems(t, i + 1, depth, lib, [], false))
            && (depth <= MAX_DEPTH && At(t, i) == LBRACE ==>
                  ParseValue(t, i, depth, lib) == ParseMembers(t, i + 1, depth, lib, [], false))
            && (depth > MAX_DEPTH ==> ParseValue(t, i, depth, lib).Fail?)
  {
    hide ParseItems, ParseMembers, Str, Number, Lit;
    var i := SkipWs(t, at, lib.space);
    assert SkipWs(t, i, lib.space) == i;
  }

  /** Whatever the RFC's reading accepts has neither byte in it. */
  lemma {:induction false} ValueAvoids(t: bytes, at: nat, depth: nat, lib: Lib)
    requires at <= |t| && CString(t) && lib.space == Rfc8259
    ensures var r := ParseValue(t, at, depth, lib); r.Ok? ==> Avoids(t, at, r.next)
    decreases |t| - at, 0
  {
    hide ParseValue, ParseItems, ParseMembers, SkipWs, Avoids;
    var i := SkipWs(t, at, Rfc8259);
    SkipAvoids(t, at);
    ValueSkips(t, at, depth, lib);
    var r := ParseValue(t, i, depth, lib);
    if r.Ok? {
      if At(t, i) == LBRACE {
        OneAvoids(t, i);
        MembersAvoid(t, i + 1, depth, lib, [], false);
        Avoids2(t, i, i + 1, r.next);
      } else if At(t, i) == LBRACKET {
        OneAvoids(t, i);
        ItemsAvoid(t, i + 1, depth, lib, [], false);
        Avoids2(t, i, i + 1, r.next);
      } else {
        LeafAvoids(t, i, depth, lib);
      }
      Avoids2(t, at, i, r.next);
    }
  }

  lemma {:induction false} ItemsAvoid(t: bytes, at: nat, depth: nat, lib: Lib, acc: seq<Value>, comma: bool)
    requires at <= |t| && CString(t) && lib.space == Rfc8259
    ensures var r := ParseItems(t, at, depth, lib, acc, comma); r.Ok? ==> Avoids(t, at, r.next)
    decreases |t| - at, 1
  {
    hide ParseValue, SkipWs, Avoids, CString;
    var i := SkipWs(t, at, Rfc8259);
    SkipAvoids(t, at);
    if At(t, i) == RBRACKET {
      OneAvoids(t, i);
      Avoids2(t, at, i, i + 1);
    } else if At(t, i) != 0 {
      var v := ParseValue(t, i, depth + 1, lib);
      ValueAvoids(t, i, depth + 1, lib);
      if v.Ok? {
        Avoids2(t, at, i, v.next);
        var j := SkipWs(t, v.next, Rfc8259);
        SkipAvoids(t, v.next);
        Avoids2(t, at, v.next, j);
        if At(t, j) == COMMA || At(t, j) == RBRACKET {
          OneAvoids(t, j);
          Avoids2(t, at, j, j + 1);
          if At(t, j) == COMMA {
            ItemsAvoid(t, j + 1, depth, lib, acc + [v.val], true);
            var r := ParseItems(t, j + 1, depth, lib, acc + [v.val], true);
            if r.Ok? { Avoids2(t, at, j + 1, r.next); }
          }
        }
      }
    }
  }

  lemma {:induction false} MembersAvoid(t: bytes, at: nat, depth: nat, lib: Lib, acc: seq<Member>, comma: bool)
    requires at <= |t| && CString(t) && lib.space == Rfc8259
    ensures var r := ParseMembers(t, at, depth, lib, acc, comma); r.Ok? ==> Avoids(t, at, r.next)
    decreases |t| - at, 1
  {
    hide ParseValue, SkipWs, Avoids, CString, Key;
    var i := SkipWs(t, at, Rfc8259);
    SkipAvoids(t, at);
    if At(t, i) == RBRACE {
      OneAvoids(t, i);
      Avoids2(t, at, i, i + 1);
    } else if At(t, i) == QUOTE {
      var key := Key(t, i, Rfc8259);
      if key.Ok? {
        KeyAvoids(t, i);
        Avoids2(t, at, i, key.next);
        var v := ParseValue(t, key.next, depth + 1, lib);
        ValueAvoids(t, key.next, depth + 1, lib);
        if v.Ok? {
          Avoids2(t, at, key.next, v.next);
          var j := SkipWs(t, v.next, Rfc8259);
          SkipAvoids(t, v.next);
          Avoids2(t, at, v.next, j);
          if At(t, j) == COMMA || At(t, j) == RBRACE {
            OneAvoids(t, j);
            Avoids2(t, at, j, j + 1);
            if At(t, j) == COMMA {
              var more := acc + [Member(key.val, v.val)];
              MembersAvoid(t, j + 1, depth, lib, more, true);
              var r := ParseMembers(t, j + 1, depth, lib, more, true);
              if r.Ok? { Avoids2(t, at, j + 1, r.next); }
            }
          }
        }
      }
    }
  }

  // ---------------------------------------------------------------- without the two bytes nothing differs

  lemma {:induction false} SkipAgrees(t: bytes, i: nat, w: Space)
    requires i <= |t| && Avoids(t, 0, |t|)
    ensures SkipWs(t, i, w) == SkipWs(t, i, CLocale)
    decreases |t| - i
  {
    if Ws(At(t, i), CLocale) { SkipAgrees(t, i + 1, w); }
  }

  lemma {:induction false} ValueAgrees(t: bytes, at: nat, depth: nat, lib: Lib)
    requires at <= |t| && CString(t) && Avoids(t, 0, |t|)
    ensures ParseValue(t, at, depth, lib) == ParseValue(t, at, depth, lib.(space := CLocale))
    decreases |t| - at, 0
  {
    hide SkipWs, Avoids, CString, Str, Number, Lit, ParseItems, ParseMembers;
    SkipAgrees(t, at, lib.space);
    var i := SkipWs(t, at, lib.space);
    if At(t, i) == LBRACE { MembersAgree(t, i + 1, depth, lib, [], false); }
    if At(t, i) == LBRACKET { ItemsAgree(t, i + 1, depth, lib, [], false); }
  }

  lemma {:induction false} ItemsAgree(t: bytes, at: nat, depth: nat, lib: Lib, acc: seq<Value>, comma: bool)
    requires at <= |t| && CString(t) && Avoids(t, 0, |t|)
    ensures ParseItems(t, at, depth, lib, acc, comma) == ParseItems(t, at, depth, lib.(space := CLocale), acc, comma)
    decreases |t| - at, 1
  {
    hide SkipWs, Avoids, CString, ParseValue;
    SkipAgrees(t, at, lib.space);
    var i := SkipWs(t, at, lib.space);
    if At(t, i) != RBRACKET && At(t, i) != 0 {
      ValueAgrees(t, i, depth + 1, lib);
      var v := ParseValue(t, i, depth + 1, lib);
      if v.Ok? {
        SkipAgrees(t, v.next, lib.space);
        var j := SkipWs(t, v.next, lib.space);
        if At(t, j) == COMMA { ItemsAgree(t, j + 1, depth, lib, acc + [v.val], true); }
      }
    }
  }

  lemma {:induction false} MembersAgree(t: bytes, at: nat, depth: nat, lib: Lib, acc: seq<Member>, comma: bool)
    requires at <= |t| && CString(t) && Avoids(t, 0, |t|)
    ensures ParseMembers(t, at, depth, lib, acc, comma) ==
            ParseMembers(t, at, depth, lib.(space := CLocale), acc, comma)
    decreases |t| - at, 1
  {
    hide SkipWs, Avoids, CString, ParseValue, Key;
    SkipAgrees(t, at, lib.space);
    var i := SkipWs(t, at, lib.space);
    if At(t, i) == QUOTE {
      KeyAgrees(t, i, lib.space);
      var key := Key(t, i, lib.space);
      if key.Ok? {
        ValueAgrees(t, key.next, depth + 1, lib);
        var v := ParseValue(t, key.next, depth + 1, lib);
        if v.Ok? {
          SkipAgrees(t, v.next, lib.space);
          var j := SkipWs(t, v.next, lib.space);
          if At(t, j) == COMMA { MembersAgree(t, j + 1, depth, lib, acc + [Member(key.val, v.val)], true); }
        }
      }
    }
  }

  lemma KeyAgrees(t: bytes, i: nat, w: Space)
    requires i < |t| && CString(t) && Avoids(t, 0, |t|)
    ensures Key(t, i, w) == Key(t, i, CLocale)
  {
    hide Str, SkipWs, Avoids;
    var key := Str(t, i + 1, []);
    if key.Ok? { SkipAgrees(t, key.next, w); }
  }

  // ---------------------------------------------------------------- exactly when

  /** For every text the parser accepts, the RFC's reading is the same if and only if the text has
      neither a vertical tab nor a form feed. */
  lemma SameReadingIff(t: bytes, fits: bytes -> bool)
    requires CString(t) && Parse(t, Lib(CLocale, fits)).Ok?
    ensures Parse(t, Lib(Rfc8259, fits)) == Parse(t, Lib(CLocale, fits)) <==> VT !in t && FF !in t
  {
    hide ParseValue, SkipWs, CString;
    var lax, rfc := Lib(CLocale, fits), Lib(Rfc8259, fits);
    if Parse(t, rfc) == Parse(t, lax) {
      var v := ParseValue(t, 0, 0, rfc);
      ValueAvoids(t, 0, 0, rfc);
      SkipAvoids(t, v.next);
      assert Avoids(t, 0, |t|);
    }
    if VT !in t && FF !in t {
      assert Avoids(t, 0, |t|);
      ValueAgrees(t, 0, 0, rfc);
      var v := ParseValue(t, 0, 0, rfc);
      if v.Ok? { SkipAgrees(t, v.next, Rfc8259); }
    }
  }

  /** A text only the parser accepts: a vertical tab in front of `true`. */
  lemma TabAccepted(t: bytes, fits: bytes -> bool)
    requires t == [VT] + TRUE
    ensures CString(t) && Parse(t, Lib(CLocale, fits)) == Ok(JBool(true), 5)
    ensures Parse(t, Lib(Rfc8259, fits)).Fail?
  {
    assert t == [11, 116, 114, 117, 101];
    assert SkipWs(t, 0, CLocale) == SkipWs(t, 1, CLocale) == 1;
    assert Lit(t, 1, TRUE) == To(5) by { LitIs(t, 1, TRUE); }
  }
}
