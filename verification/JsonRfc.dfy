/**
 The parser against RFC 8259 itself. The RFC's grammar has escapes of U+0000 and numbers of any size,
 which the parser refuses, and its white space has no vertical tab and no form feed, which the parser
 skips. Apart from those and from its depth cut-off it accepts exactly the RFC's texts, over bytes.
 */
module JsonRfc {
  import opened Bytes
  import opened JsonText
  import opened JsonPieces
  import opened JsonNumber
  import opened JsonTree
  import opened JsonGrammar
  import JsonComplete
  import JsonSpace
  import JsonTheorems

  // ---------------------------------------------------------------- what is refused, seen in the spelling

  predicate NoNulEscape(ps: seq<Piece>) {
    forall k :: 0 <= k < |ps| ==> !NulCode(ps[k])
  }

  /** No escape is that of U+0000, and every number is shorter than 128 bytes and representable. */
  ghost predicate Admitted(c: Cst, fits: bytes -> bool) {
    match c
    case CNum(lex) => |lex| < 128 && fits(lex)
    case CStr(ps) => NoNulEscape(ps)
    case CArr(_, items) => ItemsAdmitted(items, fits)
    case CObj(_, members) => MembersAdmitted(members, fits)
    case _ => true
  }

  ghost predicate ItemsAdmitted(items: seq<CItem>, fits: bytes -> bool) {
    items == [] || (Admitted(items[0].val, fits) && ItemsAdmitted(items[1..], fits))
  }

  ghost predicate MembersAdmitted(members: seq<CMember>, fits: bytes -> bool) {
    members == [] ||
    (NoNulEscape(members[0].key) && Admitted(members[0].val, fits) && MembersAdmitted(members[1..], fits))
  }

  /** A spelling is admitted exactly when what it means can be stored. */
  lemma {:induction false} AdmittedIff(c: Cst, lib: Lib)
    requires CstOk(c, lib.space)
    ensures Admitted(c, lib.fits) <==> Good(Means(c, lib.space), lib.fits)
    decreases Nodes(Means(c, lib.space)), 1
  {
    hide NoNulEscape, PiecesOk, MeansOf, IsNumber, CString;
    match c
    case CStr(ps) => NoNulIff(ps);
    case CArr(_, items) => ItemsAdmittedIff(items, lib);
    case CObj(_, members) => MembersAdmittedIff(members, lib);
    case _ =>
  }

  lemma NoNulIff(ps: seq<Piece>)
    requires PiecesOk(ps)
    ensures NoNulEscape(ps) <==> CString(MeansOf(ps))
  {
    hide PiecesOk, MeansOf, NulCode, CString;
    NulEscapeIff(ps);
  }

  lemma {:induction false} ItemsAdmittedIff(items: seq<CItem>, lib: Lib)
    requires ItemsOk(items, lib.space)
    ensures ItemsAdmitted(items, lib.fits) <==> Good(JArr(ItemsMean(items, lib.space)), lib.fits)
    decreases NodesItems(ItemsMean(items, lib.space)), 2
  {
    if items != [] {
      hide Good, Admitted, CstOk, Means, ItemsOk, ItemsMean, Nodes, NodesItems, Fine;
      var vs := ItemsMean(items, lib.space);
      JsonComplete.ItemsUncons(items, lib);
      JsonComplete.FirstItem(vs, 0, lib);
      JsonComplete.GoodItems(vs, lib.fits);
      AdmittedIff(items[0].val, lib);
      ItemsAdmittedIff(items[1..], lib);
    }
  }

  lemma {:induction false} MembersAdmittedIff(members: seq<CMember>, lib: Lib)
    requires MembersOk(members, lib.space)
    ensures MembersAdmitted(members, lib.fits) <==> Good(JObj(MembersMean(members, lib.space)), lib.fits)
    decreases NodesMembers(MembersMean(members, lib.space)), 2
  {
    if members != [] {
      hide Good, Admitted, CstOk, Means, MembersOk, MembersMean, Nodes, NodesMembers, NoNulEscape, PiecesOk, MeansOf,
        CString, Fine;
      var vs := MembersMean(members, lib.space);
      JsonComplete.MembersUncons(members, lib);
      JsonComplete.FirstMember(vs, 0, lib);
      JsonComplete.GoodMembers(vs, lib.fits);
      NoNulIff(members[0].key);
      AdmittedIff(members[0].val, lib);
      MembersAdmittedIff(members[1..], lib);
    }
  }

  /** However a tree is spelled, the spelling is accepted as that tree if and only if the tree is within
      the cut-off and the spelling has no escape of U+0000 and no number that is long or not
      representable; otherwise it is refused. */
  lemma AcceptedIff(t: bytes, v: Value, pre: bytes, c: Cst, post: bytes, lib: Lib)
    requires CString(t) && SpelledAs(t, v, lib.space, pre, c, post)
    ensures if Height(v) <= MAX_DEPTH && Admitted(c, lib.fits) then Parse(t, lib) == Ok(v, |t|) else Parse(t, lib).Fail?
  {
    hide Parse, Height, Good, Admitted, Means, CstOk, Text, Blank;
    AdmittedIff(c, lib);
    assert Spells(t, v, lib.space);
    JsonTheorems.ParseIff(t, v, lib);
  }

  // ---------------------------------------------------------------- and with the RFC's white space

  /** Whatever is read with the RFC's white space is read the same with the C locale's. */
  lemma RfcIsLax(t: bytes, fits: bytes -> bool)
    requires CString(t) && Parse(t, Lib(Rfc8259, fits)).Ok?
    ensures Parse(t, Lib(CLocale, fits)) == Parse(t, Lib(Rfc8259, fits))
  {
    hide ParseValue, SkipWs, CString;
    var rfc := Lib(Rfc8259, fits);
    var v := ParseValue(t, 0, 0, rfc);
    JsonSpace.ValueAvoids(t, 0, 0, rfc);
    JsonSpace.SkipAvoids(t, v.next);
    assert JsonSpace.Avoids(t, 0, |t|);
    JsonSpace.ValueAgrees(t, 0, 0, rfc);
    JsonSpace.SkipAgrees(t, v.next, Rfc8259);
  }

  /** The texts the RFC has for a tree are exactly the ones the parser reads as it and that have neither
      a vertical tab nor a form feed, for every tree within the cut-off that can be stored. */
  lemma RfcIff(t: bytes, v: Value, fits: bytes -> bool)
    requires CString(t) && Height(v) <= MAX_DEPTH && Good(v, fits)
    ensures Spells(t, v, Rfc8259) <==>
              Parse(t, Lib(CLocale, fits)) == Ok(v, |t|) && JsonSpace.VT !in t && JsonSpace.FF !in t
  {
    hide Parse, Height, Good, Spells;
    var lax, rfc := Lib(CLocale, fits), Lib(Rfc8259, fits);
    JsonTheorems.ParseIff(t, v, rfc);
    if Parse(t, rfc) == Ok(v, |t|) { RfcIsLax(t, fits); }
    if Parse(t, lax) == Ok(v, |t|) { JsonSpace.SameReadingIff(t, fits); }
  }

  // ---------------------------------------------------------------- texts on which they differ

  /** The string that escapes U+0000: the RFC has it, the parser refuses it. */
  lemma NulRefused(t: bytes, lib: Lib)
    requires t == [QUOTE, BACKSLASH, LOWER_U, ZERO, ZERO, ZERO, ZERO, QUOTE]
    ensures CString(t) && Spells(t, JStr([0]), lib.space) && Parse(t, lib).Fail?
  {
    var p := Code([ZERO, ZERO, ZERO, ZERO]);
    assert PieceOk(p) && NulCode(p) && PieceMeans(p) == [0];
    PiecesCons(p, []);
    assert [p] + [] == [p];
    assert Text(CStr([p])) == t && Means(CStr([p]), lib.space) == JStr([0]);
    assert Blank([], lib.space) && [] + t + [] == t;
    hide Parse, Text, Means, CstOk, PiecesOk;
    assert SpelledAs(t, JStr([0]), lib.space, [], CStr([p]), []);
    assert [p][0] == p;
    AcceptedIff(t, JStr([0]), [], CStr([p]), [], lib);
  }

  /** Every number of 128 bytes or more, and every one that is not representable. */
  lemma NumberRefused(lex: bytes, lib: Lib)
    requires IsNumber(lex) && (|lex| >= 128 || !lib.fits(lex))
    ensures CString(lex) && Spells(lex, JNum(lex), lib.space) && Parse(lex, lib).Fail?
  {
    hide Parse, IsNumber, CString;
    JsonTheorems.NumberNoNul(lex);
    assert [] + lex + [] == lex;
    assert SpelledAs(lex, JNum(lex), lib.space, [], CNum(lex), []);
    AcceptedIff(lex, JNum(lex), [], CNum(lex), [], lib);
  }

  /** The encoding of what stands between quotes is not looked at: a byte that starts no UTF-8
      sequence is kept. */
  lemma RawByteKept(t: bytes, lib: Lib)
    requires t == [QUOTE, 0xFF, QUOTE]
    ensures CString(t) && Parse(t, lib) == Ok(JStr([0xFF]), 3)
  {
    assert StrTurn(t, 1) == Chars([0xFF], 2) && StrTurn(t, 2) == Closed;
    assert [] + [0xFF] == [0xFF];
    assert Str(t, 1, []) == Str(t, 2, [0xFF]) == Ok([0xFF], 3);
    assert SkipWs(t, 0, lib.space) == 0 && SkipWs(t, 3, lib.space) == 3;
  }
}
