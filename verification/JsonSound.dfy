/** Whatever the parser accepts is a spelling of the value it returns. */
module JsonSound {
  import opened Bytes
  import opened JsonText
  import opened JsonPieces
  import opened JsonNumber
  import opened JsonTree
  import opened JsonGrammar
  import JsonSpace

  lemma {:induction false} SkipIsBlank(t: bytes, i: nat, w: Space)
    requires i <= |t|
    ensures Blank(t[i..SkipWs(t, i, w)], w)
    decreases |t| - i
  {
    if Ws(At(t, i), w) {
      SkipIsBlank(t, i + 1, w);
      var j := SkipWs(t, i, w);
      assert t[i..j] == [t[i]] + t[i + 1..j];
    } else {
      assert t[i..i] == [];
    }
  }

  lemma SpellString(t: bytes, i: nat) returns (ps: seq<Piece>)
    requires i < |t| && CString(t) && t[i] == QUOTE && Str(t, i + 1, []).Ok?
    ensures PiecesOk(ps) && var r := Str(t, i + 1, []); t[i..r.next] == Quoted(ps) && r.val == MeansOf(ps)
  {
    hide Str, TextOf, PiecesOk;
    ps := StrSpelled(t, i + 1, []);
    var e := Str(t, i + 1, []).next;
    Joined(t, i, i + 1, e);
    assert t[i..i + 1] == [QUOTE];
    Grouped([QUOTE], TextOf(ps), [QUOTE]);
    assert [] + MeansOf(ps) == MeansOf(ps);
  }

  lemma {:induction false} SpellLit(t: bytes, i: nat, lit: bytes)
    requires i <= |t| && CString(lit) && Lit(t, i, lit).To?
    ensures i + |lit| <= |t| && t[i..i + |lit|] == lit
    decreases |lit|
  {
    if lit == [] {
      assert t[i..i] == [];
    } else {
      SpellLit(t, i + 1, lit[1..]);
      Joined(t, i, i + 1, i + |lit|);
      assert t[i..i + 1] == [lit[0]];
    }
  }

  lemma SpellNumber(t: bytes, i: nat, fits: bytes -> bool)
    requires i < |t| && CString(t) && (t[i] == MINUS || Digit(t[i])) && Number(t, i, fits).Ok?
    ensures var r := Number(t, i, fits);
            t[i..r.next] == r.val && IsNumber(r.val) && |r.val| < 128 && fits(r.val)
  {
    hide NumScan, IsNumber;
    ScanSound(t, i);
  }

  /** A value that is no array and no object. */
  lemma SpellLeaf(t: bytes, i: nat, depth: nat, lib: Lib) returns (c: Cst)
    requires i <= |t| && CString(t) && !Ws(At(t, i), lib.space) && At(t, i) != LBRACE && At(t, i) != LBRACKET
    requires ParseValue(t, i, depth, lib).Ok?
    ensures CstOk(c, lib.space) && var r := ParseValue(t, i, depth, lib);
            t[i..r.next] == Text(c) && r.val == Means(c, lib.space)
  {
    hide Str, Number, Lit, IsNumber, TextOf, PiecesOk, MeansOf;
    var a := At(t, i);
    assert SkipWs(t, i, lib.space) == i;
    if a == QUOTE {
      var ps := SpellString(t, i);
      c := CStr(ps);
    } else if a == 116 {
      SpellLit(t, i, TRUE);
      c := CBool(true);
    } else if a == 102 {
      SpellLit(t, i, FALSE);
      c := CBool(false);
    } else if a == 110 {
      SpellLit(t, i, NULL);
      c := CNull;
    } else {
      SpellNumber(t, i, lib.fits);
      c := CNum(Number(t, i, lib.fits).val);
    }
  }

  /** The value the parser accepts from `at` on: white space, then a spelling of it. */
  lemma {:induction false} SpellValue(t: bytes, at: nat, depth: nat, lib: Lib) returns (pre: bytes, c: Cst)
    requires at <= |t| && CString(t) && ParseValue(t, at, depth, lib).Ok?
    ensures Blank(pre, lib.space) && CstOk(c, lib.space) && var r := ParseValue(t, at, depth, lib);
            t[at..r.next] == pre + Text(c) && r.val == Means(c, lib.space)
    decreases |t| - at, 0
  {
    hide ParseValue, ParseItems, ParseMembers, SkipWs, Text, Means, CstOk, Blank, ItemsOk, MembersOk, ItemsText,
      MembersText, ItemsMean, MembersMean, CString;
    var i := SkipWs(t, at, lib.space);
    pre := t[at..i];
    SkipIsBlank(t, at, lib.space);
    JsonSpace.ValueSkips(t, at, depth, lib);
    var e := ParseValue(t, i, depth, lib).next;
    Joined(t, at, i, e);
    if At(t, i) == LBRACKET {
      var pad, items := SpellItems(t, i + 1, depth, lib, [], false);
      c := CArr(pad, items);
      CloseArray(t, i, e, pad, items, lib);
    } else if At(t, i) == LBRACE {
      var pad, members := SpellMembers(t, i + 1, depth, lib, [], false);
      c := CObj(pad, members);
      CloseObject(t, i, e, pad, members, lib);
    } else {
      c := SpellLeaf(t, i, depth, lib);
    }
  }

  lemma CloseArray(t: bytes, i: nat, e: nat, pad: bytes, items: seq<CItem>, lib: Lib)
    requires i + 1 <= e <= |t| && t[i] == LBRACKET && Blank(pad, lib.space) && ItemsOk(items, lib.space)
    requires t[i + 1..e] == (if items == [] then pad else ItemsText(items)) + [RBRACKET]
    ensures CstOk(CArr(pad, items), lib.space) && t[i..e] == Text(CArr(pad, items))
    ensures Means(CArr(pad, items), lib.space) == JArr([] + ItemsMean(items, lib.space))
  {
    hide ItemsText, ItemsMean, ItemsOk, Blank;
    Joined(t, i, i + 1, e);
    assert t[i..i + 1] == [LBRACKET];
    Grouped([LBRACKET], if items == [] then pad else ItemsText(items), [RBRACKET]);
    assert [] + ItemsMean(items, lib.space) == ItemsMean(items, lib.space);
  }

  lemma CloseObject(t: bytes, i: nat, e: nat, pad: bytes, members: seq<CMember>, lib: Lib)
    requires i + 1 <= e <= |t| && t[i] == LBRACE && Blank(pad, lib.space) && MembersOk(members, lib.space)
    requires t[i + 1..e] == (if members == [] then pad else MembersText(members)) + [RBRACE]
    ensures CstOk(CObj(pad, members), lib.space) && t[i..e] == Text(CObj(pad, members))
    ensures Means(CObj(pad, members), lib.space) == JObj([] + MembersMean(members, lib.space))
  {
    hide MembersText, MembersMean, MembersOk, Blank;
    Joined(t, i, i + 1, e);
    assert t[i..i + 1] == [LBRACE];
    Grouped([LBRACE], if members == [] then pad else MembersText(members), [RBRACE]);
    assert [] + MembersMean(members, lib.space) == MembersMean(members, lib.space);
  }

  /** An element in front of the others or of nothing. */
  lemma ConsItem(it: CItem, items: seq<CItem>, acc: seq<Value>, w: Space)
    requires ItemPads(it, w) && CstOk(it.val, w) && ItemsOk(items, w)
    ensures ItemsOk([it] + items, w)
    ensures ItemsText([it] + items) == if items == [] then ItemText(it) else ItemText(it) + [COMMA] + ItemsText(items)
    ensures acc + ItemsMean([it] + items, w) == (acc + [Means(it.val, w)]) + ItemsMean(items, w)
  {
    hide ItemPads, CstOk, ItemText, Means;
    assert ([it] + items)[1..] == items && ([it] + items)[0] == it;
    assert ItemsOk([it] + items, w);
    assert ItemsMean([it] + items, w) == [Means(it.val, w)] + ItemsMean(items, w);
  }

  lemma {:induction false} SpellItems(t: bytes, at: nat, depth: nat, lib: Lib, acc: seq<Value>, comma: bool)
    returns (pad: bytes, items: seq<CItem>)
    requires at <= |t| && CString(t) && ParseItems(t, at, depth, lib, acc, comma).Ok?
    ensures Blank(pad, lib.space) && ItemsOk(items, lib.space) && (comma ==> items != [])
    ensures var r := ParseItems(t, at, depth, lib, acc, comma);
            && t[at..r.next] == (if items == [] then pad else ItemsText(items)) + [RBRACKET]
            && r.val == JArr(acc + ItemsMean(items, lib.space))
    decreases |t| - at, 1
  {
    hide ParseValue, ParseItems, SkipWs, Text, Means, CstOk, Blank, ItemsText, ItemText, ItemsOk, ItemsMean, CString;
    ItemsShape(t, at, depth, lib, acc, comma);
    NothingOk(lib);
    var w := lib.space;
    var i := SkipWs(t, at, w);
    SkipIsBlank(t, at, w);
    if At(t, i) == RBRACKET {
      pad, items := t[at..i], [];
      Joined(t, at, i, i + 1);
      assert t[i..i + 1] == [RBRACKET];
      assert acc + [] == acc;
    } else {
      var v := ParseValue(t, i, depth + 1, lib);
      var none, c := SpellValue(t, i, depth + 1, lib);
      var j := SkipWs(t, v.next, w);
      SkipIsBlank(t, v.next, w);
      var it := CItem(t[at..i] + none, c, t[v.next..j]);
      PadItem(t, at, i, v.next, j, none, c, w);
      var rest: seq<CItem> := [];
      pad := [];
      if At(t, j) == COMMA {
        var p, more := SpellItems(t, j + 1, depth, lib, acc + [v.val], true);
        rest := more;
      } else {
        assert t[j..j + 1] == [t[j]];
      }
      ConsItem(it, rest, acc, lib.space);
      items := [it] + rest;
      var e := ParseItems(t, at, depth, lib, acc, comma).next;
      CloseItems(t, at, j, e, it, rest);
      if rest == [] { assert acc + [v.val] + [] == acc + [v.val]; }
    }
  }

  /** How an array that is accepted went on from `at`. */
  lemma ItemsShape(t: bytes, at: nat, depth: nat, lib: Lib, acc: seq<Value>, comma: bool)
    requires at <= |t| && CString(t) && ParseItems(t, at, depth, lib, acc, comma).Ok?
    ensures var r, i := ParseItems(t, at, depth, lib, acc, comma), SkipWs(t, at, lib.space);
            if At(t, i) == RBRACKET then !comma && r == Ok(JArr(acc), i + 1)
            else
              var v := ParseValue(t, i, depth + 1, lib);
              v.Ok? && var j := SkipWs(t, v.next, lib.space);
              if At(t, j) == COMMA then r == ParseItems(t, j + 1, depth, lib, acc + [v.val], true)
              else At(t, j) == RBRACKET && r == Ok(JArr(acc + [v.val]), j + 1)
  {
    hide ParseValue, SkipWs;
  }

  lemma MembersShape(t: bytes, at: nat, depth: nat, lib: Lib, acc: seq<Member>, comma: bool)
    requires at <= |t| && CString(t) && ParseMembers(t, at, depth, lib, acc, comma).Ok?
    ensures var r, i := ParseMembers(t, at, depth, lib, acc, comma), SkipWs(t, at, lib.space);
            if At(t, i) == RBRACE then !comma && r == Ok(JObj(acc), i + 1)
            else
              At(t, i) == QUOTE && var key := Key(t, i, lib.space);
              key.Ok? && var v := ParseValue(t, key.next, depth + 1, lib);
              v.Ok? && var j, more := SkipWs(t, v.next, lib.space), acc + [Member(key.val, v.val)];
              if At(t, j) == COMMA then r == ParseMembers(t, j + 1, depth, lib, more, true)
              else At(t, j) == RBRACE && r == Ok(JObj(more), j + 1)
  {
    hide ParseValue, SkipWs, Key;
  }

  lemma NothingOk(lib: Lib)
    ensures Blank([], lib.space) && ItemsOk([], lib.space) && MembersOk([], lib.space)
    ensures ItemsMean([], lib.space) == [] && MembersMean([], lib.space) == []
  {
  }

  lemma PadItem(t: bytes, at: nat, i: nat, e: nat, j: nat, none: bytes, c: Cst, w: Space)
    requires at <= i <= e <= j <= |t| && t[i..e] == none + Text(c)
    requires Blank(t[at..i], w) && Blank(none, w) && Blank(t[e..j], w)
    ensures var it := CItem(t[at..i] + none, c, t[e..j]); ItemPads(it, w) && t[at..j] == ItemText(it)
  {
    hide Text;
    Joined(t, at, i, e);
    Joined(t, at, e, j);
    Grouped(t[at..i], none, Text(c));
  }

  lemma CloseItems(t: bytes, at: nat, j: nat, e: nat, it: CItem, rest: seq<CItem>)
    requires at <= j < e <= |t| && t[at..j] == ItemText(it)
    requires if rest == [] then t[j..e] == [RBRACKET] else t[j] == COMMA && t[j + 1..e] == ItemsText(rest) + [RBRACKET]
    ensures t[at..e] == (if rest == [] then ItemText(it) else ItemText(it) + [COMMA] + ItemsText(rest)) + [RBRACKET]
  {
    hide ItemsText, ItemText;
    Joined(t, at, j, e);
    if rest != [] {
      Joined(t, j, j + 1, e);
      assert t[j..j + 1] == [COMMA];
      Grouped([COMMA], ItemsText(rest), [RBRACKET]);
      Grouped(ItemText(it), [COMMA], ItemsText(rest));
      Grouped(ItemText(it), [COMMA] + ItemsText(rest), [RBRACKET]);
    }
  }

  // Objects, in the same steps.

  /** A key and its colon, as `Key` reads them. */
  lemma SpellKey(t: bytes, i: nat, w: Space) returns (ps: seq<Piece>, mid: bytes)
    requires i < |t| && CString(t) && t[i] == QUOTE && Key(t, i, w).Ok?
    ensures PiecesOk(ps) && Blank(mid, w) && var r := Key(t, i, w);
            r.next <= |t| && t[i..r.next] == Quoted(ps) + mid + [COLON] && r.val == MeansOf(ps)
  {
    hide Str, SkipWs, TextOf, PiecesOk, Blank;
    ps := SpellString(t, i);
    var e := Str(t, i + 1, []).next;
    var k := SkipWs(t, e, w);
    mid := t[e..k];
    SkipIsBlank(t, e, w);
    Joined(t, i, e, k);
    Joined(t, i, k, k + 1);
    assert t[k..k + 1] == [COLON];
  }

  lemma ConsMember(m: CMember, members: seq<CMember>, acc: seq<Member>, w: Space)
    requires MemberPads(m, w) && CstOk(m.val, w) && MembersOk(members, w)
    ensures MembersOk([m] + members, w)
    ensures MembersText([m] + members) ==
            if members == [] then MemberText(m) else MemberText(m) + [COMMA] + MembersText(members)
    ensures acc + MembersMean([m] + members, w) ==
            (acc + [Member(MeansOf(m.key), Means(m.val, w))]) + MembersMean(members, w)
  {
    hide CstOk, MemberText, Means, MeansOf, PiecesOk, Blank;
    assert ([m] + members)[1..] == members && ([m] + members)[0] == m;
    assert MembersOk([m] + members, w);
    assert MembersMean([m] + members, w) ==
           [Member(MeansOf(m.key), Means(m.val, w))] + MembersMean(members, w);
  }

  /** The member at `i`, behind white space from `at` on, and where its separator stands. */
  lemma {:induction false} SpellMember(t: bytes, at: nat, i: nat, depth: nat, lib: Lib) returns (m: CMember, j: nat)
    requires at <= i < |t| && CString(t) && t[i] == QUOTE && Blank(t[at..i], lib.space) && Key(t, i, lib.space).Ok?
    requires ParseValue(t, Key(t, i, lib.space).next, depth + 1, lib).Ok?
    ensures MemberPads(m, lib.space) && CstOk(m.val, lib.space)
    ensures var key := Key(t, i, lib.space);
            var v := ParseValue(t, key.next, depth + 1, lib);
            && at <= j == SkipWs(t, v.next, lib.space) <= |t| && t[at..j] == MemberText(m)
            && Member(MeansOf(m.key), Means(m.val, lib.space)) == Member(key.val, v.val)
    decreases |t| - at, 0
  {
    hide ParseValue, SkipWs, Text, Means, CstOk, Blank, MemberText, Key, MeansOf, PiecesOk, CString;
    var w := lib.space;
    var key := Key(t, i, w);
    var ps, mid := SpellKey(t, i, w);
    var v := ParseValue(t, key.next, depth + 1, lib);
    var gap, c := SpellValue(t, key.next, depth + 1, lib);
    j := SkipWs(t, v.next, w);
    SkipIsBlank(t, v.next, w);
    m := CMember(t[at..i], ps, mid, gap, c, t[v.next..j]);
    PadMember(t, at, i, key.next, v.next, j, ps, mid, gap, c, w);
  }

  lemma {:induction false} SpellMembers(t: bytes, at: nat, depth: nat, lib: Lib, acc: seq<Member>, comma: bool)
    returns (pad: bytes, members: seq<CMember>)
    requires at <= |t| && CString(t) && ParseMembers(t, at, depth, lib, acc, comma).Ok?
    ensures Blank(pad, lib.space) && MembersOk(members, lib.space) && (comma ==> members != [])
    ensures var r := ParseMembers(t, at, depth, lib, acc, comma);
            && t[at..r.next] == (if members == [] then pad else MembersText(members)) + [RBRACE]
            && r.val == JObj(acc + MembersMean(members, lib.space))
    decreases |t| - at, 1
  {
    hide ParseValue, ParseMembers, SkipWs, Text, Means, CstOk, Blank, MembersText, MemberText, MembersOk, MembersMean,
      CString, Key, MeansOf, PiecesOk;
    MembersShape(t, at, depth, lib, acc, comma);
    NothingOk(lib);
    var w := lib.space;
    var i := SkipWs(t, at, w);
    SkipIsBlank(t, at, w);
    if At(t, i) == RBRACE {
      pad, members := t[at..i], [];
      Joined(t, at, i, i + 1);
      assert t[i..i + 1] == [RBRACE];
      assert acc + [] == acc;
    } else {
      var m, j := SpellMember(t, at, i, depth, lib);
      var x := Member(MeansOf(m.key), Means(m.val, lib.space));
      var rest: seq<CMember> := [];
      pad := [];
      if At(t, j) == COMMA {
        var p, more := SpellMembers(t, j + 1, depth, lib, acc + [x], true);
        rest := more;
      } else {
        assert t[j..j + 1] == [t[j]];
      }
      ConsMember(m, rest, acc, lib.space);
      members := [m] + rest;
      var e := ParseMembers(t, at, depth, lib, acc, comma).next;
      CloseMembers(t, at, j, e, m, rest);
      if rest == [] { assert acc + [x] + [] == acc + [x]; }
    }
  }

  lemma PadMember(t: bytes, at: nat, i: nat, k: nat, e: nat, j: nat, ps: seq<Piece>, mid: bytes, gap: bytes, c: Cst,
                  w: Space)
    requires at <= i <= k <= e <= j <= |t| && t[i..k] == Quoted(ps) + mid + [COLON] && t[k..e] == gap + Text(c)
    requires PiecesOk(ps) && Blank(t[at..i], w) && Blank(mid, w) && Blank(gap, w) && Blank(t[e..j], w)
    ensures var m := CMember(t[at..i], ps, mid, gap, c, t[e..j]); MemberPads(m, w) && t[at..j] == MemberText(m)
  {
    hide Text, Quoted, PiecesOk, Blank;
    Joined(t, at, i, k);
    Joined(t, at, k, e);
    Joined(t, at, e, j);
    var a, q, x := t[at..i], Quoted(ps), Text(c);
    assert a + (q + mid + [COLON]) == a + q + mid + [COLON];
    assert (a + q + mid + [COLON]) + (gap + x) == a + q + mid + [COLON] + gap + x;
  }

  lemma CloseMembers(t: bytes, at: nat, j: nat, e: nat, m: CMember, rest: seq<CMember>)
    requires at <= j < e <= |t| && t[at..j] == MemberText(m)
    requires if rest == [] then t[j..e] == [RBRACE] else t[j] == COMMA && t[j + 1..e] == MembersText(rest) + [RBRACE]
    ensures t[at..e] == (if rest == [] then MemberText(m) else MemberText(m) + [COMMA] + MembersText(rest)) + [RBRACE]
  {
    hide MembersText, MemberText;
    Joined(t, at, j, e);
    if rest != [] {
      Joined(t, j, j + 1, e);
      assert t[j..j + 1] == [COMMA];
      Grouped([COMMA], MembersText(rest), [RBRACE]);
      Grouped(MemberText(m), [COMMA], MembersText(rest));
      Grouped(MemberText(m), [COMMA] + MembersText(rest), [RBRACE]);
    }
  }

  /** Every accepted text spells the value it was read as. */
  lemma AcceptedSpells(t: bytes, lib: Lib)
    requires CString(t) && Parse(t, lib).Ok?
    ensures Spells(t, Parse(t, lib).val, lib.space)
  {
    hide ParseValue, SkipWs, Text, Means, CstOk, Blank;
    var v := ParseValue(t, 0, 0, lib);
    var pre, c := SpellValue(t, 0, 0, lib);
    SkipIsBlank(t, v.next, lib.space);
    var post := t[v.next..];
    Joined(t, 0, v.next, |t|);
    assert t[0..|t|] == t && t[v.next..|t|] == post;
    assert SpelledAs(t, v.val, lib.space, pre, c, post);
  }
}
