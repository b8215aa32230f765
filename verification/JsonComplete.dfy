/** A spelling of a value is accepted as that value if and only if the value is within the depth cut-off
    and can be stored. */
module JsonComplete {
  import opened Bytes
  import opened JsonText
  import opened JsonPieces
  import opened JsonNumber
  import opened JsonTree
  import opened JsonGrammar
  import JsonSpace

  /** The outcome of reading something that means `v` and ends at `end`. */
  ghost predicate ReadsBack(r: Outcome<Value>, v: Value, end: nat, within: bool) {
    if within then r == Ok(v, end) else r.Fail?
  }

  /** What may stand behind a value: the end, a separator or white space. */
  predicate Ends(c: byte) {
    c == 0 || c == COMMA || c == RBRACKET || c == RBRACE || Ws(c, CLocale)
  }

  // ---------------------------------------------------------------- white space

  lemma {:induction false} SkipBlank(t: bytes, i: nat, x: bytes, w: Space)
    requires Here(t, i, x) && Blank(x, w) && !Ws(At(t, i + |x|), w)
    ensures SkipWs(t, i, w) == i + |x|
    decreases |x|
  {
    if x != [] {
      HereAt(t, i, x, 0);
      assert x == [x[0]] + x[1..];
      HereSplit(t, i, [x[0]], x[1..]);
      SkipBlank(t, i + 1, x[1..], w);
    }
  }

  lemma NumberStart(lex: bytes)
    requires IsNumber(lex)
    ensures lex != [] && (lex[0] == MINUS || Digit(lex[0]))
  {
    var p: Parts :| p.Good() && lex == p.Spell();
    assert lex[0] == if p.neg then MINUS else p.whole[0];
  }

  /** A spelling starts with a byte that is no white space and no separator. */
  lemma TextStart(c: Cst, lib: Lib)
    requires CstOk(c, lib.space)
    ensures Text(c) != [] && !Ws(Text(c)[0], CLocale) && Text(c)[0] !in {0, RBRACKET, RBRACE, COMMA}
  {
    if c.CNum? { NumberStart(c.lex); }
  }

  lemma StartAt(t: bytes, i: nat, c: Cst, lib: Lib)
    requires CstOk(c, lib.space) && Here(t, i, Text(c))
    ensures i < |t| && !Ws(At(t, i), CLocale) && At(t, i) !in {0, RBRACKET, RBRACE}
  {
    hide Text, CstOk, Here, At;
    TextStart(c, lib);
    HereAt(t, i, Text(c), 0);
    HereInside(t, i, Text(c));
  }

  lemma HereInside(t: bytes, i: nat, x: bytes)
    requires Here(t, i, x) && x != []
    ensures i < |t|
  {
  }

  // ---------------------------------------------------------------- leaves

  lemma ReadLit(t: bytes, i: nat, lit: bytes, depth: nat, lib: Lib, v: Value)
    requires CString(t) && Here(t, i, lit)
    requires (lit == TRUE && v == JBool(true)) || (lit == FALSE && v == JBool(false)) || (lit == NULL && v == JNull)
    ensures ReadsBack(ParseValue(t, i, depth, lib), v, i + |lit|, Fine(v, depth, lib))
  {
    HereAt(t, i, lit, 0);
    LitIs(t, i, lit);
  }

  lemma ReadNum(t: bytes, i: nat, lex: bytes, depth: nat, lib: Lib)
    requires CString(t) && Here(t, i, lex) && IsNumber(lex) && Ends(At(t, i + |lex|))
    ensures ReadsBack(ParseValue(t, i, depth, lib), JNum(lex), i + |lex|, Fine(JNum(lex), depth, lib))
  {
    hide IsNumber, NumScan;
    NumberStart(lex);
    HereAt(t, i, lex, 0);
    NumberIff(t, i, lex);
  }

  lemma ReadQuoted(t: bytes, i: nat, ps: seq<Piece>)
    requires CString(t) && PiecesOk(ps) && Here(t, i, Quoted(ps))
    ensures i < |t| && t[i] == QUOTE
    ensures if CString(MeansOf(ps)) then Str(t, i + 1, []) == Ok(MeansOf(ps), i + |Quoted(ps)|)
            else Str(t, i + 1, []).Fail?
  {
    hide Str, TextOf, MeansOf, PiecesOk;
    Grouped([QUOTE], TextOf(ps), [QUOTE]);
    HereAt(t, i, Quoted(ps), 0);
    HereSplit(t, i, [QUOTE], TextOf(ps) + [QUOTE]);
    PiecesRead(ps, t, i + 1, []);
    assert [] + MeansOf(ps) == MeansOf(ps);
  }

  lemma ReadStr(t: bytes, i: nat, ps: seq<Piece>, depth: nat, lib: Lib)
    requires CString(t) && PiecesOk(ps) && Here(t, i, Quoted(ps))
    ensures var v := JStr(MeansOf(ps));
            ReadsBack(ParseValue(t, i, depth, lib), v, i + |Quoted(ps)|, Fine(v, depth, lib))
  {
    hide Str, Quoted, MeansOf, PiecesOk;
    ReadQuoted(t, i, ps);
  }

  // ---------------------------------------------------------------- brackets

  lemma Dispatch(t: bytes, i: nat, depth: nat, lib: Lib)
    requires CString(t) && i < |t|
    ensures depth > MAX_DEPTH ==> ParseValue(t, i, depth, lib).Fail?
    ensures depth <= MAX_DEPTH && t[i] == LBRACKET ==>
              ParseValue(t, i, depth, lib) == ParseItems(t, i + 1, depth, lib, [], false)
    ensures depth <= MAX_DEPTH && t[i] == LBRACE ==>
              ParseValue(t, i, depth, lib) == ParseMembers(t, i + 1, depth, lib, [], false)
  {
    hide ParseItems, ParseMembers;
  }

  lemma Bracketed(t: bytes, i: nat, open: byte, inner: bytes, close: byte)
    requires Here(t, i, [open] + inner + [close])
    ensures i + 1 < |t| && t[i] == open && Here(t, i + 1, inner + [close])
    ensures Here(t, i + 1, inner) && i + 1 + |inner| < |t| && t[i + 1 + |inner|] == close
  {
    Grouped([open], inner, [close]);
    HereSplit(t, i, [open], inner + [close]);
    HereAt(t, i, [open], 0);
    HereSplit(t, i + 1, inner, [close]);
    HereAt(t, i + 1 + |inner|, [close], 0);
  }

  lemma EmptyReads(t: bytes, i: nat, pad: bytes, depth: nat, lib: Lib)
    requires CString(t) && Here(t, i, pad) && i + |pad| < |t| && Blank(pad, lib.space)
    ensures t[i + |pad|] == RBRACKET ==> ParseItems(t, i, depth, lib, [], false) == Ok(JArr([]), i + |pad| + 1)
    ensures t[i + |pad|] == RBRACE ==> ParseMembers(t, i, depth, lib, [], false) == Ok(JObj([]), i + |pad| + 1)
  {
    hide ParseValue;
    if !Ws(t[i + |pad|], lib.space) { SkipBlank(t, i, pad, lib.space); }
  }

  lemma Regroup<T>(acc: seq<T>, items: seq<T>)
    requires items != []
    ensures (acc + [items[0]]) + items[1..] == acc + items
    ensures items[1..] == [] ==> acc + [items[0]] == acc + items
  {
  }

  lemma FirstItem(items: seq<Value>, d: nat, lib: Lib)
    requires items != []
    ensures Nodes(items[0]) <= NodesItems(items) && NodesItems(items[1..]) < NodesItems(items)
    ensures Fine(JArr(items), d, lib) <==>
              Fine(items[0], d + 1, lib) && (items[1..] != [] ==> Fine(JArr(items[1..]), d, lib))
  {
    hide Good;
    GoodItems(items, lib.fits);
    assert Nodes(items[0]) > 0;
    assert Height(JArr(items)) == Max(1 + Height(items[0]), Height(JArr(items[1..])));
    assert items[1..] == [] ==> Height(JArr(items[1..])) == 0;
  }

  lemma GoodItems(items: seq<Value>, fits: bytes -> bool)
    requires items != []
    ensures Good(JArr(items), fits) <==> Good(items[0], fits) && Good(JArr(items[1..]), fits)
    ensures items[1..] == [] ==> Good(JArr(items[1..]), fits)
  {
    var rest := items[1..];
    assert forall k :: 1 <= k < |items| ==> items[k] == rest[k - 1];
  }

  lemma FirstMember(members: seq<Member>, d: nat, lib: Lib)
    requires members != []
    ensures Nodes(members[0].val) <= NodesMembers(members) && NodesMembers(members[1..]) < NodesMembers(members)
    ensures Fine(JObj(members), d, lib) <==>
              && CString(members[0].key) && Fine(members[0].val, d + 1, lib)
              && (members[1..] != [] ==> Fine(JObj(members[1..]), d, lib))
  {
    hide CString, Good;
    GoodMembers(members, lib.fits);
    assert Nodes(members[0].val) > 0;
    assert Height(JObj(members)) == Max(1 + Height(members[0].val), Height(JObj(members[1..])));
    assert members[1..] == [] ==> Height(JObj(members[1..])) == 0;
  }

  lemma GoodMembers(members: seq<Member>, fits: bytes -> bool)
    requires members != []
    ensures Good(JObj(members), fits) <==>
              CString(members[0].key) && Good(members[0].val, fits) && Good(JObj(members[1..]), fits)
    ensures members[1..] == [] ==> Good(JObj(members[1..]), fits)
  {
    hide CString;
    var rest := members[1..];
    assert forall k :: 1 <= k < |members| ==> members[k] == rest[k - 1];
  }

  lemma EmptyList(d: nat, lib: Lib)
    ensures Fine(JArr([]), d, lib) <==> d <= MAX_DEPTH
    ensures Fine(JObj([]), d, lib) <==> d <= MAX_DEPTH
  {
  }

  lemma FineDepth(v: Value, d: nat, lib: Lib)
    requires Fine(v, d, lib)
    ensures d <= MAX_DEPTH
  {
  }

  // ---------------------------------------------------------------- values

  /** A spelling is read as what it means, cursor behind it, exactly when that is fine. */
  lemma {:induction false} ReadCst(c: Cst, t: bytes, i: nat, depth: nat, lib: Lib)
    requires CString(t) && CstOk(c, lib.space) && Here(t, i, Text(c))
    requires i + |Text(c)| <= |t| && Ends(At(t, i + |Text(c)|))
    ensures var v := Means(c, lib.space);
            ReadsBack(ParseValue(t, i, depth, lib), v, i + |Text(c)|, Fine(v, depth, lib))
    decreases Nodes(Means(c, lib.space)), 1
  {
    hide Here, At, ParseValue, IsNumber, PiecesOk, MeansOf, Quoted, Fine;
    match c
    case CNull => ReadLit(t, i, NULL, depth, lib, JNull);
    case CBool(b) => ReadLit(t, i, if b then TRUE else FALSE, depth, lib, JBool(b));
    case CNum(lex) => ReadNum(t, i, lex, depth, lib);
    case CStr(ps) => ReadStr(t, i, ps, depth, lib);
    case CArr(pad, items) => ReadArr(pad, items, t, i, depth, lib);
    case CObj(pad, members) => ReadObj(pad, members, t, i, depth, lib);
  }

  lemma ArrText(pad: bytes, items: seq<CItem>, t: bytes, i: nat)
    requires Here(t, i, Text(CArr(pad, items)))
    ensures i + 1 < |t| && t[i] == LBRACKET
    ensures |Text(CArr(pad, items))| == |if items == [] then pad else ItemsText(items)| + 2
    ensures items != [] ==> Here(t, i + 1, ItemsText(items) + [RBRACKET])
    ensures items == [] ==> Here(t, i + 1, pad) && i + 1 + |pad| < |t| && t[i + 1 + |pad|] == RBRACKET
  {
    hide Here, ItemsText;
    Bracketed(t, i, LBRACKET, if items == [] then pad else ItemsText(items), RBRACKET);
  }

  lemma {:induction false} ReadArr(pad: bytes, items: seq<CItem>, t: bytes, i: nat, depth: nat, lib: Lib)
    requires CString(t) && Blank(pad, lib.space) && ItemsOk(items, lib.space) && Here(t, i, Text(CArr(pad, items)))
    ensures var v := JArr(ItemsMean(items, lib.space));
            ReadsBack(ParseValue(t, i, depth, lib), v, i + |Text(CArr(pad, items))|, Fine(v, depth, lib))
    decreases 1 + NodesItems(ItemsMean(items, lib.space)), 0
  {
    hide Here, At, ParseValue, ParseItems, CString, Fine, NodesItems, ItemsOk, Text, ItemsText, Blank;
    EmptyList(depth, lib);
    ArrText(pad, items, t, i);
    Dispatch(t, i, depth, lib);
    if items == [] {
      EmptyReads(t, i + 1, pad, depth, lib);
    } else {
      hide ItemsMean;
      var vs := ItemsMean(items, lib.space);
      if Fine(JArr(vs), depth, lib) { FineDepth(JArr(vs), depth, lib); }
      ReadItems(items, [], t, i + 1, depth, lib, false);
      assert [] + vs == vs;
    }
  }

  /** One turn of the array loop over white space, a value, white space and a separator. */
  lemma ItemTurn(t: bytes, a: nat, i: nat, e: nat, j: nat, depth: nat, lib: Lib, acc: seq<Value>, comma: bool,
                 v: Value, within: bool)
    requires CString(t) && a <= i < |t| && i <= e <= j < |t| && At(t, i) !in {0, RBRACKET}
    requires SkipWs(t, a, lib.space) == i && SkipWs(t, e, lib.space) == j
    requires ReadsBack(ParseValue(t, i, depth + 1, lib), v, e, within)
    ensures var r := ParseItems(t, a, depth, lib, acc, comma);
            && (!within ==> r.Fail?)
            && (within && t[j] == RBRACKET ==> r == Ok(JArr(acc + [v]), j + 1))
            && (within && t[j] == COMMA ==> r == ParseItems(t, j + 1, depth, lib, acc + [v], true))
  {
    hide ParseValue, SkipWs;
  }

  /** Where the first part of a printed list, its separator and the others stand. */
  lemma Listed(t: bytes, i: nat, x: bytes, more: bool, others: bytes, close: byte)
    requires Here(t, i, (if more then x + [COMMA] + others else x) + [close])
    ensures Here(t, i, x) && i + |x| < |t|
    ensures t[i + |x|] == if more then COMMA else close
    ensures more ==> Here(t, i + |x| + 1, others + [close])
  {
    var rest := if more then [COMMA] + (others + [close]) else [close];
    assert (if more then x + [COMMA] + others else x) + [close] == x + rest;
    HereSplit(t, i, x, rest);
    HereAt(t, i + |x|, rest, 0);
    if more { HereSplit(t, i + |x|, [COMMA], others + [close]); }
  }

  /** The parts of one element and what the loop's skips make of them. */
  lemma ItemLayout(it: CItem, t: bytes, a: nat, lib: Lib, sep: byte)
    requires ItemPads(it, lib.space) && CstOk(it.val, lib.space) && Here(t, a, ItemText(it))
    requires a + |ItemText(it)| < |t| && t[a + |ItemText(it)|] == sep && (sep == COMMA || sep == RBRACKET)
    ensures var i, j := a + |it.before|, a + |ItemText(it)|;
            var e := i + |Text(it.val)|;
            && Here(t, i, Text(it.val)) && i < |t| && i <= e <= j && At(t, i) !in {0, RBRACKET} && Ends(At(t, e))
            && SkipWs(t, a, lib.space) == i && SkipWs(t, e, lib.space) == j
  {
    hide Text, CstOk, SkipWs, Here;
    var x := Text(it.val);
    HereSplit(t, a, it.before + x, it.after);
    HereSplit(t, a, it.before, x);
    StartAt(t, a + |it.before|, it.val, lib);
    SkipBlank(t, a, it.before, lib.space);
    SkipBlank(t, a + |it.before| + |x|, it.after, lib.space);
    AfterValue(t, a + |it.before| + |x|, it.after, lib.space, sep);
  }

  /** What follows a value in a list ends it. */
  lemma AfterValue(t: bytes, e: nat, pad: bytes, w: Space, sep: byte)
    requires Here(t, e, pad) && Blank(pad, w) && e + |pad| < |t| && t[e + |pad|] == sep && Ends(sep)
    ensures e <= |t| && Ends(At(t, e))
  {
    if pad != [] { HereAt(t, e, pad, 0); }
  }

  lemma ItemsUncons(items: seq<CItem>, lib: Lib)
    requires items != [] && ItemsOk(items, lib.space)
    ensures var it, rest := items[0], items[1..];
            && ItemPads(it, lib.space) && CstOk(it.val, lib.space) && ItemsOk(rest, lib.space)
            && ItemsMean(items, lib.space)[0] == Means(it.val, lib.space)
            && ItemsMean(items, lib.space)[1..] == ItemsMean(rest, lib.space)
            && ItemsText(items) == if rest != [] then ItemText(it) + [COMMA] + ItemsText(rest) else ItemText(it)
  {
    hide ItemText, CstOk, Means, Blank;
  }

  /** The loop over a list, from its first turn and from what the others make of the rest. */
  lemma ItemsJoin(t: bytes, a: nat, i: nat, e: nat, j: nat, depth: nat, lib: Lib, acc: seq<Value>, comma: bool,
                  vs: seq<Value>, end: nat)
    requires CString(t) && a <= i < |t| && i <= e <= j < |t| && At(t, i) !in {0, RBRACKET}
    requires SkipWs(t, a, lib.space) == i && SkipWs(t, e, lib.space) == j
    requires vs != [] && ReadsBack(ParseValue(t, i, depth + 1, lib), vs[0], e, Fine(vs[0], depth + 1, lib))
    requires vs[1..] == [] ==> t[j] == RBRACKET && end == j + 1
    requires vs[1..] != [] ==>
               && t[j] == COMMA
               && ReadsBack(ParseItems(t, j + 1, depth, lib, acc + [vs[0]], true), JArr((acc + [vs[0]]) + vs[1..]), end,
                            Fine(JArr(vs[1..]), depth, lib))
    ensures ReadsBack(ParseItems(t, a, depth, lib, acc, comma), JArr(acc + vs), end, Fine(JArr(vs), depth, lib))
  {
    hide ParseValue, ParseItems, CString, Fine, Nodes, NodesItems, SkipWs;
    FirstItem(vs, depth, lib);
    Regroup(acc, vs);
    ItemTurn(t, a, i, e, j, depth, lib, acc, comma, vs[0], Fine(vs[0], depth + 1, lib));
  }

  /** Where the first element of a list and the others stand. */
  lemma ItemsLayout(items: seq<CItem>, t: bytes, a: nat, lib: Lib) returns (i: nat, e: nat, j: nat)
    requires items != [] && ItemsOk(items, lib.space) && Here(t, a, ItemsText(items) + [RBRACKET])
    ensures var it, rest := items[0], items[1..];
            && CstOk(it.val, lib.space) && ItemsOk(rest, lib.space)
            && a <= i <= e <= j < |t| && e == i + |Text(it.val)| && At(t, i) !in {0, RBRACKET}
            && Here(t, i, Text(it.val)) && Ends(At(t, e))
            && SkipWs(t, a, lib.space) == i && SkipWs(t, e, lib.space) == j
            && t[j] == (if rest == [] then RBRACKET else COMMA)
            && (rest == [] ==> a + |ItemsText(items)| == j)
            && (rest != [] ==> Here(t, j + 1, ItemsText(rest) + [RBRACKET]) &&
                               a + |ItemsText(items)| == j + 1 + |ItemsText(rest)|)
  {
    hide Here, At, Text, ItemText, ItemsText, CstOk, Means, ItemsMean, ItemsOk, ItemPads, Ws, SkipWs, Blank, Ends;
    var it, rest := items[0], items[1..];
    ItemsUncons(items, lib);
    Listed(t, a, ItemText(it), rest != [], ItemsText(rest), RBRACKET);
    ItemLayout(it, t, a, lib, if rest == [] then RBRACKET else COMMA);
    i, j := a + |it.before|, a + |ItemText(it)|;
    e := i + |Text(it.val)|;
  }

  lemma {:induction false} ReadItems(
      items: seq<CItem>, acc: seq<Value>, t: bytes, a: nat, depth: nat, lib: Lib, comma: bool)
    requires CString(t) && items != [] && ItemsOk(items, lib.space) && Here(t, a, ItemsText(items) + [RBRACKET])
    ensures var vs := ItemsMean(items, lib.space);
            ReadsBack(ParseItems(t, a, depth, lib, acc, comma), JArr(acc + vs), a + |ItemsText(items)| + 1,
                      Fine(JArr(vs), depth, lib))
    decreases NodesItems(ItemsMean(items, lib.space)), 2
  {
    hide Here, At, ParseValue, Text, ItemText, ItemsText, ParseItems, CString, CstOk, Means, ItemsMean, ItemsOk,
      ItemPads, Nodes, NodesItems, Fine, Ws, SkipWs, Blank, Ends, ReadsBack;
    var it, rest := items[0], items[1..];
    var vs := ItemsMean(items, lib.space);
    ItemsUncons(items, lib);
    FirstItem(vs, depth, lib);
    var i, e, j := ItemsLayout(items, t, a, lib);
    ReadCst(it.val, t, i, depth + 1, lib);
    if rest != [] {
      ReadItems(rest, acc + [vs[0]], t, j + 1, depth, lib, true);
    }
    ItemsJoin(t, a, i, e, j, depth, lib, acc, comma, vs, a + |ItemsText(items)| + 1);
  }

  // ---------------------------------------------------------------- objects, in the same steps

  lemma ObjText(pad: bytes, members: seq<CMember>, t: bytes, i: nat)
    requires Here(t, i, Text(CObj(pad, members)))
    ensures i + 1 < |t| && t[i] == LBRACE
    ensures |Text(CObj(pad, members))| == |if members == [] then pad else MembersText(members)| + 2
    ensures members != [] ==> Here(t, i + 1, MembersText(members) + [RBRACE])
    ensures members == [] ==> Here(t, i + 1, pad) && i + 1 + |pad| < |t| && t[i + 1 + |pad|] == RBRACE
  {
    hide Here, MembersText;
    Bracketed(t, i, LBRACE, if members == [] then pad else MembersText(members), RBRACE);
  }

  lemma {:induction false} ReadObj(pad: bytes, members: seq<CMember>, t: bytes, i: nat, depth: nat, lib: Lib)
    requires CString(t) && Blank(pad, lib.space) && MembersOk(members, lib.space)
    requires Here(t, i, Text(CObj(pad, members)))
    ensures var v := JObj(MembersMean(members, lib.space));
            ReadsBack(ParseValue(t, i, depth, lib), v, i + |Text(CObj(pad, members))|, Fine(v, depth, lib))
    decreases 1 + NodesMembers(MembersMean(members, lib.space)), 0
  {
    hide Here, At, ParseValue, ParseMembers, CString, Fine, NodesMembers, MembersOk, Text, MembersText, Blank;
    EmptyList(depth, lib);
    ObjText(pad, members, t, i);
    Dispatch(t, i, depth, lib);
    if members == [] {
      EmptyReads(t, i + 1, pad, depth, lib);
    } else {
      hide MembersMean;
      var vs := MembersMean(members, lib.space);
      if Fine(JObj(vs), depth, lib) { FineDepth(JObj(vs), depth, lib); }
      ReadMembers(members, [], t, i + 1, depth, lib, false);
      assert [] + vs == vs;
    }
  }

  /** The outcome of reading a key that means `key` and a colon that ends at `end`. */
  ghost predicate KeyReads(t: bytes, i: nat, w: Space, key: bytes, end: nat)
    requires i < |t| && CString(t)
  {
    if CString(key) then Key(t, i, w) == Ok(key, end) else Key(t, i, w).Fail?
  }

  /** One turn of the object loop over white space, a key and its colon, a value, white space and a separator. */
  lemma MemberTurn(t: bytes, a: nat, i: nat, k: nat, e: nat, j: nat, depth: nat, lib: Lib, acc: seq<Member>,
                   comma: bool, m: Member, within: bool)
    requires CString(t) && a <= i < k <= e <= j < |t| && t[i] == QUOTE
    requires SkipWs(t, a, lib.space) == i && KeyReads(t, i, lib.space, m.key, k) && SkipWs(t, e, lib.space) == j
    requires ReadsBack(ParseValue(t, k, depth + 1, lib), m.val, e, within)
    ensures var r := ParseMembers(t, a, depth, lib, acc, comma);
            var ok := CString(m.key) && within;
            && (!ok ==> r.Fail?)
            && (ok && t[j] == RBRACE ==> r == Ok(JObj(acc + [m]), j + 1))
            && (ok && t[j] == COMMA ==> r == ParseMembers(t, j + 1, depth, lib, acc + [m], true))
  {
    hide ParseValue, Key, SkipWs, CString;
  }

  /** Where the seven parts of a member stand. */
  lemma MemberSplit(m: CMember, t: bytes, a: nat)
    requires Here(t, a, MemberText(m))
    ensures Here(t, a, m.before)
    ensures var i := a + |m.before|; Here(t, i, Quoted(m.key))
    ensures var q := a + |m.before| + |Quoted(m.key)|;
            && Here(t, q, m.mid) && Here(t, q + |m.mid|, [COLON]) && Here(t, q + |m.mid| + 1, m.gap)
    ensures var n := a + |m.before| + |Quoted(m.key)| + |m.mid| + 1 + |m.gap|;
            && Here(t, n, Text(m.val)) && Here(t, n + |Text(m.val)|, m.after)
            && n + |Text(m.val)| + |m.after| == a + |MemberText(m)|
  {
    hide Text, Quoted, Here;
    var x1 := m.before + Quoted(m.key);
    var x2 := x1 + m.mid;
    var x3 := x2 + [COLON];
    var x4 := x3 + m.gap;
    var x5 := x4 + Text(m.val);
    HereSplit(t, a, x5, m.after);
    HereSplit(t, a, x4, Text(m.val));
    HereSplit(t, a, x3, m.gap);
    HereSplit(t, a, x2, [COLON]);
    HereSplit(t, a, x1, m.mid);
    HereSplit(t, a, m.before, Quoted(m.key));
  }

  /** A key and its colon are read as the key's meaning. */
  lemma ReadKey(t: bytes, i: nat, key: seq<Piece>, mid: bytes, w: Space)
    requires CString(t) && PiecesOk(key) && Blank(mid, w) && Here(t, i, Quoted(key))
    requires Here(t, i + |Quoted(key)|, mid) && Here(t, i + |Quoted(key)| + |mid|, [COLON])
    ensures i < |t| && t[i] == QUOTE && KeyReads(t, i, w, MeansOf(key), i + |Quoted(key)| + |mid| + 1)
  {
    hide Quoted, MeansOf, PiecesOk, Str, SkipWs, Blank, Here, At;
    ReadQuoted(t, i, key);
    var q := i + |Quoted(key)|;
    HereAt(t, q + |mid|, [COLON], 0);
    SkipBlank(t, q, mid, w);
  }

  /** The key and the gap in front of a member's value, and what the loop's skips make of them. */
  lemma MemberLayout(m: CMember, t: bytes, a: nat, lib: Lib, sep: byte)
    requires CString(t) && MemberPads(m, lib.space) && CstOk(m.val, lib.space) && Here(t, a, MemberText(m))
    requires a + |MemberText(m)| < |t| && t[a + |MemberText(m)|] == sep && (sep == COMMA || sep == RBRACE)
    ensures var i, j := a + |m.before|, a + |MemberText(m)|;
            var k := i + |Quoted(m.key)| + |m.mid| + 1;
            var n := k + |m.gap|;
            var e := n + |Text(m.val)|;
            && i < k <= n < e <= j && t[i] == QUOTE && Here(t, n, Text(m.val)) && Ends(At(t, e))
            && SkipWs(t, a, lib.space) == i && KeyReads(t, i, lib.space, MeansOf(m.key), k)
            && SkipWs(t, k, lib.space) == n && SkipWs(t, e, lib.space) == j
  {
    hide Text, Quoted, CstOk, MemberText, SkipWs, Here, Blank, PiecesOk, MeansOf, CString, KeyReads;
    MemberSplit(m, t, a);
    var i := a + |m.before|;
    var k := i + |Quoted(m.key)| + |m.mid| + 1;
    var n := k + |m.gap|;
    var e := n + |Text(m.val)|;
    ReadKey(t, i, m.key, m.mid, lib.space);
    SkipBlank(t, a, m.before, lib.space);
    StartAt(t, n, m.val, lib);
    TextStart(m.val, lib);
    SkipBlank(t, k, m.gap, lib.space);
    SkipBlank(t, e, m.after, lib.space);
    AfterValue(t, e, m.after, lib.space, sep);
  }

  lemma MembersUncons(members: seq<CMember>, lib: Lib)
    requires members != [] && MembersOk(members, lib.space)
    ensures var m, rest := members[0], members[1..];
            && MemberPads(m, lib.space) && PiecesOk(m.key) && CstOk(m.val, lib.space) && MembersOk(rest, lib.space)
            && MembersMean(members, lib.space)[0] == Member(MeansOf(m.key), Means(m.val, lib.space))
            && MembersMean(members, lib.space)[1..] == MembersMean(rest, lib.space)
            && MembersText(members) == if rest != [] then MemberText(m) + [COMMA] + MembersText(rest) else MemberText(m)
  {
    hide MemberText, CstOk, Means, PiecesOk, MeansOf, Blank;
  }

  /** The loop over a list of members, likewise. */
  lemma MembersJoin(t: bytes, a: nat, i: nat, k: nat, e: nat, j: nat, depth: nat, lib: Lib, acc: seq<Member>,
                    comma: bool, vs: seq<Member>, end: nat)
    requires CString(t) && a <= i < k <= e <= j < |t| && t[i] == QUOTE && vs != []
    requires SkipWs(t, a, lib.space) == i && KeyReads(t, i, lib.space, vs[0].key, k) && SkipWs(t, e, lib.space) == j
    requires ReadsBack(ParseValue(t, k, depth + 1, lib), vs[0].val, e, Fine(vs[0].val, depth + 1, lib))
    requires vs[1..] == [] ==> t[j] == RBRACE && end == j + 1
    requires vs[1..] != [] ==>
               && t[j] == COMMA
               && ReadsBack(ParseMembers(t, j + 1, depth, lib, acc + [vs[0]], true), JObj((acc + [vs[0]]) + vs[1..]),
                            end, Fine(JObj(vs[1..]), depth, lib))
    ensures ReadsBack(ParseMembers(t, a, depth, lib, acc, comma), JObj(acc + vs), end, Fine(JObj(vs), depth, lib))
  {
    hide ParseValue, ParseMembers, CString, Fine, Nodes, NodesMembers, SkipWs, KeyReads;
    FirstMember(vs, depth, lib);
    Regroup(acc, vs);
    MemberTurn(t, a, i, k, e, j, depth, lib, acc, comma, vs[0], Fine(vs[0].val, depth + 1, lib));
  }

  /** Where the first member of a list and the others stand. */
  lemma MembersLayout(members: seq<CMember>, t: bytes, a: nat, lib: Lib)
    returns (i: nat, k: nat, n: nat, e: nat, j: nat)
    requires CString(t) && members != [] && MembersOk(members, lib.space)
    requires Here(t, a, MembersText(members) + [RBRACE])
    ensures var m, rest := members[0], members[1..];
            && CstOk(m.val, lib.space) && PiecesOk(m.key) && MembersOk(rest, lib.space)
            && a <= i < k <= n < e <= j < |t| && t[i] == QUOTE && e == n + |Text(m.val)|
            && Here(t, n, Text(m.val)) && Ends(At(t, e))
            && SkipWs(t, a, lib.space) == i && KeyReads(t, i, lib.space, MeansOf(m.key), k)
            && SkipWs(t, k, lib.space) == n && SkipWs(t, e, lib.space) == j
            && t[j] == (if rest == [] then RBRACE else COMMA)
            && (rest == [] ==> a + |MembersText(members)| == j)
            && (rest != [] ==> Here(t, j + 1, MembersText(rest) + [RBRACE]) &&
                               a + |MembersText(members)| == j + 1 + |MembersText(rest)|)
  {
    hide Here, At, Text, MemberText, MembersText, CString, CstOk, Means, MembersMean, MembersOk, Ws, SkipWs, Blank,
      Ends, KeyReads, Quoted, PiecesOk, MeansOf, MemberPads;
    var m, rest := members[0], members[1..];
    MembersUncons(members, lib);
    Listed(t, a, MemberText(m), rest != [], MembersText(rest), RBRACE);
    MemberLayout(m, t, a, lib, if rest == [] then RBRACE else COMMA);
    i, j := a + |m.before|, a + |MemberText(m)|;
    k := i + |Quoted(m.key)| + |m.mid| + 1;
    n := k + |m.gap|;
    e := n + |Text(m.val)|;
  }

  lemma {:induction false} ReadMembers(
      members: seq<CMember>, acc: seq<Member>, t: bytes, a: nat, depth: nat, lib: Lib, comma: bool)
    requires CString(t) && members != [] && MembersOk(members, lib.space)
    requires Here(t, a, MembersText(members) + [RBRACE])
    ensures var vs := MembersMean(members, lib.space);
            ReadsBack(ParseMembers(t, a, depth, lib, acc, comma), JObj(acc + vs), a + |MembersText(members)| + 1,
                      Fine(JObj(vs), depth, lib))
    decreases NodesMembers(MembersMean(members, lib.space)), 2
  {
    hide Here, At, ParseValue, Text, MemberText, MembersText, ParseMembers, CString, CstOk, Means, MembersMean,
      MembersOk, Nodes, NodesMembers, Fine, Ws, SkipWs, Blank, Ends, KeyReads, Quoted, PiecesOk, MeansOf, MemberPads,
      ReadsBack;
    var m, rest := members[0], members[1..];
    var vs := MembersMean(members, lib.space);
    MembersUncons(members, lib);
    FirstMember(vs, depth, lib);
    var i, k, n, e, j := MembersLayout(members, t, a, lib);
    ReadCst(m.val, t, n, depth + 1, lib);
    JsonSpace.ValueSkips(t, k, depth + 1, lib);
    if rest != [] {
      ReadMembers(rest, acc + [vs[0]], t, j + 1, depth, lib, true);
    }
    MembersJoin(t, a, i, k, e, j, depth, lib, acc, comma, vs, a + |MembersText(members)| + 1);
  }

  // ---------------------------------------------------------------- whole texts

  /** A text that spells a value is read as that value if it is within the cut-off and can be stored, and
      refused otherwise. */
  lemma SpellingReads(t: bytes, v: Value, lib: Lib)
    requires CString(t) && Spells(t, v, lib.space)
    ensures if Fine(v, 0, lib) then Parse(t, lib) == Ok(v, |t|) else Parse(t, lib).Fail?
  {
    hide Text, Means, CstOk, ParseValue, SkipWs, Fine, Blank, Ends;
    var pre, c, post :| SpelledAs(t, v, lib.space, pre, c, post);
    var n := |pre|;
    var e := n + |Text(c)|;
    WholeLayout(t, pre, c, post, lib);
    JsonSpace.ValueSkips(t, 0, 0, lib);
    ReadCst(c, t, n, 0, lib);
  }

  lemma WholeLayout(t: bytes, pre: bytes, c: Cst, post: bytes, lib: Lib)
    requires CstOk(c, lib.space) && Blank(pre, lib.space) && Blank(post, lib.space) && t == pre + Text(c) + post
    ensures var n := |pre|;
            var e := n + |Text(c)|;
            && Here(t, n, Text(c)) && e <= |t| && Ends(At(t, e))
            && SkipWs(t, 0, lib.space) == n && SkipWs(t, e, lib.space) == |t| && At(t, |t|) == 0
  {
    hide Text, CstOk, SkipWs;
    var n := |pre|;
    var e := n + |Text(c)|;
    assert Here(t, n, Text(c));
    assert Here(t, e, post);
    assert Here(t, 0, pre);
    StartAt(t, n, c, lib);
    SkipBlank(t, 0, pre, lib.space);
    SkipBlank(t, e, post, lib.space);
    if post != [] { assert At(t, e) == post[0]; }
  }
}
