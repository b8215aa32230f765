/**
 What holds for every text the JSON parser reads and for every tree: a text is accepted as a tree
 exactly when it spells that tree, within the depth cut-off and with nothing the tree cannot store,
 accepted trees are well formed and the destructor reaches all of them, and the parser inverts a
 printer.
 */
module JsonTheorems {
  import opened Bytes
  import opened JsonText
  import opened JsonPieces
  import opened JsonNumber
  import opened JsonTree
  import opened JsonGrammar
  import opened JsonComplete
  import JsonSound

  // ---------------------------------------------------------------- the destructor

  /** The destructor gives back every node exactly when the tree stays within the depth cut-off. */
  lemma {:induction false} FreesAllIff(v: Value, depth: nat)
    ensures Freed(v, depth) <= Nodes(v)
    ensures Freed(v, depth) == Nodes(v) <==> depth + Height(v) <= MAX_DEPTH
    decreases v
  {
    match v
    case JArr(items) => if depth <= MAX_DEPTH { FreesItemsIff(items, depth); }
    case JObj(members) => if depth <= MAX_DEPTH { FreesMembersIff(members, depth); }
    case _ =>
  }

  lemma {:induction false} FreesItemsIff(items: seq<Value>, depth: nat)
    requires depth <= MAX_DEPTH
    ensures FreedItems(items, depth) <= NodesItems(items)
    ensures FreedItems(items, depth) == NodesItems(items) <==> depth + HeightItems(items) <= MAX_DEPTH
    decreases items
  {
    if items != [] {
      FreesAllIff(items[0], depth + 1);
      FreesItemsIff(items[1..], depth);
    }
  }

  lemma {:induction false} FreesMembersIff(members: seq<Member>, depth: nat)
    requires depth <= MAX_DEPTH
    ensures FreedMembers(members, depth) <= NodesMembers(members)
    ensures FreedMembers(members, depth) == NodesMembers(members) <==>
              depth + HeightMembers(members) <= MAX_DEPTH
    decreases members
  {
    if members != [] {
      FreesAllIff(members[0].val, depth + 1);
      FreesMembersIff(members[1..], depth);
    }
  }

  // ---------------------------------------------------------------- well-formed trees

  lemma {:induction false} HeightItemsAppend(a: seq<Value>, v: Value)
    ensures HeightItems(a + [v]) == Max(HeightItems(a), 1 + Height(v))
    decreases |a|
  {
    if a != [] {
      assert (a + [v])[1..] == a[1..] + [v];
      HeightItemsAppend(a[1..], v);
    } else {
      assert (a + [v])[1..] == [];
    }
  }

  lemma {:induction false} HeightMembersAppend(a: seq<Member>, m: Member)
    ensures HeightMembers(a + [m]) == Max(HeightMembers(a), 1 + Height(m.val))
    decreases |a|
  {
    if a != [] {
      assert (a + [m])[1..] == a[1..] + [m];
      HeightMembersAppend(a[1..], m);
    } else {
      assert (a + [m])[1..] == [];
    }
  }

  lemma FineItem(acc: seq<Value>, v: Value, depth: nat, lib: Lib)
    requires Fine(JArr(acc), depth, lib) && Fine(v, depth + 1, lib)
    ensures Fine(JArr(acc + [v]), depth, lib)
  {
    HeightItemsAppend(acc, v);
  }

  lemma FineMember(acc: seq<Member>, key: bytes, v: Value, depth: nat, lib: Lib)
    requires Fine(JObj(acc), depth, lib) && CString(key) && Fine(v, depth + 1, lib)
    ensures Fine(JObj(acc + [Member(key, v)]), depth, lib)
  {
    HeightMembersAppend(acc, Member(key, v));
  }

  lemma NumberFine(t: bytes, i: nat, depth: nat, lib: Lib)
    requires i < |t| && CString(t) && (t[i] == MINUS || Digit(t[i])) && depth <= MAX_DEPTH
    ensures Number(t, i, lib.fits).Ok? ==> Fine(JNum(Number(t, i, lib.fits).val), depth, lib)
  {
    hide NumScan, IsNumber;
    if NumScan(t, i).To? { ScanSound(t, i); }
  }

  /** Whatever the parser accepts at some depth is well formed and stays within the cut-off. */
  lemma {:induction false} AcceptedFine(t: bytes, at: nat, depth: nat, lib: Lib)
    requires at <= |t| && CString(t)
    ensures var r := ParseValue(t, at, depth, lib); r.Ok? ==> Fine(r.val, depth, lib)
    decreases |t| - at, 0
  {
    hide Str, Number, Lit, IsNumber, SkipWs;
    var i := SkipWs(t, at, lib.space);
    var c := At(t, i);
    if depth <= MAX_DEPTH && c != 0 {
      if c == LBRACE {
        AcceptedMembers(t, i + 1, depth, lib, [], false);
      } else if c == LBRACKET {
        AcceptedItems(t, i + 1, depth, lib, [], false);
      } else if c == QUOTE {
        StrNoNul(t, i + 1, []);
      } else if c == MINUS || Digit(c) {
        NumberFine(t, i, depth, lib);
      }
    }
  }

  lemma {:induction false} AcceptedItems(
      t: bytes, at: nat, depth: nat, lib: Lib, acc: seq<Value>, comma: bool)
    requires at <= |t| && CString(t) && Fine(JArr(acc), depth, lib)
    ensures var r := ParseItems(t, at, depth, lib, acc, comma); r.Ok? ==> Fine(r.val, depth, lib)
    decreases |t| - at, 1
  {
    hide Fine, ParseValue, CString, SkipWs;
    var i := SkipWs(t, at, lib.space);
    if At(t, i) != RBRACKET && At(t, i) != 0 {
      var v := ParseValue(t, i, depth + 1, lib);
      AcceptedFine(t, i, depth + 1, lib);
      if v.Ok? {
        FineItem(acc, v.val, depth, lib);
        var j := SkipWs(t, v.next, lib.space);
        if At(t, j) == COMMA {
          AcceptedItems(t, j + 1, depth, lib, acc + [v.val], true);
        }
      }
    }
  }

  lemma {:induction false} AcceptedMembers(
      t: bytes, at: nat, depth: nat, lib: Lib, acc: seq<Member>, comma: bool)
    requires at <= |t| && CString(t) && Fine(JObj(acc), depth, lib)
    ensures var r := ParseMembers(t, at, depth, lib, acc, comma); r.Ok? ==> Fine(r.val, depth, lib)
    decreases |t| - at, 1
  {
    hide Fine, ParseValue, SkipWs;
    var i := SkipWs(t, at, lib.space);
    if At(t, i) == QUOTE {
      var key := Key(t, i, lib.space);
      KeyNoNul(t, i, lib.space);
      hide CString, Key;
      if key.Ok? {
        var v := ParseValue(t, key.next, depth + 1, lib);
        AcceptedFine(t, key.next, depth + 1, lib);
        if v.Ok? {
          FineMember(acc, key.val, v.val, depth, lib);
          var j := SkipWs(t, v.next, lib.space);
          if At(t, j) == COMMA {
            AcceptedMembers(t, j + 1, depth, lib, acc + [Member(key.val, v.val)], true);
          }
        }
      }
    }
  }

  lemma KeyNoNul(t: bytes, i: nat, w: Space)
    requires i < |t| && CString(t)
    ensures Key(t, i, w).Ok? ==> CString(Key(t, i, w).val)
  {
    hide Str;
    StrNoNul(t, i + 1, []);
  }

  /** A parsed tree is freed to the last node. */
  lemma ParsedIsFreed(t: bytes, lib: Lib)
    requires CString(t) && Parse(t, lib).Ok?
    ensures Freed(Parse(t, lib).val, 0) == Nodes(Parse(t, lib).val)
  {
    hide ParseValue, SkipWs;
    AcceptedFine(t, 0, 0, lib);
    FreesAllIff(Parse(t, lib).val, 0);
  }

  /** A text is read as a tree exactly when it spells that tree in the grammar and the tree is within
      the cut-off and can be stored; a spelling of any other tree is refused. */
  lemma ParseIff(t: bytes, v: Value, lib: Lib)
    requires CString(t)
    ensures Parse(t, lib) == Ok(v, |t|) <==>
              Spells(t, v, lib.space) && Height(v) <= MAX_DEPTH && Good(v, lib.fits)
    ensures Spells(t, v, lib.space) && !(Height(v) <= MAX_DEPTH && Good(v, lib.fits)) ==> Parse(t, lib).Fail?
  {
    hide ParseValue, SkipWs, Spells, Height, Good;
    if Spells(t, v, lib.space) { SpellingReads(t, v, lib); }
    if Parse(t, lib) == Ok(v, |t|) {
      JsonSound.AcceptedSpells(t, lib);
      AcceptedFine(t, 0, 0, lib);
    }
  }

  // ---------------------------------------------------------------- a reference printer

  /** A tree as JSON text without whitespace. */
  function Print(v: Value): bytes {
    match v
    case JNull => NULL
    case JBool(b) => if b then TRUE else FALSE
    case JNum(lex) => lex
    case JStr(s) => PrintStr(s)
    case JArr(items) => [LBRACKET] + PrintItems(items) + [RBRACKET]
    case JObj(members) => [LBRACE] + PrintMembers(members) + [RBRACE]
  }

  function PrintStr(s: bytes): bytes {
    [QUOTE] + Escape(s) + [QUOTE]
  }

  function PrintItems(items: seq<Value>): bytes {
    if items == [] then []
    else if |items| == 1 then Print(items[0])
    else Print(items[0]) + [COMMA] + PrintItems(items[1..])
  }

  function PrintMembers(members: seq<Member>): bytes {
    if members == [] then []
    else if |members| == 1 then PrintMember(members[0])
    else PrintMember(members[0]) + [COMMA] + PrintMembers(members[1..])
  }

  function PrintMember(m: Member): bytes {
    PrintStr(m.key) + [COLON] + Print(m.val)
  }

  // ---------------------------------------------------------------- printing is one way of spelling

  function PlainPiece(c: byte): Piece {
    if c == QUOTE || c == BACKSLASH then Short(c)
    else if c < 0x20 then Code([ZERO, ZERO, HexDigit(c / 16), HexDigit(c % 16)])
    else Raw(c)
  }

  function PlainPieces(s: bytes): seq<Piece> {
    if s == [] then [] else [PlainPiece(s[0])] + PlainPieces(s[1..])
  }

  lemma PlainPieceIs(c: byte)
    requires c != 0
    ensures var p := PlainPiece(c); PieceOk(p) && !HighCode(p) && PieceText(p) == EscapeByte(c) && PieceMeans(p) == [c]
  {
  }

  lemma {:induction false} PlainPiecesAre(s: bytes)
    requires CString(s)
    ensures PiecesOk(PlainPieces(s)) && TextOf(PlainPieces(s)) == Escape(s) && MeansOf(PlainPieces(s)) == s
  {
    hide PlainPiece, PieceOk, HighCode, LowCode, PieceText, PieceMeans, EscapeByte;
    if s != [] {
      PlainPieceIs(s[0]);
      PlainPiecesAre(s[1..]);
      PiecesCons(PlainPiece(s[0]), PlainPieces(s[1..]));
    }
  }

  /** The spelling the printer chooses. */
  function Plain(v: Value): Cst {
    match v
    case JNull => CNull
    case JBool(b) => CBool(b)
    case JNum(lex) => CNum(lex)
    case JStr(s) => CStr(PlainPieces(s))
    case JArr(items) => CArr([], PlainItems(items))
    case JObj(members) => CObj([], PlainMembers(members))
  }

  function PlainItems(items: seq<Value>): (cs: seq<CItem>)
    ensures |cs| == |items|
  {
    if items == [] then [] else [CItem([], Plain(items[0]), [])] + PlainItems(items[1..])
  }

  function PlainMembers(members: seq<Member>): (cs: seq<CMember>)
    ensures |cs| == |members|
  {
    if members == [] then []
    else [PlainMember(members[0])] + PlainMembers(members[1..])
  }

  function PlainMember(m: Member): CMember {
    CMember([], PlainPieces(m.key), [], [], Plain(m.val), [])
  }

  lemma {:induction false} PlainSpells(v: Value, lib: Lib)
    requires Good(v, lib.fits)
    ensures CstOk(Plain(v), lib.space) && Text(Plain(v)) == Print(v) && Means(Plain(v), lib.space) == v
    decreases Nodes(v), 1
  {
    hide IsNumber, PiecesOk, MeansOf, TextOf, PlainPieces;
    match v
    case JStr(s) => PlainPiecesAre(s);
    case JArr(items) => PlainItemsSpell(items, lib);
    case JObj(members) => PlainMembersSpell(members, lib);
    case _ =>
  }

  lemma {:induction false} PlainItemsSpell(items: seq<Value>, lib: Lib)
    requires Good(JArr(items), lib.fits)
    ensures ItemsOk(PlainItems(items), lib.space) && ItemsText(PlainItems(items)) == PrintItems(items)
    ensures ItemsMean(PlainItems(items), lib.space) == items
    decreases NodesItems(items), 2
  {
    hide Good, Nodes, NodesItems, Height, HeightItems, Plain, Print, CstOk, Means, Text;
    if items != [] {
      GoodItems(items, lib.fits);
      FirstItem(items, 0, lib);
      PlainSpells(items[0], lib);
      PlainItemsSpell(items[1..], lib);
      var it, cs := CItem([], Plain(items[0]), []), PlainItems(items[1..]);
      assert PlainItems(items)[1..] == cs;
      assert ItemText(it) == Print(items[0]);
    }
  }

  lemma {:induction false} PlainMemberSpells(m: Member, lib: Lib)
    requires CString(m.key) && Good(m.val, lib.fits)
    ensures var c := PlainMember(m);
            && MemberPads(c, lib.space) && CstOk(c.val, lib.space) && MemberText(c) == PrintMember(m)
            && Member(MeansOf(c.key), Means(c.val, lib.space)) == m
    decreases Nodes(m.val), 2
  {
    hide Good, Nodes, Plain, Print, CstOk, Means, Text, PlainPieces, MeansOf, TextOf, Escape, PiecesOk, CString;
    PlainPiecesAre(m.key);
    PlainSpells(m.val, lib);
  }

  lemma {:induction false} PlainMembersSpell(members: seq<Member>, lib: Lib)
    requires Good(JObj(members), lib.fits)
    ensures MembersOk(PlainMembers(members), lib.space) && MembersText(PlainMembers(members)) == PrintMembers(members)
    ensures MembersMean(PlainMembers(members), lib.space) == members
    decreases NodesMembers(members), 3
  {
    hide Good, Nodes, NodesMembers, Height, HeightMembers, PlainMember, PrintMember, CstOk, Means, MemberText, MeansOf,
      PiecesOk, CString, MemberPads;
    if members == [] {
      JsonSound.NothingOk(lib);
    } else {
      hide MembersOk, MembersMean;
      GoodMembers(members, lib.fits);
      FirstMember(members, 0, lib);
      PlainMemberSpells(members[0], lib);
      PlainMembersSpell(members[1..], lib);
      JsonSound.ConsMember(PlainMember(members[0]), PlainMembers(members[1..]), [], lib.space);
    }
  }

  // ---------------------------------------------------------------- main results

  lemma {:induction false} EscapeNoNul(s: bytes)
    requires CString(s)
    ensures CString(Escape(s))
  {
    if s != [] { EscapeNoNul(s[1..]); }
  }

  lemma NumberNoNul(lex: bytes)
    requires IsNumber(lex)
    ensures CString(lex)
  {
    var p: Parts :| p.Good() && lex == p.Spell();
    assert CString(p.whole);
    assert CString(p.frac) by {
      assert forall k :: 1 <= k < |p.frac| ==> p.frac[k] == p.frac[1..][k - 1];
    }
    assert CString(p.exp) by {
      assert forall k :: 1 <= k < |p.exp| ==> p.exp[k] == p.exp[1..][k - 1];
      assert forall k :: 2 <= k < |p.exp| ==> p.exp[k] == p.exp[2..][k - 2];
    }
  }

  lemma {:induction false} PrintNoNul(v: Value, lib: Lib)
    requires Good(v, lib.fits)
    ensures CString(Print(v))
    decreases Nodes(v), 1
  {
    hide IsNumber;
    match v
    case JNum(lex) => NumberNoNul(lex);
    case JStr(s) => EscapeNoNul(s);
    case JArr(items) => PrintItemsNoNul(items, lib);
    case JObj(members) => PrintMembersNoNul(members, lib);
    case _ =>
  }

  lemma {:induction false} PrintItemsNoNul(items: seq<Value>, lib: Lib)
    requires Good(JArr(items), lib.fits)
    ensures CString(PrintItems(items))
    decreases NodesItems(items), 2
  {
    if items != [] {
      hide Nodes, NodesItems, Good, Print, Fine;
      FirstItem(items, 0, lib);
      GoodItems(items, lib.fits);
      PrintNoNul(items[0], lib);
      PrintItemsNoNul(items[1..], lib);
    }
  }

  lemma {:induction false} PrintMembersNoNul(members: seq<Member>, lib: Lib)
    requires Good(JObj(members), lib.fits)
    ensures CString(PrintMembers(members))
    decreases NodesMembers(members), 2
  {
    if members != [] {
      hide Nodes, NodesMembers, Good, Print, Fine;
      FirstMember(members, 0, lib);
      GoodMembers(members, lib.fits);
      var m := members[0];
      EscapeNoNul(m.key);
      PrintNoNul(m.val, lib);
      assert CString(PrintMember(m));
      PrintMembersNoNul(members[1..], lib);
    }
  }

  /** A well-formed tree survives being written and read exactly when it is within the cut-off;
      a deeper one is refused, never read as something else. */
  lemma PrintParseIff(v: Value, lib: Lib)
    requires Good(v, lib.fits)
    ensures CString(Print(v))
    ensures Height(v) <= MAX_DEPTH ==> Parse(Print(v), lib) == Ok(v, |Print(v)|)
    ensures Height(v) > MAX_DEPTH ==> Parse(Print(v), lib).Fail?
  {
    hide ParseValue, Print, Good, Height, Plain, CstOk, Means, Text, SkipWs;
    PrintNoNul(v, lib);
    PlainSpells(v, lib);
    assert SpelledAs(Print(v), v, lib.space, [], Plain(v), []);
    SpellingReads(Print(v), v, lib);
  }

  /** Every accepted text, however it is spaced and escaped, means the same tree once reprinted. */
  lemma ReparseAgrees(t: bytes, lib: Lib)
    requires CString(t) && Parse(t, lib).Ok?
    ensures var v := Parse(t, lib).val;
            CString(Print(v)) && Parse(Print(v), lib) == Ok(v, |Print(v)|)
  {
    hide ParseValue, Print, SkipWs, Good, Height;
    AcceptedFine(t, 0, 0, lib);
    PrintParseIff(Parse(t, lib).val, lib);
  }
}
