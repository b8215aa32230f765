/**
 The grammar of RFC 8259 as concrete syntax, over bytes: a value with every spelling choice made,
 white space, escapes and all, and with nothing left out that the parser refuses. What counts as white
 space is a parameter.
 */
module JsonGrammar {
  import opened Bytes
  import opened JsonText
  import opened JsonPieces
  import opened JsonNumber
  import opened JsonTree

  /** A value as it is written. `pad` is the white space of an empty array or object. */
  datatype Cst =
    | CNull
    | CBool(b: bool)
    | CNum(lex: bytes)
    | CStr(ps: seq<Piece>)
    | CArr(pad: bytes, items: seq<CItem>)
    | CObj(pad: bytes, members: seq<CMember>)

  /** An element with the white space around it. */
  datatype CItem = CItem(before: bytes, val: Cst, after: bytes)

  /** A member with the white space around its key and its value. */
  datatype CMember = CMember(before: bytes, key: seq<Piece>, mid: bytes, gap: bytes, val: Cst, after: bytes)

  predicate Blank(x: bytes, w: Space) {
    forall k :: 0 <= k < |x| ==> Ws(x[k], w)
  }

  ghost predicate CstOk(c: Cst, w: Space) {
    match c
    case CNum(lex) => IsNumber(lex)
    case CStr(ps) => PiecesOk(ps)
    case CArr(pad, items) => Blank(pad, w) && ItemsOk(items, w)
    case CObj(pad, members) => Blank(pad, w) && MembersOk(members, w)
    case _ => true
  }

  ghost predicate ItemsOk(items: seq<CItem>, w: Space) {
    items == [] || (ItemPads(items[0], w) && CstOk(items[0].val, w) && ItemsOk(items[1..], w))
  }

  ghost predicate MembersOk(members: seq<CMember>, w: Space) {
    members == [] || (MemberPads(members[0], w) && CstOk(members[0].val, w) && MembersOk(members[1..], w))
  }

  predicate ItemPads(it: CItem, w: Space) {
    Blank(it.before, w) && Blank(it.after, w)
  }

  ghost predicate MemberPads(m: CMember, w: Space) {
    Blank(m.before, w) && PiecesOk(m.key) && Blank(m.mid, w) && Blank(m.gap, w) && Blank(m.after, w)
  }

  // ---------------------------------------------------------------- text and meaning

  function Quoted(ps: seq<Piece>): bytes {
    [QUOTE] + TextOf(ps) + [QUOTE]
  }

  function Text(c: Cst): bytes {
    match c
    case CNull => NULL
    case CBool(b) => if b then TRUE else FALSE
    case CNum(lex) => lex
    case CStr(ps) => Quoted(ps)
    case CArr(pad, items) => [LBRACKET] + (if items == [] then pad else ItemsText(items)) + [RBRACKET]
    case CObj(pad, members) => [LBRACE] + (if members == [] then pad else MembersText(members)) + [RBRACE]
  }

  function ItemText(it: CItem): bytes {
    it.before + Text(it.val) + it.after
  }

  function ItemsText(items: seq<CItem>): bytes {
    if items == [] then []
    else if |items| == 1 then ItemText(items[0])
    else ItemText(items[0]) + [COMMA] + ItemsText(items[1..])
  }

  function MemberText(m: CMember): bytes {
    m.before + Quoted(m.key) + m.mid + [COLON] + m.gap + Text(m.val) + m.after
  }

  function MembersText(members: seq<CMember>): bytes {
    if members == [] then []
    else if |members| == 1 then MemberText(members[0])
    else MemberText(members[0]) + [COMMA] + MembersText(members[1..])
  }

  ghost function Means(c: Cst, w: Space): Value
    requires CstOk(c, w)
  {
    match c
    case CNull => JNull
    case CBool(b) => JBool(b)
    case CNum(lex) => JNum(lex)
    case CStr(ps) => JStr(MeansOf(ps))
    case CArr(_, items) => JArr(ItemsMean(items, w))
    case CObj(_, members) => JObj(MembersMean(members, w))
  }

  ghost function ItemsMean(items: seq<CItem>, w: Space): (vs: seq<Value>)
    requires ItemsOk(items, w)
    ensures |vs| == |items|
  {
    if items == [] then [] else [Means(items[0].val, w)] + ItemsMean(items[1..], w)
  }

  ghost function MembersMean(members: seq<CMember>, w: Space): (vs: seq<Member>)
    requires MembersOk(members, w)
    ensures |vs| == |members|
  {
    if members == [] then []
    else [Member(MeansOf(members[0].key), Means(members[0].val, w))] + MembersMean(members[1..], w)
  }

  /** The text spells the value: some choice of spellings, with white space around it. */
  ghost predicate Spells(t: bytes, v: Value, w: Space) {
    exists pre, c, post :: SpelledAs(t, v, w, pre, c, post)
  }

  ghost predicate SpelledAs(t: bytes, v: Value, w: Space, pre: bytes, c: Cst, post: bytes) {
    && Blank(pre, w) && Blank(post, w) && CstOk(c, w)
    && t == pre + Text(c) + post && v == Means(c, w)
  }
}
