/**
 The recursive JSON parser over one text and one cursor, and the depth cut-off it shares with the
 tree's destructor (RFC 8259).
 */
module JsonTree {
  import opened Bytes
  import opened JsonText
  import opened JsonNumber

  const MAX_DEPTH := 256

  const COMMA: byte := 44
  const LBRACKET: byte := 91
  const RBRACKET: byte := 93
  const LBRACE: byte := 123
  const RBRACE: byte := 125

  /** `true`, `false` and `null`. */
  const TRUE: bytes := [116, 114, 117, 101]
  const FALSE: bytes := [102, 97, 108, 115, 101]
  const NULL: bytes := [110, 117, 108, 108]

  datatype Value =
    | JNull
    | JBool(b: bool)
    | JNum(lex: bytes)
    | JStr(s: bytes)
    | JArr(items: seq<Value>)
    | JObj(members: seq<Member>)

  datatype Member = Member(key: bytes, val: Value)

  // ---------------------------------------------------------------- parsing

  /** Which bytes are white space: `isspace` in the C locale has vertical tab and form feed besides
      the four of section 2 of RFC 8259. */
  datatype Space = CLocale | Rfc8259

  predicate Ws(c: byte, w: Space) {
    c == 32 || c == 9 || c == 10 || c == 13 || (w.CLocale? && (c == 11 || c == 12))
  }

  /** What is asked of the C library: white space, and whether it can represent a number. */
  datatype Lib = Lib(space: Space, fits: bytes -> bool)

  function SkipWs(t: bytes, i: nat, w: Space): (j: nat)
    requires i <= |t|
    ensures i <= j <= |t| && !Ws(At(t, j), w)
    decreases |t| - i
  {
    if Ws(At(t, i), w) then SkipWs(t, i + 1, w) else i
  }

  function Lit(t: bytes, i: nat, lit: bytes): (r: Scan)
    requires i <= |t| && CString(lit)
    ensures r.To? ==> r.next == i + |lit| <= |t|
    ensures r.Bad? ==> r.at <= |t|
    decreases |lit|
  {
    if lit == [] then To(i)
    else if At(t, i) == 0 then Bad(|t|)
    else if At(t, i) != lit[0] then Bad(i + 1)
    else Lit(t, i + 1, lit[1..])
  }

  lemma {:induction false} LitIs(t: bytes, i: nat, lit: bytes)
    requires CString(lit) && Here(t, i, lit)
    ensures Lit(t, i, lit) == To(i + |lit|)
    decreases |lit|
  {
    if lit != [] {
      HereAt(t, i, lit, 0);
      assert lit == [lit[0]] + lit[1..];
      HereSplit(t, i, [lit[0]], lit[1..]);
      LitIs(t, i + 1, lit[1..]);
    }
  }

  function Leaf(v: Value, s: Scan): Outcome<Value> {
    if s.To? then Ok(v, s.next) else Fail(s.at)
  }

  /** `parse_value`. */
  function ParseValue(t: bytes, at: nat, depth: nat, lib: Lib): (r: Outcome<Value>)
    requires at <= |t| && CString(t)
    ensures r.Ok? ==> at < r.next <= |t|
    ensures r.Fail? ==> r.at <= |t| + 1
    decreases |t| - at, 0
  {
    var i := SkipWs(t, at, lib.space);
    var c := At(t, i);
    if depth > MAX_DEPTH then Fail(i + 1)
    else if c == 0 then Fail(|t|)
    else if c == LBRACE then ParseMembers(t, i + 1, depth, lib, [], false)
    else if c == LBRACKET then ParseItems(t, i + 1, depth, lib, [], false)
    else if c == QUOTE then
      var s := Str(t, i + 1, []);
      if s.Ok? then Ok(JStr(s.val), s.next) else Fail(s.at)
    else if c == 116 then Leaf(JBool(true), Lit(t, i, TRUE))
    else if c == 102 then Leaf(JBool(false), Lit(t, i, FALSE))
    else if c == 110 then Leaf(JNull, Lit(t, i, NULL))
    else if c == MINUS || Digit(c) then
      var n := Number(t, i, lib.fits);
      if n.Ok? then Ok(JNum(n.val), n.next) else Fail(n.at)
    else Fail(i + 1)
  }

  /** The loop of `parse_array`, with the elements read so far. */
  function ParseItems(t: bytes, at: nat, depth: nat, lib: Lib, acc: seq<Value>, comma: bool)
    : (r: Outcome<Value>)
    requires at <= |t| && CString(t)
    ensures r.Ok? ==> at < r.next <= |t|
    ensures r.Fail? ==> r.at <= |t| + 1
    decreases |t| - at, 1
  {
    var i := SkipWs(t, at, lib.space);
    if At(t, i) == RBRACKET then if comma then Fail(i + 1) else Ok(JArr(acc), i + 1)
    else if At(t, i) == 0 then Fail(|t|)
    else
      var v := ParseValue(t, i, depth + 1, lib);
      if v.Fail? then v
      else
        var j := SkipWs(t, v.next, lib.space);
        if At(t, j) == COMMA then ParseItems(t, j + 1, depth, lib, acc + [v.val], true)
        else if At(t, j) == RBRACKET then Ok(JArr(acc + [v.val]), j + 1)
        else Fail(if At(t, j) == 0 then |t| else j + 1)
  }

  /** The loop of `parse_object`, with the members read so far. */
  function ParseMembers(t: bytes, at: nat, depth: nat, lib: Lib, acc: seq<Member>, comma: bool)
    : (r: Outcome<Value>)
    requires at <= |t| && CString(t)
    ensures r.Ok? ==> at < r.next <= |t|
    ensures r.Fail? ==> r.at <= |t| + 1
    decreases |t| - at, 1
  {
    var i := SkipWs(t, at, lib.space);
    if At(t, i) == RBRACE then if comma then Fail(i + 1) else Ok(JObj(acc), i + 1)
    else if At(t, i) == 0 then Fail(|t|)
    else if At(t, i) != QUOTE then Fail(i + 1)
    else
      var key := Key(t, i, lib.space);
      if key.Fail? then Fail(key.at)
      else
        var v := ParseValue(t, key.next, depth + 1, lib);
        if v.Fail? then v
        else
          var j := SkipWs(t, v.next, lib.space);
          if At(t, j) == COMMA then
            ParseMembers(t, j + 1, depth, lib, acc + [Member(key.val, v.val)], true)
          else if At(t, j) == RBRACE then Ok(JObj(acc + [Member(key.val, v.val)]), j + 1)
          else Fail(if At(t, j) == 0 then |t| else j + 1)
  }

  /** A member's key and its colon. */
  function Key(t: bytes, i: nat, w: Space): (r: Outcome<bytes>)
    requires i < |t| && CString(t)
    ensures r.Ok? ==> i < r.next <= |t|
    ensures r.Fail? ==> r.at <= |t|
  {
    var key := Str(t, i + 1, []);
    if key.Fail? then key
    else
      var k := SkipWs(t, key.next, w);
      if At(t, k) != COLON then Fail(if At(t, k) == 0 then |t| else k + 1) else Ok(key.val, k + 1)
  }

  /** `json_parse_ex`: one value and nothing behind it. */
  function Parse(t: bytes, lib: Lib): (r: Outcome<Value>)
    requires CString(t)
    ensures r.Ok? ==> r.next == |t|
    ensures r.Fail? ==> r.at <= |t| + 1
  {
    var v := ParseValue(t, 0, 0, lib);
    if v.Fail? then v
    else
      var j := SkipWs(t, v.next, lib.space);
      if At(t, j) != 0 then Fail(j + 1) else Ok(v.val, j)
  }

  // ---------------------------------------------------------------- trees

  /** Levels of nesting below the root. */
  function Height(v: Value): nat {
    match v
    case JArr(items) => HeightItems(items)
    case JObj(members) => HeightMembers(members)
    case _ => 0
  }

  function HeightItems(items: seq<Value>): nat {
    if items == [] then 0 else Max(1 + Height(items[0]), HeightItems(items[1..]))
  }

  function HeightMembers(members: seq<Member>): nat {
    if members == [] then 0 else Max(1 + Height(members[0].val), HeightMembers(members[1..]))
  }

  function Max(a: nat, b: nat): nat {
    if a < b then b else a
  }

  function Nodes(v: Value): nat {
    match v
    case JArr(items) => 1 + NodesItems(items)
    case JObj(members) => 1 + NodesMembers(members)
    case _ => 1
  }

  function NodesItems(items: seq<Value>): nat {
    if items == [] then 0 else Nodes(items[0]) + NodesItems(items[1..])
  }

  function NodesMembers(members: seq<Member>): nat {
    if members == [] then 0 else Nodes(members[0].val) + NodesMembers(members[1..])
  }

  /** What the parser's tree can hold: strings and keys without a NUL, and numbers in the grammar that
      are short and representable. */
  ghost predicate Good(v: Value, fits: bytes -> bool) {
    match v
    case JNum(lex) => IsNumber(lex) && |lex| < 128 && fits(lex)
    case JStr(s) => CString(s)
    case JArr(items) => forall k :: 0 <= k < |items| ==> Good(items[k], fits)
    case JObj(members) => forall k :: 0 <= k < |members| ==> CString(members[k].key) && Good(members[k].val, fits)
    case _ => true
  }

  /** What the parser may return at some depth. */
  ghost predicate Fine(v: Value, depth: nat, lib: Lib) {
    Good(v, lib.fits) && depth + Height(v) <= MAX_DEPTH
  }

  /** `json_free_d`: the number of nodes given back. */
  function Freed(v: Value, depth: nat): nat {
    if depth > MAX_DEPTH then 0
    else match v
      case JArr(items) => 1 + FreedItems(items, depth)
      case JObj(members) => 1 + FreedMembers(members, depth)
      case _ => 1
  }

  function FreedItems(items: seq<Value>, depth: nat): nat {
    if items == [] then 0 else Freed(items[0], depth + 1) + FreedItems(items[1..], depth)
  }

  function FreedMembers(members: seq<Member>, depth: nat): nat {
    if members == [] then 0 else Freed(members[0].val, depth + 1) + FreedMembers(members[1..], depth)
  }
}
