/**
 The relay's HTTP head rewriter: the client's Connection fields are dropped and one
 `Connection: close` is put before the blank line (RFC 7230 section 6.1). It runs twice over the
 head, once to size the result exactly and once to write it.
 */
module HeadRewrite {
  import opened Bytes

  const SP: byte := 32
  const HTAB: byte := 9

  /** `connection` and `upgrade`. */
  const CONNECTION: bytes := [99, 111, 110, 110, 101, 99, 116, 105, 111, 110]
  const UPGRADE: bytes := [117, 112, 103, 114, 97, 100, 101]

  /** `Connection: close`. */
  const CLOSE: bytes := [67, 111, 110, 110, 101, 99, 116, 105, 111, 110, 58, 32, 99, 108, 111, 115, 101]
  const CRLF: bytes := [CR, LF]

  predicate Eol(c: byte) {
    c == CR || c == LF
  }

  predicate Ows(c: byte) {
    c == SP || c == HTAB
  }

  // ---------------------------------------------------------------- lines

  /** Length of the first line's content. */
  function LineLen(h: bytes): (e: nat)
    ensures e <= |h| && (e < |h| ==> Eol(h[e]))
    ensures forall i :: 0 <= i < e ==> !Eol(h[i])
  {
    if h == [] || Eol(h[0]) then 0 else 1 + LineLen(h[1..])
  }

  /** Offset behind the line ending that starts at `e`: CRLF, a lone CR or a lone LF. */
  function Past(h: bytes, e: nat): (i: nat)
    requires e <= |h|
    ensures e <= i <= |h|
  {
    var a := if e < |h| && h[e] == CR then e + 1 else e;
    if a < |h| && h[a] == LF then a + 1 else a
  }

  /** The lines up to the first blank one, and whether there is a blank one. */
  datatype Head = Head(lines: seq<bytes>, blank: bool)

  function Parse(h: bytes): Head {
    if h == [] then Head([], false)
    else
      var e := LineLen(h);
      if e == 0 then Head([], true)
      else
        var rest := Parse(h[Past(h, e)..]);
        Head([h[..e]] + rest.lines, rest.blank)
  }

  // ---------------------------------------------------------------- field names

  function Colon(line: bytes): (j: nat)
    ensures j <= |line| && (j < |line| ==> line[j] == COLON)
    ensures forall i :: 0 <= i < j ==> line[i] != COLON
  {
    if line == [] || line[0] == COLON then 0 else 1 + Colon(line[1..])
  }

  /** Walk back over whitespace before index `j`. */
  function Back(line: bytes, j: nat): (k: nat)
    requires j <= |line|
    ensures k <= j
  {
    if j > 0 && Ows(line[j - 1]) then Back(line, j - 1) else j
  }

  function Lower(c: byte): byte {
    if 65 <= c <= 90 then c + 32 else c
  }

  /** `rp_hdr_name_eq`: the line is a field of this (lower-case) name. */
  predicate IsField(line: bytes, name: bytes) {
    var j := Colon(line);
    && j < |line|
    && Back(line, j) == |name|
    && forall k :: 0 <= k < |name| ==> Lower(line[k]) == name[k]
  }

  predicate IsConnection(line: bytes) {
    IsField(line, CONNECTION)
  }

  /** Index of the first byte at or after `v` that is not whitespace. */
  function Value(line: bytes, v: nat): (k: nat)
    requires v <= |line|
    ensures v <= k <= |line|
    decreases |line| - v
  {
    if v < |line| && Ows(line[v]) then Value(line, v + 1) else v
  }

  /** The last Upgrade field decides: it must name a protocol. */
  function Upgrades(lines: seq<bytes>, so: bool): bool
    decreases |lines|
  {
    if lines == [] then so
    else
      Upgrades(lines[1..],
               if IsField(lines[0], UPGRADE) then Value(lines[0], Colon(lines[0]) + 1) < |lines[0]| else so)
  }

  // ---------------------------------------------------------------- the rewritten head

  function Kept(lines: seq<bytes>): seq<bytes> {
    if lines == [] then [] else (if IsConnection(lines[0]) then [] else [lines[0]]) + Kept(lines[1..])
  }

  function Join(lines: seq<bytes>): bytes {
    if lines == [] then [] else lines[0] + CRLF + Join(lines[1..])
  }

  /** The non-Connection lines up to the first blank line, in order, then one `Connection: close` and
      the blank line if there was one. */
  function Rewritten(h: bytes): bytes {
    Join(Kept(Parse(h).lines)) + Ending(Parse(h).blank)
  }

  function Ending(blank: bool): bytes {
    if blank then CLOSE + CRLF + CRLF else []
  }

  // ---------------------------------------------------------------- reading the result back

  predicate Clean(line: bytes) {
    line != [] && forall i :: 0 <= i < |line| ==> !Eol(line[i])
  }

  ghost predicate AllClean(lines: seq<bytes>) {
    forall i :: 0 <= i < |lines| ==> Clean(lines[i])
  }

  lemma {:induction false} ParsedClean(h: bytes)
    ensures AllClean(Parse(h).lines)
    decreases |h|
  {
    if h != [] && LineLen(h) > 0 {
      ParsedClean(h[Past(h, LineLen(h))..]);
    }
  }

  lemma {:induction false} KeptClean(lines: seq<bytes>)
    requires AllClean(lines)
    ensures AllClean(Kept(lines))
    ensures forall i :: 0 <= i < |Kept(lines)| ==> !IsConnection(Kept(lines)[i])
  {
    hide IsConnection, Clean;
    if lines != [] { KeptClean(lines[1..]); }
  }

  lemma {:induction false} LineLenIs(line: bytes, tail: bytes)
    requires forall i :: 0 <= i < |line| ==> !Eol(line[i])
    requires tail != [] ==> Eol(tail[0])
    ensures LineLen(line + tail) == |line|
    decreases |line|
  {
    var h := line + tail;
    if line == [] {
      assert h == tail;
    } else {
      assert h[1..] == line[1..] + tail;
      LineLenIs(line[1..], tail);
    }
  }

  lemma ParseLine(line: bytes, tail: bytes)
    requires Clean(line)
    ensures Parse(line + CRLF + tail) == Head([line] + Parse(tail).lines, Parse(tail).blank)
  {
    var h := line + CRLF + tail;
    assert h == line + (CRLF + tail);
    LineLenIs(line, CRLF + tail);
    assert h[..|line|] == line;
    assert h[|line|] == CR && h[|line| + 1] == LF;
    assert h[|line| + 2..] == tail;
  }

  /** Lines written with CRLF endings are read back as they were. */
  lemma {:induction false} ParseJoin(lines: seq<bytes>, tail: bytes)
    requires AllClean(lines)
    ensures Parse(Join(lines) + tail) == Head(lines + Parse(tail).lines, Parse(tail).blank)
    decreases |lines|
  {
    hide Parse, Clean;
    if lines == [] {
      assert Join(lines) + tail == tail;
      assert lines + Parse(tail).lines == Parse(tail).lines;
    } else {
      var rest := Join(lines[1..]) + tail;
      assert Clean(lines[0]);
      assert Join(lines) + tail == lines[0] + CRLF + rest;
      ParseLine(lines[0], rest);
      ParseJoin(lines[1..], tail);
      assert [lines[0]] + (lines[1..] + Parse(tail).lines) == lines + Parse(tail).lines;
    }
  }

  lemma {:induction false} KeptSplit(a: seq<bytes>, b: seq<bytes>)
    ensures Kept(a + b) == Kept(a) + Kept(b)
    decreases |a|
  {
    hide IsConnection;
    if a == [] {
      assert a + b == b;
    } else {
      assert (a + b)[1..] == a[1..] + b;
      KeptSplit(a[1..], b);
    }
  }

  lemma {:induction false} KeptAll(lines: seq<bytes>)
    requires forall i :: 0 <= i < |lines| ==> !IsConnection(lines[i])
    ensures Kept(lines) == lines
  {
    hide IsConnection;
    if lines != [] { KeptAll(lines[1..]); }
  }

  lemma {:induction false} ColonIs(line: bytes, j: nat)
    requires j < |line| && line[j] == COLON
    requires forall i :: 0 <= i < j ==> line[i] != COLON
    ensures Colon(line) == j
  {
    if j > 0 { ColonIs(line[1..], j - 1); }
  }

  lemma FieldIs(line: bytes, name: bytes)
    requires 0 < |name| < |line| && line[|name|] == COLON && !Ows(line[|name| - 1])
    requires forall k :: 0 <= k < |name| ==> line[k] != COLON && Lower(line[k]) == name[k]
    ensures IsField(line, name)
  {
    ColonIs(line, |name|);
  }

  lemma CloseIsConnection()
    ensures IsConnection(CLOSE) && Clean(CLOSE)
  {
    hide IsField;
    FieldIs(CLOSE, CONNECTION);
  }

  lemma EndsBlank(lines: seq<bytes>, last: bytes, eol: bytes)
    requires AllClean(lines) && Clean(last) && eol == CRLF
    ensures Parse(Join(lines) + (last + CRLF + eol)) == Head(lines + [last], true)
  {
    hide Join, Clean;
    ParseJoin(lines, last + CRLF + eol);
    ParseLine(last, eol);
    assert Parse(eol) == Head([], true);
  }

  lemma EndsOpen(lines: seq<bytes>, none: bytes)
    requires AllClean(lines) && none == []
    ensures Parse(Join(lines) + none) == Head(lines, false)
  {
    hide Join, Clean;
    ParseJoin(lines, none);
  }

  /** What a receiver reads in the rewritten head. */
  ghost function Wanted(h: bytes): Head {
    var was := Parse(h);
    Head(Kept(was.lines) + (if was.blank then [CLOSE] else []), was.blank)
  }

  /** A receiver that reads the rewritten head finds the client's other lines, in order, and exactly
      one Connection field, last. */
  lemma RewrittenReadsBack(h: bytes)
    ensures Parse(Rewritten(h)) == Wanted(h)
    ensures forall i :: 0 <= i < |Kept(Parse(h).lines)| ==> !IsConnection(Kept(Parse(h).lines)[i])
    ensures IsConnection(CLOSE)
  {
    hide IsConnection, Kept, Parse, Join, Clean;
    var was := Parse(h);
    ParsedClean(h);
    KeptClean(was.lines);
    CloseIsConnection();
    if was.blank {
      EndsBlank(Kept(was.lines), CLOSE, CRLF);
    } else {
      EndsOpen(Kept(was.lines), []);
    }
  }

  lemma {:induction false} KeptWanted(lines: seq<bytes>, close: bytes)
    requires forall i :: 0 <= i < |lines| ==> !IsConnection(lines[i])
    requires IsConnection(close)
    ensures Kept(lines + [close]) == lines
  {
    hide IsConnection;
    KeptSplit(lines, [close]);
    KeptAll(lines);
    assert Kept([close]) == [] + Kept([close][1..]);
  }

  /** Rewriting twice is rewriting once. */
  lemma Idempotent(h: bytes)
    ensures Rewritten(Rewritten(h)) == Rewritten(h)
  {
    hide IsConnection, Parse, Join, Kept;
    var kept := Kept(Parse(h).lines);
    RewrittenReadsBack(h);
    if Parse(h).blank {
      KeptWanted(kept, CLOSE);
    } else {
      KeptAll(kept);
      assert kept + [] == kept;
    }
  }

  // ---------------------------------------------------------------- size

  function Bulk(lines: seq<bytes>): nat {
    if lines == [] then 0 else |lines[0]| + 2 + Bulk(lines[1..])
  }

  lemma {:induction false} JoinBulk(lines: seq<bytes>)
    ensures |Join(lines)| == Bulk(lines)
  {
    if lines != [] { JoinBulk(lines[1..]); }
  }

  lemma {:induction false} KeptBulk(lines: seq<bytes>)
    ensures Bulk(Kept(lines)) <= Bulk(lines)
    ensures (forall i :: 0 <= i < |lines| ==> !IsConnection(lines[i])) <==> Bulk(Kept(lines)) == Bulk(lines)
  {
    hide IsConnection;
    if lines != [] {
      var rest := lines[1..];
      KeptBulk(rest);
      if IsConnection(lines[0]) {
        assert Kept(lines) == Kept(rest);
      } else {
        assert Kept(lines)[1..] == Kept(rest);
        assert forall i :: 0 < i < |lines| ==> lines[i] == rest[i - 1];
        assert forall i :: 0 <= i < |rest| ==> rest[i] == lines[i + 1];
      }
    }
  }

  /** A head with CRLF endings and a final blank line grows by at most 19 bytes, and by exactly 19
      when there was no Connection field to drop. */
  lemma CrlfGrowth(lines: seq<bytes>)
    requires AllClean(lines)
    ensures var h := Join(lines) + CRLF;
            && |Rewritten(h)| <= |h| + 19
            && (|Rewritten(h)| == |h| + 19 <==>
                forall i :: 0 <= i < |lines| ==> !IsConnection(lines[i]))
  {
    hide IsConnection, Join, Clean, Kept, Bulk;
    var h := Join(lines) + CRLF;
    assert Parse(h) == Head(lines, true) by {
      ParseJoin(lines, CRLF);
      assert Parse(CRLF) == Head([], true);
    }
    hide Parse;
    JoinBulk(lines);
    JoinBulk(Kept(lines));
    KeptBulk(lines);
  }

  // ---------------------------------------------------------------- line by line

  /** What one line contributes. */
  function Piece(line: bytes): bytes {
    if IsConnection(line) then [] else line + CRLF
  }

  lemma ParseStep(h: bytes)
    requires LineLen(h) > 0
    ensures Parse(h).blank == Parse(h[Past(h, LineLen(h))..]).blank
    ensures Parse(h).lines != [] && Parse(h).lines[0] == h[..LineLen(h)]
    ensures Parse(h).lines[1..] == Parse(h[Past(h, LineLen(h))..]).lines
  {
    hide LineLen;
  }

  lemma RewrittenEnd(h: bytes)
    requires LineLen(h) == 0
    ensures Rewritten(h) == Ending(h != [])
    ensures forall so :: Upgrades(Parse(h).lines, so) == so
  {
    hide Ending;
    assert Join(Kept([])) == [];
  }

  lemma RewrittenStep(h: bytes)
    requires LineLen(h) > 0
    ensures Rewritten(h) == Piece(h[..LineLen(h)]) + Rewritten(h[Past(h, LineLen(h))..])
  {
    hide Piece, LineLen, Past, Ending, Parse, Join, Kept;
    var e := LineLen(h);
    ParseStep(h);
    var rest := Parse(h[Past(h, e)..]);
    KeptStep(h[..e], Parse(h).lines, rest.lines);
    assert Rewritten(h) == Piece(h[..e]) + Join(Kept(rest.lines)) + Ending(rest.blank);
  }

  lemma KeptStep(line: bytes, lines: seq<bytes>, rest: seq<bytes>)
    requires lines != [] && lines[0] == line && lines[1..] == rest
    ensures Join(Kept(lines)) == Piece(line) + Join(Kept(rest))
  {
    hide IsConnection;
    JoinFirst(line, Kept(rest));
  }

  lemma JoinFirst(line: bytes, rest: seq<bytes>)
    ensures Join([line] + rest) == line + CRLF + Join(rest)
    ensures [] + rest == rest
  {
    assert ([line] + rest)[1..] == rest;
  }

  /** The only bound that covers every head, lone line endings included. */
  lemma {:induction false} AnyGrowth(h: bytes)
    ensures 2 * |Rewritten(h)| <= 3 * |h| + 39
    decreases |h|
  {
    hide Rewritten, LineLen;
    if LineLen(h) == 0 {
      RewrittenEnd(h);
    } else {
      RewrittenStep(h);
      AnyGrowth(h[Past(h, LineLen(h))..]);
      if Past(h, LineLen(h)) == LineLen(h) {
        RewrittenEnd(h[LineLen(h)..]);
      }
    }
  }

  // ---------------------------------------------------------------- the Upgrade test

  predicate Names(line: bytes) {
    IsField(line, UPGRADE) && Value(line, Colon(line) + 1) < |line|
  }

  ghost predicate LastUpgradeNames(lines: seq<bytes>) {
    exists k :: 0 <= k < |lines| && Names(lines[k]) &&
                forall i :: k < i < |lines| ==> !IsField(lines[i], UPGRADE)
  }

  /** The request counts as an upgrade exactly when its last Upgrade field names a protocol; a bare
      `Upgrade:` behind a real one hides it. */
  lemma {:induction false} UpgradesIff(lines: seq<bytes>, so: bool)
    ensures Upgrades(lines, so) <==>
              (LastUpgradeNames(lines) || (so && forall i :: 0 <= i < |lines| ==> !IsField(lines[i], UPGRADE)))
    decreases |lines|
  {
    hide IsField, Value, Colon;
    if lines != [] {
      var rest := lines[1..];
      UpgradesIff(rest, if IsField(lines[0], UPGRADE) then Names(lines[0]) else so);
      assert forall i :: 0 < i < |lines| ==> lines[i] == rest[i - 1];
      assert forall i :: 0 <= i < |rest| ==> rest[i] == lines[i + 1];
      if LastUpgradeNames(rest) {
        var k :| 0 <= k < |rest| && Names(rest[k]) && forall i :: k < i < |rest| ==> !IsField(rest[i], UPGRADE);
        assert Names(lines[k + 1]);
      }
    }
  }

  /** The field's own description asks for any Upgrade field with a value; a bare one behind it
      makes the request an ordinary one. */
  lemma BareUpgradeHides(named: bytes, bare: bytes)
    requires named == UPGRADE + [COLON, 97] && bare == UPGRADE + [COLON]
    ensures Names(named) && !Upgrades([named, bare], false)
  {
    assert named[7] == COLON && bare[7] == COLON && named[8] == 97;
    FieldIs(named, UPGRADE);
    FieldIs(bare, UPGRADE);
    ColonIs(named, 7);
    ColonIs(bare, 7);
    hide IsField, Colon;
    UpgradesIff([named, bare], false);
    assert !Names([named, bare][1]);
    assert IsField([named, bare][1], UPGRADE);
  }

  /** So a request that asks for an upgrade and then repeats the bare field is rewritten like any other,
      whatever its request line. */
  lemma BareUpgradeRewritten(request: bytes, named: bytes, bare: bytes)
    requires Clean(request) && !IsField(request, UPGRADE)
    requires named == UPGRADE + [COLON, 97] && bare == UPGRADE + [COLON]
    ensures var h := Join([request, named, bare]) + CRLF;
            Parse(h) == Head([request, named, bare], true) && !Upgrades(Parse(h).lines, false)
  {
    hide Join, Names, Upgrades, IsField;
    BareUpgradeHides(named, bare);
    assert Clean(named) && Clean(bare);
    ParseJoin([request, named, bare], CRLF);
    assert Parse(CRLF) == Head([], true);
    UpgradesStep(request, [named, bare]);
    assert [request] + [named, bare] == [request, named, bare];
  }

  lemma UpgradesStep(line: bytes, rest: seq<bytes>)
    requires !IsField(line, UPGRADE)
    ensures Upgrades([line] + rest, false) == Upgrades(rest, false)
  {
    hide IsField;
    assert ([line] + rest)[1..] == rest;
  }

  // ---------------------------------------------------------------- the two passes

  /** The end of the line that starts at `i`. */
  method FindEol(head: bytes, i: nat) returns (e: nat)
    requires i <= |head|
    ensures e == i + LineLen(head[i..])
  {
    e := i;
    while e < |head| && !Eol(head[e])
      invariant i <= e <= |head|
      invariant e + LineLen(head[e..]) == i + LineLen(head[i..])
    {
      assert head[e..][1..] == head[e + 1..];
      e := e + 1;
    }
  }

  method SkipEol(head: bytes, e: nat) returns (i: nat)
    requires e <= |head|
    ensures i == Past(head, e)
  {
    i := e;
    if i < |head| && head[i] == CR { i := i + 1; }
    if i < |head| && head[i] == LF { i := i + 1; }
  }

  /** `rp_hdr_name_eq`, with the colon's index. */
  method NameEq(line: bytes, name: bytes) returns (eq: bool, colon: nat)
    ensures eq <==> IsField(line, name)
    ensures eq ==> colon == Colon(line)
  {
    colon := 0;
    while colon < |line| && line[colon] != COLON
      invariant colon <= |line| && forall i :: 0 <= i < colon ==> line[i] != COLON
    {
      colon := colon + 1;
    }
    if colon == |line| {
      return false, 0;
    }
    ColonIs(line, colon);
    var j := colon;
    while j > 0 && Ows(line[j - 1])
      invariant j <= colon && Back(line, j) == Back(line, colon)
    {
      j := j - 1;
    }
    if j != |name| {
      return false, 0;
    }
    var k := 0;
    while k < |name|
      invariant k <= |name|
      invariant forall i :: 0 <= i < k ==> Lower(line[i]) == name[i]
    {
      if Lower(line[k]) != name[k] {
        return false, 0;
      }
      k := k + 1;
    }
    eq := true;
  }

  method SkipOws(line: bytes, from: nat) returns (v: nat)
    requires from <= |line|
    ensures v == Value(line, from)
  {
    v := from;
    while v < |line| && Ows(line[v])
      invariant from <= v <= |line| && Value(line, v) == Value(line, from)
    {
      v := v + 1;
    }
  }

  /** The pre-scan: the exact output size, and the upgrade verdict. */
  method Prescan(head: bytes) returns (need: nat, upgrade: bool)
    ensures need == |Rewritten(head)|
    ensures upgrade <==> Upgrades(Parse(head).lines, false)
  {
    hide IsField, LineLen, Rewritten, Value, Colon, Parse, Past, Upgrades;
    need, upgrade := 0, false;
    var i := 0;
    assert head[0..] == head;
    while i < |head|
      invariant i <= |head|
      invariant need + |Rewritten(head[i..])| == |Rewritten(head)|
      invariant Upgrades(Parse(head[i..]).lines, upgrade) == Upgrades(Parse(head).lines, false)
    {
      ghost var h := head[i..];
      var e := FindEol(head, i);
      if e == i {
        RewrittenEnd(h);
        need := need + 19 + 2;
        return;
      }
      var line := head[i..e];
      assert line == h[..e - i] && h != [];
      PrescanStep(head, i, upgrade);
      var isUp, colon := NameEq(line, UPGRADE);
      if isUp {
        var v := SkipOws(line, colon + 1);
        upgrade := v < |line|;
      }
      var isConn, c := NameEq(line, CONNECTION);
      if !isConn {
        need := need + |line| + 2;
      }
      i := SkipEol(head, e);
    }
    RewrittenEnd(head[i..]);
  }

  lemma PrescanStep(head: bytes, i: nat, so: bool)
    requires i < |head| && LineLen(head[i..]) > 0
    ensures var h := head[i..];
            var e := LineLen(h);
            && Past(head, i + e) > i
            && Rewritten(h) == Piece(h[..e]) + Rewritten(head[Past(head, i + e)..])
            && Upgrades(Parse(h).lines, so) ==
               Upgrades(Parse(head[Past(head, i + e)..]).lines,
                        if IsField(h[..e], UPGRADE) then Value(h[..e], Colon(h[..e]) + 1) < e else so)
  {
    hide IsField, LineLen, Value, Colon, Parse, Rewritten, Piece;
    var h := head[i..];
    var e := LineLen(h);
    PastSuffix(head, i, e);
    RewrittenStep(h);
    ParseStep(h);
  }

  lemma PastSuffix(head: bytes, i: nat, e: nat)
    requires i < |head| && e <= |head| - i
    ensures head[i..][Past(head[i..], e)..] == head[Past(head, i + e)..]
  {
    assert Past(head, i + e) == i + Past(head[i..], e);
  }

  /** The checked copy into the output buffer. */
  method Put(out: array<byte>, o: nat, b: bytes) returns (full: bool, end: nat)
    requires o <= out.Length
    modifies out
    ensures full <==> o + |b| > out.Length
    ensures full ==> end == o && out[..] == old(out[..])
    ensures !full ==> end == o + |b| && out[..] == old(out[..o]) + b + old(out[end..])
  {
    full, end := o + |b| > out.Length, o;
    if !full {
      end := o + |b|;
      forall k | 0 <= k < |b| {
        out[o + k] := b[k];
      }
    }
  }

  /** Two checked copies that are known to fit. */
  method PutBoth(out: array<byte>, o: nat, a: bytes, b: bytes) returns (full: bool, end: nat)
    requires o + |a| + |b| <= out.Length
    modifies out
    ensures !full && end == o + |a| + |b|
    ensures out[..end] == old(out[..o]) + a + b
    ensures out[end..] == old(out[end..])
  {
    full, end := Put(out, o, a);
    if full { assert false; return; }
    full, end := Put(out, end, b);
    if full { assert false; return; }
  }

  lemma EndingIs(blank: bool)
    ensures Ending(blank) == if blank then (CLOSE + CRLF) + CRLF else []
  {
  }

  /** `rp_http_force_close`: nothing is written for an upgrade or when the result does not fit;
      otherwise the whole rewritten head is, and the copies' own overflow tests never fire. */
  method ForceClose(out: array<byte>, head: bytes) returns (n: nat)
    modifies out
    ensures var full := Rewritten(head);
            if Upgrades(Parse(head).lines, false) || |full| > out.Length
            then n == 0 && out[..] == old(out[..])
            else n == |full| && out[..n] == full && out[n..] == old(out[n..])
  {
    hide IsField, LineLen, Rewritten, Parse, Past, Upgrades, Ending, Value, Colon;
    var need, upgrade := Prescan(head);
    if upgrade || need > out.Length {
      return 0;
    }
    n := 0;
    var i := 0;
    var full: bool;
    assert head[0..] == head;
    while i < |head|
      invariant i <= |head| && n <= out.Length
      invariant out[..n] + Rewritten(head[i..]) == Rewritten(head)
      invariant out[n..] == old(out[n..])
    {
      ghost var h, was, at := head[i..], out[..n], n;
      var e := FindEol(head, i);
      if e == i {
        RewrittenEnd(h);
        EndingIs(true);
        full, n := PutBoth(out, n, CLOSE + CRLF, CRLF);
        return;
      }
      PrescanStep(head, i, false);
      var line := head[i..e];
      assert line == h[..e - i];
      var isConn, c := NameEq(line, CONNECTION);
      if !isConn {
        full, n := PutBoth(out, n, line, CRLF);
        assert out[..n] == was + Piece(line);
        assert old(out[at..])[n - at..] == old(out[n..]);
      }
      i := SkipEol(head, e);
    }
    RewrittenEnd(head[i..]);
    EndingIs(false);
  }
}
