/**
 Reading an HTTP response: the head's end is looked for after every read, a settled head says how
 long the body is, and the reader stops as soon as that much is there. What is read should be a
 function of the response and not of how it arrives.
 */
module ResponseRead {
  import opened Bytes
  import opened HeaderScan
  import HeadRewrite
  import ContentLength

  /** What the two header lookups answer for a head: `Transfer-Encoding: chunked`, and the first
      `Content-Length` if it has a usable one. */
  datatype Answers = Answers(chunked: bytes -> bool, length: bytes -> Option<nat>)

  /** What the parser then makes of the bytes: a head and a body. */
  datatype Reply = Truncated | Whole(head: bytes, body: bytes)

  /** The length a head declares; chunks override it. */
  function Declared(a: Answers, head: bytes): Option<nat> {
    if a.chunked(head) then None else a.length(head)
  }

  /** Where the body starts, or 0 without a head. */
  function StartOf(d: bytes): (b: nat)
    ensures b <= |d|
  {
    if Frame(d).Some? then Frame(d).value else 0
  }

  function Parsed(a: Answers, d: bytes, start: nat): Reply
    requires start <= |d|
  {
    if start == 0 then Whole(d, [])
    else
      var n := Declared(a, d[..start]);
      Whole(d[..start], if n.Some? && start + n.value <= |d| then d[start..start + n.value] else d[start..])
  }

  /** The response as a whole: cut off exactly when its head declares more than there is. */
  function Direct(a: Answers, s: bytes): Reply {
    var b := StartOf(s);
    if b > 0 && Declared(a, s[..b]).Some? && |s| < b + Declared(a, s[..b]).value then Truncated else Parsed(a, s, b)
  }

  // ---------------------------------------------------------------- the reader

  /** The buffer, where its body starts, and the length declared for it. */
  datatype Reader = Reader(d: bytes, start: nat, len: Option<nat>)

  const EMPTY := Reader([], 0, None)

  /** One read. A head that says `chunked` leaves the length as it was. */
  function Took(a: Answers, r: Reader, chunk: bytes): (r': Reader) {
    var d := r.d + chunk;
    var b := StartOf(d);
    if b == r.start then r.(d := d)
    else Reader(d, b, if a.chunked(d[..b]) then r.len else a.length(d[..b]))
  }

  predicate Full(r: Reader) {
    r.len.Some? && r.start + r.len.value <= |r.d|
  }

  /** Read after read until the body is complete or the peer closes. */
  function Run(a: Answers, chunks: seq<bytes>, r: Reader): Reply
    requires r.start <= |r.d|
  {
    if chunks == [] then if r.len.Some? && !Full(r) then Truncated else Parsed(a, r.d, r.start)
    else
      var r' := Took(a, r, chunks[0]);
      if Full(r') then Parsed(a, r'.d, r'.start) else Run(a, chunks[1..], r')
  }

  function Flat(chunks: seq<bytes>): bytes {
    if chunks == [] then [] else chunks[0] + Flat(chunks[1..])
  }

  // ---------------------------------------------------------------- when arrival does not matter

  /** An LFLF is complete before the first CRLFCRLF is; `p` and `q` are the places behind them. */
  predicate Moves(s: bytes, p: nat, q: nat) {
    && FindFrom(s, LF2, 0).Some? && p == FindFrom(s, LF2, 0).value + 2
    && FindFrom(s, CRLF2, 0).Some? && q == FindFrom(s, CRLF2, 0).value + 4
    && p < q <= |s|
  }

  /** The head up to the LFLF declares a length, and its body is complete before the CRLFCRLF is;
      or the whole head says `chunked` and something else follows than that many bytes. */
  predicate Misleads(a: Answers, s: bytes, p: nat, q: nat) {
    && p < q <= |s|
    && var n := Declared(a, s[..p]);
       n.Some? && (p + n.value < q || (a.chunked(s[..q]) && |s| != q + n.value))
  }

  ghost predicate Misled(a: Answers, s: bytes) {
    exists p: nat, q: nat :: Moves(s, p, q) && Misleads(a, s, p, q)
  }

  /** What the first `n` bytes are framed as. */
  lemma StartCut(s: bytes, n: nat)
    requires n <= |s|
    ensures var c, l := FindFrom(s, CRLF2, 0), FindFrom(s, LF2, 0);
            StartOf(s[..n]) == if c.Some? && c.value + 4 <= n then c.value + 4
                               else if l.Some? && l.value + 2 <= n then l.value + 2 else 0
  {
    hide FindFrom;
    FindCut(s, n, CRLF2);
    FindCut(s, n, LF2);
  }

  lemma FindFits(s: bytes)
    ensures FindFrom(s, CRLF2, 0).Some? ==> FindFrom(s, CRLF2, 0).value + 4 <= |s|
    ensures FindFrom(s, LF2, 0).Some? ==> FindFrom(s, LF2, 0).value + 2 <= |s|
  {
  }

  /** A part has no head, the whole's, or the one up to the LFLF. */
  lemma StartOfPart(s: bytes, n: nat)
    requires n <= |s|
    ensures var b := StartOf(s[..n]);
            b == 0 || b == StartOf(s) || (Moves(s, b, StartOf(s)) && n < StartOf(s))
  {
    hide FindFrom, StartOf;
    assert s[..|s|] == s;
    FindFits(s);
    StartCut(s, n);
    StartCut(s, |s|);
  }

  lemma StartGrows(s: bytes, m: nat, n: nat)
    requires m <= n <= |s| && 0 < StartOf(s[..m]) != StartOf(s[..n])
    ensures Moves(s, StartOf(s[..m]), StartOf(s[..n])) && StartOf(s[..n]) == StartOf(s)
  {
    hide FindFrom, StartOf;
    assert s[..|s|] == s;
    FindFits(s);
    StartCut(s, m);
    StartCut(s, n);
    StartCut(s, |s|);
  }

  lemma MovesOnce(s: bytes, p: nat, q: nat, x: nat)
    requires Moves(s, p, q)
    ensures !Moves(s, x, p) && (Moves(s, x, q) ==> x == p)
    ensures p < q <= |s| && StartOf(s) == q
    ensures forall n: nat :: p <= n < q ==> StartOf(s[..n]) == p
  {
    hide FindFrom, StartOf;
    assert s[..|s|] == s;
    StartCut(s, |s|);
    forall n: nat | p <= n < q ensures StartOf(s[..n]) == p {
      StartCut(s, n);
    }
  }

  /** What a reader knows of the response `s` it has a part of: the part's frame, and a length that
      is its head's own or was left behind by the head up to the LFLF. */
  ghost predicate Tracks(a: Answers, s: bytes, r: Reader) {
    && r.d <= s && r.start == StartOf(r.d)
    && (if r.start == 0 then r.len == None else r.len == Declared(a, s[..r.start]) || Stale(a, s, r))
  }

  ghost predicate Stale(a: Answers, s: bytes, r: Reader) {
    exists p: nat :: Moves(s, p, r.start) && LeftBy(a, s, r, p)
  }

  ghost predicate LeftBy(a: Answers, s: bytes, r: Reader, p: nat) {
    p < r.start <= |s| && a.chunked(s[..r.start]) && r.len == Declared(a, s[..p])
  }

  lemma TookTracks(a: Answers, s: bytes, r: Reader, chunk: bytes)
    requires Tracks(a, s, r) && r.d + chunk <= s
    ensures Tracks(a, s, Took(a, r, chunk))
  {
    hide StartOf, Moves;
    var d := r.d + chunk;
    var b := StartOf(d);
    assert d == s[..|d|] && r.d == s[..|r.d|] && d[..b] == s[..b];
    if r.start != 0 && b != r.start {
      StartGrows(s, |r.d|, |d|);
      MovesOnce(s, r.start, b, 0);
      assert !Stale(a, s, r) by {
        if Stale(a, s, r) {
          var p: nat :| Moves(s, p, r.start) && LeftBy(a, s, r, p);
          MovesOnce(s, r.start, b, p);
        }
      }
      if a.chunked(s[..b]) { assert LeftBy(a, s, Took(a, r, chunk), r.start); }
    }
  }

  /** A reader that stops before the CRLFCRLF has arrived is misled. */
  lemma EarlyMisled(a: Answers, s: bytes, r: Reader)
    requires Tracks(a, s, r) && Full(r) && r.start != StartOf(s)
    ensures Misled(a, s)
  {
    hide StartOf, Moves;
    assert r.d == s[..|r.d|];
    StartOfPart(s, |r.d|);
    var q := StartOf(s);
    MovesOnce(s, r.start, q, 0);
    if Stale(a, s, r) {
      var p: nat :| Moves(s, p, r.start) && LeftBy(a, s, r, p);
      MovesOnce(s, r.start, q, p);
    }
    assert Misleads(a, s, r.start, q);
  }

  /** A length left behind does no harm only if just that many bytes follow. */
  lemma StaleHarmless(a: Answers, s: bytes, r: Reader)
    requires Stale(a, s, r) && r.len.Some? && !Misled(a, s)
    ensures r.start <= |s| && a.chunked(s[..r.start]) && |s| == r.start + r.len.value
  {
    hide Moves;
    var p: nat :| Moves(s, p, r.start) && LeftBy(a, s, r, p);
    assert !Misleads(a, s, p, r.start);
  }

  /** Unless it is misled, a reader that stops has what the whole response says. */
  lemma StopsRight(a: Answers, s: bytes, r: Reader)
    requires Tracks(a, s, r) && Full(r) && !Misled(a, s)
    ensures Parsed(a, r.d, r.start) == Direct(a, s)
  {
    hide StartOf, Misled, Stale;
    var b, n := r.start, r.len.value;
    if b != StartOf(s) { EarlyMisled(a, s, r); }
    assert r.d[..b] == s[..b];
    if r.len == Declared(a, s[..b]) {
      assert r.d[b..b + n] == s[b..b + n];
    } else {
      StaleHarmless(a, s, r);
      assert r.d == s;
    }
  }

  /** And one that runs out of input says so exactly when the response is cut off. */
  lemma EndsRight(a: Answers, s: bytes, r: Reader)
    requires Tracks(a, s, r) && !Full(r) && r.d == s && !Misled(a, s)
    ensures (if r.len.Some? then Truncated else Parsed(a, s, r.start)) == Direct(a, s)
  {
    hide StartOf, Misled, Stale;
    if r.start != 0 && r.len.Some? && r.len != Declared(a, s[..r.start]) {
      StaleHarmless(a, s, r);
    } else if r.start != 0 && r.len.None? && Stale(a, s, r) {
      StaleChunked(a, s, r);
    }
  }

  lemma StaleChunked(a: Answers, s: bytes, r: Reader)
    requires Stale(a, s, r)
    ensures r.start <= |s| && a.chunked(s[..r.start])
  {
    hide Moves;
  }

  lemma {:induction false} RunDirect(a: Answers, s: bytes, chunks: seq<bytes>, r: Reader)
    requires Tracks(a, s, r) && !Full(r) && r.d + Flat(chunks) == s && !Misled(a, s)
    ensures Run(a, chunks, r) == Direct(a, s)
    decreases |chunks|
  {
    hide StartOf, Misled, Direct, Parsed, Tracks;
    TracksBound(a, s, r);
    if chunks == [] {
      assert r.d == s;
      EndsRight(a, s, r);
    } else {
      var r' := Took(a, r, chunks[0]);
      assert r.d + chunks[0] + Flat(chunks[1..]) == s;
      TookTracks(a, s, r, chunks[0]);
      if Full(r') {
        StopsRight(a, s, r');
      } else {
        RunDirect(a, s, chunks[1..], r');
      }
    }
  }

  lemma TracksBound(a: Answers, s: bytes, r: Reader)
    requires Tracks(a, s, r)
    ensures r.start <= |r.d|
  {
    hide Stale;
  }

  // ---------------------------------------------------------------- and what the parser is given

  /** The buffer handed to the parser. */
  function Buffer(a: Answers, chunks: seq<bytes>, r: Reader): bytes
    decreases |chunks|
  {
    if chunks == [] then r.d
    else
      var r' := Took(a, r, chunks[0]);
      if Full(r') then r'.d else Buffer(a, chunks[1..], r')
  }

  lemma {:induction false} BufferFramed(a: Answers, s: bytes, chunks: seq<bytes>, r: Reader)
    requires Tracks(a, s, r) && !Full(r) && r.d + Flat(chunks) == s && !Misled(a, s)
    ensures Buffer(a, chunks, r) <= s && StartOf(Buffer(a, chunks, r)) == StartOf(s)
    decreases |chunks|
  {
    hide StartOf, Misled, Tracks;
    if chunks == [] {
      assert r.d == s;
    } else {
      var r' := Took(a, r, chunks[0]);
      assert r.d + chunks[0] + Flat(chunks[1..]) == s;
      TookTracks(a, s, r, chunks[0]);
      if Full(r') {
        FramedThere(a, s, r');
      } else {
        BufferFramed(a, s, chunks[1..], r');
      }
    }
  }

  lemma FramedThere(a: Answers, s: bytes, r: Reader)
    requires Tracks(a, s, r) && Full(r) && !Misled(a, s)
    ensures r.d <= s && StartOf(r.d) == StartOf(s)
  {
    hide StartOf, Misled, Stale;
    if r.start != StartOf(s) { EarlyMisled(a, s, r); }
  }

  lemma FrameStart(d: bytes)
    ensures Frame(d) == if StartOf(d) == 0 then None else Some(StartOf(d))
  {
    hide FindFrom;
  }

  lemma NulBehind(d: bytes, s: bytes, n: nat)
    requires d <= s && n <= |d| && n <= Nul(s)
    ensures n <= Nul(d)
  {
    hide Nul;
    assert forall i :: 0 <= i < |d| ==> d[i] == s[i];
  }

  /** However a response arrives that neither misleads the reader nor has a NUL in front of its body,
      the parser frames the buffer it is given as the reader did, and as the whole response is framed. */
  lemma ParserFramesAlike(a: Answers, s: bytes, chunks: seq<bytes>)
    requires Flat(chunks) == s && !Misled(a, s) && StartOf(s) <= Nul(s)
    ensures HdrBody(Buffer(a, chunks, EMPTY)) == Frame(s)
  {
    hide Misled, Flat, Frame, HdrBody, Nul, Buffer;
    StartTracks(a, s);
    assert EMPTY.d + Flat(chunks) == s;
    BufferFramed(a, s, chunks, EMPTY);
    var d := Buffer(a, chunks, EMPTY);
    FrameStart(d);
    FrameStart(s);
    NulBehind(d, s, StartOf(s));
    FramesAgreeIff(d);
  }

  // ---------------------------------------------------------------- when it does

  /** Arrivals that make the reader answer something else. */
  function Arrival(a: Answers, s: bytes, p: nat, q: nat): seq<bytes>
    requires p <= q <= |s| && Declared(a, s[..p]).Some?
  {
    var n := Declared(a, s[..p]).value;
    if p + n < q then [s[..p + n], s[p + n..]]
    else if |s| < q + n then [s[..p], s[p..]]
    else [s[..p], s[p..q + n], s[q + n..]]
  }

  lemma ArrivalIsAll(a: Answers, s: bytes, p: nat, q: nat)
    requires p <= q <= |s| && Declared(a, s[..p]).Some?
    ensures Flat(Arrival(a, s, p, q)) == s
  {
    hide Flat;
    var n := Declared(a, s[..p]).value;
    if p + n < q {
      FlatTwo(s[..p + n], s[p + n..]);
    } else if |s| < q + n {
      FlatTwo(s[..p], s[p..]);
    } else {
      FlatThree(s[..p], s[p..q + n], s[q + n..]);
    }
  }

  lemma FlatTwo(x: bytes, y: bytes)
    ensures Flat([x, y]) == x + y
  {
    assert [x, y][1..] == [y];
    assert Flat([y]) == y + Flat([y][1..]) == y;
  }

  lemma FlatThree(x: bytes, y: bytes, z: bytes)
    ensures Flat([x, y, z]) == x + (y + z)
  {
    assert [x, y, z][1..] == [y, z];
    FlatTwo(y, z);
  }

  /** The first read up to the LFLF or some way behind it. */
  lemma FirstRead(a: Answers, s: bytes, p: nat, q: nat, m: nat)
    requires Moves(s, p, q) && p <= m < q && Declared(a, s[..p]).Some?
    ensures Took(a, EMPTY, s[..m]) == Reader(s[..m], p, Declared(a, s[..p]))
  {
    hide StartOf;
    MovesOnce(s, p, q, 0);
    hide Moves;
    assert [] + s[..m] == s[..m] && s[..m][..p] == s[..p];
  }

  /** A read that completes the CRLFCRLF of a head with chunks. */
  lemma SecondRead(a: Answers, s: bytes, p: nat, q: nat, m: nat, len: Option<nat>)
    requires Moves(s, p, q) && q <= m <= |s| && a.chunked(s[..q])
    ensures Took(a, Reader(s[..p], p, len), s[p..m]) == Reader(s[..m], q, len)
  {
    hide StartOf;
    StartCut(s, m);
    hide Moves;
    assert s[..p] + s[p..m] == s[..m] && s[..m][..q] == s[..q];
  }

  /** The body of the head up to the LFLF is complete: the reader stops there. */
  lemma StopsEarly(a: Answers, s: bytes, p: nat, q: nat, n: nat)
    requires Moves(s, p, q) && Declared(a, s[..p]) == Some(n) && p + n < q
    ensures Run(a, [s[..p + n], s[p + n..]], EMPTY) != Direct(a, s)
  {
    hide StartOf, Took;
    MovesOnce(s, p, q, 0);
    hide Moves;
    FirstRead(a, s, p, q, p + n);
    assert |s[..p + n][..p]| == p && |s[..q]| == q;
  }

  /** The length of the head up to the LFLF outlives it and cuts chunks short or misses some. */
  lemma CountsChunks(a: Answers, s: bytes, p: nat, q: nat, n: nat, chunks: seq<bytes>)
    requires Moves(s, p, q) && Declared(a, s[..p]) == Some(n) && q <= p + n && a.chunked(s[..q]) && |s| != q + n
    requires chunks == if |s| < q + n then [s[..p], s[p..]] else [s[..p], s[p..q + n], s[q + n..]]
    ensures Run(a, chunks, EMPTY) != Direct(a, s)
  {
    hide StartOf, Took, Run;
    MovesOnce(s, p, q, 0);
    hide Moves;
    FirstRead(a, s, p, q, p);
    var m := if |s| < q + n then |s| else q + n;
    SecondRead(a, s, p, q, m, Some(n));
    assert s[p..] == s[p..|s|] && s[..m][..q] == s[..q];
    RunTwice(a, chunks, Reader(s[..p], p, Some(n)), Reader(s[..m], q, Some(n)));
  }

  lemma MisledDiffers(a: Answers, s: bytes, p: nat, q: nat)
    requires Moves(s, p, q) && Misleads(a, s, p, q)
    ensures Flat(Arrival(a, s, p, q)) == s && Run(a, Arrival(a, s, p, q), EMPTY) != Direct(a, s)
  {
    hide Flat, Run, Direct, Moves;
    ArrivalIsAll(a, s, p, q);
    var n := Declared(a, s[..p]).value;
    if p + n < q {
      StopsEarly(a, s, p, q, n);
    } else {
      CountsChunks(a, s, p, q, n, Arrival(a, s, p, q));
    }
  }

  lemma RunTwice(a: Answers, chunks: seq<bytes>, r: Reader, r': Reader)
    requires |chunks| >= 2 && r == Took(a, EMPTY, chunks[0]) && r' == Took(a, r, chunks[1])
    requires !Full(r) && r.start <= |r.d| && r'.start <= |r'.d|
    ensures Full(r') ==> Run(a, chunks, EMPTY) == Parsed(a, r'.d, r'.start)
    ensures !Full(r') && |chunks| == 2 ==>
              Run(a, chunks, EMPTY) == if r'.len.Some? then Truncated else Parsed(a, r'.d, r'.start)
  {
    hide Took, Parsed;
    assert Run(a, chunks, EMPTY) == Run(a, chunks[1..], r);
    assert chunks[1..][0] == chunks[1];
    if |chunks| == 2 { assert Run(a, chunks[1..][1..], r') == Run(a, [], r'); }
  }

  /** However a response arrives, the reader makes of it what it is as a whole, if and only if it is
      not one of those with an early LFLF that mislead it. */
  lemma ArrivalIff(a: Answers, s: bytes)
    ensures (forall chunks :: Flat(chunks) == s ==> Run(a, chunks, EMPTY) == Direct(a, s)) <==> !Misled(a, s)
  {
    hide StartOf, Flat, Run, Direct, Moves, Misleads;
    if Misled(a, s) {
      var p: nat, q: nat :| Moves(s, p, q) && Misleads(a, s, p, q);
      MisledDiffers(a, s, p, q);
    } else {
      forall chunks | Flat(chunks) == s ensures Run(a, chunks, EMPTY) == Direct(a, s) {
        StartTracks(a, s);
        assert EMPTY.d + Flat(chunks) == s;
        RunDirect(a, s, chunks, EMPTY);
      }
    }
  }

  lemma StartTracks(a: Answers, s: bytes)
    ensures Tracks(a, s, EMPTY)
  {
    assert StartOf([]) == 0;
  }

  // ---------------------------------------------------------------- responses that mislead

  /** The program's lookup of Content-Length, with any lookup of Transfer-Encoding. */
  function Lookups(chunked: bytes -> bool): Answers {
    Answers(chunked, (h: bytes) => ContentLength.Length(h))
  }

  /** A status line and one field with bare line feeds and a blank line, then `y`, a CRLFCRLF and `z`. */
  function Mixed(status: bytes, field: bytes, y: bytes, z: bytes): bytes {
    status + ([LF] + (field + (LF2 + (y + (CRLF2 + z)))))
  }

  /** Where line feeds and carriage returns stand in it. */
  lemma MixedParts(status: bytes, field: bytes, y: bytes, z: bytes)
    requires HeadRewrite.Clean(status) && HeadRewrite.Clean(field) && CR !in y
    ensures var s, l := Mixed(status, field, y, z), |status| + 1 + |field|;
            var c := l + 2 + |y|;
            && c + 4 <= |s| && s[..l + 2] == status + ([LF] + (field + LF2)) && |s| == c + 4 + |z|
            && s[l..l + 2] == LF2 && s[c..c + 4] == CRLF2
            && (forall i :: 0 <= i < l && s[i] == LF ==> s[i + 1] != LF)
            && (forall i :: 0 <= i < c ==> s[i] != CR)
  {
    var s, l := Mixed(status, field, y, z), |status| + 1 + |field|;
    var c := l + 2 + |y|;
    assert s[|status|] == LF && s[l] == LF && s[l + 1] == LF;
    assert forall i :: 0 <= i < |status| ==> s[i] == status[i];
    assert forall i :: |status| < i < l ==> s[i] == field[i - |status| - 1];
    assert forall i :: l + 2 <= i < c ==> s[i] == y[i - l - 2];
  }

  lemma OccursStarts(h: bytes, needle: bytes, i: nat)
    requires |needle| >= 2
    ensures Occurs(h, needle, i) ==> i + 1 < |h| && h[i] == needle[0] && h[i + 1] == needle[1]
  {
    if Occurs(h, needle, i) {
      assert h[i..i + |needle|][0] == h[i] && h[i..i + |needle|][1] == h[i + 1];
    }
  }

  lemma MixedMoves(s: bytes, l: nat, c: nat)
    requires l + 2 <= c && c + 4 <= |s| && s[l..l + 2] == LF2 && s[c..c + 4] == CRLF2
    requires forall i :: 0 <= i < l && s[i] == LF ==> s[i + 1] != LF
    requires forall i :: 0 <= i < c ==> s[i] != CR
    ensures Moves(s, l + 2, c + 4)
  {
    hide FindFrom;
    forall i: nat | i < l ensures !Occurs(s, LF2, i) {
      OccursStarts(s, LF2, i);
    }
    forall i: nat | i < c ensures !Occurs(s, CRLF2, i) {
      OccursStarts(s, CRLF2, i);
    }
    assert Occurs(s, LF2, l) && Occurs(s, CRLF2, c);
    hide Occurs;
    FindIs(s, LF2);
    FindIs(s, CRLF2);
    assert First(s, LF2, l) && First(s, CRLF2, c);
  }

  /** Every such response misleads the reader if the field declares a body that is complete before the
      CRLFCRLF is, or if the whole head says `chunked` and another number of bytes follows. */
  lemma MixedMisleads(chunked: bytes -> bool, status: bytes, field: bytes, y: bytes, z: bytes, n: nat)
    requires HeadRewrite.Clean(status) && HeadRewrite.Clean(field) && CR !in y
    requires !ContentLength.Declares(status) && ContentLength.Declares(field)
    requires ContentLength.LengthOf(field) == Some(n)
    requires !chunked(status + ([LF] + (field + LF2)))
    requires || n < |y| + 4
             || (chunked(Mixed(status, field, y, z)[..|status| + |field| + |y| + 7]) && |z| != n)
    ensures Misled(Lookups(chunked), Mixed(status, field, y, z))
  {
    hide Mixed, Moves, ContentLength.Declares, ContentLength.LengthOf, HeadRewrite.Clean, ContentLength.Length;
    var s, l := Mixed(status, field, y, z), |status| + 1 + |field|;
    MixedParts(status, field, y, z);
    MixedMoves(s, l, l + 2 + |y|);
    ContentLength.TwoLineHead(status, field, LF2);
    MisledBy(chunked, s, l + 2, l + |y| + 6, n);
  }

  lemma MisledBy(chunked: bytes -> bool, s: bytes, p: nat, q: nat, n: nat)
    requires Moves(s, p, q) && p < q <= |s| && !chunked(s[..p]) && ContentLength.Length(s[..p]) == Some(n)
    requires p + n < q || (chunked(s[..q]) && |s| != q + n)
    ensures Misled(Lookups(chunked), s)
  {
    hide Moves, ContentLength.Length;
    assert Misleads(Lookups(chunked), s, p, q);
  }

  /** `HTTP/1.1 200`. */
  const STATUS: bytes := [72, 84, 84, 80, 47, 49, 46, 49, 32, 50, 48, 48]

  /** `Content-Length: ` and `Transfer-Encoding: chunked`. */
  const LENGTH: bytes := [67, 111, 110, 116, 101, 110, 116, 45, 76, 101, 110, 103, 116, 104, 58, 32]
  const CHUNKED: bytes := [84, 114, 97, 110, 115, 102, 101, 114, 45, 69, 110, 99, 111, 100, 105, 110, 103, 58,
                           32, 99, 104, 117, 110, 107, 101, 100]

  /** `0` and an empty line: no chunks. */
  const NO_CHUNKS: bytes := [48, CR, LF, CR, LF]

  lemma Witness(v: bytes, n: nat)
    requires (v == [48] && n == 0) || (v == [57, 57] && n == 99)
    ensures HeadRewrite.Clean(STATUS) && !ContentLength.Declares(STATUS)
    ensures HeadRewrite.Clean(LENGTH + v) && ContentLength.Declares(LENGTH + v)
    ensures ContentLength.LengthOf(LENGTH + v) == Some(n)
  {
    hide ContentLength.Digits;
    var line := LENGTH + v;
    assert forall k :: 0 <= k < 16 ==> line[k] == LENGTH[k];
    assert HeadRewrite.Value(line, 15) == HeadRewrite.Value(line, 16) == 16;
    assert line[16..] == v;
    ValueIs(v, n);
  }

  lemma ValueIs(v: bytes, n: nat)
    requires (v == [48] && n == 0) || (v == [57, 57] && n == 99)
    ensures ContentLength.Digits(v, 0) == Some(n)
  {
    if n == 99 {
      assert v[1..] == [57] && [57][1..] == [];
      assert ContentLength.Digits([57], 9) == ContentLength.Digits([], 99);
    }
  }

  /** A declared empty body: a reader that gets the first part alone stops there. */
  lemma EmptyBodyMisleads(chunked: bytes -> bool)
    requires !chunked(STATUS + ([LF] + ((LENGTH + [48]) + LF2)))
    ensures Misled(Lookups(chunked), Mixed(STATUS, LENGTH + [48], [], []))
  {
    hide ContentLength.Declares, ContentLength.LengthOf;
    Witness([48], 0);
    MixedMisleads(chunked, STATUS, LENGTH + [48], [], [], 0);
  }

  /** A length that outlives its head: the reader goes on to wait for 99 bytes of chunks. */
  lemma StaleLengthMisleads(chunked: bytes -> bool)
    requires !chunked(STATUS + ([LF] + ((LENGTH + [57, 57]) + LF2)))
    requires chunked(Mixed(STATUS, LENGTH + [57, 57], CHUNKED, NO_CHUNKS)[..63])
    ensures Misled(Lookups(chunked), Mixed(STATUS, LENGTH + [57, 57], CHUNKED, NO_CHUNKS))
  {
    hide ContentLength.Declares, ContentLength.LengthOf;
    Witness([57, 57], 99);
    MixedMisleads(chunked, STATUS, LENGTH + [57, 57], CHUNKED, NO_CHUNKS, 99);
  }

  // ---------------------------------------------------------------- the loop

  class Scanner {
    var resp: bytes
    var crlfHit: bool
    var lfHit: bool
    var crlfPos: nat
    var lfPos: nat
    var crlfProbe: nat
    var lfProbe: nat
    var bodyStart: nat
    var contentLen: Option<nat>
    ghost var crlfSpent: nat
    ghost var lfSpent: nat

    constructor ()
      ensures Valid() && View() == EMPTY
    {
      resp, crlfHit, lfHit, crlfPos, lfPos, crlfProbe, lfProbe := [], false, false, 0, 0, 0, 0;
      bodyStart, contentLen, crlfSpent, lfSpent := 0, None, 0, 0;
    }

    /** Once a CRLFCRLF is found nothing more is asked of the LFLF scan. */
    ghost predicate Valid()
      reads this
    {
      && Settled(resp, CRLF2, crlfHit, crlfPos, crlfProbe)
      && (!crlfHit ==> Settled(resp, LF2, lfHit, lfPos, lfProbe))
      && bodyStart == StartOf(resp)
      && crlfSpent <= (if crlfHit then |resp| else crlfProbe)
      && lfSpent <= (if crlfHit || lfHit then |resp| else lfProbe)
    }

    function View(): Reader
      reads this
    {
      Reader(resp, bodyStart, contentLen)
    }

    /** The two terminators are looked for in what one read has added. */
    method Scan(chunk: bytes)
      requires Valid()
      modifies this
      ensures resp == old(resp) + chunk && bodyStart == old(bodyStart) && contentLen == old(contentLen)
      ensures (old(crlfHit) ==> crlfHit) && (old(lfHit) ==> lfHit)
      ensures Settled(resp, CRLF2, crlfHit, crlfPos, crlfProbe)
      ensures !crlfHit ==> Settled(resp, LF2, lfHit, lfPos, lfProbe)
      ensures crlfSpent <= if crlfHit then |resp| else crlfProbe
      ensures lfSpent <= if crlfHit || lfHit then |resp| else lfProbe
    {
      hide Occurs, StartOf;
      ghost var was := resp;
      resp := resp + chunk;
      if !crlfHit {
        crlfHit, crlfPos, crlfProbe, crlfSpent :=
          Advance(was, chunk, resp, CRLF2, crlfHit, crlfPos, crlfProbe, crlfSpent);
        if !crlfHit {
          lfHit, lfPos, lfProbe, lfSpent := Advance(was, chunk, resp, LF2, lfHit, lfPos, lfProbe, lfSpent);
        }
      } else {
        FirstStays(was, chunk, CRLF2, crlfPos);
      }
    }

    /** One read; `done` says that the body is complete. */
    method Feed(a: Answers, chunk: bytes) returns (done: bool)
      requires Valid() && !Full(View())
      modifies this
      ensures Valid() && View() == Took(a, old(View()), chunk) && done == Full(View())
    {
      hide Settled, Frame;
      SettledFrame(resp, crlfHit, crlfPos, crlfProbe, lfHit, lfPos, lfProbe);
      Scan(chunk);
      SettledFrame(resp, crlfHit, crlfPos, crlfProbe, lfHit, lfPos, lfProbe);
      assert StartOf(resp) == if crlfHit then crlfPos + 4 else if lfHit then lfPos + 2 else 0;
      if crlfHit || lfHit {
        var want := if crlfHit then crlfPos + 4 else lfPos + 2;
        if want != bodyStart {
          bodyStart := want;
          if !a.chunked(resp[..bodyStart]) {
            contentLen := a.length(resp[..bodyStart]);
            if contentLen == Some(0) {
              return true;
            }
          }
        }
      }
      return contentLen.Some? && contentLen.value > 0 && |resp| - bodyStart >= contentLen.value;
    }
  }

  /** The loop answers as `Run`, and compares each needle at most once per offset. */
  method ReadResponse(a: Answers, chunks: seq<bytes>) returns (reply: Reply, ghost compared: nat)
    ensures reply == Run(a, chunks, EMPTY)
    ensures compared <= 2 * |Flat(chunks)|
  {
    hide Settled, StartOf, Parsed;
    var sc := new Scanner();
    var i := 0;
    while i < |chunks|
      invariant i <= |chunks| && fresh(sc) && sc.Valid() && !Full(sc.View())
      invariant sc.bodyStart <= |sc.resp| && Run(a, chunks, EMPTY) == Run(a, chunks[i..], sc.View())
      invariant |sc.resp| + |Flat(chunks[i..])| == |Flat(chunks)|
    {
      ghost var r := sc.View();
      assert chunks[i..][0] == chunks[i] && chunks[i..][1..] == chunks[i + 1..];
      var done := sc.Feed(a, chunks[i]);
      i := i + 1;
      SpentBound(sc);
      if done {
        return Parsed(a, sc.resp, sc.bodyStart), sc.crlfSpent + sc.lfSpent;
      }
    }
    SpentBound(sc);
    compared := sc.crlfSpent + sc.lfSpent;
    if sc.contentLen.Some? && sc.contentLen.value > 0 && |sc.resp| - sc.bodyStart < sc.contentLen.value {
      return Truncated, compared;
    }
    return Parsed(a, sc.resp, sc.bodyStart), compared;
  }

  lemma SpentBound(sc: Scanner)
    requires sc.Valid()
    ensures sc.crlfSpent <= |sc.resp| && sc.lfSpent <= |sc.resp| && sc.bodyStart <= |sc.resp|
  {
  }
}
