/**
 The end of an HTTP response head, found incrementally while the response is still being read, and
 from scratch when it is parsed.
 */
module HeaderScan {
  import opened Bytes

  const CRLF2: bytes := [CR, LF, CR, LF]
  const LF2: bytes := [LF, LF]

  // ---------------------------------------------------------------- searching

  predicate Occurs(h: bytes, needle: bytes, i: nat) {
    i + |needle| <= |h| && h[i..i + |needle|] == needle
  }

  ghost predicate Absent(h: bytes, needle: bytes) {
    forall i: nat :: !Occurs(h, needle, i)
  }

  /** `p` is the first place the needle occurs. */
  ghost predicate First(h: bytes, needle: bytes, p: nat) {
    Occurs(h, needle, p) && forall i: nat :: i < p ==> !Occurs(h, needle, i)
  }

  /** The first occurrence at `i` or later. */
  function FindFrom(h: bytes, needle: bytes, i: nat): (r: Option<nat>)
    requires needle != []
    ensures r.Some? ==> r.value >= i && Occurs(h, needle, r.value)
    ensures forall k: nat :: i <= k < (if r.Some? then r.value else |h|) ==> !Occurs(h, needle, k)
    decreases |h| - i
  {
    if i + |needle| > |h| then None
    else if Occurs(h, needle, i) then Some(i)
    else FindFrom(h, needle, i + 1)
  }

  /** The body's offset by the framing rule: behind the first CRLFCRLF, or without one behind the
      first LFLF. */
  function Frame(d: bytes): Option<nat> {
    var c := FindFrom(d, CRLF2, 0);
    if c.Some? then Some(c.value + 4)
    else
      var l := FindFrom(d, LF2, 0);
      if l.Some? then Some(l.value + 2) else None
  }

  /** `https_hdr_body`: the same rule on the C string the buffer starts with. */
  function HdrBody(d: bytes): Option<nat> {
    Frame(d[..Nul(d)])
  }

  lemma FindIs(h: bytes, needle: bytes)
    requires needle != []
    ensures FindFrom(h, needle, 0).None? <==> Absent(h, needle)
    ensures forall p: nat :: FindFrom(h, needle, 0) == Some(p) <==> First(h, needle, p)
  {
    hide Occurs;
    var r := FindFrom(h, needle, 0);
    if r.None? {
      forall i: nat ensures !Occurs(h, needle, i) {
        OccursInside(h, needle, i);
      }
    }
  }

  lemma OccursInside(h: bytes, needle: bytes, i: nat)
    requires needle != []
    ensures Occurs(h, needle, i) ==> i < |h|
  {
  }

  lemma OccursGrown(h: bytes, more: bytes, needle: bytes, i: nat)
    ensures i + |needle| <= |h| ==> (Occurs(h + more, needle, i) <==> Occurs(h, needle, i))
  {
    if i + |needle| <= |h| {
      assert (h + more)[i..i + |needle|] == h[i..i + |needle|];
    }
  }

  /** A hit is permanent: the first occurrence stays the first when the buffer grows. */
  lemma FirstStays(h: bytes, more: bytes, needle: bytes, p: nat)
    requires First(h, needle, p)
    ensures First(h + more, needle, p)
  {
    hide Occurs;
    OccursBound(h, needle, p);
    forall i: nat | i <= p ensures Occurs(h + more, needle, i) <==> Occurs(h, needle, i) {
      OccursGrown(h, more, needle, i);
    }
  }

  lemma OccursBound(h: bytes, needle: bytes, i: nat)
    ensures Occurs(h, needle, i) ==> i + |needle| <= |h|
  {
  }

  /** After a miss, only the last bytes can still start a match. */
  lemma MissResumes(h: bytes, more: bytes, needle: bytes, probe: nat)
    requires needle != [] && Absent(h, needle)
    requires probe == 0 || probe + |needle| <= |h| + 1
    ensures forall i: nat :: i < probe ==> !Occurs(h + more, needle, i)
  {
    hide Occurs;
    forall i: nat | i < probe ensures !Occurs(h + more, needle, i) {
      OccursGrown(h, more, needle, i);
    }
  }

  // ---------------------------------------------------------------- the two framings

  lemma FindCut(d: bytes, n: nat, needle: bytes)
    requires needle != [] && n <= |d|
    ensures var whole, cut := FindFrom(d, needle, 0), FindFrom(d[..n], needle, 0);
            cut == if whole.Some? && whole.value + |needle| <= n then whole else None
  {
    hide Occurs, FindFrom;
    assert d == d[..n] + d[n..];
    FindIs(d, needle);
    FindIs(d[..n], needle);
    var whole, cut := FindFrom(d, needle, 0), FindFrom(d[..n], needle, 0);
    if cut.Some? {
      FirstStays(d[..n], d[n..], needle, cut.value);
      OccursBound(d[..n], needle, cut.value);
    } else if whole.Some? {
      OccursGrown(d[..n], d[n..], needle, whole.value);
    }
  }

  /** The reader and the parser frame a response alike exactly when no NUL stands in front of the
      body; in particular on every NUL-free response. */
  lemma FramesAgreeIff(d: bytes)
    ensures HdrBody(d) == Frame(d) <==> Frame(d).None? || Frame(d).value <= Nul(d)
    ensures (forall i :: 0 <= i < |d| ==> d[i] != 0) ==> HdrBody(d) == Frame(d)
  {
    hide FindFrom, Occurs, Nul;
    FindCut(d, Nul(d), CRLF2);
    FindCut(d, Nul(d), LF2);
    if forall i :: 0 <= i < |d| ==> d[i] != 0 {
      assert d[..Nul(d)] == d;
    }
  }

  /** They do differ: behind any first line, a NUL in front of the terminator hides it from the parser
      alone. */
  lemma NulHidesFrame(line: bytes, d: bytes)
    requires (forall i :: 0 <= i < |line| ==> line[i] !in {0, CR, LF}) && d == line + ([0] + CRLF2)
    ensures Frame(d) == Some(|line| + 5) && HdrBody(d) == None
  {
    hide FindFrom;
    var n := |line|;
    assert forall i :: 0 <= i < n ==> d[i] == line[i];
    assert d[n] == 0 && d[n + 1..n + 5] == CRLF2;
    forall i: nat | i <= n ensures !Occurs(d, CRLF2, i) {
      if i + 4 <= |d| { assert d[i..i + 4][0] == d[i]; }
    }
    assert First(d, CRLF2, n + 1);
    FindIs(d, CRLF2);
    var cut := d[..Nul(d)];
    assert cut == line;
    forall i: nat ensures !Occurs(cut, CRLF2, i) && !Occurs(cut, LF2, i) {
      if i + 2 <= |cut| { assert cut[i..i + 2][0] == cut[i]; }
      if i + 4 <= |cut| { assert cut[i..i + 4][0] == cut[i]; }
    }
    FindIs(cut, CRLF2);
    FindIs(cut, LF2);
  }

  // ---------------------------------------------------------------- the incremental scan

  /** `sbuf_find` in the buffer from `probe` on; `tried` counts the offsets compared. */
  method Search(d: bytes, probe: nat, needle: bytes) returns (r: Option<nat>, ghost tried: nat)
    requires needle != [] && probe <= |d|
    ensures r.None? ==> forall i: nat :: i >= probe ==> !Occurs(d, needle, i)
    ensures r.Some? ==> r.value >= probe && Occurs(d, needle, r.value)
    ensures r.Some? ==> forall i: nat :: probe <= i < r.value ==> !Occurs(d, needle, i)
    ensures tried <= if |d| - probe < |needle| then 0 else |d| - probe - |needle| + 1
  {
    tried := 0;
    var i := probe;
    while i + |needle| <= |d|
      invariant probe <= i <= |d| && tried == i - probe
      invariant i > probe ==> i + |needle| <= |d| + 1
      invariant forall k: nat :: probe <= k < i ==> !Occurs(d, needle, k)
    {
      tried := tried + 1;
      if d[i..i + |needle|] == needle {
        return Some(i), tried;
      }
      i := i + 1;
    }
    r := None;
  }

  /** What a needle's scan has settled: its first place once hit, and otherwise that it is absent
      and where a match may still start. */
  ghost predicate Settled(d: bytes, needle: bytes, hit: bool, pos: nat, probe: nat) {
    if hit then First(d, needle, pos)
    else Absent(d, needle) && probe <= |d| && (probe == 0 || probe + |needle| <= |d| + 1)
  }

  /** One needle's turn after a read that appended `more`: what was found stays found, what was not
      is looked for only where it may newly begin, and no offset is compared twice. */
  method Advance(ghost was: bytes, ghost more: bytes, d: bytes, needle: bytes, hit: bool, pos: nat, probe: nat,
                 ghost spent: nat)
    returns (hit': bool, pos': nat, probe': nat, ghost spent': nat)
    requires needle != [] && d == was + more && Settled(was, needle, hit, pos, probe)
    requires spent <= if hit then |was| else probe
    ensures Settled(d, needle, hit', pos', probe')
    ensures spent' <= if hit' then |d| else probe'
    ensures hit ==> hit' && pos' == pos
  {
    hide Occurs;
    hit', pos', probe', spent' := hit, pos, probe, spent;
    if hit {
      FirstStays(was, more, needle, pos);
    } else {
      MissResumes(was, more, needle, probe);
      var r, tried := Search(d, probe, needle);
      spent' := spent + tried;
      if r.Some? {
        hit', pos' := true, r.value;
      } else if |d| >= |needle| {
        probe' := |d| - (|needle| - 1);
      }
    }
  }

  /** What the scan has settled is the frame of the whole buffer. */
  lemma SettledFrame(d: bytes, crlfHit: bool, crlfPos: nat, crlfProbe: nat, lfHit: bool, lfPos: nat, lfProbe: nat)
    requires Settled(d, CRLF2, crlfHit, crlfPos, crlfProbe)
    requires !crlfHit ==> Settled(d, LF2, lfHit, lfPos, lfProbe)
    ensures Frame(d) == if crlfHit then Some(crlfPos + 4) else if lfHit then Some(lfPos + 2) else None
  {
    hide Occurs, FindFrom;
    FindIs(d, CRLF2);
    FindIs(d, LF2);
  }
}
