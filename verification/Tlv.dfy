/**
 Type-length-value framing of the control channel: the length byte counts its own two header
 bytes, so a value has at most 253 bytes.
 */
module Tlv {
  import opened Bytes

  const VLEN_MAX := 253

  datatype Tlv = Tlv(typ: byte, val: bytes)

  predicate Short(t: Tlv) {
    |t.val| <= VLEN_MAX
  }

  ghost predicate AllShort(ts: seq<Tlv>) {
    forall i :: 0 <= i < |ts| ==> Short(ts[i])
  }

  /** The bytes `tlv_put` appends. */
  function Encode(t: Tlv): bytes
    requires Short(t)
  {
    [t.typ, |t.val| + 2] + t.val
  }

  function EncodeAll(ts: seq<Tlv>): bytes
    requires AllShort(ts)
  {
    if ts == [] then [] else Encode(ts[0]) + EncodeAll(ts[1..])
  }

  /** The length byte of the first TLV is usable. */
  predicate Framed(d: bytes) {
    |d| >= 2 && 2 <= d[1] <= |d|
  }

  /** `parse_tlvs` with a callback that never stops: the list it is shown. */
  function Decode(d: bytes): Option<seq<Tlv>> {
    if d == [] then Some([])
    else if !Framed(d) then None
    else
      var rest := Decode(d[d[1]..]);
      if rest.None? then None else Some([Tlv(d[0], d[2..d[1]])] + rest.value)
  }

  lemma {:induction false} DecodeSound(d: bytes)
    ensures var r := Decode(d); r.Some? ==> AllShort(r.value) && EncodeAll(r.value) == d
    decreases |d|
  {
    if d != [] && Framed(d) {
      DecodeSound(d[d[1]..]);
      var rest := Decode(d[d[1]..]);
      if rest.Some? {
        var t := Tlv(d[0], d[2..d[1]]);
        assert Decode(d).value[1..] == rest.value;
        assert d == Encode(t) + d[d[1]..];
      }
    }
  }

  lemma {:induction false} DecodeComplete(ts: seq<Tlv>)
    requires AllShort(ts)
    ensures Decode(EncodeAll(ts)) == Some(ts)
    decreases |ts|
  {
    if ts != [] {
      var d, rest := EncodeAll(ts), EncodeAll(ts[1..]);
      DecodeComplete(ts[1..]);
      assert d == [ts[0].typ, |ts[0].val| + 2] + ts[0].val + rest;
      assert d[d[1]..] == rest && d[2..d[1]] == ts[0].val;
      assert [ts[0]] + ts[1..] == ts;
    }
  }

  /** A frame is accepted exactly when it is a concatenation of encodings, and that list is unique. */
  lemma DecodeIff(d: bytes, ts: seq<Tlv>)
    ensures Decode(d) == Some(ts) <==> AllShort(ts) && d == EncodeAll(ts)
  {
    DecodeSound(d);
    if AllShort(ts) { DecodeComplete(ts); }
  }

  // ---------------------------------------------------------------- walking with a callback

  /** `parse_tlvs` over a callback's state: the walk stops, without an error, when the callback
      says so. */
  datatype Walk<S> = Walk(ok: bool, state: S)

  function Visit<S>(d: bytes, s: S, step: (S, Tlv) -> (S, bool)): Walk<S>
    decreases |d|
  {
    if |d| < 2 then Walk(d == [], s)
    else if !Framed(d) then Walk(false, s)
    else
      var (s', go) := step(s, Tlv(d[0], d[2..d[1]]));
      if go then Visit(d[d[1]..], s', step) else Walk(true, s')
  }

  /** The callback shown a list, until it stops: the final state, and whether it saw everything. */
  function Fold<S>(ts: seq<Tlv>, s: S, step: (S, Tlv) -> (S, bool)): (S, bool) {
    if ts == [] then (s, true)
    else
      var (s', go) := step(s, ts[0]);
      if go then Fold(ts[1..], s', step) else (s', false)
  }

  /** The TLVs in front of the first malformed one. */
  function Prefix(d: bytes): seq<Tlv> {
    if !Framed(d) then [] else [Tlv(d[0], d[2..d[1]])] + Prefix(d[d[1]..])
  }

  /** A walk is the callback over the well-formed prefix; it fails exactly when the callback saw all
      of it and something malformed follows. */
  lemma {:induction false} VisitIs<S>(d: bytes, s: S, step: (S, Tlv) -> (S, bool))
    ensures var (end, all) := Fold(Prefix(d), s, step);
            Visit(d, s, step) == Walk(!all || Decode(d).Some?, end)
    decreases |d|
  {
    if Framed(d) {
      var (s', go) := step(s, Tlv(d[0], d[2..d[1]]));
      assert Prefix(d)[1..] == Prefix(d[d[1]..]);
      if go { VisitIs(d[d[1]..], s', step); }
    }
  }

  lemma {:induction false} PrefixIs(d: bytes)
    requires Decode(d).Some?
    ensures Prefix(d) == Decode(d).value
    decreases |d|
  {
    if d != [] { PrefixIs(d[d[1]..]); }
  }
}
