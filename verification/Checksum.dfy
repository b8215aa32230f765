/**
 The Internet checksum (section 1 of RFC 1071) as computed for TCP and UDP segments: 32-bit
 accumulation of big-endian words, end-around folding, complement.
 */
module Checksum {
  import opened Bytes

  const WRAP := 0x1_0000_0000
  const ONES := 0xFFFF

  // ---------------------------------------------------------------- sums

  function Word(hi: byte, lo: byte): (w: u16)
    ensures w / 256 == hi && w % 256 == lo
  {
    var h: int := hi;
    h * 256 + lo
  }

  /** The sum of the big-endian words, an odd last byte padded with zero, in unbounded arithmetic. */
  function Sum(p: bytes): nat {
    if p == [] then 0
    else if |p| == 1 then Word(p[0], 0)
    else Word(p[0], p[1]) + Sum(p[2..])
  }

  /** End-around carries until 16 bits are left. */
  function Fold(s: nat): (r: u16)
    ensures r <= s
  {
    if s < 0x10000 then s else Fold(s % 0x10000 + s / 0x10000)
  }

  function Complement(s: nat): u16 {
    ONES - Fold(s)
  }

  // ---------------------------------------------------------------- folding is arithmetic modulo 65535

  /** Folding keeps the residue modulo 65535, and only an empty sum folds to zero. */
  lemma {:induction false} FoldIs(s: nat)
    ensures Fold(s) % ONES == s % ONES
    ensures Fold(s) == 0 <==> s == 0
    decreases s
  {
    if s >= 0x10000 {
      var q, r := s / 0x10000, s % 0x10000;
      assert s == (r + q) + q * ONES;
      Shifted(r + q, q);
      FoldIs(r + q);
    }
  }

  lemma Shifted(a: nat, q: nat)
    ensures (a + q * ONES) % ONES == a % ONES
  {
    var d := a / ONES;
    assert a + q * ONES == a % ONES + (d + q) * ONES;
    Residue(a + q * ONES, d + q, a % ONES);
  }

  lemma Residue(n: nat, q: nat, r: nat)
    requires n == r + q * ONES && r < ONES
    ensures n % ONES == r
  {
  }

  /** A receiver accepts exactly the non-empty sums that are multiples of 65535. */
  lemma AcceptsIff(s: nat)
    ensures Complement(s) == 0 <==> s > 0 && s % ONES == 0
  {
    hide Fold;
    FoldIs(s);
  }

  // ---------------------------------------------------------------- sums of pieces

  /** Accumulating piece by piece over an even prefix is one pass. */
  lemma {:induction false} SumChains(a: bytes, b: bytes)
    requires |a| % 2 == 0
    ensures Sum(a + b) == Sum(a) + Sum(b)
    decreases |a|
  {
    if a == [] {
      assert a + b == b;
    } else {
      assert (a + b)[2..] == a[2..] + b;
      SumChains(a[2..], b);
    }
  }

  /** The bytes at even and at odd places, added up. */
  function Evens(b: bytes): nat {
    if b == [] then 0 else b[0] + Odds(b[1..])
  }

  function Odds(b: bytes): nat {
    if b == [] then 0 else Evens(b[1..])
  }

  lemma {:induction false} SumSplit(b: bytes)
    ensures Sum(b) == 256 * Evens(b) + Odds(b)
    decreases |b|
  {
    if |b| == 1 {
      assert b[1..] == [];
    } else if |b| > 1 {
      assert b[1..][1..] == b[2..];
      SumSplit(b[2..]);
    }
  }

  lemma SumAfterOdd(a: bytes, b: bytes)
    requires |a| % 2 == 1
    ensures Sum(a + b) == Sum(a) + Evens(b) + 256 * Odds(b)
  {
    var k := |a| - 1;
    var rest := [a[k]] + b;
    assert a + b == a[..k] + rest && a == a[..k] + [a[k]];
    SumChains(a[..k], rest);
    SumChains(a[..k], [a[k]]);
    SumSplit(rest);
    assert rest[1..] == b;
  }

  /** Over an odd prefix the chaining agrees with one pass if and only if the rest weighs the same at
      its even as at its odd places. */
  lemma OddPrefixChainsIff(a: bytes, b: bytes)
    requires |a| % 2 == 1
    ensures Sum(a + b) == Sum(a) + Sum(b) <==> Evens(b) == Odds(b)
  {
    SumAfterOdd(a, b);
    SumSplit(b);
  }

  lemma {:induction false} SumBound(p: bytes)
    ensures Sum(p) <= ONES * ((|p| + 1) / 2)
    decreases |p|
  {
    if |p| >= 2 { SumBound(p[2..]); }
  }

  // ---------------------------------------------------------------- the 32-bit accumulator

  function Mod32(n: nat): u32 {
    n % WRAP
  }

  lemma Fits(n: nat)
    requires n < WRAP
    ensures Mod32(n) == n
  {
  }

  lemma WrapAdd(a: nat, b: nat)
    ensures Mod32(Mod32(a) + b) == Mod32(a + b)
  {
    var d := a / WRAP;
    assert a + b == a % WRAP + b + d * WRAP;
    var m := a % WRAP + b;
    assert m == m % WRAP + m / WRAP * WRAP;
  }

  /** `ip_csum_accum`, wrap-around and all. */
  method Accumulate(start: u32, p: bytes) returns (sum: u32)
    ensures sum == Mod32(start + Sum(p))
    ensures start + Sum(p) < WRAP ==> sum == start + Sum(p)
  {
    hide Word, Mod32;
    Fits(start);
    if start + Sum(p) < WRAP { Fits(start + Sum(p)); }
    sum := start;
    var q := 0;
    ghost var total: nat := start;
    assert p[0..] == p;
    while |p| - q >= 2
      invariant q <= |p| && sum == Mod32(total) && total + Sum(p[q..]) == start + Sum(p)
    {
      var w: nat := Word(p[q], p[q + 1]);
      assert p[q..][2..] == p[q + 2..];
      WrapAdd(total, w);
      sum := Mod32(sum + w);
      total := total + w;
      q := q + 2;
    }
    if |p| - q == 1 {
      var w: nat := Word(p[q], 0);
      WrapAdd(total, w);
      sum := Mod32(sum + w);
    }
  }

  /** `ip_csum_fold`. */
  method FoldDown(start: u32) returns (c: u16)
    ensures c == Complement(start)
  {
    var sum: nat := start;
    while sum >= 0x10000
      invariant Fold(sum) == Fold(start)
      decreases sum
    {
      sum := sum % 0x10000 + sum / 0x10000;
    }
    c := ONES - sum;
  }

  // ---------------------------------------------------------------- pseudo-headers

  function Be16(n: nat): (b: bytes)
    requires n < 0x10000
    ensures |b| == 2
  {
    [n / 256, n % 256]
  }

  const PROTO_TCP: byte := 6
  const PROTO_UDP: byte := 17

  /** The IPv4 pseudo-header of section 3.1 of RFC 9293 and of RFC 768. */
  function Pseudo4(sip: u32, dip: u32, proto: byte, n: nat): (ph: bytes)
    requires n < 0x10000
    ensures |ph| == 12
  {
    Put32(sip) + Put32(dip) + [0, proto] + Be16(n)
  }

  /** The IPv6 pseudo-header of section 8.1 of RFC 8200. */
  function Pseudo6(sip: bytes, dip: bytes, n: u32): (ph: bytes)
    requires |sip| == 16 && |dip| == 16
    ensures |ph| == 40
  {
    sip + dip + [0, 0, 0, PROTO_TCP] + Put32(n)
  }

  /** The checksum of a segment under a pseudo-header, in unbounded arithmetic. */
  function Csum(ph: bytes, seg: bytes): u16 {
    Complement(Sum(ph) + Sum(seg))
  }

  // ---------------------------------------------------------------- stamping a segment

  /** The segment with a word written big-endian at `k`. */
  function Stamp(seg: bytes, k: nat, w: u16): (r: bytes)
    requires k + 2 <= |seg|
    ensures |r| == |seg|
  {
    seg[..k] + [w / 256, w % 256] + seg[k + 2..]
  }

  lemma SumAround(seg: bytes, k: nat, w: u16)
    requires k % 2 == 0 && k + 2 <= |seg|
    ensures Sum(Stamp(seg, k, w)) == Sum(seg[..k]) + w + Sum(seg[k + 2..])
  {
    hide Word;
    var mid: bytes := [w / 256, w % 256];
    SumChains(seg[..k], mid + seg[k + 2..]);
    assert seg[..k] + (mid + seg[k + 2..]) == Stamp(seg, k, w);
    SumChains(mid, seg[k + 2..]);
    assert mid[2..] == [];
    assert Sum(mid) == Word(mid[0], mid[1]) + Sum(mid[2..]);
    assert Word(mid[0], mid[1]) == w;
  }

  /** Writing the checksum into its zeroed field makes the segment verify. */
  lemma StampVerifies(ph: bytes, seg: bytes, k: nat)
    requires k % 2 == 0 && k + 2 <= |seg| && seg[k] == 0 && seg[k + 1] == 0
    ensures Csum(ph, Stamp(seg, k, Csum(ph, seg))) == 0
  {
    hide Sum, Fold;
    var s := Sum(ph) + Sum(seg);
    var c := Complement(s);
    assert Stamp(seg, k, 0) == seg;
    SumAround(seg, k, 0);
    SumAround(seg, k, c);
    FoldIs(s);
    var d, f := s / ONES, Fold(s);
    assert s + c == s - f + ONES;
    Multiple(s, f);
    AcceptsIff(s + c);
  }

  lemma Multiple(s: nat, f: nat)
    requires f <= s && f % ONES == s % ONES
    ensures (s - f + ONES) % ONES == 0
  {
    var q := s / ONES - f / ONES + 1;
    assert s - f + ONES == 0 + q * ONES;
    Residue(s - f + ONES, q, 0);
  }

  lemma SameResidue(rest: nat, v: u16, w: u16)
    requires (rest + v) % ONES == 0 && v <= w
    ensures (rest + w) % ONES == 0 <==> v == w || (v == 0 && w == ONES)
  {
    var q := (rest + v) / ONES;
    assert rest + w == (w - v) + q * ONES;
    if w - v < ONES {
      Residue(rest + w, q, w - v);
    } else {
      assert rest + w == 0 + (q + 1) * ONES;
      Residue(rest + w, q + 1, 0);
    }
  }

  /** A verifying segment with one aligned word changed still verifies exactly when the change is
      between the two representations of zero (and something else is not zero). */
  lemma WordChange(ph: bytes, seg: bytes, k: nat, v: u16, w: u16)
    requires k % 2 == 0 && k + 2 <= |seg| && Csum(ph, Stamp(seg, k, v)) == 0
    ensures Csum(ph, Stamp(seg, k, w)) == 0 <==>
              || v == w
              || (v == 0 && w == ONES)
              || (v == ONES && w == 0 && Sum(ph) + Sum(seg[..k]) + Sum(seg[k + 2..]) > 0)
  {
    hide Sum, Fold;
    SumAround(seg, k, v);
    SumAround(seg, k, w);
    var rest := Sum(ph) + Sum(seg[..k]) + Sum(seg[k + 2..]);
    AcceptsIff(rest + v);
    AcceptsIff(rest + w);
    if v <= w {
      SameResidue(rest, v, w);
    } else if (rest + w) % ONES == 0 {
      SameResidue(rest, w, v);
    } else if v == ONES && w == 0 {
      Shifted(rest, 1);
    }
  }

  // ---------------------------------------------------------------- the three wrappers

  /** No segment of up to 65535 bytes overflows the accumulator. */
  lemma NoOverflow(ph: bytes, seg: bytes)
    requires |ph| <= 40 && |seg| <= 0xFFFF
    ensures Sum(ph) + Sum(seg) < WRAP
  {
    hide Sum;
    SumBound(ph);
    SumBound(seg);
  }

  method SumBoth(ph: bytes, seg: bytes) returns (c: u16)
    requires |ph| <= 40 && |seg| <= 0xFFFF
    ensures c == Csum(ph, seg)
  {
    NoOverflow(ph, seg);
    var sum := Accumulate(0, ph);
    sum := Accumulate(sum, seg);
    c := FoldDown(sum);
  }

  /** `ip_tcp_csum`. */
  method TcpCsum(sip: u32, dip: u32, seg: bytes) returns (c: u16)
    requires |seg| <= 0xFFFF
    ensures c == Csum(Pseudo4(sip, dip, PROTO_TCP, |seg|), seg)
  {
    c := SumBoth(Pseudo4(sip, dip, PROTO_TCP, |seg|), seg);
  }

  /** `ip6_tcp_csum`. */
  method Tcp6Csum(sip: bytes, dip: bytes, seg: bytes) returns (c: u16)
    requires |sip| == 16 && |dip| == 16 && |seg| <= 0xFFFF
    ensures c == Csum(Pseudo6(sip, dip, |seg|), seg)
  {
    c := SumBoth(Pseudo6(sip, dip, |seg|), seg);
  }

  /** The two words the UDP wrapper adds as numbers are the rest of the pseudo-header. */
  lemma UdpShortcut(sip: u32, dip: u32, n: nat)
    requires n < 0x10000
    ensures Sum(Put32(sip) + Put32(dip)) + 17 + n == Sum(Pseudo4(sip, dip, PROTO_UDP, n))
  {
    hide Put32, Word;
    var head := Put32(sip) + Put32(dip);
    var tail: bytes := [0, PROTO_UDP] + Be16(n);
    assert Pseudo4(sip, dip, PROTO_UDP, n) == head + tail;
    SumChains(head, tail);
    assert tail[2..] == Be16(n) && tail[2..][2..] == [];
    assert Word(0, PROTO_UDP) == 17 && Word(n / 256, n % 256) == n;
    assert Sum(tail[2..]) == Word(n / 256, n % 256) + Sum([]);
  }

  /** `ip_udp_csum`: the shortcut computes the checksum under the full pseudo-header. */
  method UdpCsum(sip: u32, dip: u32, seg: bytes) returns (c: u16)
    requires |seg| <= 0xFFFF
    ensures c == Csum(Pseudo4(sip, dip, PROTO_UDP, |seg|), seg)
  {
    hide Sum, Put32, Pseudo4, Complement, Mod32;
    NoOverflow(Pseudo4(sip, dip, PROTO_UDP, |seg|), seg);
    UdpShortcut(sip, dip, |seg|);
    var sum := Accumulate(0, Put32(sip) + Put32(dip));
    Fits(sum + 17);
    Fits(sum + 17 + |seg|);
    sum := Mod32(sum + 17);
    sum := Mod32(sum + |seg|);
    sum := Accumulate(sum, seg);
    c := FoldDown(sum);
  }
}
