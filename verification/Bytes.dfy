/** Bytes, machine words and other vocabulary shared by the modules. */
module Bytes {

  type byte = x: int | 0 <= x < 256
  type bytes = seq<byte>
  type u16 = x: int | 0 <= x < 0x10000
  type u32 = x: int | 0 <= x < 0x1_0000_0000

  datatype Option<T> = None | Some(value: T)

  const CR: byte := 13
  const LF: byte := 10
  const DOT: byte := 46
  const COLON: byte := 58

  /** A byte of a C string, its terminating NUL included. The precondition is the point: no read goes
      past that NUL. */
  function At(t: bytes, i: nat): byte
    requires i <= |t|
  {
    if i < |t| then t[i] else 0
  }

  /** Where the C string in a buffer ends: at the first NUL, or with the buffer. */
  function Nul(d: bytes): (n: nat)
    ensures n <= |d| && (n < |d| ==> d[n] == 0)
    ensures forall i :: 0 <= i < n ==> d[i] != 0
  {
    if d == [] || d[0] == 0 then 0 else 1 + Nul(d[1..])
  }

  predicate Digit(c: byte) {
    48 <= c <= 57
  }

  ghost predicate AllDigits(x: bytes) {
    forall k :: 0 <= k < |x| ==> Digit(x[k])
  }

  /** A 32-bit number in network byte order. */
  function Put32(n: u32): (b: bytes)
    ensures |b| == 4
  {
    [n / 0x1000000, n / 0x10000 % 256, n / 256 % 256, n % 256]
  }

  lemma SubsetSize(a: set<nat>, b: set<nat>)
    requires a <= b
    ensures |a| <= |b|
  {
    assert b == a + (b - a);
  }
}
