/** Byte strings, digests and the fixed-width integers that several parts share. */
module Bytes {

  type byte = x: int | 0 <= x < 0x100

  type u16 = x: int | 0 <= x < 0x1_0000

  type u32 = x: int | 0 <= x < 0x1_0000_0000

  type Bytes = seq<byte>

  function Pow2(k: nat): nat {
    if k == 0 then 1 else 2 * Pow2(k - 1)
  }

  function ZeroAt(i: nat): byte {
    0
  }

  function Zeros(n: nat): (r: Bytes)
    ensures |r| == n && forall i :: 0 <= i < n ==> r[i] == 0
  {
    seq(n, i requires 0 <= i < n => ZeroAt(i))
  }

  /** The output of SHA-256. */
  type Digest = b: Bytes | |b| == 32 witness Zeros(32)

  const ZERO_DIGEST: Digest := Zeros(32)

  /** SHA-256 is a parameter of every definition that needs it. */
  type HashFn = Bytes -> Digest

  /** Two different byte strings with one digest. */
  predicate Collides(h: HashFn, x: Bytes, y: Bytes) {
    x != y && h(x) == h(y)
  }

  datatype Option<+T> = None | Some(value: T) {
    function GetOr(default: T): T {
      if Some? then value else default
    }
  }

  datatype Result<+T, +E> = Ok(value: T) | Err(error: E)
}
