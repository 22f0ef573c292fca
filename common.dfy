/** Small helpers shared by every module of the model. */
module Common {

  /** An octet, as the C sources' `uint8_t` / `char` buffers hold them. */
  type byte = bv8

  /** A number below 256 survives the trip through a byte. */
  lemma ByteOfNat(n: nat)
    requires n < 256
    ensures (n as byte) as nat == n
  {
  }

  /** Concatenation regrouped (stated once so that proofs over heap state need not re-derive it). */
  lemma AppendAssoc<T>(a: seq<T>, b: seq<T>, c: seq<T>)
    ensures a + (b + c) == a + b + c
  {
  }

  /** A present-or-absent value (C's NULL or "no result"). */
  datatype Option<T> = None | Some(value: T)

  /** 16-bit unsigned arithmetic, as C's `uint16_t` wraps. */
  const U16: int := 0x1_0000

  /** 32-bit unsigned arithmetic, as C's `uint32_t` wraps. */
  const U32: int := 0x1_0000_0000

  /** C's `/` on `int`: the quotient truncated toward zero (for a positive divisor). */
  function CDiv(a: int, b: int): (q: int)
    requires b > 0
    ensures a >= 0 ==> q == a / b
    ensures a < 0 ==> q == -((-a) / b)
  {
    if a >= 0 then a / b else -((-a) / b)
  }
}
