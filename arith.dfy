/**
 * Integer and byte facts shared by the descriptor and the front-end helpers.
 */
module Arith {

  /** An unsigned 8-bit value, as uint8_t and the bytes of a std::string hold it. */
  newtype Byte = x: int | 0 <= x < 256

  function Abs(x: int): int {
    if x < 0 then -x else x
  }

  lemma MulNonNegative(a: int, b: int)
    requires 0 <= a && 0 <= b
    ensures 0 <= a * b
  {
  }

  /** Quotient and remainder are unique: p = q * w + r with 0 <= r < w
      determines p / w and p % w. */
  lemma DivModUnique(p: int, w: int, q: int, r: int)
    requires 0 < w && 0 <= r < w && p == q * w + r
    ensures p / w == q && p % w == r
  {
    var q', r' := p / w, p % w;
    assert p == q' * w + r';
    if q' < q {
      MulNonNegative(q - q' - 1, w);
      assert false;
    } else if q' > q {
      MulNonNegative(q' - q - 1, w);
      assert false;
    }
  }
}
