/** ALIGN4: rounding a request up to the 4-byte alignment unit, in 64-bit size_t arithmetic. */
module Align {

  /** 2^64: the range of size_t. */
  const U64: nat := 0x1_0000_0000_0000_0000

  /** ALIGN4(s) = ((((s) - 1) >> 2) << 2) + 4 on size_t: the subtraction and the final addition
      wrap modulo 2^64; the shift pair clears the two low bits and cannot overflow. */
  function Align4(s: nat): (r: nat)
    requires s < U64
    ensures r < U64 && r % 4 == 0
  {
    var pred := (s + U64 - 1) % U64;
    ((pred / 4) * 4 + 4) % U64
  }

  /** For every size that does not wrap, ALIGN4 is the smallest multiple of 4 that is >= s. */
  lemma Align4Rounds(s: nat)
    requires 0 < s <= U64 - 4
    ensures Align4(s) % 4 == 0 && s <= Align4(s) < s + 4
  {
    var q := (s - 1) / 4;
    assert (s + U64 - 1) % U64 == s - 1;
    assert s - 1 == 4 * q + (s - 1) % 4;
    assert q * 4 + 4 < U64;
  }

  /** ALIGN4 yields 0 exactly for 0 and for the three sizes whose rounding passes 2^64 - 1. */
  lemma Align4Zero(s: nat)
    requires s < U64
    ensures Align4(s) == 0 <==> s == 0 || s > U64 - 4
  {
    if s == 0 {
      assert (s + U64 - 1) % U64 == U64 - 1;
      assert (U64 - 1) / 4 * 4 + 4 == U64;
    } else if s > U64 - 4 {
      assert (s + U64 - 1) % U64 == s - 1;
      assert (s - 1) / 4 == (U64 - 4) / 4;
    } else {
      Align4Rounds(s);
    }
  }

  /** An aligned non-zero size is its own alignment (realloc hands malloc an aligned size). */
  lemma Align4Aligned(n: nat)
    requires 0 < n < U64 && n % 4 == 0
    ensures Align4(n) == n
  {
    Align4Rounds(n);
  }
}
