/** IEEE-754 single-precision values as far as the modelled code inspects
    them: `isnormal`, and ordinary arithmetic on finite values as `real`. */
module Floats {

  datatype FloatValue = Finite(v: real) | Infinity(negative: bool) | NaN

  /** 2^126: the smallest positive normal float is 1 / 2^126. */
  const TwoTo126: real := 85070591730234615865843651857942052864.0

  /** std::isnormal on a float: finite, not zero and not subnormal. */
  predicate IsNormal(f: FloatValue) {
    f.Finite? && (f.v * TwoTo126 >= 1.0 || f.v * TwoTo126 <= -1.0)
  }

  lemma ZeroIsNotNormal()
    ensures !IsNormal(Finite(0.0))
  {
  }

  lemma OneIsNormal()
    ensures IsNormal(Finite(1.0)) && IsNormal(Finite(-1.0))
  {
  }

  /** The largest finite double, DBL_MAX = (2 - 2^-52) * 2^1023. */
  function DblMax(): (r: real)
    ensures r > 0.0
  {
    (2.0 - 1.0 / Pow2(52)) * Pow2(1023)
  }

  function Pow2(n: nat): (r: real)
    ensures r >= 1.0
  {
    if n == 0 then 1.0 else 2.0 * Pow2(n - 1)
  }
}
