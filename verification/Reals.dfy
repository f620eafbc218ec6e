/** Real arithmetic shared by the modules that deal with time and rates. */
module Reals {
  import opened Prelude

  function Min(a: real, b: real): real {
    if a <= b then a else b
  }

  function Max(a: real, b: real): real {
    if a >= b then a else b
  }

  function Pow2(n: nat): real {
    if n == 0 then 1.0 else 2.0 * Pow2(n - 1)
  }

  function Sum(s: seq<real>): real {
    if s == [] then 0.0 else Sum(Init(s)) + Last(s)
  }

  lemma NonNegativeProduct(a: real, b: real)
    requires a >= 0.0 && b >= 0.0
    ensures a * b >= 0.0
  {
  }
}
