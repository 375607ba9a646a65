/** Powers of two. */
module Arithmetic {

  function Power2(n: nat): nat {
    if n == 0 then 1 else 2 * Power2(n - 1)
  }
}
