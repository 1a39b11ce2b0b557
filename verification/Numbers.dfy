/** Small functions on natural numbers. */
module Numbers {
  function Min(a: nat, b: nat): nat { if a <= b then a else b }

  function Max(a: nat, b: nat): nat { if a >= b then a else b }

  /** Subtraction that stops at zero. */
  function Minus(a: nat, b: nat): nat { if a >= b then a - b else 0 }
}
