/** Small functions on numbers that several modules share. */
module Numbers {

  function Min(a: int, b: int): int { if a <= b then a else b }

  function Max(a: int, b: int): int { if a >= b then a else b }

  function MinReal(x: real, y: real): real { if x <= y then x else y }

  function MaxReal(x: real, y: real): real { if x >= y then x else y }

  function Abs(x: real): real { if x < 0.0 then -x else x }

  function Identity(): real -> real { (x: real) => x }

  /** Subtraction that stops at zero. */
  function SaturatingSub(a: nat, b: nat): nat { if a >= b then a - b else 0 }
}
