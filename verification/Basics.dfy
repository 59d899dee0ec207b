/** What several parts share: optional values, results that may be errors, and arithmetic. */
module Basics {

  datatype Option<+T> = None | Some(value: T)

  datatype Result<+T, +E> = Ok(value: T) | Err(error: E)

  function Min(a: nat, b: nat): nat {
    if a < b then a else b
  }

  function Max(a: nat, b: nat): nat {
    if a < b then b else a
  }

  function Abs(x: real): real {
    if x < 0.0 then -x else x
  }

  /**
   Always true: a trigger and nothing else. A definition `forall n :: UnfoldHere(n) ==> P` stays folded
   until a proof says `assert UnfoldHere(0)`, which keeps a long `P` out of proofs that do not need it.
   */
  ghost predicate UnfoldHere(n: nat) {
    true
  }

  /** Subtraction that stops at zero. */
  function SaturatingSub(a: nat, b: nat): nat {
    if a >= b then a - b else 0
  }
}
