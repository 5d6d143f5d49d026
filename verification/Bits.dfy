/** Bitwise operators on natural numbers, defined bit by bit. */
module Bits {
  import opened Arithmetic

  function And(a: nat, b: nat): nat {
    if a == 0 || b == 0 then 0 else 2 * And(a / 2, b / 2) + (if a % 2 == 1 && b % 2 == 1 then 1 else 0)
  }

  lemma {:induction false} AndAtMost(a: nat, b: nat)
    ensures And(a, b) <= a && And(a, b) <= b
  {
    if a != 0 && b != 0 { AndAtMost(a / 2, b / 2); }
  }

  function Or(a: nat, b: nat): nat {
    if a == 0 then b else if b == 0 then a else
    2 * Or(a / 2, b / 2) + (if a % 2 == 1 || b % 2 == 1 then 1 else 0)
  }

  /** Joining the high bits of one number with the low bits of another adds them. */
  lemma {:induction false} OrDisjoint(a: nat, b: nat, s: nat)
    requires a % Pow2(s) == 0 && b < Pow2(s)
    ensures Or(a, b) == Or(b, a) == a + b
  {
    if a != 0 && b != 0 {
      ModHalves(a, Pow2(s - 1));
      OrDisjoint(a / 2, b / 2, s - 1);
    }
  }

  lemma {:induction false} OrBound(a: nat, b: nat, n: nat)
    requires a < Pow2(n) && b < Pow2(n)
    ensures Or(a, b) < Pow2(n)
  {
    if a != 0 && b != 0 { OrBound(a / 2, b / 2, n - 1); }
  }
}
