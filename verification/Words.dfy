/** Machine words as sequences of bits, least significant first, with the bitwise operators. */
module Words {
  type Word = seq<bool>

  function Or(a: Word, b: Word): Word
    requires |a| == |b|
  {
    seq(|a|, i requires 0 <= i < |a| => a[i] || b[i])
  }

  function And(a: Word, b: Word): Word
    requires |a| == |b|
  {
    seq(|a|, i requires 0 <= i < |a| => a[i] && b[i])
  }

  function Xor(a: Word, b: Word): Word
    requires |a| == |b|
  {
    seq(|a|, i requires 0 <= i < |a| => a[i] != b[i])
  }

  function Not(a: Word): Word {
    seq(|a|, i requires 0 <= i < |a| => !a[i])
  }

  /** A word of equal bits: zero, or all ones. */
  function Fill(width: nat, b: bool): Word {
    seq(width, _ => b)
  }

  /** A single bit shifted into place. */
  function Shifted(width: nat, b: bool, k: nat): Word {
    seq(width, i => b && i == k)
  }

  predicate IsZero(a: Word) {
    forall i :: 0 <= i < |a| ==> !a[i]
  }
}
