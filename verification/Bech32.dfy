/**
 The Bech32 checksum (`PolyMod`): remainders modulo the generator over GF(32), held as 30 bits. The step of the loop
 is linear and loses nothing, which is what the code's guarantees rest on.
 */
module Bech32 {
  import opened Words

  /** A remainder: 30 bits, the coefficient of x^5 in the top five. */
  predicate Poly(c: Word) { |c| == 30 }

  /** A 5-bit value as bits. */
  predicate Group(d: Word) { |d| == 5 }

  predicate Groups(ds: seq<Word>) {
    forall i :: 0 <= i < |ds| ==> Group(ds[i])
  }

  predicate BitOf(x: nat, i: nat) {
    if i == 0 then x % 2 == 1 else BitOf(x / 2, i - 1)
  }

  /** The multiple of x^6 mod g(x) called for by the group shifted out, at bit `i`. */
  predicate Reduced(c: Word, i: nat)
    requires Poly(c)
  {
    (c[25] && BitOf(0x3b6a57b2, i))
    != ((c[26] && BitOf(0x26508e6d, i))
        != ((c[27] && BitOf(0x1ea119fa, i))
            != ((c[28] && BitOf(0x3d4233dd, i))
                != (c[29] && BitOf(0x2a1462b3, i)))))
  }

  /** Multiplication by x modulo the generator. */
  function Shift(c: Word): (r: Word)
    requires Poly(c)
    ensures Poly(r)
  {
    seq(30, i requires 0 <= i < 30 => (i >= 5 && c[i - 5]) != Reduced(c, i))
  }

  function Step(c: Word, d: Word): (r: Word)
    requires Poly(c) && Group(d)
    ensures Poly(r)
  {
    var s := Shift(c);
    seq(30, i requires 0 <= i < 30 => s[i] != (i < 5 && d[i]))
  }

  function Fold(c: Word, ds: seq<Word>): (r: Word)
    requires Poly(c) && Groups(ds)
    ensures Poly(r)
    decreases |ds|
  {
    if ds == [] then c else Fold(Step(c, ds[0]), ds[1..])
  }

  function Zero(): Word { Words.Fill(30, false) }

  function One(): Word { Shifted(30, true, 0) }

  // ---------------------------------------------------------------------------------------------------------------
  // Linearity
  // ---------------------------------------------------------------------------------------------------------------

  lemma ReducedLinear(a: Word, b: Word, i: nat)
    requires Poly(a) && Poly(b)
    ensures Reduced(Xor(a, b), i) == (Reduced(a, i) != Reduced(b, i))
  {
  }

  lemma ShiftLinear(a: Word, b: Word)
    requires Poly(a) && Poly(b)
    ensures Shift(Xor(a, b)) == Xor(Shift(a), Shift(b))
  {
    var ab := Xor(a, b);
    forall i | 0 <= i < 30 ensures Reduced(ab, i) == (Reduced(a, i) != Reduced(b, i)) {
      ReducedLinear(a, b, i);
    }
  }

  /** The difference of two remainders evolves by the same step, driven by the difference of the values. */
  lemma StepLinear(a: Word, b: Word, d: Word, e: Word)
    requires Poly(a) && Poly(b) && Group(d) && Group(e)
    ensures Xor(Step(a, d), Step(b, e)) == Step(Xor(a, b), Xor(d, e))
  {
    ShiftLinear(a, b);
  }

  function XorAll(ds: seq<Word>, es: seq<Word>): (r: seq<Word>)
    requires |ds| == |es| && Groups(ds) && Groups(es)
    ensures |r| == |ds| && Groups(r)
  {
    seq(|ds|, i requires 0 <= i < |ds| => Xor(ds[i], es[i]))
  }

  lemma {:induction false} FoldLinear(a: Word, b: Word, ds: seq<Word>, es: seq<Word>)
    requires Poly(a) && Poly(b) && |ds| == |es| && Groups(ds) && Groups(es)
    ensures Xor(Fold(a, ds), Fold(b, es)) == Fold(Xor(a, b), XorAll(ds, es))
    decreases |ds|
  {
    if ds != [] {
      StepLinear(a, b, ds[0], es[0]);
      FoldLinear(Step(a, ds[0]), Step(b, es[0]), ds[1..], es[1..]);
      assert XorAll(ds, es)[1..] == XorAll(ds[1..], es[1..]);
    }
  }

  lemma {:induction false} FoldConcat(c: Word, ds: seq<Word>, es: seq<Word>)
    requires Poly(c) && Groups(ds) && Groups(es)
    ensures Groups(ds + es) && Fold(c, ds + es) == Fold(Fold(c, ds), es)
    decreases |ds|
  {
    if ds == [] {
      assert ds + es == es;
    } else {
      assert (ds + es)[1..] == ds[1..] + es;
      FoldConcat(Step(c, ds[0]), ds[1..], es);
    }
  }

  // ---------------------------------------------------------------------------------------------------------------
  // Nothing is lost
  // ---------------------------------------------------------------------------------------------------------------

  /** The five low bits of each constant. */
  lemma GeneratorLowBits()
    ensures LowGroup(0x3b6a57b2) == [false, true, false, false, true]
    ensures LowGroup(0x26508e6d) == [true, false, true, true, false]
    ensures LowGroup(0x1ea119fa) == [false, true, false, true, true]
    ensures LowGroup(0x3d4233dd) == [true, false, true, true, true]
    ensures LowGroup(0x2a1462b3) == [true, true, false, false, true]
  {
  }

  function LowGroup(x: nat): Word {
    [BitOf(x, 0), BitOf(x, 1), BitOf(x, 2), BitOf(x, 3), BitOf(x, 4)]
  }

  /** Only zero is shifted to zero: the group shifted out shows, transformed, in the lowest group. */
  lemma ShiftInjective(c: Word)
    requires Poly(c) && Shift(c) == Zero()
    ensures c == Zero()
  {
    GeneratorLowBits();
    var s := Shift(c);
    assert !s[0] && !s[1] && !s[2] && !s[3] && !s[4];
    assert !Reduced(c, 0) && !Reduced(c, 1) && !Reduced(c, 2) && !Reduced(c, 3) && !Reduced(c, 4);
    assert !c[25] && !c[26] && !c[27] && !c[28] && !c[29];
    forall i | 0 <= i < 25 ensures !c[i] {
      assert !s[i + 5];
    }
  }

  function NoGroups(n: nat): (r: seq<Word>)
    ensures |r| == n && Groups(r)
  {
    seq(n, _ => Words.Fill(5, false))
  }

  /** A difference once there is never shifted away by equal values. */
  lemma {:induction false} StaysNonzero(c: Word, n: nat)
    requires Poly(c) && c != Zero()
    ensures Fold(c, NoGroups(n)) != Zero()
    decreases n
  {
    if n > 0 {
      var c' := Step(c, NoGroups(n)[0]);
      assert c' == Shift(c);
      if c' == Zero() { ShiftInjective(c); }
      assert NoGroups(n)[1..] == NoGroups(n - 1);
      StaysNonzero(c', n - 1);
    }
  }

  /** The lowest `k` groups may be set, the rest is zero. */
  predicate Below(c: Word, k: nat) {
    Poly(c) && forall i :: 0 <= i < 30 && 5 * k <= i ==> !c[i]
  }

  /** While the top group is empty, a step just shifts the groups up and puts the new one at the bottom. */
  lemma StepPlain(c: Word, d: Word, k: nat)
    requires Below(c, k) && k < 6 && Group(d)
    ensures Below(Step(c, d), k + 1)
    ensures forall i :: 0 <= i < 30 ==> Step(c, d)[i] == if i < 5 then d[i] else c[i - 5]
  {
    assert !c[25] && !c[26] && !c[27] && !c[28] && !c[29];
    forall i | 0 <= i < 30 ensures Shift(c)[i] == (i >= 5 && c[i - 5]) {
      assert !Reduced(c, i);
    }
  }

  predicate NonZero(d: Word) { exists i :: 0 <= i < |d| && d[i] }

  /** Up to six groups fit side by side: nothing is reduced, so the result is zero only if all of them are. */
  lemma {:induction false} FoldPlain(c: Word, k: nat, ds: seq<Word>)
    requires Below(c, k) && k + |ds| <= 6 && Groups(ds)
    ensures Below(Fold(c, ds), k + |ds|)
    ensures NonZero(c) || (exists j :: 0 <= j < |ds| && NonZero(ds[j])) ==> NonZero(Fold(c, ds))
    decreases |ds|
  {
    if ds != [] {
      StepPlain(c, ds[0], k);
      var c' := Step(c, ds[0]);
      FoldPlain(c', k + 1, ds[1..]);
      if NonZero(c) {
        var i :| 0 <= i < |c| && c[i];
        assert i < 5 * k;
        assert c'[i + 5];
      }
      if NonZero(ds[0]) {
        var i :| 0 <= i < |ds[0]| && ds[0][i];
        assert c'[i];
      }
      if j :| 0 <= j < |ds| && NonZero(ds[j]) {
        if j > 0 { assert NonZero(ds[1..][j - 1]); }
      }
    }
  }

  lemma XorSame(a: Word)
    ensures Xor(a, a) == Words.Fill(|a|, false)
  {
  }

  lemma XorDiffers(a: Word, b: Word)
    requires |a| == |b| && a != b
    ensures NonZero(Xor(a, b))
  {
    assert exists i :: 0 <= i < |a| && a[i] != b[i];
    var i :| 0 <= i < |a| && a[i] != b[i];
    assert Xor(a, b)[i];
  }

  lemma XorAllConcat(p: seq<Word>, x: seq<Word>, y: seq<Word>, t: seq<Word>)
    requires Groups(p) && Groups(x) && Groups(y) && Groups(t) && |x| == |y|
    ensures Groups(p + x + t) && Groups(p + y + t)
    ensures XorAll(p + x + t, p + y + t) == NoGroups(|p|) + XorAll(x, y) + NoGroups(|t|)
  {
    forall i | 0 <= i < |p + x + t|
      ensures XorAll(p + x + t, p + y + t)[i] == (NoGroups(|p|) + XorAll(x, y) + NoGroups(|t|))[i]
    {
      XorSame((p + x + t)[i]);
    }
  }

  lemma ZeroStep()
    ensures Step(Zero(), Words.Fill(5, false)) == Zero()
  {
    StepPlain(Zero(), Words.Fill(5, false), 0);
  }

  lemma {:induction false} ZeroStays(n: nat)
    ensures Fold(Zero(), NoGroups(n)) == Zero()
    decreases n
  {
    if n > 0 {
      ZeroStep();
      assert NoGroups(n)[0] == Words.Fill(5, false) && NoGroups(n)[1..] == NoGroups(n - 1);
      ZeroStays(n - 1);
    }
  }

  /** The remainder of a difference confined to six consecutive groups is not zero. */
  lemma BurstRemains(n: nat, d: seq<Word>, k: nat)
    requires Groups(d) && |d| <= 6 && exists j :: 0 <= j < |d| && NonZero(d[j])
    ensures Groups(NoGroups(n) + d + NoGroups(k)) && Fold(Zero(), NoGroups(n) + d + NoGroups(k)) != Zero()
  {
    FoldConcat(Zero(), NoGroups(n), d);
    FoldConcat(Zero(), NoGroups(n) + d, NoGroups(k));
    ZeroStays(n);
    FoldPlain(Zero(), 0, d);
    StaysNonzero(Fold(Zero(), d), k);
  }

  lemma DifferenceOf(c: Word, p: seq<Word>, x: seq<Word>, y: seq<Word>, t: seq<Word>)
    requires Poly(c) && Groups(p) && Groups(x) && Groups(y) && Groups(t) && |x| == |y|
    ensures Groups(p + x + t) && Groups(p + y + t) && Groups(NoGroups(|p|) + XorAll(x, y) + NoGroups(|t|))
    ensures Xor(Fold(c, p + x + t), Fold(c, p + y + t)) == Fold(Zero(), NoGroups(|p|) + XorAll(x, y) + NoGroups(|t|))
  {
    XorAllConcat(p, x, y, t);
    FoldLinear(c, c, p + x + t, p + y + t);
    XorSame(c);
  }

  lemma FirstDifference(x: seq<Word>, y: seq<Word>)
    requires Groups(x) && Groups(y) && |x| == |y| && x != y
    ensures exists j :: 0 <= j < |XorAll(x, y)| && NonZero(XorAll(x, y)[j])
  {
    var j :| 0 <= j < |x| && x[j] != y[j];
    XorDiffers(x[j], y[j]);
    assert NonZero(XorAll(x, y)[j]);
  }

  /** Two lists that differ only within six consecutive groups never leave the same remainder. */
  lemma BurstDetected(c: Word, p: seq<Word>, x: seq<Word>, y: seq<Word>, t: seq<Word>)
    requires Poly(c) && Groups(p) && Groups(x) && Groups(y) && Groups(t) && |x| == |y| <= 6 && x != y
    ensures Groups(p + x + t) && Groups(p + y + t)
    ensures Fold(c, p + x + t) != Fold(c, p + y + t)
  {
    DifferenceOf(c, p, x, y, t);
    FirstDifference(x, y);
    BurstRemains(|p|, XorAll(x, y), |t|);
    XorSame(Fold(c, p + x + t));
  }

  // ---------------------------------------------------------------------------------------------------------------
  // The checksum
  // ---------------------------------------------------------------------------------------------------------------

  /** The six groups of a remainder, the top one first. */
  function GroupsOf(m: Word): (r: seq<Word>)
    requires Poly(m)
    ensures |r| == 6 && Groups(r)
  {
    [m[25..30], m[20..25], m[15..20], m[10..15], m[5..10], m[0..5]]
  }

  /** The top `j` groups of a remainder, moved to the bottom. */
  function Top(m: Word, j: nat): (r: Word)
    requires Poly(m) && j <= 6
    ensures Below(r, j)
  {
    seq(30, i requires 0 <= i < 30 => i < 5 * j && m[30 - 5 * j + i])
  }

  lemma StepTop(m: Word, j: nat)
    requires Poly(m) && j < 6
    ensures Step(Top(m, j), m[25 - 5 * j..30 - 5 * j]) == Top(m, j + 1)
  {
    StepPlain(Top(m, j), m[25 - 5 * j..30 - 5 * j], j);
  }

  lemma {:induction false} FoldTop(m: Word, j: nat)
    requires Poly(m) && j <= 6
    ensures Fold(Top(m, j), GroupsOf(m)[j..]) == m
    decreases 6 - j
  {
    if j == 6 {
      assert Top(m, 6) == m;
    } else {
      var g := GroupsOf(m);
      assert g[j] == m[25 - 5 * j..30 - 5 * j];
      assert g[j..][0] == g[j] && g[j..][1..] == g[j + 1..];
      StepTop(m, j);
      FoldTop(m, j + 1);
    }
  }

  lemma FoldGroups(m: Word)
    requires Poly(m)
    ensures Fold(Zero(), GroupsOf(m)) == m
  {
    FoldTop(m, 0);
    assert Zero() == Top(m, 0);
    assert GroupsOf(m)[0..] == GroupsOf(m);
  }

  /** The checksum groups for a list: what to put in place of six zeros to reach remainder one. */
  function Checksum(ds: seq<Word>): (r: seq<Word>)
    requires Groups(ds)
    ensures |r| == 6 && Groups(r)
  {
    GroupsOf(Xor(Fold(One(), ds + NoGroups(6)), One()))
  }

  predicate Verifies(ds: seq<Word>)
    requires Groups(ds)
  {
    Fold(One(), ds) == One()
  }

  lemma XorCancels(a: Word, b: Word, c: Word)
    requires |a| == |b| == |c| && Xor(a, b) == Xor(b, c)
    ensures a == c
  {
    forall i | 0 <= i < |a| ensures a[i] == c[i] {
      assert Xor(a, b)[i] == Xor(b, c)[i];
    }
  }

  lemma XorNoGroups(ds: seq<Word>)
    requires Groups(ds)
    ensures XorAll(ds, NoGroups(|ds|)) == ds
  {
    forall i | 0 <= i < |ds| ensures XorAll(ds, NoGroups(|ds|))[i] == ds[i] {
      assert Xor(ds[i], Words.Fill(5, false)) == ds[i];
    }
  }

  lemma ChecksumVerifies(ds: seq<Word>)
    requires Groups(ds)
    ensures Groups(ds + Checksum(ds)) && Verifies(ds + Checksum(ds))
  {
    var c := Fold(One(), ds);
    var m := Fold(One(), ds + NoGroups(6));
    var chk := Checksum(ds);
    FoldConcat(One(), ds, NoGroups(6));
    FoldConcat(One(), ds, chk);
    FoldLinear(c, c, chk, NoGroups(6));
    XorSame(c);
    XorNoGroups(chk);
    FoldGroups(Xor(m, One()));
    XorCancels(Fold(c, chk), m, One());
  }

  /** No other six groups verify in their place. */
  lemma ChecksumUnique(ds: seq<Word>, x: seq<Word>)
    requires Groups(ds) && Groups(x) && |x| == 6 && Groups(ds + x) && Verifies(ds + x)
    ensures x == Checksum(ds)
  {
    ChecksumVerifies(ds);
    assert ds + x + [] == ds + x && ds + Checksum(ds) + [] == ds + Checksum(ds);
    if x != Checksum(ds) { BurstDetected(One(), ds, x, Checksum(ds), []); }
  }
}
