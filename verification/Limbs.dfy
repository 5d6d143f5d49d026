/**
 Numbers as little-endian sequences of 32-bit limbs, the representation `base_uint` uses. This module holds the value
 of such a sequence and how it changes under the elementary limb operations.
 */
module Limbs {
  import opened Arithmetic
  import Bits

  const BASE: int := 0x1_0000_0000

  newtype uint32 = x: int | 0 <= x < 0x1_0000_0000
  newtype uint64 = x: int | 0 <= x < 0x1_0000_0000_0000_0000

  lemma Pow2Of32()
    ensures Pow2(32) == BASE
  {
    assert Pow2(8) == 256;
    Pow2Add(8, 8);
    Pow2Add(16, 16);
  }

  /** The weight of limb `i`. */
  function Weight(i: nat): (r: nat)
    ensures r > 0
  {
    Pow2(32 * i)
  }

  lemma WeightNext(i: nat)
    ensures Weight(i + 1) == BASE * Weight(i)
  {
    Pow2Of32();
    Pow2Add(32, 32 * i);
    assert 32 + 32 * i == 32 * (i + 1);
  }

  lemma WeightAdd(i: nat, j: nat)
    ensures Weight(i + j) == Weight(i) * Weight(j)
  {
    Pow2Add(32 * i, 32 * j);
    assert 32 * i + 32 * j == 32 * (i + j);
  }

  function Val(s: seq<uint32>): nat {
    if s == [] then 0 else s[0] as int + BASE * Val(s[1..])
  }

  lemma {:induction false} ValBound(s: seq<uint32>)
    ensures Val(s) < Weight(|s|)
    decreases |s|
  {
    if s != [] {
      ValBound(s[1..]);
      WeightNext(|s| - 1);
      assert BASE * Val(s[1..]) <= BASE * (Weight(|s| - 1) - 1);
    }
  }

  lemma {:induction false} ValConcat(s: seq<uint32>, t: seq<uint32>)
    ensures Val(s + t) == Val(s) + Weight(|s|) * Val(t)
    decreases |s|
  {
    if s == [] {
      assert s + t == t;
    } else {
      assert (s + t)[1..] == s[1..] + t;
      ValConcat(s[1..], t);
      WeightNext(|s| - 1);
      MulAssociates(BASE, Weight(|s| - 1), Val(t));
      MulDistributes(Val(s[1..]), Weight(|s| - 1) * Val(t), BASE);
    }
  }

  lemma ValOne(x: uint32)
    ensures Val([x]) == x as int
  {
    assert Val([x]) == x as int + BASE * Val([x][1..]);
    assert [x][1..] == [];
  }

  lemma ValSnoc(s: seq<uint32>, x: uint32)
    ensures Val(s + [x]) == Val(s) + x as int * Weight(|s|)
  {
    ValConcat(s, [x]);
    ValOne(x);
    MulCommutes(Weight(|s|), x as int);
  }

  /** Splitting at limb `i`. */
  lemma ValSplit(s: seq<uint32>, i: nat)
    requires i <= |s|
    ensures Val(s) == Val(s[..i]) + Weight(i) * Val(s[i..])
  {
    assert s == s[..i] + s[i..];
    ValConcat(s[..i], s[i..]);
  }

  /** The prefix of length `i + 1` adds limb `i` at its weight. */
  lemma ValPrefix(s: seq<uint32>, i: nat)
    requires i < |s|
    ensures Val(s[..i + 1]) == Val(s[..i]) + s[i] as int * Weight(i)
  {
    assert s[..i + 1] == s[..i] + [s[i]];
    ValSnoc(s[..i], s[i]);
  }

  /** A limb in the middle, with the limbs below and above it. */
  lemma ValParts(s: seq<uint32>, k: nat)
    requires k < |s|
    ensures Val(s) == Val(s[..k]) + s[k] as int * Weight(k) + Weight(k + 1) * Val(s[k + 1..])
  {
    ValSplit(s, k + 1);
    ValPrefix(s, k);
  }

  lemma ValUpdate(s: seq<uint32>, k: nat, x: uint32)
    requires k < |s|
    ensures Val(s[k := x]) == Val(s) + (x as int - s[k] as int) * Weight(k)
  {
    ValParts(s, k);
    ValParts(s[k := x], k);
    assert s[k := x][..k] == s[..k] && s[k := x][k + 1..] == s[k + 1..];
    MulDistributes(x as int - s[k] as int, s[k] as int, Weight(k));
  }

  lemma ValAdd(s: seq<uint32>, k: nat, x: uint32, d: int)
    requires k < |s| && x as int == s[k] as int + d
    ensures Val(s[k := x]) == Val(s) + d * Weight(k)
  {
    ValUpdate(s, k, x);
  }

  lemma {:induction false} ValZero(s: seq<uint32>)
    requires forall i :: 0 <= i < |s| ==> s[i] == 0
    ensures Val(s) == 0
    decreases |s|
  {
    if s != [] { ValZero(s[1..]); }
  }

  /** A limb sequence whose value is known up to a multiple of the modulus. */
  lemma ValModulo(s: seq<uint32>, x: int, q: int)
    requires Val(s) + q * Weight(|s|) == x
    ensures Val(s) == x % Weight(|s|)
  {
    ValBound(s);
    DivUnique(x, Weight(|s|), q, Val(s));
  }

  lemma ModuloAgrees(x: int, y: int, q: int, m: int)
    requires m > 0 && x == y + q * m
    ensures x % m == y % m
  {
    var k := y / m;
    assert y == k * m + y % m;
    assert x == (k + q) * m + y % m;
    DivUnique(x, m, k + q, y % m);
  }

  /** Splitting a double-width number into a limb and a carry loses nothing. */
  lemma CarrySplit(n: int, i: nat)
    ensures (n % BASE) * Weight(i) + (n / BASE) * Weight(i + 1) == n * Weight(i)
  {
    var w := Weight(i);
    WeightNext(i);
    var r, q := n % BASE, n / BASE;
    MulAssociates(q, BASE, w);
    MulDistributes(r, q * BASE, w);
  }

  // ---------------------------------------------------------------------------------------------------------------
  // Shifting by less than a limb
  // ---------------------------------------------------------------------------------------------------------------

  /** The low and high limbs of a limb shifted left by `s` bits. */
  function ShlLow(x: uint32, s: nat): uint32
  {
    ((x as int * Pow2(s)) % BASE) as uint32
  }

  function ShlHigh(x: uint32, s: nat): uint32
    requires s < 32
  {
    ShrBound(x, 32 - s);
    (x as int / Pow2(32 - s)) as uint32
  }

  lemma ShrBound(x: uint32, s: nat)
    ensures 0 <= x as int / Pow2(s) < BASE
  {
    DivAtMost(x as int, Pow2(s));
  }

  lemma Pow2Split(s: nat)
    requires s <= 32
    ensures Pow2(s) * Pow2(32 - s) == BASE && Pow2(32 - s) * Pow2(s) == BASE
  {
    Pow2Of32();
    Pow2Add(s, 32 - s);
    MulCommutes(Pow2(s), Pow2(32 - s));
  }

  /** The quotient of a limb by 2^t fits in 32 - t bits. */
  lemma QuotientBits(x: uint32, t: nat)
    requires t <= 32
    ensures 0 <= x as int / Pow2(t) < Pow2(32 - t)
  {
    Pow2Split(t);
    var q := x as int / Pow2(t);
    assert x as int == q * Pow2(t) + x as int % Pow2(t);
    if q >= Pow2(32 - t) {
      MulMonotone(Pow2(32 - t), q, Pow2(t));
      assert false;
    }
    if q < 0 {
      MulMonotone(q, -1, Pow2(t));
      assert false;
    }
  }

  /** Multiplying by `p` where the base is `p * t`: the quotient by `t` moves up a limb, the remainder stays. */
  lemma ScaledSplit(x: int, p: int, t: int, b: int)
    requires p > 0 && t > 0 && b == p * t
    ensures x * p == (x / t) * b + (x % t) * p
    ensures (x * p) % b == (x % t) * p && (x * p) / b == x / t
    ensures ((x % t) * p) % p == 0
  {
    var q, r := x / t, x % t;
    MulNonNegative(r, p);
    MulMonotone(r, t - 1, p);
    MulDistributes(t, -1, p);
    MulCommutes(p, t);
    assert r * p < b;
    assert b > 0;
    MulDistributes(q * t, r, p);
    MulAssociates(q, t, p);
    DivUnique(x * p, b, q, r * p);
    DivUnique(r * p, p, r, 0);
  }

  /** A shifted limb is its two parts; the low part has its `s` low bits clear and the high part fits there. */
  lemma ShlParts(x: uint32, s: nat)
    requires s < 32
    ensures ShlLow(x, s) as int + BASE * ShlHigh(x, s) as int == x as int * Pow2(s)
    ensures ShlLow(x, s) as int % Pow2(s) == 0
    ensures ShlHigh(x, s) as int < Pow2(s)
  {
    Pow2Split(s);
    QuotientBits(x, 32 - s);
    ScaledSplit(x as int, Pow2(s), Pow2(32 - s), BASE);
  }

  /** The part of a limb shifted right by `s` bits that falls into the limb below. */
  function ShrLow(x: uint32, s: nat): uint32
    requires s <= 32
  {
    ((x as int * Pow2(32 - s)) % BASE) as uint32
  }

  function ShrHigh(x: uint32, s: nat): uint32 {
    ShrBound(x, s);
    (x as int / Pow2(s)) as uint32
  }

  lemma ShrParts(x: uint32, s: nat)
    requires 0 < s < 32
    ensures ShrLow(x, s) as int == (x as int % Pow2(s)) * Pow2(32 - s)
    ensures ShrLow(x, s) as int % Pow2(32 - s) == 0
    ensures ShrHigh(x, s) as int < Pow2(32 - s)
    ensures (ShrLow(x, s) as int + BASE * ShrHigh(x, s) as int) * Pow2(s) == x as int * BASE
  {
    Pow2Split(s);
    QuotientBits(x, s);
    ScaledSplit(x as int, Pow2(32 - s), Pow2(s), BASE);
    MulCommutes(BASE, ShrHigh(x, s) as int);
    MulAssociates(x as int, Pow2(32 - s), Pow2(s));
  }

  function OrLimb(a: uint32, b: uint32): uint32 {
    Pow2Of32();
    Bits.OrBound(a as int, b as int, 32);
    Bits.Or(a as int, b as int) as uint32
  }

  lemma OrLimbDisjoint(a: uint32, b: uint32, s: nat)
    requires a as int % Pow2(s) == 0 && (b as int) < Pow2(s)
    ensures OrLimb(a, b) as int == OrLimb(b, a) as int == a as int + b as int
  {
    Bits.OrDisjoint(a as int, b as int, s);
  }

  lemma OrLimbZero(a: uint32)
    ensures OrLimb(0, a) == OrLimb(a, 0) == a
  {
  }

  /** One turn of `<<=`: the limb `x` lands at position `at`, its overflow one above. */
  function ShlOnce(p: seq<uint32>, x: uint32, at: nat, s: nat): seq<uint32>
    requires s < 32
  {
    var p1 := if at + 1 < |p| && s != 0 then p[at + 1 := OrLimb(p[at + 1], ShlHigh(x, s))] else p;
    if at < |p| then p1[at := OrLimb(p1[at], ShlLow(x, s))] else p1
  }

  /** What that turn shifts out at the top, in units of the modulus. */
  function ShlDropped(width: nat, x: uint32, at: nat, s: nat): int
    requires s < 32
  {
    if at + 1 < width then 0
    else if at + 1 == width then ShlHigh(x, s) as int
    else x as int * Pow2(s) * Weight(at - width)
  }

  /** Limbs above `at` are still clear, and the limb at `at` holds at most the overflow of the one below. */
  predicate ShlReady(p: seq<uint32>, at: nat, s: nat) {
    && (forall m :: at < m < |p| ==> p[m] == 0)
    && (at < |p| ==> (p[at] as int) < Pow2(s))
  }

  lemma ShlOnceLimbs(p: seq<uint32>, x: uint32, at: nat, s: nat)
    requires s < 32 && ShlReady(p, at, s) && at < |p|
    ensures var p' := ShlOnce(p, x, at, s);
            && |p'| == |p| && ShlReady(p', at + 1, s)
            && p'[at] as int == p[at] as int + ShlLow(x, s) as int
            && (at + 1 < |p| ==> p' == p[at + 1 := ShlHigh(x, s)][at := p'[at]])
            && (at + 1 >= |p| ==> p' == p[at := p'[at]])
  {
    ShlParts(x, s);
    OrLimbDisjoint(ShlLow(x, s), p[at], s);
    OrLimbZero(ShlHigh(x, s));
    if at + 1 < |p| && s == 0 {
      assert ShlHigh(x, s) == 0;
      assert p[at + 1 := ShlHigh(x, s)] == p;
    }
  }

  lemma ShlWeight(x: uint32, at: nat, s: nat)
    requires s < 32
    ensures x as int * Pow2(s) * Weight(at) == ShlLow(x, s) as int * Weight(at) + ShlHigh(x, s) as int * Weight(at + 1)
  {
    ShlParts(x, s);
    var lo, hi, w := ShlLow(x, s) as int, ShlHigh(x, s) as int, Weight(at);
    WeightNext(at);
    MulDistributes(lo, BASE * hi, w);
    MulCommutes(BASE, hi);
    MulAssociates(hi, BASE, w);
  }

  lemma ShlOnceInside(p: seq<uint32>, x: uint32, at: nat, s: nat)
    requires s < 32 && ShlReady(p, at, s) && at + 1 < |p|
    ensures |ShlOnce(p, x, at, s)| == |p|
    ensures Val(ShlOnce(p, x, at, s)) == Val(p) + x as int * Pow2(s) * Weight(at)
  {
    var p' := ShlOnce(p, x, at, s);
    ShlOnceLimbs(p, x, at, s);
    var p1 := p[at + 1 := ShlHigh(x, s)];
    assert Val(p1) == Val(p) + ShlHigh(x, s) as int * Weight(at + 1) by {
      ValUpdate(p, at + 1, ShlHigh(x, s));
    }
    assert Val(p') == Val(p1) + ShlLow(x, s) as int * Weight(at) by {
      ValUpdate(p1, at, p'[at]);
    }
    ShlWeight(x, at, s);
  }

  lemma ShlOnceTopLimb(p: seq<uint32>, x: uint32, at: nat, s: nat)
    requires s < 32 && ShlReady(p, at, s) && at + 1 == |p|
    ensures |ShlOnce(p, x, at, s)| == |p|
    ensures Val(ShlOnce(p, x, at, s)) == Val(p) + ShlLow(x, s) as int * Weight(at)
  {
    ShlOnceLimbs(p, x, at, s);
    ValUpdate(p, at, ShlOnce(p, x, at, s)[at]);
  }

  lemma ShlOnceTop(p: seq<uint32>, x: uint32, at: nat, s: nat)
    requires s < 32 && ShlReady(p, at, s) && at + 1 == |p|
    ensures |ShlOnce(p, x, at, s)| == |p|
    ensures Val(ShlOnce(p, x, at, s)) + ShlHigh(x, s) as int * Weight(|p|) == Val(p) + x as int * Pow2(s) * Weight(at)
  {
    ShlOnceTopLimb(p, x, at, s);
    ShlWeight(x, at, s);
  }

  lemma ShlOnceValue(p: seq<uint32>, x: uint32, at: nat, s: nat)
    requires s < 32 && ShlReady(p, at, s)
    ensures var p' := ShlOnce(p, x, at, s);
            && |p'| == |p| && ShlReady(p', at + 1, s)
            && Val(p') + ShlDropped(|p|, x, at, s) * Weight(|p|) == Val(p) + x as int * Pow2(s) * Weight(at)
  {
    if at < |p| { ShlOnceLimbs(p, x, at, s); }
    if at + 1 < |p| {
      ShlOnceInside(p, x, at, s);
    } else if at + 1 == |p| {
      ShlOnceTop(p, x, at, s);
    } else {
      WeightAdd(at - |p|, |p|);
      MulAssociates(x as int * Pow2(s), Weight(at - |p|), Weight(|p|));
    }
  }

  /** One turn of `>>=`: limb `i` lands `k` positions lower, its underflow one below that. */
  function ShrOnce(p: seq<uint32>, x: uint32, i: nat, k: nat, s: nat): seq<uint32>
    requires s < 32 && i < |p|
  {
    var p1 := if i >= k + 1 && s != 0 then p[i - k - 1 := OrLimb(p[i - k - 1], ShrLow(x, s))] else p;
    if i >= k then p1[i - k := OrLimb(p1[i - k], ShrHigh(x, s))] else p1
  }

  predicate ShrReady(p: seq<uint32>, i: nat, k: nat, s: nat)
    requires s < 32
  {
    && (forall m :: 0 <= m < |p| && i - k <= m ==> p[m] == 0)
    && (0 <= i - k - 1 < |p| ==> (p[i - k - 1] as int) < Pow2(32 - s))
  }

  /** What that turn shifts out at the bottom. */
  function ShrLost(x: uint32, i: nat, k: nat, s: nat): int {
    if i > k then 0 else if i == k then (x as int % Pow2(s)) * Weight(k) else x as int * Weight(i)
  }

  lemma ShrOnceLimbs(p: seq<uint32>, x: uint32, i: nat, k: nat, s: nat)
    requires s < 32 && k < i < |p| && ShrReady(p, i, k, s)
    ensures var p' := ShrOnce(p, x, i, k, s);
            && |p'| == |p| && ShrReady(p', i + 1, k, s)
            && p'[i - k - 1] as int == p[i - k - 1] as int + (if s == 0 then 0 else ShrLow(x, s) as int)
            && p' == p[i - k - 1 := p'[i - k - 1]][i - k := ShrHigh(x, s)]
  {
    OrLimbZero(ShrHigh(x, s));
    QuotientBits(x, s);
    if s != 0 {
      ShrParts(x, s);
      OrLimbDisjoint(ShrLow(x, s), p[i - k - 1], 32 - s);
    }
  }

  /** The two parts of a limb, weighed where they land, make up the limb divided by 2^s. */
  lemma ShrWeight(x: uint32, j: nat, s: nat)
    requires s < 32
    ensures ((if s == 0 then 0 else ShrLow(x, s) as int) * Weight(j) + ShrHigh(x, s) as int * Weight(j + 1)) * Pow2(s)
            == x as int * Weight(j + 1)
  {
    var w := Weight(j);
    WeightNext(j);
    if s == 0 {
      assert Pow2(0) == 1;
      assert ShrHigh(x, s) == x;
    } else {
      ShrParts(x, s);
      var lo, hi, p := ShrLow(x, s) as int, ShrHigh(x, s) as int, Pow2(s);
      MulAssociates(hi, BASE, w);
      MulCommutes(hi, BASE);
      MulDistributes(lo, BASE * hi, w);
      assert (lo * w + hi * Weight(j + 1)) == (lo + BASE * hi) * w;
      MulAssociates(lo + BASE * hi, w, p);
      MulCommutes(w, p);
      MulAssociates(lo + BASE * hi, p, w);
      MulAssociates(x as int, BASE, w);
    }
  }

  /** Adding `lo` to one limb and `hi` to the next. */
  lemma TwoUpdates(p: seq<uint32>, j: nat, a: uint32, b: uint32, lo: int, hi: int)
    requires j + 1 < |p| && a as int == p[j] as int + lo && b as int == p[j + 1] as int + hi
    ensures Val(p[j := a][j + 1 := b]) == Val(p) + (lo * Weight(j) + hi * Weight(j + 1))
  {
    ValAdd(p, j, a, lo);
    ValAdd(p[j := a], j + 1, b, hi);
  }

  lemma ShrOnceAdds(p: seq<uint32>, x: uint32, i: nat, k: nat, s: nat)
    requires s < 32 && k < i < |p| && ShrReady(p, i, k, s)
    ensures |ShrOnce(p, x, i, k, s)| == |p|
    ensures var lo := if s == 0 then 0 else ShrLow(x, s) as int;
            Val(ShrOnce(p, x, i, k, s)) == Val(p) + (lo * Weight(i - k - 1) + ShrHigh(x, s) as int * Weight(i - k))
  {
    var j := i - k - 1;
    var lo := if s == 0 then 0 else ShrLow(x, s) as int;
    ShrOnceLimbs(p, x, i, k, s);
    TwoUpdates(p, j, ShrOnce(p, x, i, k, s)[j], ShrHigh(x, s), lo, ShrHigh(x, s) as int);
  }

  lemma ShrOnceAbove(p: seq<uint32>, x: uint32, i: nat, k: nat, s: nat)
    requires s < 32 && k < i < |p| && ShrReady(p, i, k, s)
    ensures |ShrOnce(p, x, i, k, s)| == |p|
    ensures Val(ShrOnce(p, x, i, k, s)) * Pow2(s) == Val(p) * Pow2(s) + x as int * Weight(i - k)
  {
    ShrOnceAdds(p, x, i, k, s);
    ShrWeight(x, i - k - 1, s);
    var added := (if s == 0 then 0 else ShrLow(x, s) as int) * Weight(i - k - 1) + ShrHigh(x, s) as int * Weight(i - k);
    MulDistributes(Val(p), added, Pow2(s));
  }

  lemma ShrOnceAtLimb(p: seq<uint32>, x: uint32, k: nat, s: nat)
    requires s < 32 && k < |p| && ShrReady(p, k, k, s)
    ensures var p' := ShrOnce(p, x, k, k, s);
            |p'| == |p| && ShrReady(p', k + 1, k, s) && Val(p') == Val(p) + ShrHigh(x, s) as int
  {
    OrLimbZero(ShrHigh(x, s));
    QuotientBits(x, s);
    ValUpdate(p, 0, ShrHigh(x, s));
    assert Weight(0) == 1;
  }

  lemma QuotientScaled(v: int, x: int, p: int)
    requires p > 0
    ensures (v + x / p) * p + x % p == v * p + x
  {
    MulDistributes(v, x / p, p);
  }

  lemma ShrOnceAt(p: seq<uint32>, x: uint32, k: nat, s: nat)
    requires s < 32 && k < |p| && ShrReady(p, k, k, s)
    ensures var p' := ShrOnce(p, x, k, k, s);
            && |p'| == |p| && ShrReady(p', k + 1, k, s)
            && Val(p') * Pow2(s) + x as int % Pow2(s) == Val(p) * Pow2(s) + x as int
  {
    ShrOnceAtLimb(p, x, k, s);
    QuotientScaled(Val(p), x as int, Pow2(s));
  }

  lemma ShrOnceValue(p: seq<uint32>, x: uint32, i: nat, k: nat, s: nat)
    requires s < 32 && i < |p| && ShrReady(p, i, k, s)
    ensures var p' := ShrOnce(p, x, i, k, s);
            && |p'| == |p| && ShrReady(p', i + 1, k, s)
            && Val(p') * Pow2(s) * Weight(k) + ShrLost(x, i, k, s)
               == Val(p) * Pow2(s) * Weight(k) + x as int * Weight(i)
  {
    var p' := ShrOnce(p, x, i, k, s);
    var w := Weight(k);
    if i > k {
      ShrOnceLimbs(p, x, i, k, s);
      ShrOnceAbove(p, x, i, k, s);
      WeightAdd(i - k, k);
      MulDistributes(Val(p) * Pow2(s), x as int * Weight(i - k), w);
      MulAssociates(x as int, Weight(i - k), w);
    } else if i == k {
      ShrOnceAt(p, x, k, s);
      MulDistributes(Val(p') * Pow2(s), x as int % Pow2(s), w);
      MulDistributes(Val(p) * Pow2(s), x as int, w);
    }
  }

  /** What is shifted out over all turns, which is less than the divisor. */
  function ShrRest(a: seq<uint32>, i: nat, k: nat, s: nat): int
    requires i <= |a|
  {
    if i <= k then Val(a[..i]) else Val(a[..k]) + (a[k] as int % Pow2(s)) * Weight(k)
  }

  lemma ShrRestStep(a: seq<uint32>, i: nat, k: nat, s: nat)
    requires i < |a|
    ensures ShrRest(a, i + 1, k, s) == ShrRest(a, i, k, s) + ShrLost(a[i], i, k, s)
  {
    if i < k { ValPrefix(a, i); }
  }

  lemma ShrRestBound(a: seq<uint32>, k: nat, s: nat)
    ensures 0 <= ShrRest(a, |a|, k, s) < Pow2(s) * Weight(k)
  {
    var w, p := Weight(k), Pow2(s);
    if |a| <= k {
      assert a[..|a|] == a;
      ValBound(a);
      Pow2Monotone(32 * |a|, 32 * k);
      MulMonotone(1, p, w);
    } else {
      ValBound(a[..k]);
      var r := a[k] as int % p;
      MulNonNegative(r, w);
      MulMonotone(r, p - 1, w);
      MulDistributes(p, -1, w);
    }
  }
}
