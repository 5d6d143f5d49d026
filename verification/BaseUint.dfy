/**
 `base_uint`: unsigned integers of a fixed number of 32-bit limbs, updated in place. Every operation is shown to be
 integer arithmetic modulo 2^(32*WIDTH); that no 64-bit intermediate overflows is part of its being well-typed.
 */
module BaseUint {
  import opened Arithmetic
  import opened Limbs

  class BaseUint {
    const pn: array<uint32>

    ghost function Value(): nat
      reads pn
    {
      Val(pn[..])
    }

    ghost function Modulus(): nat {
      Weight(pn.Length)
    }

    constructor (width: nat)
      ensures fresh(pn) && pn.Length == width && Value() == 0
      ensures forall i :: 0 <= i < width ==> pn[i] == 0
    {
      var a := new uint32[width](_ => 0);
      pn := a;
      new;
      ValZero(pn[..]);
    }

    constructor Copy(b: BaseUint)
      ensures fresh(pn) && pn.Length == b.pn.Length && pn[..] == b.pn[..] && Value() == b.Value()
    {
      var a := new uint32[b.pn.Length];
      for i := 0 to a.Length
        invariant forall j :: 0 <= j < i ==> a[j] == b.pn[j]
      {
        a[i] := b.pn[i];
      }
      assert a[..] == b.pn[..];
      pn := a;
    }

    /** Addition; the argument may be the object itself. */
    method AddAssign(b: BaseUint)
      requires b.pn.Length == pn.Length
      modifies pn
      ensures Value() == (old(Value()) + old(b.Value())) % Modulus()
    {
      ghost var x, y := pn[..], b.pn[..];
      var carry: uint64 := 0;
      for i := 0 to pn.Length
        invariant forall k :: i <= k < pn.Length ==> pn[k] == x[k] && b.pn[k] == y[k]
        invariant carry <= 1
        invariant Val(pn[..i]) + carry as int * Weight(i) == Val(x[..i]) + Val(y[..i])
      {
        var n: uint64 := carry + pn[i] as uint64 + b.pn[i] as uint64;
        ghost var low := pn[..i];
        pn[i] := (n % 0x1_0000_0000) as uint32;
        assert pn[..i] == low;
        AddStep(low, x, y, i, carry as int, n as int, pn[i]);
        assert pn[..i + 1] == low + [pn[i]];
        carry := n / 0x1_0000_0000;
      }
      assert pn[..] == pn[..pn.Length] && x == x[..pn.Length] && y == y[..pn.Length];
      ValModulo(pn[..], Val(x) + Val(y), carry as int);
    }

    /** Multiplication by a 32-bit number. */
    method MulAssign32(b32: uint32)
      modifies pn
      ensures Value() == (old(Value()) * b32 as int) % Modulus()
    {
      ghost var x := pn[..];
      var carry: uint64 := 0;
      for i := 0 to pn.Length
        invariant forall k :: i <= k < pn.Length ==> pn[k] == x[k]
        invariant carry < 0x1_0000_0000
        invariant Val(pn[..i]) + carry as int * Weight(i) == Val(x[..i]) * b32 as int
      {
        ProductFits(b32, pn[i]);
        var n: uint64 := carry + b32 as uint64 * pn[i] as uint64;
        ghost var low := pn[..i];
        pn[i] := (n % 0x1_0000_0000) as uint32;
        assert pn[..i] == low;
        MulStep(low, x, i, carry as int, b32 as int, n as int, pn[i]);
        assert pn[..i + 1] == low + [pn[i]];
        carry := n / 0x1_0000_0000;
      }
      assert pn[..] == pn[..pn.Length] && x == x[..pn.Length];
      ValModulo(pn[..], Val(x) * b32 as int, carry as int);
    }

    /** All limbs to zero. */
    method Clear()
      modifies pn
      ensures forall i :: 0 <= i < pn.Length ==> pn[i] == 0
      ensures Value() == 0
    {
      for i := 0 to pn.Length
        invariant forall j :: 0 <= j < i ==> pn[j] == 0
      {
        pn[i] := 0;
      }
      ValZero(pn[..]);
    }

    method Assign(b: BaseUint)
      requires b.pn.Length == pn.Length && b.pn != pn
      modifies pn
      ensures pn[..] == b.pn[..]
    {
      for i := 0 to pn.Length
        invariant pn[..i] == b.pn[..i]
      {
        pn[i] := b.pn[i];
      }
      assert pn[..] == pn[..pn.Length] && b.pn[..] == b.pn[..pn.Length];
    }

    /** One row of the schoolbook product: adds `x * b`, shifted up by `j` limbs; returns what is carried out. */
    method AddRow(x: uint32, b: BaseUint, j: nat) returns (carry: uint64)
      requires b.pn.Length == pn.Length && b.pn != pn && j <= pn.Length
      modifies pn
      ensures Value() + carry as int * Modulus() == old(Value()) + x as int * Weight(j) * Val(b.pn[..pn.Length - j])
    {
      ghost var a0, y := pn[..], b.pn[..];
      carry := 0;
      var i := 0;
      assert y[..0] == [];
      while i + j < pn.Length
        invariant 0 <= i && i + j <= pn.Length
        invariant b.pn[..] == y
        invariant carry < 0x1_0000_0000
        invariant Val(pn[..]) + carry as int * Weight(i + j) == Val(a0) + x as int * Weight(j) * Val(y[..i])
      {
        ProductFits(x, b.pn[i]);
        var n: uint64 := carry + pn[i + j] as uint64 + x as uint64 * b.pn[i] as uint64;
        ghost var before := pn[..];
        pn[i + j] := (n % 0x1_0000_0000) as uint32;
        assert pn[..] == before[i + j := pn[i + j]];
        RowStep(before, x as int, y, i, j, carry as int, n as int, pn[i + j]);
        carry := n / 0x1_0000_0000;
        i := i + 1;
      }
      assert y[..i] == b.pn[..i];
    }

    /** Full multiplication, limb by limb with the high half never computed. */
    method MulAssign(b: BaseUint)
      requires b.pn.Length == pn.Length
      modifies pn
      ensures Value() == (old(Value()) * old(b.Value())) % Modulus()
    {
      var W := pn.Length;
      var a := new BaseUint(W);
      ghost var x, y := pn[..], b.pn[..];
      ghost var q := 0;
      for j := 0 to W
        invariant pn[..] == x && b.pn[..] == y
        invariant Val(a.pn[..]) + q * Weight(W) == Val(x[..j]) * Val(y)
      {
        ghost var before := a.Value();
        var carry := a.AddRow(pn[j], b, j);
        assert b.pn[..W - j] == y[..W - j];
        RowDone(x, y, j, carry as int, before, a.Value(), q);
        q := q + carry as int + x[j] as int * Val(y[W - j..]);
      }
      assert x[..W] == x;
      ValModulo(a.pn[..], Val(x) * Val(y), q);
      Assign(a);
    }

    /** Prefix increment. */
    method Increment()
      modifies pn
      ensures Value() == (old(Value()) + 1) % Modulus()
    {
      ghost var x := pn[..];
      var i := 0;
      while i < pn.Length
        invariant 0 <= i <= pn.Length
        invariant Val(pn[..]) + Weight(i) == Val(x) + 1
      {
        ghost var before := pn[..];
        pn[i] := if pn[i] == 0xffff_ffff then 0 else pn[i] + 1;
        assert pn[..] == before[i := pn[i]];
        IncrementLimb(before, i, pn[i]);
        if pn[i] != 0 {
          ValModulo(pn[..], Val(x) + 1, 0);
          return;
        }
        i := i + 1;
      }
      ValModulo(pn[..], Val(x) + 1, 1);
    }

    /** Prefix decrement. */
    method Decrement()
      modifies pn
      ensures Value() == (old(Value()) - 1) % Modulus()
    {
      ghost var x := pn[..];
      var i := 0;
      while i < pn.Length
        invariant 0 <= i <= pn.Length
        invariant Val(pn[..]) - Weight(i) == Val(x) - 1
      {
        ghost var before := pn[..];
        pn[i] := if pn[i] == 0 then 0xffff_ffff else pn[i] - 1;
        assert pn[..] == before[i := pn[i]];
        DecrementLimb(before, i, pn[i]);
        if pn[i] != 0xffff_ffff {
          ValModulo(pn[..], Val(x) - 1, 0);
          return;
        }
        i := i + 1;
      }
      ValModulo(pn[..], Val(x) - 1, -1);
    }

    /** `~` */
    method Complement() returns (ret: BaseUint)
      ensures fresh(ret) && fresh(ret.pn) && ret.pn.Length == pn.Length
      ensures ret.Value() == Modulus() - 1 - Value()
    {
      ret := new BaseUint(pn.Length);
      for i := 0 to pn.Length
        invariant forall k :: i <= k < pn.Length ==> ret.pn[k] == 0
        invariant Val(ret.pn[..i]) + Val(pn[..i]) == Weight(i) - 1
      {
        ghost var low := ret.pn[..i];
        ret.pn[i] := 0xffff_ffff - pn[i];
        assert ret.pn[..i] == low;
        ValPrefix(ret.pn[..], i);
        ValPrefix(pn[..], i);
        assert ret.pn[..][..i] == low && pn[..][..i] == pn[..i];
        assert ret.pn[..][..i + 1] == ret.pn[..i + 1] && pn[..][..i + 1] == pn[..i + 1];
        MulDistributes(ret.pn[i] as int, pn[i] as int, Weight(i));
        WeightNext(i);
        MulDistributes(BASE, -1, Weight(i));
      }
      assert ret.pn[..] == ret.pn[..pn.Length] && pn[..] == pn[..pn.Length];
    }

    /** Unary `-` */
    method Negated() returns (ret: BaseUint)
      ensures fresh(ret) && fresh(ret.pn) && ret.pn.Length == pn.Length
      ensures ret.Value() == (0 - Value()) % Modulus()
    {
      ret := Complement();
      ret.Increment();
      NegatedModulo(Value(), Modulus());
    }

    method SubAssign(b: BaseUint)
      requires b.pn.Length == pn.Length
      modifies pn
      ensures Value() == (old(Value()) - old(b.Value())) % Modulus()
    {
      ghost var x: int, y: int, m: int := Value(), b.Value(), Modulus();
      var neg := b.Negated();
      ghost var r := neg.Value();
      assert r == (0 - y) % m;
      SubModulo(x, y, m);
      AddAssign(neg);
      assert Value() == (x + r) % m;
    }

    /** The limb `x`, shifted left by `s` bits, into the limbs at and above the `at`-th. */
    method OrShiftedUp(x: uint32, at: nat, s: nat)
      requires s < 32
      modifies pn
      ensures pn[..] == ShlOnce(old(pn[..]), x, at, s)
    {
      if at + 1 < pn.Length && s != 0 {
        pn[at + 1] := OrLimb(pn[at + 1], ShlHigh(x, s));
      }
      if at < pn.Length {
        pn[at] := OrLimb(pn[at], ShlLow(x, s));
      }
    }

    method ShiftUp(a: BaseUint, k: nat, s: nat)
      requires a.pn != pn && a.pn.Length == pn.Length && s < 32 && pn[..] == Zeros(pn.Length)
      modifies pn
      ensures pn[..] == ShlFirst(a.pn[..], pn.Length, k, s)
    {
      for i := 0 to pn.Length
        invariant pn[..] == ShlFirst(a.pn[..], i, k, s)
      {
        OrShiftedUp(a.pn[i], i + k, s);
      }
    }

    method ShiftLeftAssign(shift: nat)
      modifies pn
      ensures Value() == (old(Value()) * Pow2(shift)) % Modulus()
    {
      var a := new BaseUint.Copy(this);
      Clear();
      ShlRemainder(a.pn[..], shift / 32, shift % 32);
      ShiftUp(a, shift / 32, shift % 32);
    }

    /** The limb `x`, the `i`-th, shifted right by `k` limbs and `s` bits, into the two limbs it lands in. */
    method OrShiftedDown(x: uint32, i: nat, k: nat, s: nat)
      requires s < 32 && i < pn.Length
      modifies pn
      ensures pn[..] == ShrOnce(old(pn[..]), x, i, k, s)
    {
      if i >= k + 1 && s != 0 {
        pn[i - k - 1] := OrLimb(pn[i - k - 1], ShrLow(x, s));
      }
      if i >= k {
        pn[i - k] := OrLimb(pn[i - k], ShrHigh(x, s));
      }
    }

    method ShiftDown(a: BaseUint, k: nat, s: nat)
      requires a.pn != pn && a.pn.Length == pn.Length && s < 32 && pn[..] == Zeros(pn.Length)
      modifies pn
      ensures pn[..] == ShrFirst(a.pn[..], pn.Length, k, s)
    {
      for i := 0 to pn.Length
        invariant pn[..] == ShrFirst(a.pn[..], i, k, s)
      {
        OrShiftedDown(a.pn[i], i, k, s);
      }
    }

    method ShiftRightAssign(shift: nat)
      modifies pn
      ensures Value() == old(Value()) / Pow2(shift)
    {
      var a := new BaseUint.Copy(this);
      Clear();
      ShrQuotient(a.pn[..], shift / 32, shift % 32);
      ShiftDown(a, shift / 32, shift % 32);
    }

    /** Compares from the top limb down. */
    method CompareTo(b: BaseUint) returns (r: int)
      requires b.pn.Length == pn.Length
      ensures r == if Value() < b.Value() then -1 else if Value() > b.Value() then 1 else 0
    {
      var i := pn.Length;
      while i > 0
        invariant 0 <= i <= pn.Length
        invariant pn[i..] == b.pn[i..]
      {
        i := i - 1;
        if pn[i] < b.pn[i] {
          FirstDifference(pn[..], b.pn[..], i);
          return -1;
        }
        if pn[i] > b.pn[i] {
          FirstDifference(b.pn[..], pn[..], i);
          return 1;
        }
        assert pn[i..] == [pn[i]] + pn[i + 1..] && b.pn[i..] == [b.pn[i]] + b.pn[i + 1..];
      }
      assert pn[..] == pn[0..] && b.pn[..] == b.pn[0..];
      return 0;
    }

    /** The position of the highest set bit plus one. */
    method Bits() returns (r: nat)
      ensures r <= 32 * pn.Length
      ensures Value() < Pow2(r) && (r > 0 ==> Pow2(r - 1) <= Value())
    {
      var pos := pn.Length;
      while pos > 0
        invariant 0 <= pos <= pn.Length
        invariant forall k :: pos <= k < pn.Length ==> pn[k] == 0
      {
        pos := pos - 1;
        if pn[pos] != 0 {
          var nbits := 31;
          Pow2Of32();
          while nbits > 0
            invariant 0 <= nbits <= 31 && (pn[pos] as int) < Pow2(nbits + 1)
          {
            if (pn[pos] as int / Pow2(nbits)) % 2 == 1 {
              TopBit(pn[..], pos, nbits);
              return 32 * pos + nbits + 1;
            }
            BitNotSet(pn[pos] as int, nbits);
            nbits := nbits - 1;
          }
          assert Pow2(1) == 2;
          TopBit(pn[..], pos, 0);
          return 32 * pos + 1;
        }
      }
      ValZero(pn[..]);
      return 0;
    }

    /** Sets one clear bit of a quotient under construction. */
    method SetBit(t: nat)
      requires t < 32 * pn.Length && LowClear(pn[..], t + 1)
      modifies pn
      ensures LowClear(pn[..], t) && Value() == old(Value()) + Pow2(t)
    {
      ghost var before := pn[..];
      BitBelow(t % 32);
      pn[t / 32] := OrLimb(pn[t / 32], Pow2(t % 32) as uint32);
      assert pn[..] == before[t / 32 := pn[t / 32]];
      SetBitValue(before, t);
    }

    /**
     One turn of the division: `num` keeps the remainder of N by the quotient so far, `div` the divisor D shifted to
     the bit now decided.
     */
    method DivTurn(num: BaseUint, div: BaseUint, shift: nat, ghost N: nat, ghost D: nat)
      requires num.pn.Length == div.pn.Length == pn.Length
      requires num.pn != div.pn && pn != num.pn && pn != div.pn
      requires shift < 32 * pn.Length && LowClear(pn[..], shift + 1)
      requires num.Value() == N - Value() * D && num.Value() < D * Pow2(shift + 1)
      requires div.Value() == D * Pow2(shift)
      modifies pn, num.pn, div.pn
      ensures LowClear(pn[..], shift)
      ensures num.Value() == N - Value() * D && num.Value() < D * Pow2(shift)
      ensures shift > 0 ==> div.Value() == D * Pow2(shift - 1)
    {
      var c := num.CompareTo(div);
      DivStep(N, D, Value(), num.Value(), shift);
      if c >= 0 {
        ghost var n, d := num.Value(), div.Value();
        ValBound(num.pn[..]);
        num.SubAssign(div);
        NoWrap(n, d, num.Modulus(), num.Value());
        SetBit(shift);
      } else {
        LowClearLess(pn[..], shift);
      }
      HalveAligned(D, shift);
      div.ShiftRightAssign(1);
    }

    /** Shift-and-subtract division; it throws exactly for a zero divisor. */
    method DivAssign(b: BaseUint) returns (thrown: bool)
      requires b.pn.Length == pn.Length
      modifies pn
      ensures thrown <==> old(b.Value()) == 0
      ensures !thrown ==> Value() == old(Value()) / old(b.Value())
    {
      var div := new BaseUint.Copy(b);
      var num := new BaseUint.Copy(this);
      ghost var N, D := Value(), b.Value();
      Clear();
      var num_bits := num.Bits();
      var div_bits := div.Bits();
      assert Pow2(0) == 1;
      if div_bits == 0 {
        return true;
      }
      if div_bits > num_bits {
        Pow2Monotone(num_bits, div_bits - 1);
        DivUnique(N, D, 0, N);
        return false;
      }
      var shift := num_bits - div_bits;
      DivAligned(N, D, num_bits, div_bits, pn.Length);
      div.ShiftLeftAssign(shift);
      AllClear(pn[..], shift + 1);
      DivBits(num, div, shift, N, D);
      return false;
    }

    /** Decides the bits of the quotient from `top` down. */
    method DivBits(num: BaseUint, div: BaseUint, top: nat, ghost N: nat, ghost D: nat)
      requires num.pn.Length == div.pn.Length == pn.Length
      requires num.pn != div.pn && pn != num.pn && pn != div.pn
      requires D > 0 && top < 32 * pn.Length && LowClear(pn[..], top + 1)
      requires num.Value() == N - Value() * D && num.Value() < D * Pow2(top + 1)
      requires div.Value() == D * Pow2(top)
      modifies pn, num.pn, div.pn
      ensures Value() == N / D
    {
      var shift: int := top;
      while shift >= 0
        invariant -1 <= shift <= top
        invariant LowClear(pn[..], shift + 1)
        invariant num.Value() == N - Value() * D && num.Value() < D * Pow2(shift + 1)
        invariant shift >= 0 ==> div.Value() == D * Pow2(shift)
        decreases shift + 1
      {
        DivTurn(num, div, shift, N, D);
        shift := shift - 1;
      }
      assert Pow2(0) == 1;
      DivUnique(N, D, Value(), num.Value());
    }
  }

  lemma AddStep(low: seq<uint32>, x: seq<uint32>, y: seq<uint32>, i: nat, carry: int, n: int, limb: uint32)
    requires i < |x| && i < |y| && |low| == i
    requires Val(low) + carry * Weight(i) == Val(x[..i]) + Val(y[..i])
    requires n == carry + x[i] as int + y[i] as int && limb as int == n % BASE
    ensures Val(low + [limb]) + (n / BASE) * Weight(i + 1) == Val(x[..i + 1]) + Val(y[..i + 1])
  {
    ValSnoc(low, limb);
    ValPrefix(x, i);
    ValPrefix(y, i);
    CarrySplit(n, i);
    MulDistributes(carry + x[i] as int, y[i] as int, Weight(i));
    MulDistributes(carry, x[i] as int, Weight(i));
  }

  lemma ProductFits(a: uint32, b: uint32)
    ensures 0 <= a as int * b as int <= (BASE - 1) * (BASE - 1)
  {
    MulNonNegative(a as int, b as int);
    MulMonotone(a as int, BASE - 1, b as int);
    MulMonotone(b as int, BASE - 1, BASE - 1);
  }

  lemma MulStep(low: seq<uint32>, x: seq<uint32>, i: nat, carry: int, b: int, n: int, limb: uint32)
    requires i < |x| && |low| == i
    requires Val(low) + carry * Weight(i) == Val(x[..i]) * b
    requires n == carry + b * x[i] as int && limb as int == n % BASE
    ensures Val(low + [limb]) + (n / BASE) * Weight(i + 1) == Val(x[..i + 1]) * b
  {
    ValSnoc(low, limb);
    ValPrefix(x, i);
    CarrySplit(n, i);
    var w, xi := Weight(i), x[i] as int;
    MulDistributes(carry, b * xi, w);
    MulDistributes(Val(x[..i]), xi * w, b);
    assert (b * xi) * w == (xi * w) * b by {
      MulAssociates(b, xi, w);
      MulCommutes(b, xi * w);
    }
  }

  lemma RowStep(a: seq<uint32>, xj: int, y: seq<uint32>, i: nat, j: nat, carry: int, n: int, limb: uint32)
    requires i + j < |a| && i < |y|
    requires n == carry + a[i + j] as int + xj * y[i] as int && limb as int == n % BASE
    ensures Val(a[i + j := limb]) + (n / BASE) * Weight(i + 1 + j)
            == Val(a) + carry * Weight(i + j) + xj * Weight(j) * Val(y[..i + 1]) - xj * Weight(j) * Val(y[..i])
  {
    var w, yi := Weight(i + j), y[i] as int;
    CarrySplit(n, i + j);
    assert i + j + 1 == i + 1 + j;
    ValAdd(a, i + j, limb, limb as int - a[i + j] as int);
    RowSum(a[i + j] as int, limb as int, carry, xj * yi, n, (n / BASE) * Weight(i + j + 1), w);
    ValPrefix(y, i);
    WeightAdd(j, i);
    MulDistributes(Val(y[..i]), yi * Weight(i), xj * Weight(j));
    RowProduct(xj, Weight(j), yi, Weight(i));
  }

  lemma RowSum(ai: int, limb: int, carry: int, p: int, n: int, rest: int, w: int)
    requires n == carry + ai + p && limb * w + rest == n * w
    ensures (limb - ai) * w + rest == carry * w + p * w
  {
    MulDistributes(limb - ai, ai, w);
    MulDistributes(carry + ai, p, w);
    MulDistributes(carry, ai, w);
  }

  lemma RowProduct(a: int, b: int, c: int, d: int)
    ensures a * b * (c * d) == (a * c) * (b * d)
  {
    MulAssociates(a * b, c, d);
    MulAssociates(a, b, c);
    MulCommutes(b, c);
    MulAssociates(a, c, b);
    MulAssociates(a * c, b, d);
  }

  /** A finished row is the product by one limb, up to what lies above the top limb. */
  lemma RowDone(x: seq<uint32>, y: seq<uint32>, j: nat, carry: int, before: int, after: int, q: int)
    requires |x| == |y| && j < |x|
    requires before + q * Weight(|x|) == Val(x[..j]) * Val(y)
    requires after + carry * Weight(|x|) == before + x[j] as int * Weight(j) * Val(y[..|x| - j])
    ensures after + (q + carry + x[j] as int * Val(y[|x| - j..])) * Weight(|x|) == Val(x[..j + 1]) * Val(y)
  {
    var W := |x|;
    var xj, w, m := x[j] as int, Weight(j), Weight(W);
    var lo, hi := Val(y[..W - j]), Val(y[W - j..]);
    ValSplit(y, W - j);
    ValPrefix(x, j);
    WeightAdd(j, W - j);
    MulDistributes(Val(x[..j]), xj * w, Val(y));
    MulDistributes(lo, Weight(W - j) * hi, xj * w);
    assert xj * w * (Weight(W - j) * hi) == (xj * hi) * m by {
      MulCommutes(Weight(W - j), hi);
      RowProduct(xj, w, hi, Weight(W - j));
    }
    MulDistributes(q + carry, xj * hi, m);
    MulDistributes(q, carry, m);
  }

  lemma ShlAccumulates(x: seq<uint32>, i: nat, k: nat, s: nat)
    requires i < |x|
    ensures Val(x[..i + 1]) * (Pow2(s) * Weight(k)) ==
            Val(x[..i]) * (Pow2(s) * Weight(k)) + x[i] as int * Pow2(s) * Weight(i + k)
  {
    ValPrefix(x, i);
    WeightAdd(i, k);
    var xi, p := x[i] as int, Pow2(s);
    MulDistributes(Val(x[..i]), xi * Weight(i), p * Weight(k));
    RowProduct(xi, Weight(i), p, Weight(k));
  }

  /** One turn adds its limb, with `d` shifted out. */
  lemma ShlAdds(p: seq<uint32>, x: uint32, at: nat, s: nat, p': seq<uint32>, d: int)
    requires s < 32 && ShlReady(p, at, s) && p' == ShlOnce(p, x, at, s) && d == ShlDropped(|p|, x, at, s)
    ensures |p'| == |p| && ShlReady(p', at + 1, s)
    ensures Val(p') + d * Weight(|p|) == Val(p) + x as int * Pow2(s) * Weight(at)
  {
    ShlOnceValue(p, x, at, s);
  }

  lemma ShlTurn(x: seq<uint32>, i: nat, k: nat, s: nat, v: int, q: int, v': int, d: int, q': int)
    requires i < |x| && v + q * Weight(|x|) == Val(x[..i]) * (Pow2(s) * Weight(k)) && q' == q + d
    requires v' + d * Weight(|x|) == v + x[i] as int * Pow2(s) * Weight(i + k)
    ensures v' + q' * Weight(|x|) == Val(x[..i + 1]) * (Pow2(s) * Weight(k))
  {
    ShlAccumulates(x, i, k, s);
    DroppedAdds(q, d, q', Weight(|x|));
  }

  lemma DroppedAdds(q: int, d: int, r: int, w: int)
    requires r == q + d
    ensures r * w == q * w + d * w
  {
  }

  function Zeros(n: nat): seq<uint32> { seq(n, _ => 0) }

  /** The limbs after the first `i` turns of `<<=`, and what those turns shifted out, in units of the modulus. */
  function ShlFirst(x: seq<uint32>, i: nat, k: nat, s: nat): (p: seq<uint32>)
    requires i <= |x| && s < 32
    ensures |p| == |x|
  {
    if i == 0 then Zeros(|x|) else ShlOnce(ShlFirst(x, i - 1, k, s), x[i - 1], i - 1 + k, s)
  }

  function ShlLost(x: seq<uint32>, i: nat, k: nat, s: nat): int
    requires i <= |x| && s < 32
  {
    if i == 0 then 0 else ShlLost(x, i - 1, k, s) + ShlDropped(|x|, x[i - 1], i - 1 + k, s)
  }

  lemma {:induction false} ShlFirstValue(x: seq<uint32>, i: nat, k: nat, s: nat, p: seq<uint32>, q: int)
    requires i <= |x| && s < 32 && p == ShlFirst(x, i, k, s) && q == ShlLost(x, i, k, s)
    ensures ShlReady(p, i + k, s)
    ensures Val(p) + q * Weight(|x|) == Val(x[..i]) * (Pow2(s) * Weight(k))
  {
    if i == 0 {
      ValZero(p);
    } else {
      var p0, q0 := ShlFirst(x, i - 1, k, s), ShlLost(x, i - 1, k, s);
      ShlFirstValue(x, i - 1, k, s, p0, q0);
      ShlAdds(p0, x[i - 1], i - 1 + k, s, p, q - q0);
      ShlTurn(x, i - 1, k, s, Val(p0), q0, Val(p), q - q0, q);
    }
  }

  /** All turns together multiply, modulo the width. */
  lemma ShlRemainder(x: seq<uint32>, k: nat, s: nat)
    requires s < 32
    ensures Val(ShlFirst(x, |x|, k, s)) == (Val(x) * Pow2(32 * k + s)) % Weight(|x|)
  {
    var p, q := ShlFirst(x, |x|, k, s), ShlLost(x, |x|, k, s);
    ShlFirstValue(x, |x|, k, s, p, q);
    assert x[..|x|] == x;
    Pow2Add(s, 32 * k);
    ValModulo(p, Val(x) * (Pow2(s) * Weight(k)), q);
  }

  lemma ShrTurn(p: seq<uint32>, x: seq<uint32>, i: nat, k: nat, s: nat, p': seq<uint32>)
    requires |p| == |x| && i < |x| && s < 32 && ShrReady(p, i, k, s)
    requires Val(p) * Pow2(s) * Weight(k) + ShrRest(x, i, k, s) == Val(x[..i])
    requires p' == ShrOnce(p, x[i], i, k, s)
    ensures |p'| == |p| && ShrReady(p', i + 1, k, s)
    ensures Val(p') * Pow2(s) * Weight(k) + ShrRest(x, i + 1, k, s) == Val(x[..i + 1])
  {
    ShrOnceValue(p, x[i], i, k, s);
    ShrRestStep(x, i, k, s);
    ValPrefix(x, i);
  }

  /** The limbs after the first `i` turns of `>>=`. */
  function ShrFirst(x: seq<uint32>, i: nat, k: nat, s: nat): (p: seq<uint32>)
    requires i <= |x| && s < 32
    ensures |p| == |x|
  {
    if i == 0 then Zeros(|x|) else ShrOnce(ShrFirst(x, i - 1, k, s), x[i - 1], i - 1, k, s)
  }

  lemma {:induction false} ShrFirstValue(x: seq<uint32>, i: nat, k: nat, s: nat, p: seq<uint32>)
    requires i <= |x| && s < 32 && p == ShrFirst(x, i, k, s)
    ensures ShrReady(p, i, k, s)
    ensures Val(p) * Pow2(s) * Weight(k) + ShrRest(x, i, k, s) == Val(x[..i])
  {
    if i == 0 {
      ValZero(p);
    } else {
      var p0 := ShrFirst(x, i - 1, k, s);
      ShrFirstValue(x, i - 1, k, s, p0);
      ShrTurn(p0, x, i - 1, k, s, p);
    }
  }

  /** All turns together divide. */
  lemma ShrQuotient(x: seq<uint32>, k: nat, s: nat)
    requires s < 32
    ensures Val(ShrFirst(x, |x|, k, s)) == Val(x) / Pow2(32 * k + s)
  {
    var p := ShrFirst(x, |x|, k, s);
    ShrFirstValue(x, |x|, k, s, p);
    assert x[..|x|] == x;
    Pow2Add(s, 32 * k);
    ShrRestBound(x, k, s);
    MulAssociates(Val(p), Pow2(s), Weight(k));
    DivUnique(Val(x), Pow2(s) * Weight(k), Val(p), ShrRest(x, |x|, k, s));
  }

  lemma PrefixLess(x: seq<uint32>, y: seq<uint32>, i: nat)
    requires i < |x| && i < |y| && x[i] < y[i]
    ensures Val(x[..i + 1]) < Val(y[..i + 1])
  {
    ValPrefix(x, i);
    ValPrefix(y, i);
    ValBound(x[..i]);
    MulMonotone(x[i] as int + 1, y[i] as int, Weight(i));
    MulDistributes(x[i] as int, 1, Weight(i));
  }

  lemma FirstDifference(x: seq<uint32>, y: seq<uint32>, i: nat)
    requires |x| == |y| && i < |x| && x[i] < y[i] && x[i + 1..] == y[i + 1..]
    ensures Val(x) < Val(y)
  {
    ValSplit(x, i + 1);
    ValSplit(y, i + 1);
    PrefixLess(x, y, i);
  }

  lemma BitNotSet(x: int, n: nat)
    requires 0 <= x < Pow2(n + 1) && (x / Pow2(n)) % 2 != 1
    ensures x < Pow2(n)
  {
    if x >= Pow2(n) {
      DivUnique(x, Pow2(n), 1, x - Pow2(n));
      assert false;
    }
  }

  lemma SetBitAtLeast(v: int, n: nat)
    requires v > 0 && (n > 0 ==> (v / Pow2(n)) % 2 == 1)
    ensures Pow2(n) <= v
  {
    if v < Pow2(n) {
      DivUnique(v, Pow2(n), 0, v);
    }
  }

  lemma TopLimb(x: seq<uint32>, pos: nat)
    requires pos < |x| && (forall k :: pos < k < |x| ==> x[k] == 0)
    ensures x[pos] as int * Weight(pos) <= Val(x) < (x[pos] as int + 1) * Weight(pos)
  {
    ValSplit(x, pos + 1);
    ValZero(x[pos + 1..]);
    MulCommutes(Weight(pos + 1), 0);
    ValPrefix(x, pos);
    ValBound(x[..pos]);
    MulDistributes(x[pos] as int, 1, Weight(pos));
  }

  /** The highest nonzero limb and its highest bit locate the whole number between two powers of two. */
  lemma TopBit(x: seq<uint32>, pos: nat, n: nat)
    requires pos < |x| && (forall k :: pos < k < |x| ==> x[k] == 0) && x[pos] != 0
    requires (x[pos] as int) < Pow2(n + 1) && (n > 0 ==> (x[pos] as int / Pow2(n)) % 2 == 1)
    ensures Pow2(32 * pos + n) <= Val(x) < Pow2(32 * pos + n + 1)
  {
    TopLimb(x, pos);
    var v, w := x[pos] as int, Weight(pos);
    SetBitAtLeast(v, n);
    Pow2Add(n, 32 * pos);
    Pow2Add(n + 1, 32 * pos);
    MulMonotone(Pow2(n), v, w);
    MulMonotone(v + 1, Pow2(n + 1), w);
  }

  /** The `t` low bits are clear. */
  predicate LowClear(x: seq<uint32>, t: nat) {
    && (forall m :: 0 <= m < t / 32 && m < |x| ==> x[m] == 0)
    && (t / 32 < |x| ==> x[t / 32] as int % Pow2(t % 32) == 0)
  }

  lemma BitBelow(s: nat)
    requires s < 32
    ensures Pow2(s) < BASE
  {
    Pow2Of32();
    Pow2Monotone(s, 31);
    assert Pow2(32) == 2 * Pow2(31);
  }

  lemma MultipleOfLess(x: int, s: nat)
    requires x % Pow2(s + 1) == 0
    ensures x % Pow2(s) == 0
  {
    var k := x / Pow2(s + 1);
    assert x == k * (2 * Pow2(s));
    MulAssociates(k, 2, Pow2(s));
    DivUnique(x, Pow2(s), k * 2, 0);
  }

  /** Limb `t / 32` has bits 0 to `t % 32` clear. */
  lemma LimbClear(x: seq<uint32>, t: nat)
    requires t < 32 * |x| && LowClear(x, t + 1)
    ensures x[t / 32] as int % Pow2(t % 32 + 1) == 0
    ensures forall m :: 0 <= m < t / 32 ==> x[m] == 0
  {
    var k, s := t / 32, t % 32;
    if s == 31 {
      assert (t + 1) / 32 == k + 1;
      assert x[k] == 0;
      DivUnique(0, Pow2(32), 0, 0);
    } else {
      assert (t + 1) / 32 == k && (t + 1) % 32 == s + 1;
    }
  }

  lemma LowClearLess(x: seq<uint32>, t: nat)
    requires t < 32 * |x| && LowClear(x, t + 1)
    ensures LowClear(x, t)
  {
    LimbClear(x, t);
    MultipleOfLess(x[t / 32] as int, t % 32);
  }

  lemma MultipleNext(x: int, p: int)
    requires p > 0 && x % p == 0
    ensures (x + p) % p == 0
  {
    var c := x / p;
    assert x == c * p;
    MulDistributes(c, 1, p);
    DivUnique(x + p, p, c + 1, 0);
  }

  /** Setting a clear bit of a limb adds its weight, and keeps the lower bits clear. */
  lemma SetLimbBit(x: uint32, s: nat)
    requires x as int % Pow2(s + 1) == 0 && Pow2(s) < BASE
    ensures OrLimb(x, Pow2(s) as uint32) as int == x as int + Pow2(s)
    ensures OrLimb(x, Pow2(s) as uint32) as int % Pow2(s) == 0
  {
    OrLimbDisjoint(x, Pow2(s) as uint32, s + 1);
    MultipleOfLess(x as int, s);
    MultipleNext(x as int, Pow2(s));
  }

  lemma SetBitValue(x: seq<uint32>, t: nat)
    requires t < 32 * |x| && LowClear(x, t + 1) && Pow2(t % 32) < BASE
    ensures var x' := x[t / 32 := OrLimb(x[t / 32], Pow2(t % 32) as uint32)];
            LowClear(x', t) && Val(x') == Val(x) + Pow2(t)
  {
    var k, s := t / 32, t % 32;
    LimbClear(x, t);
    SetLimbBit(x[k], s);
    ValAdd(x, k, OrLimb(x[k], Pow2(s) as uint32), Pow2(s));
    Pow2Add(s, 32 * k);
  }

  /** Aligning the divisor with the dividend does not overflow, and twice the aligned divisor exceeds the dividend. */
  lemma DivAligned(N: nat, D: nat, nb: nat, db: nat, width: nat)
    requires 0 < db <= nb <= 32 * width && N < Pow2(nb) && Pow2(db - 1) <= D < Pow2(db)
    ensures (D * Pow2(nb - db)) % Weight(width) == D * Pow2(nb - db) && N < D * Pow2(nb - db + 1)
  {
    var s := nb - db;
    Pow2Add(db, s);
    Pow2Monotone(nb, 32 * width);
    MulMonotone(D + 1, Pow2(db), Pow2(s));
    MulDistributes(D, 1, Pow2(s));
    MulNonNegative(D, Pow2(s));
    DivUnique(D * Pow2(s), Weight(width), 0, D * Pow2(s));
    Pow2Add(db - 1, s + 1);
    MulMonotone(Pow2(db - 1), D, Pow2(s + 1));
  }

  lemma DivStep(N: int, D: int, q: int, n: int, shift: nat)
    requires n == N - q * D && n < D * Pow2(shift + 1)
    ensures D * Pow2(shift + 1) == 2 * (D * Pow2(shift))
    ensures n - D * Pow2(shift) == N - (q + Pow2(shift)) * D
    ensures shift > 0 ==> D * Pow2(shift) == D * Pow2(shift - 1) * 2
  {
    MulDistributes(q, Pow2(shift), D);
    MulCommutes(D, Pow2(shift));
  }

  lemma NoWrap(n: int, d: int, m: int, r: int)
    requires 0 <= d <= n < m && r == (n - d) % m
    ensures r == n - d
  {
    DivUnique(n - d, m, 0, n - d);
  }

  lemma IncrementLimb(x: seq<uint32>, i: nat, limb: uint32)
    requires i < |x| && limb == if x[i] == 0xffff_ffff then 0 else x[i] + 1
    ensures Val(x[i := limb]) + (if limb == 0 then Weight(i + 1) else 0) == Val(x) + Weight(i)
  {
    ValUpdate(x, i, limb);
    WeightNext(i);
    MulDistributes(1, -BASE, Weight(i));
  }

  lemma DecrementLimb(x: seq<uint32>, i: nat, limb: uint32)
    requires i < |x| && limb == if x[i] == 0 then 0xffff_ffff else x[i] - 1
    ensures Val(x[i := limb]) - (if limb == 0xffff_ffff then Weight(i + 1) else 0) == Val(x) - Weight(i)
  {
    ValUpdate(x, i, limb);
    WeightNext(i);
    MulDistributes(BASE, -1, Weight(i));
  }

  lemma NegatedModulo(x: int, m: int)
    requires m > 0
    ensures (m - 1 - x + 1) % m == (0 - x) % m
  {
    ModuloAgrees(m - x, 0 - x, 1, m);
  }

  lemma SubModulo(x: int, y: int, m: int)
    requires m > 0
    ensures (x + (0 - y) % m) % m == (x - y) % m
  {
    var q := (0 - y) / m;
    assert 0 - y == q * m + (0 - y) % m;
    MulDistributes(q, -q, m);
    ModuloAgrees(x + (0 - y) % m, x - y, -q, m);
  }

  lemma HalveAligned(D: int, shift: nat)
    ensures Pow2(1) == 2
    ensures shift > 0 ==> (D * Pow2(shift)) / Pow2(1) == D * Pow2(shift - 1)
  {
    assert Pow2(1) == 2 * Pow2(0);
    if shift > 0 {
      MulAssociates(D, 2, Pow2(shift - 1));
      MulCommutes(D, 2);
      MulAssociates(2, D, Pow2(shift - 1));
      DivUnique(D * Pow2(shift), 2, D * Pow2(shift - 1), 0);
    }
  }

  lemma AllClear(x: seq<uint32>, t: nat)
    requires forall i :: 0 <= i < |x| ==> x[i] == 0
    ensures LowClear(x, t)
  {
    DivUnique(0, Pow2(t % 32), 0, 0);
  }
}
