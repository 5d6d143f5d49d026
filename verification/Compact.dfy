/**
 The compact form of difficulty targets (`arith_uint256::SetCompact`, `GetCompact`) and the work of a block
 (`GetBlockProof`), computed on limbs and measured against plain integers.
 */
module Compact {
  import opened Arithmetic
  import opened Limbs
  import opened BaseUint

  const SIGN_BIT: int := 0x80_0000
  const TWO_24: int := 0x100_0000

  // ---------------------------------------------------------------------------------------------------------------
  // What a compact number means
  // ---------------------------------------------------------------------------------------------------------------

  function ExponentOf(nCompact: uint32): nat { nCompact as int / TWO_24 }

  /** The 23 low bits. */
  function WordOf(nCompact: uint32): nat { nCompact as int % SIGN_BIT }

  predicate SignOf(nCompact: uint32) { (nCompact as int / SIGN_BIT) % 2 == 1 }

  /** The magnitude as a plain integer of any size: mantissa times 256^(exponent - 3), bytes below the point dropped. */
  function Magnitude(nCompact: uint32): nat {
    var nSize := ExponentOf(nCompact);
    if nSize <= 3 then Shr(WordOf(nCompact), 8 * (3 - nSize)) else Shl(WordOf(nCompact), 8 * (nSize - 3))
  }

  /** The mantissa the flags look at: already shifted when the exponent is small. */
  function ShiftedWord(nCompact: uint32): nat {
    var nSize := ExponentOf(nCompact);
    if nSize <= 3 then Shr(WordOf(nCompact), 8 * (3 - nSize)) else WordOf(nCompact)
  }

  /** The source's overflow test. */
  predicate OverflowFlag(nCompact: uint32) {
    var nSize, nWord := ExponentOf(nCompact), ShiftedWord(nCompact);
    nWord != 0 && (nSize > 34 || (nWord > 0xff && nSize > 33) || (nWord > 0xffff && nSize > 32))
  }

  lemma ShiftedWordBound(nCompact: uint32)
    ensures 0 <= ShiftedWord(nCompact) < SIGN_BIT
  {
    if ExponentOf(nCompact) <= 3 { DivAtMost(WordOf(nCompact), Pow2(8 * (3 - ExponentOf(nCompact)))); }
  }

  lemma Pow2Of(n: nat)
    ensures n == 8 ==> Pow2(n) == 0x100
    ensures n == 16 ==> Pow2(n) == 0x1_0000
    ensures n == 23 ==> Pow2(n) == SIGN_BIT
    ensures n == 24 ==> Pow2(n) == TWO_24
  {
    assert Pow2(8) == 256;
    Pow2Add(8, 8);
    Pow2Add(16, 7);
    assert Pow2(7) == 128;
    Pow2Add(16, 8);
  }

  lemma ScaledAtLeast(w: nat, a: nat, b: nat)
    requires Pow2(a) <= w
    ensures Pow2(a + b) <= w * Pow2(b)
  {
    Pow2Add(a, b);
    MulMonotone(Pow2(a), w, Pow2(b));
  }

  lemma ScaledBelow(w: nat, a: nat, b: nat)
    requires w < Pow2(a)
    ensures w * Pow2(b) < Pow2(a + b)
  {
    Pow2Add(a, b);
    MulMonotone(w + 1, Pow2(a), Pow2(b));
    MulDistributes(w, 1, Pow2(b));
  }

  lemma NarrowFits(w: nat, size: nat, bits: nat)
    requires bits == 256 && 3 < size <= 32 && w < SIGN_BIT
    ensures Shl(w, 8 * (size - 3)) < Pow2(bits)
  {
    Pow2Of(23);
    ScaledBelow(w, 23, 8 * (size - 3));
    Pow2Monotone(23 + 8 * (size - 3), bits);
  }

  /** At exponents 33 and 34 the number fits if its mantissa has at most two bytes, or one. */
  lemma EdgeFits(w: nat, size: nat, bits: nat)
    requires bits == 256 && 33 <= size <= 34
    ensures Shl(w, 8 * (size - 3)) >= Pow2(bits) <==> w > (if size == 33 then 0xffff else 0xff)
  {
    var free := 8 * (35 - size);
    assert free + 8 * (size - 3) == bits;
    Pow2Of(8); Pow2Of(16);
    if w >= Pow2(free) { ScaledAtLeast(w, free, 8 * (size - 3)); } else { ScaledBelow(w, free, 8 * (size - 3)); }
  }

  lemma WideOverflows(w: nat, size: nat, bits: nat)
    requires bits == 256 && size > 34 && w > 0
    ensures Shl(w, 8 * (size - 3)) >= Pow2(bits)
  {
    assert Pow2(0) == 1;
    ScaledAtLeast(w, 0, 8 * (size - 3));
    Pow2Monotone(bits, 8 * (size - 3));
  }

  /** The flag is set exactly when the number does not fit in 256 bits. */
  lemma OverflowExact(nCompact: uint32, bits: nat)
    requires bits == 256
    ensures OverflowFlag(nCompact) <==> Magnitude(nCompact) >= Pow2(bits)
  {
    var nSize, w := ExponentOf(nCompact), ShiftedWord(nCompact);
    ShiftedWordBound(nCompact);
    if nSize <= 3 {
      Pow2Of(23);
      Pow2Monotone(23, bits);
    } else if nSize <= 32 {
      NarrowFits(w, nSize, bits);
    } else if nSize <= 34 {
      EdgeFits(w, nSize, bits);
    } else if w > 0 {
      WideOverflows(w, nSize, bits);
    }
  }

  // ---------------------------------------------------------------------------------------------------------------
  // What compressing a number gives
  // ---------------------------------------------------------------------------------------------------------------

  /** The number of bytes of a number. */
  function ByteLength(v: nat): nat {
    if v == 0 then 0 else 1 + ByteLength(v / 256)
  }

  lemma {:induction false} ByteLengthExact(v: nat)
    ensures v < Pow2(8 * ByteLength(v))
    ensures v > 0 ==> ByteLength(v) > 0 && Pow2(8 * (ByteLength(v) - 1)) <= v
  {
    assert Pow2(0) == 1;
    if v > 0 {
      ByteLengthExact(v / 256);
      var n := ByteLength(v / 256);
      Pow2Of(8);
      Pow2Add(8 * n, 8);
      if n > 0 { Pow2Add(8 * (n - 1), 8); }
    }
  }

  /** Between two consecutive powers of 256 there is only one length. */
  lemma ByteLengthUnique(v: nat, n: nat)
    requires v < Pow2(8 * n) && (n > 0 ==> Pow2(8 * (n - 1)) <= v)
    ensures n == ByteLength(v)
  {
    var m := ByteLength(v);
    ByteLengthExact(v);
    assert Pow2(0) == 1;
    if n < m { Pow2Monotone(8 * n, 8 * (m - 1)); }
    if m < n { Pow2Monotone(8 * m, 8 * (n - 1)); }
  }

  /** From the bit length, as the source computes it. */
  lemma ByteLengthOfBits(v: nat, bits: nat)
    requires v < Pow2(bits) && (bits > 0 ==> Pow2(bits - 1) <= v)
    ensures (bits + 7) / 8 == ByteLength(v)
  {
    var n := (bits + 7) / 8;
    Pow2Monotone(bits, 8 * n);
    if n > 0 { Pow2Monotone(8 * (n - 1), bits - 1); }
    ByteLengthUnique(v, n);
  }

  /** The number scaled so that its three leading bytes stand alone: multiplied up, or divided down. */
  function Scaled(v: nat, size: nat): nat {
    if size <= 3 then Shl(v, 8 * (3 - size)) else Shr(v, 8 * (size - 3))
  }

  /** Mantissa and exponent: a mantissa that would set the sign bit gives up its lowest byte. */
  function Parts(v: nat): (nat, nat) {
    var size := ByteLength(v);
    var word := Scaled(v, size);
    if word >= SIGN_BIT then (word / 256, size + 1) else (word, size)
  }

  function CompactOf(v: nat): nat {
    var (word, size) := Parts(v);
    size * TWO_24 + word
  }

  lemma DivDiv(v: int, p: int, q: int)
    requires p > 0 && q > 0
    ensures p * q > 0 && (v / p) / q == v / (p * q)
  {
    var x := v / p;
    var y := x / q;
    var r := x % q;
    MulMonotone(1, q, p);
    MulCommutes(p, q);
    assert y * (p * q) + (r * p + v % p) == v by {
      MulDistributes(y * q, r, p);
      MulAssociates(y, q, p);
    }
    MulNonNegative(r, p);
    MulMonotone(r, q - 1, p);
    MulDistributes(q, -1, p);
    DivUnique(v, p * q, y, r * p + v % p);
  }

  lemma DivAgain(v: nat, a: nat, b: nat)
    ensures (v / Pow2(a)) / Pow2(b) == v / Pow2(a + b)
  {
    Pow2Add(a, b);
    DivDiv(v, Pow2(a), Pow2(b));
  }

  lemma DivBelow(v: nat, a: nat, b: nat)
    requires v < Pow2(a + b)
    ensures v / Pow2(b) < Pow2(a)
  {
    Pow2Add(a, b);
    var q := v / Pow2(b);
    assert v == q * Pow2(b) + v % Pow2(b);
    if q >= Pow2(a) { MulMonotone(Pow2(a), q, Pow2(b)); }
  }

  lemma DivAtLeast(v: nat, a: nat, b: nat)
    requires Pow2(a + b) <= v
    ensures Pow2(a) <= v / Pow2(b)
  {
    Pow2Add(a, b);
    var q := v / Pow2(b);
    assert v == q * Pow2(b) + v % Pow2(b);
    if q < Pow2(a) {
      MulMonotone(q + 1, Pow2(a), Pow2(b));
      MulDistributes(q, 1, Pow2(b));
    }
  }

  /** The three leading bytes of a nonzero number lie between 2^16 and 2^24. */
  lemma ScaledRange(v: nat)
    requires v > 0
    ensures 0x1_0000 <= Scaled(v, ByteLength(v)) < TWO_24
  {
    var n := ByteLength(v);
    ByteLengthExact(v);
    Pow2Of(16); Pow2Of(24);
    if n <= 3 {
      ScaledBelow(v, 8 * n, 8 * (3 - n));
      ScaledAtLeast(v, 8 * (n - 1), 8 * (3 - n));
    } else {
      DivBelow(v, 24, 8 * (n - 3));
      DivAtLeast(v, 16, 8 * (n - 3));
    }
  }

  /**
   A reference for the exponent: the least number of bytes that leaves the top bit clear, as one chain of thresholds.
   */
  predicate IsExponent(v: nat, size: nat) {
    if v == 0 then size == 0
    else size > 0 && v < Pow2(8 * size - 1) && (size > 1 ==> Pow2(8 * (size - 1) - 1) <= v)
  }

  lemma ExponentUnique(v: nat, s: nat, t: nat)
    requires IsExponent(v, s) && IsExponent(v, t)
    ensures s == t
  {
    if v > 0 && s < t { Pow2Monotone(8 * s - 1, 8 * (t - 1) - 1); }
    if v > 0 && t < s { Pow2Monotone(8 * t - 1, 8 * (s - 1) - 1); }
  }

  /** The exponent is the reference one, and the mantissa the number scaled by it; the sign bit is never touched. */
  lemma PartsExact(v: nat)
    ensures var (word, size) := Parts(v);
            IsExponent(v, size) && word == Scaled(v, size) && word < SIGN_BIT
  {
    if v > 0 {
      var n := ByteLength(v);
      ByteLengthExact(v);
      ScaledRange(v);
      Pow2Of(23); Pow2Of(8);
      if Scaled(v, n) >= SIGN_BIT {
        PartsCarry(v, n);
        Pow2Monotone(8 * n, 8 * (n + 1) - 1);
      } else {
        if n > 1 { Pow2Monotone(8 * (n - 1) - 1, 8 * (n - 1)); }
        PartsPlain(v, n);
      }
    }
  }

  lemma PartsPlain(v: nat, n: nat)
    requires v > 0 && n > 0 && Scaled(v, n) < SIGN_BIT
    ensures v < Pow2(8 * n - 1)
  {
    Pow2Of(23);
    if v >= Pow2(8 * n - 1) {
      if n <= 3 { ScaledAtLeast(v, 8 * n - 1, 8 * (3 - n)); } else { DivAtLeast(v, 23, 8 * (n - 3)); }
    }
  }

  lemma PartsCarry(v: nat, n: nat)
    requires v > 0 && n > 0 && Scaled(v, n) >= SIGN_BIT
    ensures Pow2(8 * n - 1) <= v && Scaled(v, n) / 256 == Scaled(v, n + 1)
    ensures Scaled(v, n) < TWO_24 ==> Scaled(v, n) / 256 < SIGN_BIT
  {
    Pow2Of(23); Pow2Of(8);
    if v < Pow2(8 * n - 1) {
      if n <= 3 { ScaledBelow(v, 8 * n - 1, 8 * (3 - n)); } else { DivBelow(v, 23, 8 * (n - 3)); }
    }
    if n < 3 {
      Pow2Add(8 * (3 - (n + 1)), 8);
      MulAssociates(v, Pow2(8 * (3 - (n + 1))), 256);
      DivUnique(Scaled(v, n), 256, Scaled(v, n + 1), 0);
    } else if n == 3 {
      assert Pow2(0) == 1;
    } else {
      DivAgain(v, 8 * (n - 3), 8);
    }
  }

  /** The number with everything below its kept leading bytes cleared. */
  function Truncated(v: nat): nat {
    var k := Parts(v).1;
    if k <= 3 then v else Shl(Shr(v, 8 * (k - 3)), 8 * (k - 3))
  }

  lemma ExponentBound(v: nat, bits: nat)
    requires bits == 256 && v < Pow2(bits)
    ensures Parts(v).1 <= 33 && Parts(v).0 < SIGN_BIT
  {
    PartsExact(v);
    var size := Parts(v).1;
    if size > 33 { Pow2Monotone(bits, 8 * (size - 1) - 1); }
  }

  lemma FieldsApart(word: nat, size: nat)
    requires word < SIGN_BIT && size <= 33
    ensures var c := size * TWO_24 + word;
            c < BASE && c / TWO_24 == size && c % SIGN_BIT == word && (c / SIGN_BIT) % 2 == 0
  {
  }

  /** The fields of the compact form can be read back, and its sign bit is clear. */
  lemma Fits(v: nat, bits: nat)
    requires bits == 256 && v < Pow2(bits)
    ensures CompactOf(v) < BASE
    ensures var c := CompactOf(v) as uint32; (WordOf(c), ExponentOf(c)) == Parts(v) && !SignOf(c)
  {
    ExponentBound(v, bits);
    FieldsApart(Parts(v).0, Parts(v).1);
  }

  lemma ShlShr(v: nat, n: nat)
    ensures Shr(Shl(v, n), n) == v
    ensures Shl(Shr(v, n), n) <= v
  {
    DivUnique(v * Pow2(n), Pow2(n), v, 0);
    assert v == (v / Pow2(n)) * Pow2(n) + v % Pow2(n);
  }

  /** Undoing the scaling. */
  lemma Unscale(v: nat)
    ensures var (word, size) := Parts(v);
            (if size <= 3 then Shr(word, 8 * (3 - size)) else Shl(word, 8 * (size - 3))) == Truncated(v) <= v
  {
    PartsExact(v);
    var size := Parts(v).1;
    if size <= 3 { ShlShr(v, 8 * (3 - size)); } else { ShlShr(v, 8 * (size - 3)); }
  }

  /**
   Expanding the compact form gives the number back with all but its leading bytes cleared, never negative, and it
   overflows for no 256-bit number.
   */
  lemma RoundTrip(v: nat, bits: nat)
    requires bits == 256 && v < Pow2(bits)
    ensures CompactOf(v) < BASE
    ensures var c := CompactOf(v) as uint32;
            Magnitude(c) == Truncated(v) <= v && !SignOf(c) && !OverflowFlag(c)
  {
    Fits(v, bits);
    Unscale(v);
    OverflowExact(CompactOf(v) as uint32, bits);
  }

  lemma TruncatedExponent(v: nat, size: nat)
    requires IsExponent(v, size) && size > 3
    ensures IsExponent(Shl(Shr(v, 8 * (size - 3)), 8 * (size - 3)), size)
  {
    var k := 8 * (size - 3);
    var a := 8 * (size - 1) - 1 - k;
    ShlShr(v, k);
    DivAtLeast(v, a, k);
    ScaledAtLeast(Shr(v, k), a, k);
  }

  /** Compressing the truncated number again changes nothing. */
  lemma Idempotent(v: nat)
    ensures CompactOf(Truncated(v)) == CompactOf(v)
  {
    PartsExact(v);
    var size := Parts(v).1;
    if size > 3 {
      var k := 8 * (size - 3);
      var t := Truncated(v);
      TruncatedExponent(v, size);
      PartsExact(t);
      ExponentUnique(t, size, Parts(t).1);
      ShlShr(Shr(v, k), k);
    }
  }

  lemma DivMonotone(x: nat, y: nat, d: nat)
    requires x <= y && d > 0
    ensures x / d <= y / d
  {
    var a, b := x / d, y / d;
    assert x == a * d + x % d && y == b * d + y % d;
    if b < a {
      MulMonotone(b + 1, a, d);
      MulDistributes(b, 1, d);
    }
  }

  /** Compact forms are ordered as the numbers they come from. */
  lemma Monotone(v: nat, w: nat)
    requires v <= w
    ensures CompactOf(v) <= CompactOf(w)
  {
    PartsExact(v);
    PartsExact(w);
    var (a, s) := Parts(v);
    var (b, t) := Parts(w);
    if t < s {
      Pow2Monotone(8 * t - (if t > 0 then 1 else 0), 8 * (s - 1) - (if s > 1 then 1 else 0));
    }
    assert s <= t;
    if s == t {
      if s <= 3 { MulMonotone(v, w, Pow2(8 * (3 - s))); } else { DivMonotone(v, w, Pow2(8 * (s - 3))); }
    } else {
      MulMonotone(s + 1, t, TWO_24);
    }
  }

  // ---------------------------------------------------------------------------------------------------------------
  // The code
  // ---------------------------------------------------------------------------------------------------------------

  /** Assignment of a 64-bit number. */
  method AssignU64(a: BaseUint, b: uint64)
    requires a.pn.Length >= 2
    modifies a.pn
    ensures a.Value() == b as int
  {
    a.Clear();
    ghost var zero := a.pn[..];
    a.pn[0] := (b % 0x1_0000_0000) as uint32;
    ghost var one := a.pn[..];
    a.pn[1] := (b / 0x1_0000_0000) as uint32;
    assert one == zero[0 := a.pn[0]] && a.pn[..] == one[1 := a.pn[1]];
    ValUpdate(zero, 0, a.pn[0]);
    ValUpdate(one, 1, a.pn[1]);
    LowWeights();
  }

  lemma LowWeights()
    ensures Weight(0) == 1 && Weight(1) == BASE && Weight(2) == BASE * BASE
  {
    assert Pow2(0) == 1;
    WeightNext(0);
    WeightNext(1);
  }

  /** The two lowest limbs; everything above weighs a multiple of 2^64. */
  method GetLow64(a: BaseUint) returns (r: uint64)
    requires a.pn.Length >= 2
    ensures a.Value() == r as int + (BASE * BASE) * Val(a.pn[2..])
    ensures a.Value() < BASE * BASE ==> r as int == a.Value()
  {
    r := a.pn[0] as uint64 + a.pn[1] as uint64 * 0x1_0000_0000;
    ghost var x := a.pn[..];
    ValSplit(x, 2);
    ValPrefix(x, 0);
    ValPrefix(x, 1);
    assert x[..0] == [] && x[2..] == a.pn[2..];
    LowWeights();
  }

  /** The value is the magnitude modulo 2^256; the overflow flag says exactly when the two differ in kind. */
  method SetCompact(a: BaseUint, nCompact: uint32) returns (negative: bool, overflow: bool)
    requires a.pn.Length == 8
    modifies a.pn
    ensures a.Value() == Magnitude(nCompact) % a.Modulus()
    ensures overflow <==> Magnitude(nCompact) >= a.Modulus()
    ensures negative <==> SignOf(nCompact) && ShiftedWord(nCompact) != 0
  {
    var nSize := nCompact as int / TWO_24;
    var nWord := nCompact as int % SIGN_BIT;
    ShiftedWordBound(nCompact);
    OverflowExact(nCompact, 32 * a.pn.Length);
    if nSize <= 3 {
      nWord := Shr(nWord, 8 * (3 - nSize));
      AssignU64(a, nWord as uint64);
      ValModulo(a.pn[..], Magnitude(nCompact), 0);
    } else {
      AssignU64(a, nWord as uint64);
      a.ShiftLeftAssign(8 * (nSize - 3));
    }
    negative := nWord != 0 && SignOf(nCompact);
    overflow := nWord != 0 && (nSize > 34 || (nWord > 0xff && nSize > 33) || (nWord > 0xffff && nSize > 32));
  }

  lemma ModSmall(x: int, m: int)
    requires 0 <= x < m
    ensures x % m == x
  {
    DivUnique(x, m, 0, x);
  }

  /** The bytes of a number of at most three, shifted up. */
  method LowBytes(a: BaseUint, nSize: nat) returns (word: nat)
    requires a.pn.Length == 8 && nSize == ByteLength(a.Value()) <= 3
    ensures word == Scaled(a.Value(), nSize) < TWO_24
  {
    ScaledSmall(a.Value(), nSize);
    var low := GetLow64(a);
    var shifted := Shl(low as int, 8 * (3 - nSize));
    ModSmall(shifted, BASE);
    word := shifted % BASE;
  }

  /** The three leading bytes of a longer number, shifted down. */
  method HighBytes(a: BaseUint, nSize: nat) returns (word: nat)
    requires a.pn.Length == 8 && nSize == ByteLength(a.Value()) > 3
    ensures word == Scaled(a.Value(), nSize) < TWO_24
  {
    ScaledSmall(a.Value(), nSize);
    var bn := new BaseUint.Copy(a);
    bn.ShiftRightAssign(8 * (nSize - 3));
    var low := GetLow64(bn);
    ModSmall(low as int, BASE);
    word := low as int % BASE;
  }

  method LeadingBytes(a: BaseUint, nSize: nat) returns (word: nat)
    requires a.pn.Length == 8 && nSize == ByteLength(a.Value())
    ensures word == Scaled(a.Value(), nSize) < TWO_24
  {
    if nSize <= 3 {
      word := LowBytes(a, nSize);
    } else {
      word := HighBytes(a, nSize);
    }
  }

  /** The compact form of the value, with the sign bit added on request for a nonzero mantissa. */
  method GetCompact(a: BaseUint, fNegative: bool) returns (nCompact: uint32)
    requires a.pn.Length == 8
    ensures CompactOf(a.Value()) < BASE
    ensures nCompact as int == CompactOf(a.Value()) + if fNegative && Parts(a.Value()).0 != 0 then SIGN_BIT else 0
  {
    ghost var v := a.Value();
    ValBound(a.pn[..]);
    ExponentBound(v, 32 * a.pn.Length);
    var bits := a.Bits();
    var nSize := (bits + 7) / 8;
    ByteLengthOfBits(v, bits);
    var word := LeadingBytes(a, nSize);
    if word >= SIGN_BIT {
      word := word / 256;
      nSize := nSize + 1;
    }
    assert (word, nSize) == Parts(v);
    assert word < SIGN_BIT && nSize < 256;
    var r := nSize * TWO_24 + word;
    nCompact := (if fNegative && word != 0 then r + SIGN_BIT else r) as uint32;
  }

  lemma ScaledSmall(v: nat, size: nat)
    requires size == ByteLength(v)
    ensures (size <= 3 ==> v < TWO_24) && Scaled(v, size) < TWO_24
  {
    ByteLengthExact(v);
    if size <= 3 {
      Pow2Monotone(8 * size, 24);
      Pow2Of(24);
    }
    if v > 0 { ScaledRange(v); }
  }

  // ---------------------------------------------------------------------------------------------------------------
  // Block proof
  // ---------------------------------------------------------------------------------------------------------------

  /** No compact target is 2^256 - 1, so adding one to it does not wrap. */
  lemma NotAllOnes(nCompact: uint32, bits: nat)
    requires bits == 256
    ensures Magnitude(nCompact) + 1 != Pow2(bits)
  {
    var nSize, w := ExponentOf(nCompact), WordOf(nCompact);
    if nSize <= 3 {
      ShiftedWordBound(nCompact);
      Pow2Of(24);
      Pow2Monotone(24, bits);
    } else {
      EvenScaled(w, 8 * (nSize - 3));
      assert Pow2(bits) == 2 * Pow2(bits - 1);
    }
  }

  lemma EvenScaled(w: nat, n: nat)
    requires n > 0
    ensures Shl(w, n) % 2 == 0
  {
    MulAssociates(w, 2, Pow2(n - 1));
    MulCommutes(w, 2);
    MulAssociates(2, w, Pow2(n - 1));
    DivUnique(Shl(w, n), 2, w * Pow2(n - 1), 0);
  }

  /** The source's detour around 2^256, which it cannot represent. */
  lemma ProofFormula(t: nat, m: nat)
    requires 0 < t && t + 1 < m
    ensures (m - 1 - t) / (t + 1) + 1 == m / (t + 1) < m
  {
    var d := t + 1;
    var q := (m - 1 - t) / d;
    assert m - 1 - t == q * d + (m - 1 - t) % d;
    MulDistributes(q, 1, d);
    DivUnique(m, d, q + 1, (m - 1 - t) % d);
    MulMonotone(2, d, q);
  }

  /** `~target / (target + 1) + 1`, with no step wrapping around and no division by zero. */
  method ProofOf(target: BaseUint) returns (work: BaseUint)
    requires 0 < target.Value() && target.Value() + 1 < target.Modulus()
    ensures fresh(work) && work.pn.Length == target.pn.Length
    ensures work.Value() == target.Modulus() / (target.Value() + 1)
  {
    ghost var t, m := target.Value(), target.Modulus();
    ProofFormula(t, m);
    work := target.Complement();
    var next := new BaseUint.Copy(target);
    next.Increment();
    DivUnique(t + 1, m, 0, t + 1);
    var thrown := work.DivAssign(next);
    work.Increment();
    MulNonNegative(m - 1 - t, 1);
    DivUnique(m / (t + 1), m, 0, m / (t + 1));
  }

  /** A target that is negative, too large or zero proves nothing; any other proves 2^256 / (target + 1) hashes. */
  method GetBlockProof(nBits: uint32) returns (work: BaseUint)
    ensures fresh(work) && work.pn.Length == 8
    ensures var t := Magnitude(nBits);
            work.Value() == if (SignOf(nBits) && t != 0) || t >= Weight(8) || t == 0 then 0 else Weight(8) / (t + 1)
  {
    var target := new BaseUint(8);
    work := new BaseUint(8);
    var negative, overflow := SetCompact(target, nBits);
    ZeroWord(nBits);
    if negative || overflow {
      return;
    }
    DivUnique(Magnitude(nBits), Weight(8), 0, Magnitude(nBits));
    var zero := new BaseUint(8);
    var c := target.CompareTo(zero);
    if c == 0 {
      return;
    }
    NotAllOnes(nBits, 32 * target.pn.Length);
    work := ProofOf(target);
  }

  lemma ZeroWord(nCompact: uint32)
    ensures Magnitude(nCompact) == 0 <==> ShiftedWord(nCompact) == 0
  {
    var nSize, w := ExponentOf(nCompact), WordOf(nCompact);
    if nSize > 3 && w > 0 { MulMonotone(1, w, Pow2(8 * (nSize - 3))); }
  }
}
