/**
 Base58: byte strings as numbers written with 58 characters, leading zero bytes kept as leading '1's.
 */
module Base58 {
  import opened Arithmetic

  // ---------------------------------------------------------------------------------------------------------------
  // Numbers in a base
  // ---------------------------------------------------------------------------------------------------------------

  function Pow(b: nat, e: nat): (r: nat)
    ensures b > 0 ==> r > 0
  {
    if e == 0 then 1 else
    MulNonNegative(b, Pow(b, e - 1));
    b * Pow(b, e - 1)
  }

  lemma {:induction false} PowAdd(b: nat, m: nat, n: nat)
    ensures Pow(b, m + n) == Pow(b, m) * Pow(b, n)
  {
    if m > 0 {
      PowAdd(b, m - 1, n);
      MulAssociates(b, Pow(b, m - 1), Pow(b, n));
    }
  }

  predicate Digits(base: nat, s: seq<nat>) {
    forall i :: 0 <= i < |s| ==> s[i] < base
  }

  /** The number that a sequence of digits stands for, highest first. */
  function Num(base: nat, s: seq<nat>): nat {
    if s == [] then 0 else
    MulNonNegative(s[0], Pow(base, |s| - 1));
    s[0] * Pow(base, |s| - 1) + Num(base, s[1..])
  }

  lemma {:induction false} NumBound(base: nat, s: seq<nat>)
    requires Digits(base, s) && base > 0
    ensures Num(base, s) < Pow(base, |s|)
    decreases |s|
  {
    if s != [] {
      NumBound(base, s[1..]);
      MulMonotone(s[0], base - 1, Pow(base, |s| - 1));
      MulDistributes(base - 1, 1, Pow(base, |s| - 1));
    }
  }

  lemma {:induction false} NumSnoc(base: nat, s: seq<nat>, d: nat)
    ensures Num(base, s + [d]) == Num(base, s) * base + d
    decreases |s|
  {
    if s == [] {
      assert Pow(base, 0) == 1;
      assert Num(base, [d]) == d * 1 + Num(base, [d][1..]);
    } else {
      assert (s + [d])[1..] == s[1..] + [d];
      NumSnoc(base, s[1..], d);
      ShiftTerm(s[0], base, Pow(base, |s| - 1), Num(base, s[1..]));
    }
  }

  lemma ShiftTerm(x: int, b: int, p: int, n: int)
    ensures (x * p + n) * b == x * (b * p) + n * b
  {
    MulDistributes(x * p, n, b);
    MulAssociates(x, p, b);
    MulCommutes(p, b);
  }

  /** The digits of a number, without leading zeros. */
  function DigitsOf(base: nat, v: nat): (s: seq<nat>)
    requires base >= 2
    ensures Digits(base, s) && (s != [] ==> s[0] != 0)
  {
    if v == 0 then [] else
    Smaller(v, base);
    DigitsOf(base, v / base) + [v % base]
  }

  lemma Smaller(v: nat, base: nat)
    requires base >= 2 && v > 0
    ensures 0 <= v / base < v
    ensures v / base == 0 ==> v % base == v
  {
    DivAtMost(v, base);
    Quotient(v, base);
    MulMonotone(2, base, v / base);
    MulCommutes(base, v / base);
  }

  lemma Quotient(v: int, base: int)
    requires base > 0
    ensures v == v / base * base + v % base
  {
  }

  lemma {:induction false} NumDigits(base: nat, v: nat)
    requires base >= 2
    ensures Num(base, DigitsOf(base, v)) == v
    decreases v
  {
    if v > 0 {
      Smaller(v, base);
      NumDigits(base, v / base);
      NumSnoc(base, DigitsOf(base, v / base), v % base);
      Quotient(v, base);
    }
  }

  /** A number has one sequence of digits without leading zeros. */
  lemma {:induction false} DigitsUnique(base: nat, s: seq<nat>)
    requires base >= 2 && Digits(base, s) && (s != [] ==> s[0] != 0)
    ensures DigitsOf(base, Num(base, s)) == s
    decreases |s|
  {
    if s != [] {
      var init, last := s[..|s| - 1], s[|s| - 1];
      assert s == init + [last];
      NumSnoc(base, init, last);
      DivUnique(Num(base, s), base, Num(base, init), last);
      if init != [] {
        assert init[0] == s[0];
      }
      DigitsUnique(base, init);
      NumPositive(base, s);
    }
  }

  lemma NumPositive(base: nat, s: seq<nat>)
    requires base > 0 && s != [] && s[0] != 0
    ensures Num(base, s) > 0
  {
    MulMonotone(1, s[0], Pow(base, |s| - 1));
  }

  // ---------------------------------------------------------------------------------------------------------------
  // The buffers are large enough
  // ---------------------------------------------------------------------------------------------------------------

  lemma PowTimes(a: nat, b: nat, k: nat, l: nat, m: nat, n: nat)
    requires Pow(a, k) <= Pow(b, l) && Pow(a, m) <= Pow(b, n)
    ensures Pow(a, k + m) <= Pow(b, l + n)
  {
    PowAdd(a, k, m);
    PowAdd(b, l, n);
    MulMonotone(Pow(a, k), Pow(b, l), Pow(a, m));
    MulMonotone(Pow(a, m), Pow(b, n), Pow(b, l));
    MulCommutes(Pow(b, l), Pow(a, m));
    MulCommutes(Pow(b, l), Pow(b, n));
  }

  lemma {:induction false} PowRepeated(a: nat, b: nat, k: nat, l: nat, times: nat)
    requires Pow(a, k) <= Pow(b, l)
    ensures 0 <= k * times && 0 <= l * times && Pow(a, k * times) <= Pow(b, l * times)
  {
    MulNonNegative(k, times);
    MulNonNegative(l, times);
    if times > 0 {
      PowRepeated(a, b, k, l, times - 1);
      PowTimes(a, b, k * (times - 1), l * (times - 1), k, l);
      assert k * (times - 1) + k == k * times && l * (times - 1) + l == l * times;
    }
  }

  lemma {:induction false} PowGrows(b: nat, m: nat, n: nat)
    requires b > 0 && m <= n
    ensures Pow(b, m) <= Pow(b, n)
  {
    if m < n {
      PowGrows(b, m, n - 1);
      MulMonotone(1, b, Pow(b, n - 1));
    }
  }

  lemma PowOne(b: nat)
    ensures Pow(b, 0) == 1 && Pow(b, 1) == b
  {
    assert Pow(b, 0) == 1;
    assert Pow(b, 1) == b * 1;
  }

  lemma Powers58()
    ensures Pow(58, 5) == 656356768 && Pow(58, 10) == 430804206899405824
    ensures Pow(58, 20) == 185592264682226060569122324245118976
  {
    assert Pow(58, 5) == 656356768;
    PowAdd(58, 5, 5);
    PowAdd(58, 10, 10);
  }

  lemma Powers256()
    ensures Pow(256, 4) == 0x1_0000_0000 && Pow(256, 8) == 0x1_0000_0000_0000_0000
  {
    assert Pow(256, 4) == 0x1_0000_0000;
    PowAdd(256, 4, 4);
  }

  /** Eight bytes fit in eleven base58 digits. */
  lemma EightBytes()
    ensures Pow(256, 8) <= Pow(58, 11)
  {
    Powers256();
    Powers58();
    PowOne(58);
    PowAdd(58, 10, 1);
  }

  /** Fifteen base58 digits fit in eleven bytes. */
  lemma FifteenDigits()
    ensures Pow(58, 15) <= Pow(256, 11)
  {
    Powers58();
    PowAdd(58, 10, 5);
    Powers256();
    assert Pow(256, 3) == 0x1_00_00_00;
    PowAdd(256, 8, 3);
  }

  /** Products of known powers; exponents are variables so that the powers are not computed term by term. */
  lemma PowProduct(b: nat, m: nat, n: nat, x: nat, y: nat)
    requires Pow(b, m) == x && Pow(b, n) == y
    ensures Pow(b, m + n) == x * y
  {
    PowAdd(b, m, n);
  }

  /** 58^35 and 256^13. */
  const DIGITS_35: nat := 52478302028992644968172978478148648556151605660894866578604032
  const BYTES_13: nat := 0x1_0000_0000_0000_0000_0000_0000_00

  lemma Power35(e: nat)
    requires e == 35
    ensures Pow(58, e) == DIGITS_35
  {
    Powers58();
    PowProduct(58, 20, 10, Pow(58, 20), Pow(58, 10));
    PowProduct(58, 30, 5, 79953928393091004080532279173738402825689466587316224, Pow(58, 5));
  }

  lemma Power71(e: nat)
    requires e == 35
    ensures Pow(58, e + e + 1) == DIGITS_35 * DIGITS_35 * 58
  {
    Power35(e);
    PowProduct(58, e, e, DIGITS_35, DIGITS_35);
    PowOne(58);
    PowProduct(58, e + e, 1, DIGITS_35 * DIGITS_35, 58);
  }

  lemma Power13(e: nat)
    requires e == 13
    ensures Pow(256, e) == BYTES_13
  {
    Powers256();
    PowProduct(256, 8, 4, Pow(256, 8), Pow(256, 4));
    PowOne(256);
    PowProduct(256, 12, 1, Pow(256, 12), 256);
  }

  lemma Power52(e: nat)
    requires e == 13
    ensures Pow(256, e + e + (e + e)) == BYTES_13 * BYTES_13 * (BYTES_13 * BYTES_13)
  {
    Power13(e);
    PowProduct(256, e, e, BYTES_13, BYTES_13);
    PowProduct(256, e + e, e + e, BYTES_13 * BYTES_13, BYTES_13 * BYTES_13);
  }

  /** Seventy-one base58 digits fit in fifty-two bytes. */
  lemma SeventyOneDigits(m: nat, n: nat)
    requires m == 71 && n == 52
    ensures Pow(58, m) <= Pow(256, n)
  {
    Power71(35);
    Power52(13);
  }

  /** The bytes that fewer than fifteen base58 digits need. */
  function BytesFor(d: nat): nat { if d == 0 then 0 else (733 * d - 20) / 1000 + 1 }

  /** Small powers of 58 and of 256. */
  function Power58(d: nat): nat
    requires d <= 10
  {
    match d
    case 0 => 1 case 1 => 58 case 2 => 3364 case 3 => 195112 case 4 => 11316496 case 5 => 656356768
    case 6 => 38068692544 case 7 => 2207984167552 case 8 => 128063081718016 case 9 => 7427658739644928
    case _ => 430804206899405824
  }

  function Power256(b: nat): nat
    requires b <= 7
  {
    match b
    case 0 => 0x1 case 1 => 0x100 case 2 => 0x1_0000 case 3 => 0x100_0000 case 4 => 0x1_0000_0000
    case 5 => 0x100_0000_0000 case 6 => 0x1_0000_0000_0000 case _ => 0x100_0000_0000_0000
  }

  lemma {:induction false} Power58Exact(d: nat)
    requires d <= 10
    ensures Pow(58, d) == Power58(d)
  {
    if d > 0 { Power58Exact(d - 1); }
  }

  lemma {:induction false} Power256Exact(b: nat)
    requires b <= 7
    ensures Pow(256, b) == Power256(b)
  {
    if b > 0 { Power256Exact(b - 1); }
  }

  lemma FewDigits(d: nat)
    requires d < 8
    ensures Pow(58, d) <= Pow(256, BytesFor(d))
  {
    Power58Exact(d);
    Power256Exact(BytesFor(d));
  }

  lemma SmallDigits(d: nat)
    requires d < 15
    ensures Pow(58, d) <= Pow(256, BytesFor(d))
  {
    if d < 8 {
      FewDigits(d);
    } else {
      MoreDigits(d - 8, 8, 6);
    }
  }

  lemma ProductsFit(d: nat)
    requires d < 7
    ensures 6 <= BytesFor(8 + d) <= 13 && Power58(8) * Power58(d) <= Power256(6) * Power256(BytesFor(8 + d) - 6)
  {
  }

  /** Eight digits more, and six bytes more. */
  lemma MoreDigits(d: nat, eight: nat, six: nat)
    requires d < 7 && eight == 8 && six == 6
    ensures Pow(58, eight + d) <= Pow(256, six + (BytesFor(8 + d) - 6))
  {
    ProductsFit(d);
    var bytes := BytesFor(8 + d) - 6;
    Power58Exact(d);
    Power58Exact(eight);
    Power256Exact(bytes);
    Power256Exact(six);
    PowAdd(58, eight, d);
    PowAdd(256, six, bytes);
  }

  lemma SmallBytes(b: nat)
    requires b < 8
    ensures Pow(256, b) <= Pow(58, b * 138 / 100 + 1)
  {
    Power256Exact(b);
    Power58Exact(b * 138 / 100 + 1);
  }

  lemma PowWithin(x: nat, y: nat, k: nat, l: nat, m: nat, n: nat, spare: nat)
    requires Pow(x, k) <= Pow(y, l) && Pow(x, m) <= Pow(y, n) && y > 0
    ensures Pow(x, k + m) <= Pow(y, l + n + spare)
  {
    var low, mid, high := Pow(x, k + m), Pow(y, l + n), Pow(y, l + n + spare);
    assert low <= mid by { PowTimes(x, y, k, l, m, n); }
    assert mid <= high by { PowGrows(y, l + n, l + n + spare); }
  }

  lemma Groups8(a: nat)
    ensures Pow(256, 8 * a) <= Pow(58, 11 * a)
  {
    EightBytes();
    PowRepeated(256, 58, 8, 11, a);
  }

  lemma Groups15(c: nat)
    ensures Pow(58, 15 * c) <= Pow(256, 11 * c)
  {
    FifteenDigits();
    PowRepeated(58, 256, 15, 11, c);
  }

  lemma Groups71(a: nat, k: nat, l: nat, ka: nat, la: nat)
    requires k == 71 && l == 52 && ka == 71 * a && la == 52 * a
    ensures Pow(58, ka) <= Pow(256, la)
  {
    SeventyOneDigits(k, l);
    PowRepeated(58, 256, k, l, a);
  }

  /** The base58 buffer holds every number of `n` bytes. */
  lemma EncodeFits(n: nat)
    ensures Pow(256, n) <= Pow(58, n * 138 / 100 + 1)
  {
    var a, b := n / 8, n % 8;
    BytesWithin(a, b, 8 * a + b, 11 * a + (b * 138 / 100 + 1), n * 138 / 100 + 1 - (11 * a + (b * 138 / 100 + 1)));
  }

  lemma BytesWithin(a: nat, b: nat, e: nat, used: nat, spare: nat)
    requires b < 8 && e == 8 * a + b && used == 11 * a + (b * 138 / 100 + 1)
    ensures Pow(256, e) <= Pow(58, used + spare)
  {
    Groups8(a);
    SmallBytes(b);
    PowWithin(256, 58, 8 * a, 11 * a, b, b * 138 / 100 + 1, spare);
  }

  lemma MediumWithin(c: nat, d: nat, e: nat, used: nat, spare: nat)
    requires d < 15 && e == 15 * c + d && used == 11 * c + BytesFor(d)
    ensures Pow(58, e) <= Pow(256, used + spare)
  {
    Groups15(c);
    SmallDigits(d);
    PowWithin(58, 256, 15 * c, 11 * c, d, BytesFor(d), spare);
  }

  lemma MediumRoom(c: nat, d: nat)
    requires c <= 4 && d < 15
    ensures 11 * c + BytesFor(d) <= (15 * c + d) * 733 / 1000 + 1
  {
  }

  lemma MediumDigits(b: nat)
    requires b < 71
    ensures Pow(58, b) <= Pow(256, b * 733 / 1000 + 1)
  {
    var c, d := b / 15, b % 15;
    MediumRoom(c, d);
    MediumWithin(c, d, b, 11 * c + BytesFor(d), b * 733 / 1000 + 1 - (11 * c + BytesFor(d)));
  }

  lemma ManyWithin(a: nat, b: nat, ka: nat, la: nat, spare: nat)
    requires b < 71 && ka == 71 * a && la == 52 * a
    ensures Pow(58, ka + b) <= Pow(256, la + (b * 733 / 1000 + 1) + spare)
  {
    Groups71(a, 71, 52, ka, la);
    MediumDigits(b);
    PowWithin(58, 256, ka, la, b, b * 733 / 1000 + 1, spare);
  }

  /** The byte buffer holds every number of `n` base58 digits. */
  lemma DecodeFits(n: nat)
    ensures Pow(58, n) <= Pow(256, n * 733 / 1000 + 1)
  {
    var a, b := n / 71, n % 71;
    ManyWithin(a, b, 71 * a, 52 * a, n * 733 / 1000 - (52 * a + b * 733 / 1000));
  }
}
