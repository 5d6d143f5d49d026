/** Encoding to and decoding from base58 text, on in-place digit buffers. */
module Base58Codec {
  import opened Wrappers
  import opened Arithmetic
  import opened Base58

  // ---------------------------------------------------------------------------------------------------------------
  // Characters
  // ---------------------------------------------------------------------------------------------------------------

  predicate IsSpace(c: char) {
    c == ' ' || c as int == 12 || c == '\n' || c == '\r' || c == '\t' || c as int == 11
  }

  /** The character of a digit. */
  function CharOf(d: nat): char
    requires d < 58
  {
    if d < 9 then '1' + d as char
    else if d < 17 then 'A' + (d - 9) as char
    else if d < 22 then 'J' + (d - 17) as char
    else if d < 33 then 'P' + (d - 22) as char
    else if d < 44 then 'a' + (d - 33) as char
    else 'm' + (d - 44) as char
  }

  /** The digit of a character, or -1. */
  function DigitOf(c: char): int {
    if '1' <= c <= '9' then c as int - '1' as int
    else if 'A' <= c <= 'H' then c as int - 'A' as int + 9
    else if 'J' <= c <= 'N' then c as int - 'J' as int + 17
    else if 'P' <= c <= 'Z' then c as int - 'P' as int + 22
    else if 'a' <= c <= 'k' then c as int - 'a' as int + 33
    else if 'm' <= c <= 'z' then c as int - 'm' as int + 44
    else -1
  }

  lemma CharExact(d: nat)
    requires d < 58
    ensures DigitOf(CharOf(d)) == d && !IsSpace(CharOf(d)) && CharOf(d) != '\0'
    ensures CharOf(d) == '1' <==> d == 0
  {
  }

  lemma DigitExact(c: char)
    ensures -1 <= DigitOf(c) < 58
    ensures DigitOf(c) != -1 ==> CharOf(DigitOf(c)) == c && !IsSpace(c)
  {
  }

  // ---------------------------------------------------------------------------------------------------------------
  // The digit buffer
  // ---------------------------------------------------------------------------------------------------------------

  lemma CarryStep(base: int, power: int, low: int, high: int, carry: int, mul: int, digit: int, add: int, total: int)
    requires base > 0 && low + carry * power == mul * high + add && total == carry + mul * digit
    ensures total % base * power + low + total / base * (base * power) == mul * (digit * power + high) + add
  {
    MulAssociates(total / base, base, power);
    MulDistributes(total / base * base, total % base, power);
    assert total == total / base * base + total % base;
    MulDistributes(carry, mul * digit, power);
    MulAssociates(mul, digit, power);
    MulDistributes(digit * power, high, mul);
  }

  lemma {:induction false} LeadingZeros(base: nat, s: seq<nat>, k: nat)
    requires k <= |s| && forall i :: 0 <= i < k ==> s[i] == 0
    ensures Num(base, s) == Num(base, s[k..])
    decreases k
  {
    if k == 0 {
      assert s[0..] == s;
    } else {
      LeadingZeros(base, s[1..], k - 1);
      assert s[1..][k - 1..] == s[k..];
    }
  }

  /** The carry that is left over is nothing when the result fits. */
  lemma NoCarry(power: int, carry: int, low: int, total: int)
    requires power > 0 && carry >= 0 && low >= 0 && low + carry * power == total < power
    ensures carry == 0
  {
    if carry >= 1 {
      MulMonotone(1, carry, power);
    }
  }

  predicate ZeroBefore(s: seq<nat>, k: int) {
    forall i :: 0 <= i < k && i < |s| ==> s[i] == 0
  }

  /** One more digit from the right: the buffer's low end is the product's low end, but for the carry. */
  ghost predicate Multiplied(base: nat, mul: nat, add: nat, was: seq<nat>, s: seq<nat>, k: nat, carry: nat) {
    && |s| == |was| && k <= |s| && Digits(base, s) && s[..k] == was[..k]
    && 0 <= carry * Pow(base, |s| - k)
    && Num(base, s[k..]) + carry * Pow(base, |s| - k) == mul * Num(base, was[k..]) + add
  }

  lemma MultipliedStep(base: nat, mul: nat, add: nat, was: seq<nat>, s: seq<nat>, k: nat, carry: nat)
    requires base > 0 && Multiplied(base, mul, add, was, s, k, carry) && k > 0
    ensures 0 <= mul * s[k - 1]
    ensures var total := carry + mul * s[k - 1];
      0 <= total / base && Multiplied(base, mul, add, was, s[k - 1 := total % base], k - 1, total / base)
  {
    MulNonNegative(mul, s[k - 1]);
    var total := carry + mul * s[k - 1];
    DivAtMost(total, base);
    var t := s[k - 1 := total % base];
    assert t[k - 1..] == [total % base] + s[k..];
    assert t[k - 1..][1..] == s[k..];
    assert was[k - 1] == was[..k][k - 1] == s[k - 1];
    assert was[k - 1..][1..] == was[k..];
    CarryStep(base, Pow(base, |s| - k), Num(base, s[k..]), Num(base, was[k..]), carry, mul, s[k - 1], add, total);
    MulNonNegative(total / base, Pow(base, |s| - k + 1));
    assert t[..k - 1] == s[..k][..k - 1];
  }

  /** Multiplies the number in the buffer and adds to it; the places beyond `length` are zero. */
  method MulAdd(buf: array<nat>, length: nat, base: nat, mul: nat, add: nat) returns (newLength: nat)
    requires base >= 2 && length <= buf.Length && Digits(base, buf[..]) && ZeroBefore(buf[..], buf.Length - length)
    requires mul * Num(base, buf[..]) + add < Pow(base, buf.Length)
    modifies buf
    ensures Digits(base, buf[..]) && Num(base, buf[..]) == mul * Num(base, old(buf[..])) + add
    ensures newLength <= buf.Length && ZeroBefore(buf[..], buf.Length - newLength)
  {
    ghost var was := buf[..];
    var k, carry := buf.Length, add;
    assert Pow(base, 0) == 1;
    assert Multiplied(base, mul, add, was, buf[..], k, carry);
    while (carry != 0 || buf.Length - k < length) && k > 0
      invariant 0 <= k <= buf.Length && carry >= 0
      invariant Multiplied(base, mul, add, was, buf[..], k, carry)
    {
      ghost var s := buf[..];
      MultipliedStep(base, mul, add, was, s, k, carry);
      var total := carry + mul * buf[k - 1];
      var digit: nat := total % base;
      buf[k - 1] := digit;
      carry := total / base;
      k := k - 1;
      assert buf[..] == s[k := digit];
    }
    FinalCarry(base, mul, add, was, buf[..], k, carry, length);
    assert carry == 0;
    newLength := buf.Length - k;
  }

  lemma FinalCarry(base: nat, mul: nat, add: nat, was: seq<nat>, s: seq<nat>, k: nat, carry: nat, length: nat)
    requires base >= 2 && Multiplied(base, mul, add, was, s, k, carry)
    requires length <= |s| && ZeroBefore(was, |s| - length) && mul * Num(base, was) + add < Pow(base, |s|)
    requires k == 0 || (carry == 0 && |s| - k >= length)
    ensures carry == 0 && Num(base, s) == mul * Num(base, was) + add && ZeroBefore(s, k)
  {
    if k == 0 {
      assert s[0..] == s && was[0..] == was;
      NoCarry(Pow(base, |s|), carry, Num(base, s), mul * Num(base, was) + add);
    } else {
      SameZeros(was, s, k);
      SameNums(base, was, s, k);
      assert carry * Pow(base, |s| - k) == 0;
    }
  }

  lemma SameNums(base: nat, was: seq<nat>, s: seq<nat>, k: nat)
    requires k <= |s| == |was| && forall i :: 0 <= i < k ==> s[i] == 0 && was[i] == 0
    ensures Num(base, s) == Num(base, s[k..]) && Num(base, was) == Num(base, was[k..])
  {
    LeadingZeros(base, s, k);
    LeadingZeros(base, was, k);
  }

  lemma SameZeros(was: seq<nat>, s: seq<nat>, k: nat)
    requires |s| == |was| && k <= |s| && s[..k] == was[..k] && ZeroBefore(was, k)
    ensures forall i :: 0 <= i < k ==> s[i] == 0 && was[i] == 0
  {
    assert forall i :: 0 <= i < k ==> s[i] == s[..k][i] && was[i] == was[..k][i];
  }

  // ---------------------------------------------------------------------------------------------------------------
  // What is encoded and decoded
  // ---------------------------------------------------------------------------------------------------------------

  function LeadingCount<T(==)>(s: seq<T>, x: T): (n: nat)
    ensures n <= |s| && (forall i :: 0 <= i < n ==> s[i] == x) && (n < |s| ==> s[n] != x)
  {
    if s != [] && s[0] == x then 1 + LeadingCount(s[1..], x) else 0
  }

  function Repeat<T>(x: T, n: nat): (s: seq<T>)
    ensures |s| == n && forall i :: 0 <= i < n ==> s[i] == x
  {
    seq(n, _ => x)
  }

  function Chars(ds: seq<nat>): (s: string)
    requires Digits(58, ds)
    ensures |s| == |ds| && forall i :: 0 <= i < |ds| ==> s[i] == CharOf(ds[i])
  {
    seq(|ds|, i requires 0 <= i < |ds| => CharOf(ds[i]))
  }

  function Encode(bytes: seq<nat>): string {
    Repeat('1', LeadingCount(bytes, 0)) + Chars(DigitsOf(58, Num(256, bytes)))
  }

  /** The number of leading characters that are, or are not, white space. */
  function SpaceCount(s: string, space: bool): (n: nat)
    ensures n <= |s| && (forall i :: 0 <= i < n ==> IsSpace(s[i]) == space) && (n < |s| ==> IsSpace(s[n]) != space)
  {
    if s != [] && IsSpace(s[0]) == space then 1 + SpaceCount(s[1..], space) else 0
  }

  predicate Valid(s: string) {
    forall i :: 0 <= i < |s| ==> DigitOf(s[i]) != -1
  }

  function DigitsIn(s: string): (ds: seq<nat>)
    requires Valid(s)
    ensures |ds| == |s| && Digits(58, ds) && forall i :: 0 <= i < |s| ==> ds[i] == DigitOf(s[i])
  {
    seq<nat>(|s|, i requires 0 <= i < |s| => DigitNumber(s[i]))
  }

  function DigitNumber(c: char): (d: nat)
    requires DigitOf(c) != -1
    ensures d < 58 && d == DigitOf(c)
  {
    DigitOf(c)
  }

  /** The bytes of a word without white space. */
  function DecodeWord(word: string): (r: seq<nat>)
    requires Valid(word)
  {
    var ones := LeadingCount(word, '1');
    Repeat(0, ones) + DigitsOf(256, Num(58, DigitsIn(word[ones..])))
  }

  /** The word in a text, between white space. */
  function Word(s: string): string {
    var rest := s[SpaceCount(s, true)..];
    rest[..SpaceCount(rest, false)]
  }

  function AfterWord(s: string): string {
    var rest := s[SpaceCount(s, true)..];
    rest[SpaceCount(rest, false)..]
  }

  /** Texts hold one valid word, and white space around it. */
  function Decode(s: string): Option<seq<nat>> {
    if '\0' in s || !Valid(Word(s)) || SpaceCount(AfterWord(s), true) != |AfterWord(s)| then None
    else Some(DecodeWord(Word(s)))
  }

  // ---------------------------------------------------------------------------------------------------------------
  // Round trips
  // ---------------------------------------------------------------------------------------------------------------

  lemma {:induction false} LeadingSplit<T>(x: T, n: nat, s: seq<T>)
    requires s != [] ==> s[0] != x
    ensures LeadingCount(Repeat(x, n) + s, x) == n && (Repeat(x, n) + s)[n..] == s
  {
    if n == 0 {
      assert Repeat(x, 0) + s == s;
    } else {
      assert (Repeat(x, n) + s)[1..] == Repeat(x, n - 1) + s;
      LeadingSplit(x, n - 1, s);
    }
  }

  lemma CharsExact(ds: seq<nat>)
    requires Digits(58, ds)
    ensures Valid(Chars(ds)) && DigitsIn(Chars(ds)) == ds
    ensures forall i :: 0 <= i < |ds| ==> !IsSpace(Chars(ds)[i]) && Chars(ds)[i] != '\0'
  {
    forall i | 0 <= i < |ds|
      ensures DigitOf(Chars(ds)[i]) == ds[i] && !IsSpace(Chars(ds)[i]) && Chars(ds)[i] != '\0'
    {
      CharExact(ds[i]);
    }
  }

  lemma DigitsInExact(s: string)
    requires Valid(s)
    ensures Chars(DigitsIn(s)) == s
  {
    forall i | 0 <= i < |s|
      ensures Chars(DigitsIn(s))[i] == s[i]
    {
      DigitExact(s[i]);
    }
  }

  lemma LeadingParts(bytes: seq<nat>, z: nat)
    requires z == LeadingCount(bytes, 0)
    ensures Repeat(0, z) + bytes[z..] == bytes && (bytes[z..] != [] ==> bytes[z..][0] != 0)
  {
    assert bytes == bytes[..z] + bytes[z..];
    assert bytes[..z] == Repeat(0, z);
  }

  /** A byte string is its leading zeros and the digits of its number. */
  lemma BytesAgain(base: nat, bytes: seq<nat>)
    requires base >= 2 && Digits(base, bytes)
    ensures Repeat(0, LeadingCount(bytes, 0)) + DigitsOf(base, Num(base, bytes)) == bytes
  {
    var z := LeadingCount(bytes, 0);
    LeadingParts(bytes, z);
    assert Num(base, bytes) == Num(base, bytes[z..]) by { LeadingZeros(base, bytes, z); }
    assert DigitsOf(base, Num(base, bytes[z..])) == bytes[z..] by { DigitsUnique(base, bytes[z..]); }
  }

  lemma DecodeWordEncode(bytes: seq<nat>)
    requires Digits(256, bytes)
    ensures Valid(Encode(bytes)) && DecodeWord(Encode(bytes)) == bytes
  {
    var z, ds := LeadingCount(bytes, 0), DigitsOf(58, Num(256, bytes));
    CharsExact(ds);
    if ds != [] {
      CharExact(ds[0]);
    }
    LeadingSplit('1', z, Chars(ds));
    NumDigits(58, Num(256, bytes));
    BytesAgain(256, bytes);
  }

  lemma WordAlone(s: string)
    requires forall i :: 0 <= i < |s| ==> !IsSpace(s[i])
    ensures Word(s) == s && AfterWord(s) == []
  {
    assert SpaceCount(s, true) == 0;
    assert s[0..] == s;
    assert SpaceCount(s, false) == |s|;
  }

  /** Decoding what was encoded gives the bytes back, for every byte string. */
  lemma DecodeEncode(bytes: seq<nat>)
    requires Digits(256, bytes)
    ensures Decode(Encode(bytes)) == Some(bytes)
  {
    DecodeWordEncode(bytes);
    var ds := DigitsOf(58, Num(256, bytes));
    CharsExact(ds);
    WordAlone(Encode(bytes));
  }

  /** Encoding what was decoded gives the text back, without the white space around it. */
  lemma EncodeDecode(s: string)
    requires Decode(s).Some?
    ensures Digits(256, Decode(s).value) && Encode(Decode(s).value) == Word(s)
  {
    var word := Word(s);
    var ones := LeadingCount(word, '1');
    var body := word[ones..];
    var ds := DigitsIn(body);
    var v := Num(58, ds);
    DigitsInExact(body);
    if ds != [] {
      CharExact(ds[0]);
      DigitExact(body[0]);
    }
    LeadingSplit(0, ones, DigitsOf(256, v));
    LeadingZeros(256, Decode(s).value, ones);
    NumDigits(256, v);
    DigitsUnique(58, ds);
    assert word == word[..ones] + body;
    assert word[..ones] == Repeat('1', ones);
  }

  // ---------------------------------------------------------------------------------------------------------------
  // The code
  // ---------------------------------------------------------------------------------------------------------------

  /** The next value of the buffer fits, because all of the input fits. */
  lemma NextFits(from: nat, base: nat, input: seq<nat>, i: nat, size: nat)
    requires from > 0 && Digits(from, input) && i < |input| && Pow(from, |input|) <= Pow(base, size)
    ensures Num(from, input[..i + 1]) == from * Num(from, input[..i]) + input[i] < Pow(base, size)
  {
    assert input[..i + 1] == input[..i] + [input[i]];
    NumSnoc(from, input[..i], input[i]);
    MulCommutes(from, Num(from, input[..i]));
    NumBound(from, input[..i + 1]);
    PowGrows(from, i + 1, |input|);
  }

  /** Writes the number of some digits into a buffer of another base, digit by digit. */
  method FillBuffer(buf: array<nat>, from: nat, base: nat, input: seq<nat>) returns (length: nat)
    requires from > 0 && base >= 2 && Digits(from, input) && Pow(from, |input|) <= Pow(base, buf.Length)
    requires forall i :: 0 <= i < buf.Length ==> buf[i] == 0
    modifies buf
    ensures Digits(base, buf[..]) && Num(base, buf[..]) == Num(from, input)
    ensures length <= buf.Length && ZeroBefore(buf[..], buf.Length - length)
  {
    length := 0;
    AllZero(base, buf[..]);
    for i := 0 to |input|
      invariant length <= buf.Length && Digits(base, buf[..]) && ZeroBefore(buf[..], buf.Length - length)
      invariant Num(base, buf[..]) == Num(from, input[..i])
    {
      NextFits(from, base, input, i, buf.Length);
      length := MulAdd(buf, length, base, from, input[i]);
    }
    assert input[..|input|] == input;
  }

  /** The digits left after the leading zeros, of which the first ones need no looking at. */
  method TakeDigits(all: seq<nat>, length: nat) returns (digits: seq<nat>)
    requires length <= |all| && ZeroBefore(all, |all| - length)
    ensures exists at :: 0 <= at <= |all| && digits == all[at..] && ZeroBefore(all, at)
    ensures digits != [] ==> digits[0] != 0
  {
    var at := |all| - length;
    while at < |all| && all[at] == 0
      invariant 0 <= at <= |all| && ZeroBefore(all, at)
    {
      at := at + 1;
    }
    digits := all[at..];
  }

  /** The digits of a number in another base, computed in a buffer of the given size. */
  method Convert(from: nat, base: nat, input: seq<nat>, size: nat) returns (digits: seq<nat>)
    requires from > 0 && base >= 2 && Digits(from, input) && Pow(from, |input|) <= Pow(base, size)
    ensures digits == DigitsOf(base, Num(from, input))
  {
    var buf := new nat[size](_ => 0);
    var length := FillBuffer(buf, from, base, input);
    var all := buf[..];
    digits := TakeDigits(all, length);
    ghost var at :| 0 <= at <= |all| && digits == all[at..] && ZeroBefore(all, at);
    LeadingZeros(base, all, at);
    DigitsUnique(base, digits);
  }

  lemma {:induction false} AllZero(base: nat, s: seq<nat>)
    requires forall i :: 0 <= i < |s| ==> s[i] == 0
    ensures Num(base, s) == 0
    decreases |s|
  {
    if s != [] { AllZero(base, s[1..]); }
  }

  method EncodeBase58(bytes: seq<nat>) returns (text: string)
    requires Digits(256, bytes)
    ensures text == Encode(bytes)
  {
    var zeroes := 0;
    while zeroes < |bytes| && bytes[zeroes] == 0
      invariant zeroes <= |bytes| && forall i :: 0 <= i < zeroes ==> bytes[i] == 0
    {
      zeroes := zeroes + 1;
    }
    LeadingUnique(bytes, 0, zeroes);
    var rest := bytes[zeroes..];
    EncodeFits(|rest|);
    LeadingZeros(256, bytes, zeroes);
    var digits := Convert(256, 58, rest, |rest| * 138 / 100 + 1);
    text := Repeat('1', zeroes);
    for i := 0 to |digits|
      invariant text == Repeat('1', zeroes) + Chars(digits)[..i]
    {
      text := text + [CharOf(digits[i])];
    }
    assert Chars(digits)[..|digits|] == Chars(digits);
  }

  lemma {:induction false} LeadingUnique<T>(s: seq<T>, x: T, n: nat)
    requires n <= |s| && (forall i :: 0 <= i < n ==> s[i] == x) && (n < |s| ==> s[n] != x)
    ensures LeadingCount(s, x) == n
  {
    if n > 0 { LeadingUnique(s[1..], x, n - 1); }
  }

  lemma {:induction false} SpacesUnique(s: string, space: bool, n: nat)
    requires n <= |s| && (forall i :: 0 <= i < n ==> IsSpace(s[i]) == space) && (n < |s| ==> IsSpace(s[n]) != space)
    ensures SpaceCount(s, space) == n
  {
    if n > 0 { SpacesUnique(s[1..], space, n - 1); }
  }

  method SkipSpaces(s: string, space: bool) returns (n: nat)
    ensures n == SpaceCount(s, space)
  {
    n := 0;
    while n < |s| && IsSpace(s[n]) == space
      invariant n <= |s| && forall i :: 0 <= i < n ==> IsSpace(s[i]) == space
    {
      n := n + 1;
    }
    SpacesUnique(s, space, n);
  }

  /** Reads the digits up to white space; nothing if one is not a digit. */
  method ReadDigits(s: string) returns (r: Option<seq<nat>>, n: nat)
    ensures r.Some? <==> Valid(s[..SpaceCount(s, false)])
    ensures r.Some? ==> n == SpaceCount(s, false) && r.value == DigitsIn(s[..n])
  {
    n := 0;
    var ds: seq<nat> := [];
    while n < |s| && !IsSpace(s[n])
      invariant n <= |s| && (forall i :: 0 <= i < n ==> !IsSpace(s[i])) && Valid(s[..n]) && ds == DigitsIn(s[..n])
    {
      if DigitOf(s[n]) == -1 {
        Unreadable(s, n);
        return None, n;
      }
      DigitExact(s[n]);
      ds := ds + [DigitNumber(s[n])];
      n := n + 1;
    }
    SpacesUnique(s, false, n);
    return Some(ds), n;
  }

  lemma Unreadable(s: string, n: nat)
    requires n < |s| && (forall i :: 0 <= i <= n ==> !IsSpace(s[i])) && DigitOf(s[n]) == -1
    ensures !Valid(s[..SpaceCount(s, false)])
  {
    var k := SpaceCount(s, false);
    assert n < k;
    assert s[..k][n] == s[n];
  }

  /** The word of a text that starts with ones goes on with what follows them. */
  lemma WordLength(rest: string, ones: nat)
    requires ones <= |rest| && forall i :: 0 <= i < ones ==> rest[i] == '1'
    ensures SpaceCount(rest, false) == ones + SpaceCount(rest[ones..], false)
  {
    var body := rest[ones..];
    var k := SpaceCount(body, false);
    forall i | 0 <= i < ones + k
      ensures !IsSpace(rest[i])
    {
      assert i >= ones ==> rest[i] == body[i - ones];
    }
    assert k < |body| ==> rest[ones + k] == body[k];
    SpacesUnique(rest, false, ones + k);
  }

  lemma WordOnes(word: string, ones: nat)
    requires ones <= |word| && (forall i :: 0 <= i < ones ==> word[i] == '1') && (ones < |word| ==> word[ones] != '1')
    ensures Valid(word) <==> Valid(word[ones..])
    ensures Valid(word) ==> DecodeWord(word) == Repeat(0, ones) + DigitsOf(256, Num(58, DigitsIn(word[ones..])))
  {
    LeadingUnique(word, '1', ones);
    assert forall i :: 0 <= i < ones ==> DigitOf(word[i]) == 0;
    assert forall i :: 0 <= i < |word| - ones ==> word[ones..][i] == word[i + ones];
    assert forall i :: ones <= i < |word| ==> word[i] == word[ones..][i - ones];
  }

  /** The parts of a text in the order of the code: white space, ones, other characters, the rest. */
  lemma WordInParts(s: string, ones: nat)
    requires var rest := s[SpaceCount(s, true)..];
      ones <= |rest| && (forall i :: 0 <= i < ones ==> rest[i] == '1') && (ones < |rest| ==> rest[ones] != '1')
    ensures var body := s[SpaceCount(s, true)..][ones..];
      var word, k := Word(s), SpaceCount(body, false);
      && ones <= |word| && (forall i :: 0 <= i < ones ==> word[i] == '1') && (ones < |word| ==> word[ones] != '1')
      && word[ones..] == body[..k] && AfterWord(s) == body[k..]
  {
    var rest := s[SpaceCount(s, true)..];
    var body := rest[ones..];
    var k := SpaceCount(body, false);
    WordLength(rest, ones);
    SliceParts(rest, ones, k);
  }

  lemma SliceParts(s: string, a: nat, k: nat)
    requires a + k <= |s|
    ensures s[..a + k][a..] == s[a..][..k] && s[a + k..] == s[a..][k..]
  {
  }

  method DecodeBase58(s: string) returns (r: Option<seq<nat>>)
    ensures r == Decode(s)
  {
    if '\0' in s {
      return None;
    }
    var lead := SkipSpaces(s, true);
    var rest := s[lead..];
    var zeroes := 0;
    while zeroes < |rest| && rest[zeroes] == '1'
      invariant 0 <= zeroes <= |rest| && forall i :: 0 <= i < zeroes ==> rest[i] == '1'
    {
      zeroes := zeroes + 1;
    }
    WordInParts(s, zeroes);
    WordOnes(Word(s), zeroes);
    var body := rest[zeroes..];
    var digits, n := ReadDigits(body);
    if digits.None? {
      return None;
    }
    var trail := SkipSpaces(body[n..], true);
    if trail != |body[n..]| {
      return None;
    }
    var bytes := ConvertWord(digits.value, |body|);
    return Some(Repeat(0, zeroes) + bytes);
  }

  method ConvertWord(digits: seq<nat>, length: nat) returns (bytes: seq<nat>)
    requires Digits(58, digits) && |digits| <= length
    ensures bytes == DigitsOf(256, Num(58, digits))
  {
    DecodeFits(length);
    PowGrows(58, |digits|, length);
    bytes := Convert(58, 256, digits, length * 733 / 1000 + 1);
  }
}
