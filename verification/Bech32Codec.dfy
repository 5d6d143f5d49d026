/** Bech32 strings (`bech32::Encode`, `bech32::Decode`), section "Bech32" of BIP 173. */
module Bech32Codec {
  import opened Wrappers
  import opened Arithmetic
  import opened Words
  import opened Bech32

  /** `CHARSET`: the character of each value. */
  function CharOf(v: nat): char
    requires v < 32
  {
    match v
    case 0 => 'q' case 1 => 'p' case 2 => 'z' case 3 => 'r'
    case 4 => 'y' case 5 => '9' case 6 => 'x' case 7 => '8'
    case 8 => 'g' case 9 => 'f' case 10 => '2' case 11 => 't'
    case 12 => 'v' case 13 => 'd' case 14 => 'w' case 15 => '0'
    case 16 => 's' case 17 => '3' case 18 => 'j' case 19 => 'n'
    case 20 => '5' case 21 => '4' case 22 => 'k' case 23 => 'h'
    case 24 => 'c' case 25 => 'e' case 26 => '6' case 27 => 'm'
    case 28 => 'u' case 29 => 'a' case 30 => '7' case _ => 'l'
  }

  /** `CHARSET_REV`: the value of each character, upper or lower case, or -1. */
  function RevOf(c: char): int {
    match c
    case 'q' => 0 case 'Q' => 0 case 'p' => 1 case 'P' => 1
    case 'z' => 2 case 'Z' => 2 case 'r' => 3 case 'R' => 3
    case 'y' => 4 case 'Y' => 4 case '9' => 5 case 'x' => 6
    case 'X' => 6 case '8' => 7 case 'g' => 8 case 'G' => 8
    case 'f' => 9 case 'F' => 9 case '2' => 10 case 't' => 11
    case 'T' => 11 case 'v' => 12 case 'V' => 12 case 'd' => 13
    case 'D' => 13 case 'w' => 14 case 'W' => 14 case '0' => 15
    case 's' => 16 case 'S' => 16 case '3' => 17 case 'j' => 18
    case 'J' => 18 case 'n' => 19 case 'N' => 19 case '5' => 20
    case '4' => 21 case 'k' => 22 case 'K' => 22 case 'h' => 23
    case 'H' => 23 case 'c' => 24 case 'C' => 24 case 'e' => 25
    case 'E' => 25 case '6' => 26 case 'm' => 27 case 'M' => 27
    case 'u' => 28 case 'U' => 28 case 'a' => 29 case 'A' => 29
    case '7' => 30 case 'l' => 31 case 'L' => 31 case _ => -1
  }

  predicate IsLower(c: char) { 'a' <= c <= 'z' }

  predicate IsUpper(c: char) { 'A' <= c <= 'Z' }

  predicate Printable(c: char) { 33 <= c as int <= 126 }

  function LowerCase(c: char): char {
    if IsUpper(c) then (c as int - 'A' as int + 'a' as int) as char else c
  }

  /** Both tables agree: every value has one printable, lower-case character that is not the separator. */
  lemma CharsetExact(v: nat)
    requires v < 32
    ensures var c := CharOf(v); Printable(c) && !IsUpper(c) && c != '1' && RevOf(c) == v
  {
  }

  /** Reading the reverse table backwards: a character with a value is, in lower case, that value's character. */
  lemma CharsetReverse(c: char)
    requires RevOf(c) != -1
    ensures 0 <= RevOf(c) < 32 && CharOf(RevOf(c)) == LowerCase(c) && c != '1'
  {
  }

  // ---------------------------------------------------------------------------------------------------------------
  // Values and groups of bits
  // ---------------------------------------------------------------------------------------------------------------

  predicate Values(v: seq<nat>) {
    forall i :: 0 <= i < |v| ==> v[i] < 32
  }

  /** The `n` low bits of a number, lowest first. */
  function LowBits(v: nat, n: nat): (d: Word)
    ensures |d| == n
  {
    if n == 0 then [] else [v % 2 == 1] + LowBits(v / 2, n - 1)
  }

  function WordValue(d: Word): (v: nat)
    ensures v < Pow2(|d|)
  {
    if d == [] then 0 else (if d[0] then 1 else 0) + 2 * WordValue(d[1..])
  }

  lemma {:induction false} WordValueExact(v: nat, n: nat)
    requires v < Pow2(n)
    ensures WordValue(LowBits(v, n)) == v
  {
    if n > 0 {
      WordValueExact(v / 2, n - 1);
      assert LowBits(v, n)[1..] == LowBits(v / 2, n - 1);
    }
  }

  lemma {:induction false} LowBitsExact(d: Word)
    ensures LowBits(WordValue(d), |d|) == d
    decreases |d|
  {
    if d != [] {
      LowBitsExact(d[1..]);
      assert WordValue(d) / 2 == WordValue(d[1..]);
    }
  }

  function GroupOf(v: nat): (d: Word)
    ensures Group(d)
  {
    LowBits(v, 5)
  }

  function ValueOf(d: Word): (v: nat)
    requires Group(d)
    ensures v < 32
  {
    assert Pow2(5) == 32;
    WordValue(d)
  }

  lemma ValueExact(v: nat)
    requires v < 32
    ensures ValueOf(GroupOf(v)) == v
  {
    assert Pow2(5) == 32;
    WordValueExact(v, 5);
  }

  lemma GroupExact(d: Word)
    requires Group(d)
    ensures GroupOf(ValueOf(d)) == d
  {
    LowBitsExact(d);
  }

  function ToGroups(v: seq<nat>): (ds: seq<Word>)
    ensures |ds| == |v| && Groups(ds)
  {
    seq(|v|, i requires 0 <= i < |v| => GroupOf(v[i]))
  }

  function ToValues(ds: seq<Word>): (v: seq<nat>)
    requires Groups(ds)
    ensures |v| == |ds| && Values(v)
  {
    seq(|ds|, i requires 0 <= i < |ds| => ValueOf(ds[i]))
  }

  lemma GroupsExact(ds: seq<Word>)
    requires Groups(ds)
    ensures ToGroups(ToValues(ds)) == ds
  {
    forall i | 0 <= i < |ds| ensures ToGroups(ToValues(ds))[i] == ds[i] {
      GroupExact(ds[i]);
    }
  }

  lemma ValuesExact(v: seq<nat>)
    requires Values(v)
    ensures ToValues(ToGroups(v)) == v
  {
    forall i | 0 <= i < |v| ensures ToValues(ToGroups(v))[i] == v[i] {
      ValueExact(v[i]);
    }
  }

  lemma ToGroupsConcat(v: seq<nat>, w: seq<nat>)
    ensures ToGroups(v + w) == ToGroups(v) + ToGroups(w)
  {
  }

  // ---------------------------------------------------------------------------------------------------------------
  // Checksums of values
  // ---------------------------------------------------------------------------------------------------------------

  /** High bits of the characters, a zero, low bits. */
  function ExpandHRP(hrp: string): seq<nat> {
    seq(|hrp|, i requires 0 <= i < |hrp| => hrp[i] as int / 32) + [0] +
    seq(|hrp|, i requires 0 <= i < |hrp| => hrp[i] as int % 32)
  }

  predicate VerifyChecksum(hrp: string, values: seq<nat>) {
    Verifies(ToGroups(ExpandHRP(hrp) + values))
  }

  function CreateChecksum(hrp: string, values: seq<nat>): (r: seq<nat>)
    ensures |r| == 6 && Values(r)
  {
    ToValues(Checksum(ToGroups(ExpandHRP(hrp) + values)))
  }

  lemma CreatedVerifies(hrp: string, values: seq<nat>)
    ensures VerifyChecksum(hrp, values + CreateChecksum(hrp, values))
  {
    var ds := ToGroups(ExpandHRP(hrp) + values);
    ChecksumVerifies(ds);
    GroupsExact(Checksum(ds));
    ToGroupsConcat(ExpandHRP(hrp) + values, CreateChecksum(hrp, values));
    assert ExpandHRP(hrp) + (values + CreateChecksum(hrp, values))
           == ExpandHRP(hrp) + values + CreateChecksum(hrp, values);
  }

  /** Only the created checksum verifies. */
  lemma VerifiedIsCreated(hrp: string, values: seq<nat>)
    requires Values(values) && |values| >= 6 && VerifyChecksum(hrp, values)
    ensures var n := |values| - 6; values[n..] == CreateChecksum(hrp, values[..n])
  {
    var n := |values| - 6;
    var body, chk := values[..n], values[n..];
    assert ExpandHRP(hrp) + values == (ExpandHRP(hrp) + body) + chk;
    ToGroupsConcat(ExpandHRP(hrp) + body, chk);
    ChecksumUnique(ToGroups(ExpandHRP(hrp) + body), ToGroups(chk));
    ValuesExact(chk);
  }

  lemma BurstInParts(p: seq<nat>, x: seq<nat>, y: seq<nat>, t: seq<nat>)
    requires Values(x) && Values(y) && |x| == |y| <= 6 && x != y
    ensures !(Verifies(ToGroups(p + x + t)) && Verifies(ToGroups(p + y + t)))
  {
    ToGroupsConcat(p + x, t);
    ToGroupsConcat(p, x);
    ToGroupsConcat(p + y, t);
    ToGroupsConcat(p, y);
    ValuesExact(x);
    ValuesExact(y);
    BurstDetected(One(), ToGroups(p), ToGroups(x), ToGroups(y), ToGroups(t));
  }

  /** Two value lists of equal length that differ only within six consecutive positions never both verify. */
  lemma BurstNeverVerifies(hrp: string, v: seq<nat>, w: seq<nat>, at: nat)
    requires Values(v) && Values(w) && |v| == |w| && v != w
    requires forall i :: 0 <= i < |v| && !(at <= i < at + 6) ==> v[i] == w[i]
    ensures !(VerifyChecksum(hrp, v) && VerifyChecksum(hrp, w))
  {
    var lo := if at < |v| then at else |v|;
    var hi := if at + 6 < |v| then at + 6 else |v|;
    var x, y, t := v[lo..hi], w[lo..hi], v[hi..];
    assert v == v[..lo] + x + t;
    assert w == v[..lo] + y + t;
    var p := ExpandHRP(hrp) + v[..lo];
    assert ExpandHRP(hrp) + v == p + x + t;
    assert ExpandHRP(hrp) + w == p + y + t;
    BurstInParts(p, x, y, t);
  }

  // ---------------------------------------------------------------------------------------------------------------
  // Strings
  // ---------------------------------------------------------------------------------------------------------------

  function Chars(v: seq<nat>): (s: string)
    requires Values(v)
    ensures |s| == |v|
  {
    seq(|v|, i requires 0 <= i < |v| => CharOf(v[i]))
  }

  function Encode(hrp: string, values: seq<nat>): string
    requires Values(values)
  {
    hrp + "1" + Chars(values + CreateChecksum(hrp, values))
  }

  /** The position of the last separator before `n`, or -1. */
  function LastOne(s: string, n: nat): (r: int)
    requires n <= |s|
    ensures -1 <= r < n && (r >= 0 ==> s[r] == '1') && forall i :: r < i < n ==> s[i] != '1'
  {
    if n == 0 then -1 else if s[n - 1] == '1' then n - 1 else LastOne(s, n - 1)
  }

  predicate CharsOk(s: string) {
    && (forall i :: 0 <= i < |s| ==> Printable(s[i]))
    && !((exists i :: 0 <= i < |s| && IsLower(s[i])) && (exists i :: 0 <= i < |s| && IsUpper(s[i])))
  }

  function RevAll(s: string): seq<int> {
    seq(|s|, i requires 0 <= i < |s| => RevOf(s[i]))
  }

  function LowerAll(s: string): (r: string)
    ensures |r| == |s|
  {
    seq(|s|, i requires 0 <= i < |s| => LowerCase(s[i]))
  }

  lemma RevAllValues(s: string)
    requires -1 !in RevAll(s)
    ensures forall i :: 0 <= i < |s| ==> 0 <= RevAll(s)[i] < 32
  {
    forall i | 0 <= i < |s| ensures 0 <= RevAll(s)[i] < 32 {
      assert RevAll(s)[i] in RevAll(s);
      CharsetReverse(s[i]);
    }
  }

  function DataOf(s: string): (v: seq<nat>)
    requires -1 !in RevAll(s)
    ensures |v| == |s| && Values(v) && forall i :: 0 <= i < |s| ==> v[i] == RevOf(s[i])
  {
    RevAllValues(s);
    seq(|s|, i requires 0 <= i < |s| => RevAll(s)[i])
  }

  /** Everything `Decode` asks for before the checksum. */
  predicate WellFormed(s: string) {
    var pos := LastOne(s, |s|);
    CharsOk(s) && |s| <= 90 && pos > 0 && pos + 7 <= |s| && -1 !in RevAll(s[pos + 1..])
  }

  function Decode(s: string): Option<(string, seq<nat>)> {
    if !WellFormed(s) then None else
    var pos := LastOne(s, |s|);
    var values := DataOf(s[pos + 1..]);
    var hrp := LowerAll(s[..pos]);
    if VerifyChecksum(hrp, values) then Some((hrp, values[..|values| - 6])) else None
  }

  // ---------------------------------------------------------------------------------------------------------------
  // Round trips
  // ---------------------------------------------------------------------------------------------------------------

  lemma LowerAllFixed(s: string)
    requires forall i :: 0 <= i < |s| ==> !IsUpper(s[i])
    ensures LowerAll(s) == s
  {
  }

  lemma CharsFacts(v: seq<nat>)
    requires Values(v)
    ensures forall i :: 0 <= i < |v| ==> Printable(Chars(v)[i]) && !IsUpper(Chars(v)[i]) && Chars(v)[i] != '1'
    ensures RevAll(Chars(v)) == v && -1 !in RevAll(Chars(v)) && DataOf(Chars(v)) == v
  {
    forall i | 0 <= i < |v|
      ensures Printable(Chars(v)[i]) && !IsUpper(Chars(v)[i]) && Chars(v)[i] != '1' && RevAll(Chars(v))[i] == v[i]
    {
      CharsetExact(v[i]);
    }
  }

  lemma LastOneIs(s: string, n: nat, pos: nat)
    requires pos < n <= |s| && s[pos] == '1' && forall i :: pos < i < n ==> s[i] != '1'
    ensures LastOne(s, n) == pos
  {
  }

  /** The characters of `hrp + "1" + data`, and where it is cut apart again. */
  lemma Joined(hrp: string, data: string)
    requires forall i :: 0 <= i < |data| ==> data[i] != '1'
    ensures var s := hrp + "1" + data;
            && |s| == |hrp| + 1 + |data| && LastOne(s, |s|) == |hrp|
            && s[..|hrp|] == hrp && s[|hrp| + 1..] == data
  {
    var s := hrp + "1" + data;
    forall i | |hrp| < i < |s| ensures s[i] != '1' {
      assert s[i] == data[i - |hrp| - 1];
    }
    LastOneIs(s, |s|, |hrp|);
  }

  lemma JoinedChars(hrp: string, data: string)
    requires forall i :: 0 <= i < |hrp| ==> !IsUpper(hrp[i])
    requires forall i :: 0 <= i < |data| ==> Printable(data[i]) && !IsUpper(data[i])
    ensures CharsOk(hrp + "1" + data) <==> forall i :: 0 <= i < |hrp| ==> Printable(hrp[i])
  {
    var s := hrp + "1" + data;
    forall i | 0 <= i < |s|
      ensures !IsUpper(s[i]) && (i >= |hrp| ==> Printable(s[i])) && (i < |hrp| ==> s[i] == hrp[i])
    {
      if i > |hrp| { assert s[i] == data[i - |hrp| - 1]; }
    }
  }

  /**
   Decoding what was encoded gives it back exactly when the human-readable part is nonempty and printable and the
   string is not too long; otherwise it is refused. `Encode` asserts that the part has no upper-case letter.
   */
  lemma DecodeEncode(hrp: string, values: seq<nat>)
    requires Values(values) && forall i :: 0 <= i < |hrp| ==> !IsUpper(hrp[i])
    ensures var fits := hrp != [] && (forall i :: 0 <= i < |hrp| ==> Printable(hrp[i])) && |hrp| + 7 + |values| <= 90;
            Decode(Encode(hrp, values)) == if fits then Some((hrp, values)) else None
  {
    var data := values + CreateChecksum(hrp, values);
    CharsFacts(data);
    Joined(hrp, Chars(data));
    JoinedChars(hrp, Chars(data));
    LowerAllFixed(hrp);
    CreatedVerifies(hrp, values);
    assert data[..|data| - 6] == values;
  }

  lemma CharsOfData(s: string)
    requires -1 !in RevAll(s)
    ensures Chars(DataOf(s)) == LowerAll(s)
  {
    forall i | 0 <= i < |s| ensures Chars(DataOf(s))[i] == LowerAll(s)[i] {
      assert RevAll(s)[i] in RevAll(s);
      CharsetReverse(s[i]);
    }
  }

  lemma LowerJoined(s: string, pos: nat)
    requires pos < |s| && s[pos] == '1'
    ensures LowerAll(s) == LowerAll(s[..pos]) + "1" + LowerAll(s[pos + 1..])
  {
    assert LowerCase('1') == '1';
  }

  lemma EncodeBody(hrp: string, values: seq<nat>)
    requires Values(values) && |values| >= 6 && VerifyChecksum(hrp, values)
    ensures Encode(hrp, values[..|values| - 6]) == hrp + "1" + Chars(values)
  {
    VerifiedIsCreated(hrp, values);
    assert values == values[..|values| - 6] + values[|values| - 6..];
  }

  lemma EncodeParts(s: string, pos: nat)
    requires pos + 7 <= |s| && s[pos] == '1' && -1 !in RevAll(s[pos + 1..])
    requires VerifyChecksum(LowerAll(s[..pos]), DataOf(s[pos + 1..]))
    ensures var values := DataOf(s[pos + 1..]);
            Encode(LowerAll(s[..pos]), values[..|values| - 6]) == LowerAll(s)
  {
    EncodeBody(LowerAll(s[..pos]), DataOf(s[pos + 1..]));
    CharsOfData(s[pos + 1..]);
    LowerJoined(s, pos);
  }

  /** Every accepted string is, in lower case, the encoding of what it decodes to: no two spellings of one payload. */
  lemma EncodeDecode(s: string)
    ensures var r := Decode(s);
            r.Some? ==> Values(r.value.1) && Encode(r.value.0, r.value.1) == LowerAll(s)
  {
    if Decode(s).Some? { EncodeParts(s, LastOne(s, |s|)); }
  }

  // ---------------------------------------------------------------------------------------------------------------
  // The code
  // ---------------------------------------------------------------------------------------------------------------

  /** `(c & 0x1ffffff) << 5`. */
  function Up(c: Word): Word
    requires Poly(c)
  {
    seq(30, i requires 0 <= i < 30 => i >= 5 && c[i - 5])
  }

  function Constant(x: nat): Word {
    seq(30, i requires 0 <= i < 30 => BitOf(x, i))
  }

  function XorIf(b: bool, c: Word, x: nat): (r: Word)
    requires Poly(c)
    ensures Poly(r)
  {
    if b then Xor(c, Constant(x)) else c
  }

  /** One turn of `PolyMod` as the code does it, on all eight bits of a byte. */
  function ByteStep(c: Word, b: Word): (r: Word)
    requires Poly(c) && |b| == 8
    ensures Poly(r)
  {
    var s := Shift(c);
    seq(30, i requires 0 <= i < 30 => s[i] != (i < 8 && b[i]))
  }

  function ByteFold(c: Word, v: seq<nat>): (r: Word)
    requires Poly(c)
    ensures Poly(r)
    decreases |v|
  {
    if v == [] then c else ByteFold(ByteStep(c, LowBits(v[0], 8)), v[1..])
  }

  lemma {:induction false} LowBitsWider(v: nat, n: nat, k: nat, i: nat)
    requires v < Pow2(n) && i < n + k
    ensures LowBits(v, n + k)[i] == (i < n && LowBits(v, n)[i])
    decreases n, k
  {
    if n > 0 {
      if i > 0 { LowBitsWider(v / 2, n - 1, k, i - 1); }
    } else if i > 0 {
      LowBitsWider(0, 0, k - 1, i - 1);
    }
  }

  /** On values below 32 the high bits play no part. */
  lemma {:induction false} ByteFoldPlain(c: Word, v: seq<nat>)
    requires Poly(c) && Values(v)
    ensures ByteFold(c, v) == Fold(c, ToGroups(v))
    decreases |v|
  {
    if v != [] {
      assert Pow2(5) == 32;
      forall i | 0 <= i < 8 ensures LowBits(v[0], 8)[i] == (i < 5 && GroupOf(v[0])[i]) {
        LowBitsWider(v[0], 5, 3, i);
      }
      assert ByteStep(c, LowBits(v[0], 8)) == Step(c, GroupOf(v[0]));
      assert ToGroups(v)[1..] == ToGroups(v[1..]);
      ByteFoldPlain(Step(c, GroupOf(v[0])), v[1..]);
    }
  }

  lemma LoopBody(c: Word, b: Word)
    requires Poly(c) && |b| == 8
    ensures var c1 := Xor(Up(c), b + Words.Fill(22, false));
            ByteStep(c, b) == XorIf(c[29], XorIf(c[28], XorIf(c[27], XorIf(c[26], XorIf(c[25], c1,
              0x3b6a57b2), 0x26508e6d), 0x1ea119fa), 0x3d4233dd), 0x2a1462b3)
  {
  }

  /** One turn of `PolyMod`, reducing the group shifted out bit by bit. */
  method NextRemainder(c: Word, b: Word) returns (r: Word)
    requires Poly(c) && |b| == 8
    ensures r == ByteStep(c, b)
  {
    LoopBody(c, b);
    var c0 := c[25..];
    r := Xor(Up(c), b + Words.Fill(22, false));
    r := XorIf(c0[0], r, 0x3b6a57b2);
    r := XorIf(c0[1], r, 0x26508e6d);
    r := XorIf(c0[2], r, 0x1ea119fa);
    r := XorIf(c0[3], r, 0x3d4233dd);
    r := XorIf(c0[4], r, 0x2a1462b3);
  }

  /** On any bytes; on values below 32, the polynomial remainder. */
  method PolyMod(v: seq<nat>) returns (c: Word)
    ensures Poly(c) && c == ByteFold(One(), v)
    ensures Values(v) ==> c == Fold(One(), ToGroups(v))
  {
    c := One();
    for i := 0 to |v|
      invariant Poly(c) && ByteFold(One(), v) == ByteFold(c, v[i..])
    {
      c := NextRemainder(c, LowBits(v[i], 8));
    }
    if Values(v) {
      ByteFoldPlain(One(), v);
    }
  }

  /** The characters of the source's strings are bytes, whose parts are below 32. */
  predicate ByteChars(s: string) {
    forall i :: 0 <= i < |s| ==> s[i] as int < 256
  }

  lemma ExpandedValues(hrp: string, values: seq<nat>)
    requires ByteChars(hrp) && Values(values)
    ensures Values(ExpandHRP(hrp) + values)
  {
  }

  method CheckSum(hrp: string, values: seq<nat>) returns (ret: seq<nat>)
    requires ByteChars(hrp)
    ensures ret == ToValues(GroupsOf(Xor(ByteFold(One(), ExpandHRP(hrp) + values + [0, 0, 0, 0, 0, 0]), One())))
    ensures Values(values) ==> ret == CreateChecksum(hrp, values)
  {
    var enc := ExpandHRP(hrp) + values + [0, 0, 0, 0, 0, 0];
    var mod := PolyMod(enc);
    mod := Xor(mod, One());
    ret := [];
    for i := 0 to 6
      invariant ret == ToValues(GroupsOf(mod))[..i]
    {
      ret := ret + [ValueOf(mod[5 * (5 - i)..5 * (5 - i) + 5])];
    }
    if Values(values) {
      ExpandedValues(hrp, values);
      ToGroupsConcat(ExpandHRP(hrp) + values, [0, 0, 0, 0, 0, 0]);
      assert ToGroups([0, 0, 0, 0, 0, 0]) == NoGroups(6) by { ZeroGroup(); }
    }
  }

  lemma ZeroGroup()
    ensures GroupOf(0) == Words.Fill(5, false)
  {
  }

  /** The source asserts that no character of the human-readable part is upper case. */
  method EncodeString(hrp: string, values: seq<nat>) returns (ret: string)
    requires ByteChars(hrp) && Values(values) && forall i :: 0 <= i < |hrp| ==> !IsUpper(hrp[i])
    ensures ret == Encode(hrp, values)
  {
    var checksum := CheckSum(hrp, values);
    var combined := values + checksum;
    ret := hrp + "1";
    for i := 0 to |combined|
      invariant ret == hrp + "1" + Chars(combined)[..i]
    {
      ret := ret + [CharOf(combined[i])];
    }
  }

  /** The first loop of `Decode`: refuses unprintable characters and mixed case. */
  method CheckChars(str: string) returns (ok: bool)
    ensures ok == CharsOk(str)
  {
    var lower, upper := false, false;
    for i := 0 to |str|
      invariant lower == exists j :: 0 <= j < i && IsLower(str[j])
      invariant upper == exists j :: 0 <= j < i && IsUpper(str[j])
      invariant forall j :: 0 <= j < i ==> Printable(str[j])
    {
      var c := str[i];
      if IsLower(c) {
        lower := true;
      } else if IsUpper(c) {
        upper := true;
      } else if c as int < 33 || c as int > 126 {
        return false;
      }
    }
    return !(lower && upper);
  }

  method ReadData(data: string) returns (r: Option<seq<nat>>)
    ensures r == if -1 in RevAll(data) then None else Some(DataOf(data))
  {
    var values: seq<nat> := [];
    for i := 0 to |data|
      invariant |values| == i && forall j :: 0 <= j < i ==> RevOf(data[j]) == values[j]
    {
      var rev := RevOf(data[i]);
      if rev == -1 {
        assert RevAll(data)[i] == -1;
        return None;
      }
      CharsetReverse(data[i]);
      values := values + [rev];
    }
    assert RevAll(data) == values;
    assert DataOf(data) == values;
    return Some(values);
  }

  method LowerString(s: string) returns (r: string)
    ensures r == LowerAll(s)
  {
    r := "";
    for i := 0 to |s|
      invariant r == LowerAll(s)[..i]
    {
      r := r + [LowerCase(s[i])];
    }
  }

  method DecodeString(str: string) returns (r: Option<(string, seq<nat>)>)
    ensures r == Decode(str)
  {
    var ok := CheckChars(str);
    if !ok {
      return None;
    }
    var pos := LastOne(str, |str|);
    if |str| > 90 || pos == -1 || pos == 0 || pos + 7 > |str| {
      return None;
    }
    var values := ReadData(str[pos + 1..]);
    if values.None? {
      return None;
    }
    var hrp := LowerString(str[..pos]);
    ExpandedValues(hrp, values.value);
    var c := PolyMod(ExpandHRP(hrp) + values.value);
    if c != One() {
      return None;
    }
    return Some((hrp, values.value[..|values.value| - 6]));
  }
}
