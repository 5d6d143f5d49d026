/**
 Golomb-coded set filters (section "Golomb-Coded Sets" of BIP 158): building a filter from a set of elements,
 reading one back from bytes, and matching elements against it. SipHash is any function into 64-bit values, and a set
 of elements is given in the order in which it is walked.
 */
module GcsFilter {
  import opened Wrappers
  import opened Arithmetic
  import opened Golomb

  type U64 = x: int | 0 <= x < TWO_64

  type Element = seq<nat>

  datatype Params = Params(hash: Element -> U64, p: nat, m: nat) {
    predicate Valid() { p < 64 && m < TWO_32 }
  }

  datatype Filter = Filter(n: nat, f: nat, encoded: seq<nat>)

  datatype Error = BadStream | TooManyElements | ExcessData

  const TWO_32: int := 0x1_0000_0000

  // ---------------------------------------------------------------------------------------------------------------
  // Mapping a hash into a range
  // ---------------------------------------------------------------------------------------------------------------

  /** The upper half of the 128-bit product. */
  function MapIntoRange(x: U64, n: U64): (r: nat)
    ensures n > 0 ==> r < n
    ensures r < TWO_64
  {
    MulNonNegative(x, n);
    UpperHalf(x, n);
    x * n / TWO_64
  }

  lemma UpperHalf(x: U64, n: U64)
    ensures x * n / TWO_64 <= n
    ensures n > 0 ==> x * n / TWO_64 < n
  {
    MulMonotone(x, TWO_64 - 1, n);
    MulNonNegative(x, n);
  }

  function Low32(x: nat): nat { x % TWO_32 }

  function High32(x: nat): nat { x / TWO_32 }

  /** The same on machines without 128-bit integers: four 32-bit products, each sum cut to 64 bits. */
  function MapIntoRangePieces(x: U64, n: U64): nat {
    HalfProduct(High32(x), High32(n));
    HalfProduct(High32(x), Low32(n));
    HalfProduct(Low32(x), High32(n));
    HalfProduct(Low32(x), Low32(n));
    UpperOfProducts(High32(x) * High32(n), High32(x) * Low32(n), Low32(x) * High32(n), Low32(x) * Low32(n))
  }

  function UpperOfProducts(ac: U64, ad: U64, bc: U64, bd: U64): nat {
    var mid34 := (High32(bd) + Low32(bc) + Low32(ad)) % TWO_64;
    (ac + High32(bc) + High32(ad) + High32(mid34)) % TWO_64
  }

  lemma ProductOfHalves(a: int, b: int, c: int, d: int)
    ensures (a * TWO_32 + b) * (c * TWO_32 + d) == a * c * TWO_64 + (a * d + b * c) * TWO_32 + b * d
  {
    MulDistributes(a * TWO_32, b, c * TWO_32 + d);
    MulDistributes(c * TWO_32, d, a * TWO_32);
    MulDistributes(c * TWO_32, d, b);
    assert a * TWO_32 * (c * TWO_32) == a * c * TWO_64;
    assert a * TWO_32 * d == a * d * TWO_32;
    assert b * (c * TWO_32) == b * c * TWO_32;
  }

  lemma HalfProduct(a: int, b: int)
    requires 0 <= a < TWO_32 && 0 <= b < TWO_32
    ensures 0 <= a * b < TWO_64
  {
    MulNonNegative(a, b);
    MulMonotone(a, TWO_32 - 1, b);
  }

  /** Adding up the columns of the four products. */
  lemma Columns(ac: U64, ad: U64, bc: U64, bd: U64, total: nat)
    requires total == ac * TWO_64 + (ad + bc) * TWO_32 + bd && total / TWO_64 < TWO_64
    ensures UpperOfProducts(ac, ad, bc, bd) == total / TWO_64
  {
    var mid34 := High32(bd) + Low32(bc) + Low32(ad);
    var upper := ac + High32(bc) + High32(ad) + High32(mid34);
    Column(ad);
    Column(bc);
    Column(bd);
    Column(mid34);
    assert total == upper * TWO_64 + (Low32(mid34) * TWO_32 + Low32(bd));
    DivUnique(total, TWO_64, upper, Low32(mid34) * TWO_32 + Low32(bd));
  }

  lemma Column(x: nat)
    ensures x == High32(x) * TWO_32 + Low32(x) && 0 <= Low32(x) < TWO_32
  {
  }

  lemma SplitProduct(x: U64, n: U64)
    ensures x * n == High32(x) * High32(n) * TWO_64
      + (High32(x) * Low32(n) + Low32(x) * High32(n)) * TWO_32 + Low32(x) * Low32(n)
  {
    ProductOfHalves(High32(x), Low32(x), High32(n), Low32(n));
    assert x == High32(x) * TWO_32 + Low32(x) && n == High32(n) * TWO_32 + Low32(n);
  }

  /** The piecewise product is the upper half of the true product: nothing overflows on the way. */
  lemma MapIntoRangeExact(x: U64, n: U64)
    ensures MapIntoRangePieces(x, n) == MapIntoRange(x, n)
  {
    var ac, ad := High32(x) * High32(n), High32(x) * Low32(n);
    var bc, bd := Low32(x) * High32(n), Low32(x) * Low32(n);
    HalfProduct(High32(x), High32(n));
    HalfProduct(High32(x), Low32(n));
    HalfProduct(Low32(x), High32(n));
    HalfProduct(Low32(x), Low32(n));
    var total := x * n;
    SplitProduct(x, n);
    MulNonNegative(x, n);
    assert total / TWO_64 == MapIntoRange(x, n);
    Columns(ac, ad, bc, bd, total);
  }

  // ---------------------------------------------------------------------------------------------------------------
  // The hashed set
  // ---------------------------------------------------------------------------------------------------------------

  predicate Ascending(s: seq<nat>) {
    forall i, j :: 0 <= i < j < |s| ==> s[i] <= s[j]
  }

  function InsertValue(x: nat, s: seq<nat>): (r: seq<nat>)
    ensures |r| == |s| + 1
  {
    if s == [] || x <= s[0] then [x] + s else [s[0]] + InsertValue(x, s[1..])
  }

  function Sorted(s: seq<nat>): (r: seq<nat>)
    ensures |r| == |s|
  {
    if s == [] then [] else InsertValue(s[0], Sorted(s[1..]))
  }

  lemma {:induction false} InsertMembers(x: nat, s: seq<nat>)
    ensures forall y :: y in InsertValue(x, s) <==> y == x || y in s
  {
    if !(s == [] || x <= s[0]) {
      InsertMembers(x, s[1..]);
      assert s == [s[0]] + s[1..];
    }
  }

  lemma {:induction false} InsertCounts(x: nat, s: seq<nat>)
    ensures multiset(InsertValue(x, s)) == multiset(s) + multiset{x}
  {
    if !(s == [] || x <= s[0]) {
      InsertCounts(x, s[1..]);
      assert s == [s[0]] + s[1..];
    }
  }

  lemma {:induction false} InsertAscending(x: nat, s: seq<nat>)
    requires Ascending(s)
    ensures Ascending(InsertValue(x, s))
  {
    if !(s == [] || x <= s[0]) {
      InsertAscending(x, s[1..]);
      InsertMembers(x, s[1..]);
      var r := InsertValue(x, s[1..]);
      assert forall j :: 0 <= j < |r| ==> r[j] in r;
    }
  }

  /** Sorting orders the values and keeps each as often as it was there. */
  lemma {:induction false} SortedExact(s: seq<nat>)
    ensures Ascending(Sorted(s)) && multiset(Sorted(s)) == multiset(s)
  {
    if s != [] {
      SortedExact(s[1..]);
      InsertAscending(s[0], Sorted(s[1..]));
      InsertCounts(s[0], Sorted(s[1..]));
      assert s == [s[0]] + s[1..];
    }
  }

  lemma SortedMembers(s: seq<nat>, x: nat)
    ensures x in Sorted(s) <==> x in s
  {
    SortedExact(s);
    assert x in multiset(Sorted(s)) <==> x in multiset(s);
  }

  /** The range of the hashed values; both factors are 32-bit. */
  function RangeOf(params: Params, n: nat): (f: U64)
    requires params.Valid() && n < TWO_32
  {
    HalfProduct(n, params.m);
    n * params.m
  }

  function HashToRange(params: Params, f: U64, e: Element): nat {
    MapIntoRange(params.hash(e), f)
  }

  function Hashes(params: Params, f: U64, es: seq<Element>): (r: seq<nat>)
    ensures |r| == |es|
  {
    seq(|es|, i requires 0 <= i < |es| => HashToRange(params, f, es[i]))
  }

  method BuildHashedSet(params: Params, f: U64, es: seq<Element>) returns (r: seq<nat>)
    ensures r == Sorted(Hashes(params, f, es))
  {
    r := [];
    for i := 0 to |es|
      invariant r == Hashes(params, f, es)[..i]
    {
      r := r + [HashToRange(params, f, es[i])];
    }
    assert r == Hashes(params, f, es);
    r := Sorted(r);
  }

  // ---------------------------------------------------------------------------------------------------------------
  // Coding the differences
  // ---------------------------------------------------------------------------------------------------------------

  predicate Codable(values: seq<nat>, last: nat) {
    Ascending(values) && forall i :: 0 <= i < |values| ==> last <= values[i] < TWO_64
  }

  function EncodeDeltas(values: seq<nat>, last: nat, p: nat): Bits
    requires Codable(values, last)
  {
    if values == [] then []
    else Encode(values[0] - last, p) + EncodeDeltas(values[1..], values[0], p)
  }

  /** The running sums of `n` decoded differences, cut to 64 bits, and the rest of the stream. */
  function DecodeValues(b: Bits, n: nat, last: nat, p: nat): Option<(seq<nat>, Bits)>
    decreases n
  {
    if n == 0 then Some(([], b)) else
    match Decode(b, p)
    case None => None
    case Some((delta, rest)) =>
      var value := Cut64(last + delta);
      match DecodeValues(rest, n - 1, value, p)
      case None => None
      case Some((values, end)) => Some(([value] + values, end))
  }

  lemma FirstCode(values: seq<nat>, last: nat, p: nat, rest: Bits)
    requires Codable(values, last) && values != []
    ensures Decode(EncodeDeltas(values, last, p) + rest, p)
      == Some((values[0] - last, EncodeDeltas(values[1..], values[0], p) + rest))
  {
    var code, tail := Encode(values[0] - last, p), EncodeDeltas(values[1..], values[0], p);
    Regrouped(code, tail, rest);
    DecodeEncode(values[0] - last, p, tail + rest);
  }

  ghost predicate DecodesTo(b: Bits, last: nat, p: nat, values: seq<nat>, rest: Bits) {
    DecodeValues(b, |values|, last, p) == Some((values, rest))
  }

  lemma DecodeFirst(s: Bits, b: Bits, last: nat, p: nat, values: seq<nat>, rest: Bits)
    requires values != [] && last <= values[0] < TWO_64
    requires Decode(s, p) == Some((values[0] - last, b)) && DecodesTo(b, values[0], p, values[1..], rest)
    ensures DecodesTo(s, last, p, values, rest)
  {
    assert values == [values[0]] + values[1..];
  }

  /** Decoding gives back every value that was coded. */
  lemma {:induction false} DecodeDeltas(values: seq<nat>, last: nat, p: nat, rest: Bits)
    requires Codable(values, last)
    ensures DecodesTo(EncodeDeltas(values, last, p) + rest, last, p, values, rest)
    decreases |values|
  {
    if values == [] {
      assert EncodeDeltas(values, last, p) + rest == rest;
    } else {
      DecodeDeltas(values[1..], values[0], p, rest);
      FirstCode(values, last, p, rest);
      DecodeFirst(EncodeDeltas(values, last, p) + rest, EncodeDeltas(values[1..], values[0], p) + rest, last, p,
                  values, rest);
    }
  }

  lemma HashesCodable(params: Params, f: U64, es: seq<Element>)
    ensures Codable(Sorted(Hashes(params, f, es)), 0)
  {
    var h := Hashes(params, f, es);
    SortedExact(h);
    forall i | 0 <= i < |h|
      ensures Sorted(h)[i] < TWO_64
    {
      SortedMembers(h, Sorted(h)[i]);
    }
  }

  // ---------------------------------------------------------------------------------------------------------------
  // Filters
  // ---------------------------------------------------------------------------------------------------------------

  /** The values that a set of elements stands for. */
  function Values(params: Params, es: seq<Element>): seq<nat>
    requires params.Valid() && |es| < TWO_32
  {
    Sorted(Hashes(params, RangeOf(params, |es|), es))
  }

  function ValueBits(params: Params, es: seq<Element>): Bits
    requires params.Valid() && |es| < TWO_32
  {
    HashesCodable(params, RangeOf(params, |es|), es);
    EncodeDeltas(Values(params, es), 0, params.p)
  }

  function Build(params: Params, es: seq<Element>): Result<Filter, Error>
    requires params.Valid()
  {
    if |es| >= TWO_32 then Err(TooManyElements)
    else Ok(Filter(|es|, RangeOf(params, |es|), WriteCompactSize(|es|) + Pack(ValueBits(params, es))))
  }

  /** The values a filter holds, with the bits left over; nothing if the bytes run out or the size is refused. */
  function Stored(params: Params, encoded: seq<nat>): Option<(seq<nat>, Bits)> {
    match ReadCompactSize(encoded)
    case None => None
    case Some((n, body)) => DecodeValues(Unpack(body), n, 0, params.p)
  }

  function Parse(params: Params, encoded: seq<nat>): Result<Filter, Error>
    requires params.Valid()
  {
    match ReadCompactSize(encoded)
    case None => Err(BadStream)
    case Some((n, body)) =>
      if n >= TWO_32 then Err(TooManyElements) else
      match DecodeValues(Unpack(body), n, 0, params.p)
      case None => Err(BadStream)
      case Some((_, rest)) =>
        if |rest| >= 8 then Err(ExcessData) else Ok(Filter(n, RangeOf(params, n), encoded))
  }

  /** A built filter of readable size holds exactly the values of its set, and less than a byte of padding. */
  lemma BuiltStores(params: Params, es: seq<Element>)
    requires params.Valid() && |es| <= MAX_SIZE
    ensures Stored(params, Build(params, es).value.encoded)
      == Some((Values(params, es), Zeros(Padding(|ValueBits(params, es)|))))
  {
    var b := ValueBits(params, es);
    CompactSizeExact(|es|, Pack(b));
    UnpackPack(b);
    HashesCodable(params, RangeOf(params, |es|), es);
    DecodeDeltas(Values(params, es), 0, params.p, Zeros(Padding(|b|)));
  }

  /** A filter built from a set is accepted again exactly when reading accepts its size. */
  lemma BuiltIsAccepted(params: Params, es: seq<Element>)
    requires params.Valid() && |es| < TWO_32
    ensures Parse(params, Build(params, es).value.encoded)
      == if |es| <= MAX_SIZE then Build(params, es) else Err(BadStream)
  {
    CompactSizeExact(|es|, Pack(ValueBits(params, es)));
    if |es| <= MAX_SIZE {
      BuiltStores(params, es);
    }
  }

  // ---------------------------------------------------------------------------------------------------------------
  // Matching
  // ---------------------------------------------------------------------------------------------------------------

  /** The walk of `MatchInternal` over two lists. */
  predicate Merge(values: seq<nat>, queries: seq<nat>)
    decreases |values| + |queries|
  {
    if values == [] || queries == [] then false
    else if queries[0] == values[0] then true
    else if queries[0] > values[0] then Merge(values[1..], queries)
    else Merge(values, queries[1..])
  }

  predicate Common(values: seq<nat>, queries: seq<nat>) {
    exists x :: x in values && x in queries
  }

  lemma DropUnmatched(a: seq<nat>, b: seq<nat>)
    requires a != [] && b != [] && Ascending(b) && a[0] < b[0]
    ensures Common(a, b) <==> Common(a[1..], b)
    ensures Common(b, a) <==> Common(b, a[1..])
  {
    assert a == [a[0]] + a[1..];
    assert a[0] !in b;
    if Common(a, b) {
      var x :| x in a && x in b;
      assert x in a[1..] && x in b;
    }
  }

  /** On ascending lists the walk finds a common value exactly when there is one. */
  lemma {:induction false} MergeFindsCommon(values: seq<nat>, queries: seq<nat>)
    requires Ascending(values) && Ascending(queries)
    ensures Merge(values, queries) <==> Common(values, queries)
    decreases |values| + |queries|
  {
    if values == [] || queries == [] {
    } else if queries[0] == values[0] {
      assert values[0] in values && values[0] in queries;
    } else if queries[0] > values[0] {
      DropUnmatched(values, queries);
      MergeFindsCommon(values[1..], queries);
    } else {
      DropUnmatched(queries, values);
      MergeFindsCommon(values, queries[1..]);
    }
  }

  /** The walk ends at one of the values: at an equal one, or when the queries run out. */
  predicate Decided(values: seq<nat>, queries: seq<nat>)
    decreases |values| + |queries|
  {
    if values == [] then false
    else if queries == [] || queries[0] == values[0] then true
    else if queries[0] > values[0] then Decided(values[1..], queries)
    else Decided(values, queries[1..])
  }

  lemma CommonTail(a: seq<nat>, b: seq<nat>)
    requires a != [] && b != [] && a[0] == b[0]
    ensures Common(a, b)
  {
    assert a[0] in a && a[0] in b;
  }

  /** On ascending lists it does so exactly if some value is common or the last value is above every query. */
  lemma {:induction false} DecidedExact(values: seq<nat>, queries: seq<nat>)
    requires Ascending(values) && Ascending(queries)
    ensures Decided(values, queries) <==>
              values != [] && (Common(values, queries) || AllBelow(queries, values[|values| - 1]))
    decreases |values| + |queries|
  {
    if values == [] || queries == [] {
    } else if queries[0] == values[0] {
      CommonTail(values, queries);
    } else if queries[0] > values[0] {
      DropUnmatched(values, queries);
      DecidedExact(values[1..], queries);
      assert queries[0] in queries;
    } else {
      DropUnmatched(queries, values);
      DecidedExact(values, queries[1..]);
      BelowTail(queries, values[|values| - 1]);
    }
  }

  predicate AllBelow(queries: seq<nat>, x: nat) {
    forall q :: q in queries ==> q < x
  }

  lemma BelowTail(queries: seq<nat>, x: nat)
    requires queries != [] && queries[0] < x
    ensures AllBelow(queries, x) <==> AllBelow(queries[1..], x)
  {
    var rest := queries[1..];
    assert queries == [queries[0]] + rest;
    if AllBelow(queries, x) {
      forall q | q in rest ensures q < x {
        assert q in queries;
      }
    }
    if AllBelow(rest, x) {
      forall q | q in queries ensures q < x {
        assert q == queries[0] || q in rest;
      }
    }
  }

  /** The values decoded before the stream ends: all `n` of them, unless it is too short. */
  function Readable(b: Bits, n: nat, last: nat, p: nat): (values: seq<nat>)
    ensures |values| <= n
    decreases n
  {
    if n == 0 then [] else
    match Decode(b, p)
    case None => []
    case Some((delta, rest)) =>
      var value := Cut64(last + delta);
      [value] + Readable(rest, n - 1, value, p)
  }

  lemma {:induction false} ReadableAll(b: Bits, n: nat, last: nat, p: nat)
    ensures DecodeValues(b, n, last, p).Some? <==> |Readable(b, n, last, p)| == n
    ensures DecodeValues(b, n, last, p).Some? ==> DecodeValues(b, n, last, p).value.0 == Readable(b, n, last, p)
    decreases n
  {
    if n > 0 {
      match Decode(b, p)
      case None =>
      case Some((delta, rest)) => ReadableAll(rest, n - 1, Cut64(last + delta), p);
    }
  }

  /** The answer of the walk over `n` values of which those in `values` can be read; nothing if it needs more. */
  function Answer(values: seq<nat>, n: nat, queries: seq<nat>): Option<bool> {
    if |values| == n || Decided(values, queries) then Some(Merge(values, queries)) else None
  }

  /** What matching hashed queries answers; nothing when reading the filter throws. */
  function MatchHashes(params: Params, filter: Filter, queries: seq<nat>): Option<bool> {
    match ReadCompactSize(filter.encoded)
    case None => None
    case Some((n, body)) => Answer(Readable(Unpack(body), n, 0, params.p), n, queries)
  }

  /** On a filter that holds all its values. */
  lemma MatchStored(params: Params, filter: Filter, queries: seq<nat>)
    requires Stored(params, filter.encoded).Some?
    ensures MatchHashes(params, filter, queries) == Some(Merge(Stored(params, filter.encoded).value.0, queries))
  {
    var (n, body) := ReadCompactSize(filter.encoded).value;
    ReadableAll(Unpack(body), n, 0, params.p);
  }

  function MatchOne(params: Params, filter: Filter, e: Element): Option<bool>
    requires filter.f < TWO_64
  {
    MatchHashes(params, filter, [HashToRange(params, filter.f, e)])
  }

  function MatchSome(params: Params, filter: Filter, es: seq<Element>): Option<bool>
    requires filter.f < TWO_64
  {
    MatchHashes(params, filter, Sorted(Hashes(params, filter.f, es)))
  }

  /** Some element of `es` has the same hashed value as `e`. */
  predicate Collides(params: Params, f: U64, es: seq<Element>, e: Element) {
    exists k :: 0 <= k < |es| && HashToRange(params, f, es[k]) == HashToRange(params, f, e)
  }

  lemma CollidesHashed(params: Params, f: U64, es: seq<Element>, e: Element)
    ensures Collides(params, f, es, e) <==> HashToRange(params, f, e) in Sorted(Hashes(params, f, es))
  {
    var h, x := Hashes(params, f, es), HashToRange(params, f, e);
    SortedMembers(h, x);
    if Collides(params, f, es, e) {
      var k :| 0 <= k < |es| && HashToRange(params, f, es[k]) == x;
      assert h[k] == x;
    }
    if x in h {
      var k :| 0 <= k < |h| && h[k] == x;
      assert HashToRange(params, f, es[k]) == x;
    }
  }

  /** A built filter of readable size matches an element exactly when its hash is among those of the set. */
  lemma BuiltMatches(params: Params, es: seq<Element>, e: Element)
    requires params.Valid() && |es| <= MAX_SIZE
    ensures MatchOne(params, Build(params, es).value, e) == Some(Collides(params, RangeOf(params, |es|), es, e))
  {
    var f := RangeOf(params, |es|);
    BuiltStores(params, es);
    SortedExact(Hashes(params, f, es));
    var values, query := Values(params, es), [HashToRange(params, f, e)];
    MatchStored(params, Build(params, es).value, query);
    MergeFindsCommon(values, query);
    CollidesHashed(params, f, es, e);
    assert query[0] in query;
  }

  /** It matches every member of the set. */
  lemma BuiltMatchesMembers(params: Params, es: seq<Element>, k: nat)
    requires params.Valid() && |es| <= MAX_SIZE && k < |es|
    ensures MatchOne(params, Build(params, es).value, es[k]) == Some(true)
  {
    BuiltMatches(params, es, es[k]);
  }

  /** Matching a set of queries at once is matching one of them. */
  lemma BuiltMatchesAny(params: Params, es: seq<Element>, qs: seq<Element>)
    requires params.Valid() && |es| <= MAX_SIZE
    ensures MatchSome(params, Build(params, es).value, qs)
      == Some(exists k :: 0 <= k < |qs| && MatchOne(params, Build(params, es).value, qs[k]) == Some(true))
  {
    var f, filter := RangeOf(params, |es|), Build(params, es).value;
    var h := Hashes(params, f, qs);
    BuiltStores(params, es);
    SortedExact(Hashes(params, f, es));
    SortedExact(h);
    var values := Values(params, es);
    MatchStored(params, filter, Sorted(h));
    MergeFindsCommon(values, Sorted(h));
    if Common(values, Sorted(h)) {
      var x :| x in values && x in Sorted(h);
      SortedMembers(h, x);
      var k :| 0 <= k < |h| && h[k] == x;
      BuiltMatches(params, es, qs[k]);
      CollidesHashed(params, f, es, qs[k]);
    }
    forall k | 0 <= k < |qs| && MatchOne(params, filter, qs[k]) == Some(true)
      ensures Common(values, Sorted(h))
    {
      BuiltMatches(params, es, qs[k]);
      CollidesHashed(params, f, es, qs[k]);
      SortedMembers(h, h[k]);
    }
  }

  /** A set too large to be read back makes a filter that cannot be matched at all. */
  lemma TooLargeToMatch(params: Params, es: seq<Element>, queries: seq<nat>)
    requires params.Valid() && MAX_SIZE < |es| < TWO_32
    ensures MatchHashes(params, Build(params, es).value, queries) == None
  {
    CompactSizeExact(|es|, Pack(ValueBits(params, es)));
  }

  // ---------------------------------------------------------------------------------------------------------------
  // The code
  // ---------------------------------------------------------------------------------------------------------------

  method EncodeValues(w: BitWriter, values: seq<nat>, p: nat)
    requires Codable(values, 0) && p < 64
    modifies w
    ensures w.bits == old(w.bits) + EncodeDeltas(values, 0, p)
  {
    ghost var was := w.bits;
    var last := 0;
    for i := 0 to |values|
      invariant Codable(values[i..], last)
      invariant w.bits + EncodeDeltas(values[i..], last, p) == was + EncodeDeltas(values, 0, p)
    {
      ghost var tail := EncodeDeltas(values[i + 1..], values[i], p);
      assert values[i..][1..] == values[i + 1..];
      Regrouped(w.bits, Encode(values[i] - last, p), tail);
      GolombRiceEncode(w, p, values[i] - last);
      last := values[i];
    }
  }

  method EncodeSet(params: Params, f: U64, es: seq<Element>) returns (bits: Bits)
    requires params.Valid() && |es| < TWO_32 && f == RangeOf(params, |es|)
    ensures bits == ValueBits(params, es)
  {
    var values := BuildHashedSet(params, f, es);
    HashesCodable(params, f, es);
    var w := new BitWriter();
    EncodeValues(w, values, params.p);
    return w.bits;
  }

  lemma BuildEmpty(params: Params)
    requires params.Valid()
    ensures Build(params, []) == Ok(Filter(0, RangeOf(params, 0), WriteCompactSize(0)))
  {
    assert Values(params, []) == [] && ValueBits(params, []) == [];
    assert WriteCompactSize(0) + [] == WriteCompactSize(0);
  }

  /** The constructor from a set of elements. */
  method BuildFilter(params: Params, es: seq<Element>) returns (r: Result<Filter, Error>)
    requires params.Valid()
    ensures r == Build(params, es)
  {
    if |es| >= TWO_32 {
      return Err(TooManyElements);
    }
    var f := RangeOf(params, |es|);
    var encoded := WriteCompactSize(|es|);
    if es == [] {
      BuildEmpty(params);
      return Ok(Filter(0, f, encoded));
    }
    var bits := EncodeSet(params, f, es);
    return Ok(Filter(|es|, f, encoded + Pack(bits)));
  }

  /** Decodes `n` differences, keeping none. */
  method SkipCodes(r: BitReader, n: nat, p: nat) returns (ok: bool)
    requires p < 64
    modifies r
    ensures ok <==> DecodeValues(old(r.bits), n, 0, p).Some?
    ensures ok ==> r.bits == DecodeValues(old(r.bits), n, 0, p).value.1
  {
    ghost var start := DecodeValues(r.bits, n, 0, p);
    ghost var last := 0;
    for i := 0 to n
      invariant start.Some? <==> DecodeValues(r.bits, n - i, last, p).Some?
      invariant start.Some? ==> DecodeValues(r.bits, n - i, last, p).value.1 == start.value.1
    {
      ghost var was := r.bits;
      var delta := GolombRiceDecode(r, p);
      if delta.None? {
        return false;
      }
      last := Cut64(last + delta.value);
    }
    return true;
  }

  /** The constructor from bytes. */
  method ParseFilter(params: Params, encoded: seq<nat>) returns (r: Result<Filter, Error>)
    requires params.Valid()
    ensures r == Parse(params, encoded)
  {
    var size := ReadCompactSize(encoded);
    if size.None? {
      return Err(BadStream);
    }
    var (n, body) := size.value;
    if n >= TWO_32 {
      return Err(TooManyElements);
    }
    var reader := new BitReader(Unpack(body));
    var ok := SkipCodes(reader, n, params.p);
    if !ok {
      return Err(BadStream);
    }
    if |reader.bits| >= 8 {
      return Err(ExcessData);
    }
    return Ok(Filter(n, RangeOf(params, n), encoded));
  }

  /** What both constructors establish: the size in the bytes is the size of the filter. */
  predicate SizeAgrees(filter: Filter) {
    ReadCompactSize(filter.encoded).Some? ==> ReadCompactSize(filter.encoded).value.0 == filter.n
  }

  lemma MadeSizeAgrees(params: Params, es: seq<Element>, encoded: seq<nat>)
    requires params.Valid()
    ensures Build(params, es).Ok? ==> SizeAgrees(Build(params, es).value)
    ensures Parse(params, encoded).Ok? ==> SizeAgrees(Parse(params, encoded).value)
  {
    if |es| < TWO_32 {
      CompactSizeExact(|es|, Pack(ValueBits(params, es)));
    }
  }

  /** Moves past the queries below `value`, which do not change the answer. */
  method SkipQueries(queries: seq<nat>, start: nat, value: nat, ghost later: seq<nat>) returns (i: nat)
    requires start <= |queries| && later != [] && later[0] == value
    ensures start <= i <= |queries|
    ensures i < |queries| ==> queries[i] >= value
    ensures Merge(later, queries[start..]) == Merge(later, queries[i..])
    ensures Decided(later, queries[start..]) == Decided(later, queries[i..])
  {
    i := start;
    while i < |queries| && queries[i] < value
      invariant start <= i <= |queries|
      invariant Merge(later, queries[start..]) == Merge(later, queries[i..])
      invariant Decided(later, queries[start..]) == Decided(later, queries[i..])
    {
      assert queries[i..][1..] == queries[i + 1..];
      i := i + 1;
    }
  }

  /** Walks the decoded values and the queries together, stopping as soon as the answer is known. */
  method MatchInternal(params: Params, filter: Filter, queries: seq<nat>) returns (r: Option<bool>)
    requires params.Valid() && SizeAgrees(filter)
    ensures r == MatchHashes(params, filter, queries)
  {
    var size := ReadCompactSize(filter.encoded);
    if size.None? {
      return None;
    }
    assert size.value.0 == filter.n;
    var reader := new BitReader(Unpack(size.value.1));
    r := MatchBits(reader, filter.n, params.p, queries);
  }

  lemma WalkNext(later: seq<nat>, queries: seq<nat>)
    requires later != []
    ensures queries == [] ==> !Merge(later, queries) && Decided(later, queries)
    ensures queries != [] && queries[0] == later[0] ==> Merge(later, queries) && Decided(later, queries)
    ensures queries != [] && queries[0] > later[0] ==>
              && Merge(later, queries) == Merge(later[1..], queries)
              && Decided(later, queries) == Decided(later[1..], queries)
  {
  }

  /** The next value, if the stream holds another. */
  method NextValue(reader: BitReader, last: nat, p: nat, ghost n: nat) returns (value: Option<nat>)
    requires p < 64 && n > 0
    modifies reader
    ensures var later := Readable(old(reader.bits), n, last, p);
            && (value.None? <==> later == [])
            && (value.Some? ==> value.value == later[0] && Readable(reader.bits, n - 1, value.value, p) == later[1..])
  {
    var delta := GolombRiceDecode(reader, p);
    value := if delta.None? then None else Some(Cut64(last + delta.value));
  }

  method MatchBits(reader: BitReader, n: nat, p: nat, queries: seq<nat>) returns (r: Option<bool>)
    requires p < 64
    modifies reader
    ensures r == Answer(Readable(old(reader.bits), n, 0, p), n, queries)
  {
    ghost var all := Readable(reader.bits, n, 0, p);
    ghost var later := all;
    var value, k := 0, 0;
    for i := 0 to n
      invariant k <= |queries| && later == Readable(reader.bits, n - i, value, p) && |all| == i + |later|
      invariant Merge(later, queries[k..]) == Merge(all, queries)
      invariant Decided(later, queries[k..]) == Decided(all, queries)
    {
      var next := NextValue(reader, value, p, n - i);
      if next.None? {
        return None;
      }
      value := next.value;
      k := SkipQueries(queries, k, value, later);
      WalkNext(later, queries[k..]);
      if k == |queries| {
        return Some(false);
      }
      if queries[k] == value {
        return Some(true);
      }
      later := later[1..];
    }
    return Some(false);
  }

  method Match(params: Params, filter: Filter, e: Element) returns (r: Option<bool>)
    requires params.Valid() && SizeAgrees(filter) && filter.f < TWO_64
    ensures r == MatchOne(params, filter, e)
  {
    r := MatchInternal(params, filter, [HashToRange(params, filter.f, e)]);
  }

  method MatchAny(params: Params, filter: Filter, es: seq<Element>) returns (r: Option<bool>)
    requires params.Valid() && SizeAgrees(filter) && filter.f < TWO_64
    ensures r == MatchSome(params, filter, es)
  {
    var queries := BuildHashedSet(params, filter.f, es);
    r := MatchInternal(params, filter, queries);
  }
}
