/**
 `CRollingBloomFilter`: a bloom filter whose positions carry a two-bit generation number, so that whole generations of
 keys can be forgotten at once. Keys are inserted into generations of a fixed size; the number of a new generation is
 that of the one three before it, which is wiped first.
 */
module Bloom {
  import opened Arithmetic
  import opened Words

  type Key = seq<nat>

  // ---------------------------------------------------------------------------------------------------------------
  // Positions
  // ---------------------------------------------------------------------------------------------------------------

  predicate DataOk(data: seq<Word>) {
    |data| > 0 && |data| % 2 == 0 && forall i :: 0 <= i < |data| ==> |data[i]| == 64
  }

  /** A 32-bit hash scaled to the number of words. */
  function FastMod(x: nat, n: nat): nat {
    MulNonNegative(x, n);
    (x * n) / 0x1_0000_0000
  }

  lemma FastModInRange(x: nat, n: nat)
    requires x < 0x1_0000_0000 && n > 0
    ensures FastMod(x, n) < n
  {
    MulMonotone(x, 0xffff_ffff, n);
  }

  /** The even word of the pair a hash selects: `pos & ~1`; the odd one, `pos | 1`, is the next. */
  function PairOf(h: nat, size: nat): (p: nat)
    requires h < 0x1_0000_0000 && size > 0 && size % 2 == 0
    ensures p % 2 == 0 && p + 1 < size
  {
    FastModInRange(h, size);
    FastMod(h, size) / 2 * 2
  }

  function BitOf(h: nat): (b: nat)
    ensures b < 64
  {
    h % 64
  }

  /** The generation number stored at a position: the bit of the even word is its low bit. */
  function StoredAt(data: seq<Word>, p: nat, b: nat): nat
    requires DataOk(data) && p + 1 < |data| && b < 64
  {
    (if data[p][b] then 1 else 0) + (if data[p + 1][b] then 2 else 0)
  }

  function Stored(data: seq<Word>, h: nat): nat
    requires DataOk(data) && h < 0x1_0000_0000
  {
    StoredAt(data, PairOf(h, |data|), BitOf(h))
  }

  /** No position carries a generation. */
  ghost predicate Blank(data: seq<Word>) {
    forall q :: 0 <= q < |data| ==> data[q] == Words.Fill(64, false)
  }

  lemma BlankStoresNone(data: seq<Word>, h: nat)
    requires DataOk(data) && Blank(data) && h < 0x1_0000_0000
    ensures Stored(data, h) == 0
  {
    var p, b := PairOf(h, |data|), BitOf(h);
    assert !Words.Fill(64, false)[b] && data[p] == data[p + 1] == Words.Fill(64, false);
  }

  // ---------------------------------------------------------------------------------------------------------------
  // Generations
  // ---------------------------------------------------------------------------------------------------------------

  /** The number, 1 to 3, that the `e`-th generation is stored under. */
  function Number(e: nat): nat { e % 3 + 1 }

  /** The number belongs to one of the generations `lo` to `hi`. */
  predicate From(g: nat, lo: nat, hi: nat) {
    exists e :: lo <= e <= hi && g == Number(e)
  }

  /** The key's positions all carry generations no older than `lo`. */
  predicate Marked(data: seq<Word>, hs: seq<nat>, lo: nat, hi: nat)
    requires DataOk(data) && forall k :: 0 <= k < |hs| ==> hs[k] < 0x1_0000_0000
  {
    forall k :: 0 <= k < |hs| ==> From(Stored(data, hs[k]), lo, hi)
  }

  /** Data in which each position is as before, or (where the number is `g`) wiped. */
  ghost predicate Wiped(was: seq<Word>, now: seq<Word>, g: nat) {
    && DataOk(was) && DataOk(now) && |now| == |was|
    && forall p, b :: 0 <= p < |was| && p % 2 == 0 && 0 <= b < 64 ==>
         StoredAt(now, p, b) == if StoredAt(was, p, b) == g then 0 else StoredAt(was, p, b)
  }

  /** Starting generation `hi` wipes the number of the one three before it, and no key of the last two. */
  lemma WipeKeeps(was: seq<Word>, now: seq<Word>, hs: seq<nat>, lo: nat, hi: nat)
    requires Wiped(was, now, Number(hi)) && (forall k :: 0 <= k < |hs| ==> hs[k] < 0x1_0000_0000)
    requires lo + 2 >= hi > 0 && Marked(was, hs, lo, hi - 1)
    ensures Marked(now, hs, lo, hi)
  {
    forall k | 0 <= k < |hs| ensures From(Stored(now, hs[k]), lo, hi) {
      var e :| lo <= e <= hi - 1 && Stored(was, hs[k]) == Number(e);
      assert Number(e) != Number(hi);
      assert Stored(now, hs[k]) == Number(e);
    }
  }

  /** One position takes the current number; every other keeps its own. */
  ghost predicate Put(was: seq<Word>, now: seq<Word>, h: nat, g: nat)
    requires h < 0x1_0000_0000
  {
    && DataOk(was) && DataOk(now) && |now| == |was|
    && Stored(now, h) == g
    && forall p, b :: 0 <= p < |was| && p % 2 == 0 && 0 <= b < 64 && (p != PairOf(h, |was|) || b != BitOf(h)) ==>
         StoredAt(now, p, b) == StoredAt(was, p, b)
  }

  lemma PutKeeps(was: seq<Word>, now: seq<Word>, h: nat, hs: seq<nat>, lo: nat, hi: nat)
    requires h < 0x1_0000_0000 && Put(was, now, h, Number(hi)) && lo <= hi
    requires (forall k :: 0 <= k < |hs| ==> hs[k] < 0x1_0000_0000) && Marked(was, hs, lo, hi)
    ensures Marked(now, hs, lo, hi)
  {
    forall k | 0 <= k < |hs| ensures From(Stored(now, hs[k]), lo, hi) {
      assert From(Stored(was, hs[k]), lo, hi);
      if PairOf(hs[k], |was|) == PairOf(h, |was|) && BitOf(hs[k]) == BitOf(h) {
        assert Stored(now, hs[k]) == Number(hi);
      }
    }
  }

  // ---------------------------------------------------------------------------------------------------------------
  // The word operations
  // ---------------------------------------------------------------------------------------------------------------

  /** Both words of a pair after the masked wipe of generation `g`. */
  function WipedPair(p1: Word, p2: Word, g: nat): (Word, Word)
    requires |p1| == 64 && |p2| == 64
  {
    var m1, m2 := Words.Fill(64, g % 2 == 1), Words.Fill(64, g / 2 == 1);
    var mask := Or(Xor(p1, m1), Xor(p2, m2));
    (And(p1, mask), And(p2, mask))
  }

  /** A position is cleared exactly when its two bits spell the generation. */
  lemma WipedBits(p1: Word, p2: Word, g: nat, b: nat)
    requires |p1| == 64 && |p2| == 64 && 1 <= g <= 3 && b < 64
    ensures var (q1, q2) := WipedPair(p1, p2, g);
            var hit := p1[b] == (g % 2 == 1) && p2[b] == (g / 2 == 1);
            |q1| == 64 && |q2| == 64 && q1[b] == (p1[b] && !hit) && q2[b] == (p2[b] && !hit)
  {
  }

  /** A word with one bit replaced. */
  function WithBit(w: Word, b: nat, v: bool): Word
    requires |w| == 64
  {
    Or(And(w, Not(Shifted(64, true, b))), Shifted(64, v, b))
  }

  lemma WithBitExact(w: Word, b: nat, v: bool)
    requires |w| == 64 && b < 64
    ensures WithBit(w, b, v) == w[b := v]
  {
  }

  /** Both words of one pair changed at one bit. */
  lemma PutAt(was: seq<Word>, p: nat, b: nat, v: bool, w: bool, q: nat, c: nat)
    requires DataOk(was) && p % 2 == 0 && p + 1 < |was| && b < 64 && q % 2 == 0 && q + 1 < |was| && c < 64
    ensures var now := was[p := was[p][b := v]][p + 1 := was[p + 1][b := w]];
            DataOk(now) && StoredAt(now, q, c) == if (q, c) == (p, b) then (if v then 1 else 0) + (if w then 2 else 0)
                                                  else StoredAt(was, q, c)
  {
  }

  lemma PutExact(was: seq<Word>, h: nat, g: nat)
    requires DataOk(was) && h < 0x1_0000_0000 && 1 <= g <= 3
    ensures var p, b := PairOf(h, |was|), BitOf(h);
            Put(was, was[p := WithBit(was[p], b, g % 2 == 1)][p + 1 := WithBit(was[p + 1], b, g / 2 == 1)], h, g)
  {
    var p, b, v, w := PairOf(h, |was|), BitOf(h), g % 2 == 1, g / 2 == 1;
    WithBitExact(was[p], b, v);
    WithBitExact(was[p + 1], b, w);
    var now := was[p := was[p][b := v]][p + 1 := was[p + 1][b := w]];
    PutAt(was, p, b, v, w, p, b);
    forall q, c | 0 <= q < |was| && q % 2 == 0 && 0 <= c < 64 && (q != p || c != b)
      ensures StoredAt(now, q, c) == StoredAt(was, q, c)
    {
      PutAt(was, p, b, v, w, q, c);
    }
  }

  // ---------------------------------------------------------------------------------------------------------------
  // Which keys are kept
  // ---------------------------------------------------------------------------------------------------------------

  function Flatten(gens: seq<seq<Key>>): seq<Key> {
    if gens == [] then [] else Flatten(gens[..|gens| - 1]) + gens[|gens| - 1]
  }

  lemma FlattenOpened(gens: seq<seq<Key>>)
    ensures Flatten(gens + [[]]) == Flatten(gens)
  {
    assert (gens + [[]])[..|gens|] == gens;
  }

  lemma FlattenAdded(gens: seq<seq<Key>>, key: Key)
    requires gens != []
    ensures Flatten(gens[|gens| - 1 := gens[|gens| - 1] + [key]]) == Flatten(gens) + [key]
  {
    var last := |gens| - 1;
    assert gens[last := gens[last] + [key]][..last] == gens[..last];
  }

  /** Full generations of `n` keys, the last one possibly still filling. */
  ghost predicate Shape(gens: seq<seq<Key>>, n: nat) {
    && gens != [] && |gens[|gens| - 1]| <= n
    && forall e :: 0 <= e < |gens| - 1 ==> |gens[e]| == n
  }

  /** The key is in one of the last three generations. */
  ghost predicate Recent(gens: seq<seq<Key>>, key: Key) {
    exists e :: 0 <= e < |gens| <= e + 3 && key in gens[e]
  }

  /** The last `2 * n` keys inserted, or all if there are fewer, are in the last three generations. */
  lemma LastKeysRecent(gens: seq<seq<Key>>, n: nat, i: nat)
    requires Shape(gens, n) && i < |Flatten(gens)| && i + 2 * n >= |Flatten(gens)|
    ensures Recent(gens, Flatten(gens)[i])
  {
    var all := Flatten(gens);
    var k := |gens|;
    var g1 := gens[..k - 1];
    assert all == Flatten(g1) + gens[k - 1];
    if i >= |Flatten(g1)| {
      assert all[i] == gens[k - 1][i - |Flatten(g1)|];
    } else {
      var g2 := g1[..k - 2];
      assert Flatten(g1) == Flatten(g2) + gens[k - 2];
      if i >= |Flatten(g2)| {
        assert all[i] == gens[k - 2][i - |Flatten(g2)|];
      } else {
        var g3 := g2[..k - 3];
        assert Flatten(g2) == Flatten(g3) + gens[k - 3];
        assert |gens[k - 2]| == n && |gens[k - 3]| == n;
        assert all[i] == gens[k - 3][i - |Flatten(g3)|];
      }
    }
  }

  /** The key is one of the last `2 * n` inserted. */
  ghost predicate AmongLast(gens: seq<seq<Key>>, n: nat, key: Key) {
    exists i :: 0 <= i < |Flatten(gens)| <= i + 2 * n && Flatten(gens)[i] == key
  }

  // ---------------------------------------------------------------------------------------------------------------
  // The filter
  // ---------------------------------------------------------------------------------------------------------------

  /** How a filter hashes: the numbered hash functions, how many of them, and the tweak. */
  datatype Hasher = Hasher(hash: (nat, nat, Key) -> nat, nHashFuncs: nat, nTweak: nat) {
    ghost predicate Ok() {
      forall k, t, key :: hash(k, t, key) < 0x1_0000_0000
    }

    ghost function Hashes(key: Key): (hs: seq<nat>)
      requires Ok()
      ensures |hs| == nHashFuncs && forall k :: 0 <= k < |hs| ==> hs[k] < 0x1_0000_0000
    {
      seq(nHashFuncs, k requires 0 <= k < nHashFuncs => hash(k, nTweak, key))
    }
  }

  /** Every key of the last three generations is marked as no older than its own. */
  ghost predicate Kept(hasher: Hasher, data: seq<Word>, gens: seq<seq<Key>>) {
    && hasher.Ok() && DataOk(data)
    && forall e, key :: 0 <= e < |gens| <= e + 3 && key in gens[e] ==> Marked(data, hasher.Hashes(key), e, |gens| - 1)
  }

  lemma KeptAfterWipe(hasher: Hasher, was: seq<Word>, now: seq<Word>, gens: seq<seq<Key>>)
    requires gens != [] && Kept(hasher, was, gens) && Wiped(was, now, Number(|gens|))
    ensures Kept(hasher, now, gens + [[]])
  {
    var gens' := gens + [[]];
    forall e, key | 0 <= e < |gens'| <= e + 3 && key in gens'[e]
      ensures Marked(now, hasher.Hashes(key), e, |gens'| - 1)
    {
      assert key in gens[e];
      WipeKeeps(was, now, hasher.Hashes(key), e, |gens|);
    }
  }

  lemma KeptAfterPut(hasher: Hasher, was: seq<Word>, now: seq<Word>, h: nat, gens: seq<seq<Key>>)
    requires gens != [] && Kept(hasher, was, gens) && h < 0x1_0000_0000 && Put(was, now, h, Number(|gens| - 1))
    ensures Kept(hasher, now, gens)
  {
    forall e, key | 0 <= e < |gens| <= e + 3 && key in gens[e]
      ensures Marked(now, hasher.Hashes(key), e, |gens| - 1)
    {
      PutKeeps(was, now, h, hasher.Hashes(key), e, |gens| - 1);
    }
  }

  lemma KeptAfterAdd(hasher: Hasher, data: seq<Word>, gens: seq<seq<Key>>, vKey: Key)
    requires gens != [] && Kept(hasher, data, gens) && Marked(data, hasher.Hashes(vKey), |gens| - 1, |gens| - 1)
    ensures Kept(hasher, data, gens[|gens| - 1 := gens[|gens| - 1] + [vKey]])
  {
    var last := |gens| - 1;
    var gens' := gens[last := gens[last] + [vKey]];
    forall e, key | 0 <= e < |gens'| <= e + 3 && key in gens'[e]
      ensures Marked(data, hasher.Hashes(key), e, |gens'| - 1)
    {
      if key in gens[e] {
      } else {
        assert key == vKey && e == last;
      }
    }
  }

  /** Every position of a recent key carries a generation. */
  lemma RecentStored(hasher: Hasher, data: seq<Word>, gens: seq<seq<Key>>, n: nat, key: Key)
    requires Kept(hasher, data, gens) && n >= 1 && Shape(gens, n) && AmongLast(gens, n, key)
    ensures forall k :: 0 <= k < hasher.nHashFuncs ==> Stored(data, hasher.Hashes(key)[k]) != 0
  {
    var i :| 0 <= i < |Flatten(gens)| <= i + 2 * n && Flatten(gens)[i] == key;
    LastKeysRecent(gens, n, i);
    var e :| 0 <= e < |gens| <= e + 3 && key in gens[e];
    assert Marked(data, hasher.Hashes(key), e, |gens| - 1);
  }

  class RollingBloomFilter {
    var hasher: Hasher
    const nEntriesPerGeneration: nat
    var nEntriesThisGeneration: nat
    var nGeneration: nat
    const data: array<Word>
    /** The keys inserted since the last reset, by generation. */
    ghost var gens: seq<seq<Key>>

    ghost predicate Valid()
      reads this, data
    {
      && nEntriesPerGeneration >= 1
      && Shape(gens, nEntriesPerGeneration) && nEntriesThisGeneration == |gens[|gens| - 1]|
      && nGeneration == Number(|gens| - 1)
      && Kept(hasher, data[..], gens)
    }

    /** The number of hash functions and of words comes from floating-point sizing, which is not part of this model. */
    constructor (nElements: nat, hasher: Hasher, words: nat)
      requires nElements >= 1 && words >= 1 && hasher.Ok()
      ensures Valid() && gens == [[]] && 2 * nEntriesPerGeneration >= nElements && fresh(data)
      ensures this.hasher == hasher && data.Length == 2 * words && Blank(data[..])
    {
      this.hasher := hasher;
      nEntriesPerGeneration := (nElements + 1) / 2;
      data := new Word[2 * words](_ => Words.Fill(64, false));
      nEntriesThisGeneration, nGeneration := 0, 1;
      gens := [[]];
    }

    method Reset(tweak: nat)
      requires Valid()
      modifies this, data
      ensures Valid() && gens == [[]] && hasher == old(hasher).(nTweak := tweak) && Blank(data[..])
    {
      hasher := hasher.(nTweak := tweak);
      nEntriesThisGeneration, nGeneration := 0, 1;
      gens := [[]];
      for i := 0 to data.Length
        invariant DataOk(data[..]) && forall q :: 0 <= q < i ==> data[q] == Words.Fill(64, false)
        invariant hasher.Ok() && hasher == old(hasher).(nTweak := tweak)
        invariant gens == [[]] && nEntriesThisGeneration == 0 && nGeneration == 1
      {
        data[i] := Words.Fill(64, false);
      }
    }

    /** Clears every position that carries the current generation number. */
    method Wipe()
      requires DataOk(data[..]) && 1 <= nGeneration <= 3
      modifies data
      ensures Wiped(old(data[..]), data[..], nGeneration)
    {
      ghost var was := data[..];
      var p := 0;
      while p < data.Length
        invariant 0 <= p <= data.Length && p % 2 == 0 && DataOk(data[..])
        invariant forall q :: p <= q < data.Length ==> data[q] == was[q]
        invariant forall q :: 0 <= q < p && q % 2 == 0 ==>
                    (data[q], data[q + 1]) == WipedPair(was[q], was[q + 1], nGeneration)
      {
        var (q1, q2) := WipedPair(data[p], data[p + 1], nGeneration);
        data[p] := q1;
        data[p + 1] := q2;
        p := p + 2;
      }
      ghost var now := data[..];
      forall q, b | 0 <= q < |was| && q % 2 == 0 && 0 <= b < 64
        ensures StoredAt(now, q, b) == if StoredAt(was, q, b) == nGeneration then 0 else StoredAt(was, q, b)
      {
        WipedBits(was[q], was[q + 1], nGeneration, b);
      }
    }

    /** Writes the current generation number at one position. */
    method Mark(h: nat)
      requires DataOk(data[..]) && 1 <= nGeneration <= 3 && h < 0x1_0000_0000
      modifies data
      ensures Put(old(data[..]), data[..], h, nGeneration)
    {
      var bit := BitOf(h);
      var p := PairOf(h, data.Length);
      ghost var was := data[..];
      data[p] := WithBit(data[p], bit, nGeneration % 2 == 1);
      data[p + 1] := WithBit(data[p + 1], bit, nGeneration / 2 == 1);
      assert data[..] == was[p := data[p]][p + 1 := data[p + 1]];
      PutExact(was, h, nGeneration);
    }

    /** Opens the next generation. */
    method NextGeneration()
      requires Valid() && nEntriesThisGeneration == nEntriesPerGeneration
      modifies this`nEntriesThisGeneration, this`nGeneration, this`gens, data
      ensures Valid() && gens == old(gens) + [[]]
    {
      nEntriesThisGeneration := 0;
      nGeneration := nGeneration + 1;
      if nGeneration == 4 {
        nGeneration := 1;
      }
      Wipe();
      KeptAfterWipe(hasher, old(data[..]), data[..], gens);
      gens := gens + [[]];
    }

    /** Marks all positions of a key; keys marked before stay marked. */
    method MarkAll(vKey: Key)
      requires Valid()
      modifies data
      ensures Valid() && Marked(data[..], hasher.Hashes(vKey), |gens| - 1, |gens| - 1)
    {
      ghost var hi := |gens| - 1;
      ghost var hs := hasher.Hashes(vKey);
      for n := 0 to hasher.nHashFuncs
        invariant Valid()
        invariant Marked(data[..], hs[..n], hi, hi)
      {
        var h := hasher.hash(n, hasher.nTweak, vKey);
        ghost var was := data[..];
        Mark(h);
        KeptAfterPut(hasher, was, data[..], h, gens);
        PutKeeps(was, data[..], h, hs[..n], hi, hi);
        assert hs[..n + 1] == hs[..n] + [h];
        assert From(Stored(data[..], h), hi, hi) by { assert Stored(data[..], h) == Number(hi); }
      }
      assert hs[..hasher.nHashFuncs] == hs;
    }

    method Insert(vKey: Key)
      requires Valid()
      modifies this`nEntriesThisGeneration, this`nGeneration, this`gens, data
      ensures Valid() && Flatten(gens) == old(Flatten(gens)) + [vKey]
    {
      if nEntriesThisGeneration == nEntriesPerGeneration {
        FlattenOpened(gens);
        NextGeneration();
      }
      MarkAll(vKey);
      nEntriesThisGeneration := nEntriesThisGeneration + 1;
      KeptAfterAdd(hasher, data[..], gens, vKey);
      FlattenAdded(gens, vKey);
      gens := gens[|gens| - 1 := gens[|gens| - 1] + [vKey]];
    }

    /**
     Answers whether every position of the key carries some generation. It is never wrong about the last
     `2 * nEntriesPerGeneration` keys, however generation numbers have been packed, reused and wiped.
     */
    method Contains(vKey: Key) returns (found: bool)
      requires Valid()
      ensures found <==> forall k :: 0 <= k < hasher.nHashFuncs ==> Stored(data[..], hasher.Hashes(vKey)[k]) != 0
      ensures AmongLast(gens, nEntriesPerGeneration, vKey) ==> found
      ensures Blank(data[..]) && hasher.nHashFuncs > 0 ==> !found
    {
      if AmongLast(gens, nEntriesPerGeneration, vKey) {
        RecentStored(hasher, data[..], gens, nEntriesPerGeneration, vKey);
      }
      if Blank(data[..]) && hasher.nHashFuncs > 0 {
        BlankStoresNone(data[..], hasher.Hashes(vKey)[0]);
      }
      for n := 0 to hasher.nHashFuncs
        invariant forall k :: 0 <= k < n ==> Stored(data[..], hasher.Hashes(vKey)[k]) != 0
      {
        var h := hasher.hash(n, hasher.nTweak, vKey);
        assert h == hasher.Hashes(vKey)[n];
        var p := PairOf(h, data.Length);
        if !Or(data[p], data[p + 1])[BitOf(h)] {
          return false;
        }
      }
      return true;
    }
  }
}
