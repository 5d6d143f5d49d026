/**
 The cuckoo cache (`CuckooCache::cache`): a table in which every element has eight candidate slots, with lazily
 collected slots and two live epochs. An insertion that finds no collectable slot displaces elements along a chain of
 bounded length and drops the last one.
 */
module Cuckoo {
  import opened Arithmetic

  /** What the cache is instantiated with: eight 32-bit hashes per element, and the default-constructed element. */
  datatype Env<!E> = Env(hashes: E -> seq<nat>, zero: E)

  ghost predicate GoodEnv<E(!new)>(env: Env<E>) {
    forall e :: |env.hashes(e)| == 8 && forall k :: 0 <= k < 8 ==> env.hashes(e)[k] < 0x1_0000_0000
  }

  datatype Slots<E> = Slots(table: seq<E>, dead: seq<bool>, epoch: seq<bool>)

  /** `dead` holds the collection flags; `counter` is `epoch_heuristic_counter`. */
  datatype Cache<E> = Cache(slots: Slots<E>, counter: nat, epochSize: nat, depthLimit: nat)

  // ---------------------------------------------------------------------------------------------------------------
  // Slots of an element
  // ---------------------------------------------------------------------------------------------------------------

  /** A 32-bit hash taken as a fraction of the table size. */
  function Bucket(hash: nat, size: nat): nat {
    MulNonNegative(hash, size);
    (hash * size) / 0x1_0000_0000
  }

  lemma BucketInRange(hash: nat, size: nat)
    requires hash < 0x1_0000_0000 && size > 0
    ensures Bucket(hash, size) < size
  {
    MulMonotone(hash, 0xffff_ffff, size);
  }

  function Locs<E>(env: Env<E>, size: nat, e: E): seq<nat> {
    seq(|env.hashes(e)|, i requires 0 <= i < |env.hashes(e)| => Bucket(env.hashes(e)[i], size))
  }

  lemma LocsInRange<E(!new)>(env: Env<E>, size: nat, e: E)
    requires GoodEnv(env) && size > 0
    ensures |Locs(env, size, e)| == 8 && forall k :: 0 <= k < 8 ==> Locs(env, size, e)[k] < size
  {
    forall k | 0 <= k < 8 ensures Locs(env, size, e)[k] < size {
      BucketInRange(env.hashes(e)[k], size);
    }
  }

  predicate InRange(locs: seq<nat>, size: nat) {
    |locs| == 8 && forall k :: 0 <= k < 8 ==> locs[k] < size
  }

  /** The first candidate slot from `k` on that holds the element, or 8. */
  function FindMatch<E(==)>(table: seq<E>, locs: seq<nat>, e: E, k: nat): (r: nat)
    requires InRange(locs, |table|) && k <= 8
    ensures k <= r <= 8 && (r < 8 ==> table[locs[r]] == e)
    ensures forall i :: k <= i < r ==> table[locs[i]] != e
    decreases 8 - k
  {
    if k == 8 || table[locs[k]] == e then k else FindMatch(table, locs, e, k + 1)
  }

  /** The first candidate slot from `k` on that may be collected, or 8. */
  function FindDead(dead: seq<bool>, locs: seq<nat>, k: nat): (r: nat)
    requires InRange(locs, |dead|) && k <= 8
    ensures k <= r <= 8 && (r < 8 ==> dead[locs[r]])
    ensures forall i :: k <= i < r ==> !dead[locs[i]]
    decreases 8 - k
  {
    if k == 8 || dead[locs[k]] then k else FindDead(dead, locs, k + 1)
  }

  /** The first position of a slot among the candidates, or 8. */
  function IndexOf(locs: seq<nat>, loc: int, k: nat): (r: nat)
    requires |locs| == 8 && k <= 8
    ensures k <= r <= 8 && (r < 8 ==> locs[r] == loc)
    ensures r == 8 ==> forall i :: k <= i < 8 ==> locs[i] != loc
    decreases 8 - k
  {
    if k == 8 || locs[k] == loc then k else IndexOf(locs, loc, k + 1)
  }

  /** The candidate after the slot last displaced; 9 & 7 when there is none yet. */
  function NextLoc(locs: seq<nat>, last: int): nat
    requires |locs| == 8
  {
    locs[(1 + IndexOf(locs, last, 0)) % 8]
  }

  /** Before the first displacement nothing is found, and the index 9 & 7 gives the second candidate. */
  lemma FirstDisplaced(locs: seq<nat>)
    requires |locs| == 8
    ensures NextLoc(locs, -1) == locs[1]
  {
    assert IndexOf(locs, -1, 0) == 8;
  }

  // ---------------------------------------------------------------------------------------------------------------
  // Operations
  // ---------------------------------------------------------------------------------------------------------------

  ghost predicate SlotsOk<E>(s: Slots<E>) {
    |s.table| >= 2 && |s.dead| == |s.table| && |s.epoch| == |s.table|
  }

  /** The slots after `e` has been put into the collectable slot `loc`. */
  ghost function Fill<E>(s: Slots<E>, e: E, loc: nat, lastEpoch: bool): Slots<E>
    requires SlotsOk(s) && loc < |s.table|
  {
    Slots(s.table[loc := e], s.dead[loc := false], s.epoch[loc := lastEpoch])
  }

  /** The slots after `e` has displaced the live element in slot `loc`. */
  ghost function Swap<E>(s: Slots<E>, e: E, loc: nat, lastEpoch: bool): Slots<E>
    requires SlotsOk(s) && loc < |s.table|
  {
    Slots(s.table[loc := e], s.dead, s.epoch[loc := lastEpoch])
  }

  /** The state of the displacement chain: the slots, the element in hand, and where it was displaced from. */
  datatype Turn<E> = Turn(slots: Slots<E>, hand: E, last: int, lastEpoch: bool)

  /** The first collectable slot of the element in hand, or 8. */
  ghost function FreeAt<E(!new)>(env: Env<E>, t: Turn<E>): (k: nat)
    requires GoodEnv(env) && SlotsOk(t.slots)
  {
    LocsInRange(env, |t.slots.table|, t.hand);
    FindDead(t.slots.dead, Locs(env, |t.slots.table|, t.hand), 0)
  }

  /** The turn displaces a live element, having found no collectable slot. */
  ghost predicate Displaces<E(!new)>(env: Env<E>, t: Turn<E>)
    requires GoodEnv(env) && SlotsOk(t.slots)
  {
    FreeAt(env, t) == 8
  }

  /** The slot that the turn puts the element in hand into. */
  ghost function Target<E(!new)>(env: Env<E>, t: Turn<E>): (loc: nat)
    requires GoodEnv(env) && SlotsOk(t.slots)
    ensures loc < |t.slots.table| && loc in Locs(env, |t.slots.table|, t.hand)
    ensures t.slots.dead[loc] <==> !Displaces(env, t)
  {
    LocsInRange(env, |t.slots.table|, t.hand);
    var locs := Locs(env, |t.slots.table|, t.hand);
    if Displaces(env, t) then NextLoc(locs, t.last) else locs[FreeAt(env, t)]
  }

  ghost function NextTurn<E(!new)>(env: Env<E>, t: Turn<E>): (t': Turn<E>)
    requires GoodEnv(env) && SlotsOk(t.slots)
  {
    var loc := Target(env, t);
    Turn(Swap(t.slots, t.hand, loc, t.lastEpoch), t.slots.table[loc], loc, t.slots.epoch[loc])
  }

  /**
   The displacement chain. Returns the slots and the element that is lost: the garbage overwritten in a collectable
   slot, or whatever is in hand when the depth runs out.
   */
  ghost function Displace<E(!new)>(env: Env<E>, t: Turn<E>, depth: nat): (Slots<E>, E)
    requires GoodEnv(env) && SlotsOk(t.slots)
    decreases depth
  {
    if depth == 0 then
      (t.slots, t.hand)
    else if Displaces(env, t) then
      Displace(env, NextTurn(env, t), depth - 1)
    else
      (Fill(t.slots, t.hand, Target(env, t), t.lastEpoch), t.slots.table[Target(env, t)])
  }

  /** Live slots of the current epoch. */
  function CountLive(dead: seq<bool>, epoch: seq<bool>): nat
    requires |dead| == |epoch|
  {
    if dead == [] then 0 else (if epoch[0] && !dead[0] then 1 else 0) + CountLive(dead[1..], epoch[1..])
  }

  /** Ages the epochs once the current one is full. */
  function EpochCheck<E>(c: Cache<E>): Cache<E>
    requires |c.slots.dead| == |c.slots.epoch|
  {
    if c.counter != 0 then c.(counter := c.counter - 1) else
    var s := c.slots;
    var count := CountLive(s.dead, s.epoch);
    if count >= c.epochSize then
      var n := |s.dead|;
      c.(slots := s.(dead := seq(n, i requires 0 <= i < n => s.dead[i] || !s.epoch[i]), epoch := seq(n, _ => false)),
         counter := c.epochSize)
    else
      c.(counter := Max(1, Max(c.epochSize / 16, c.epochSize - count)))
  }

  ghost predicate CacheOk<E>(c: Cache<E>) {
    SlotsOk(c.slots) && c.epochSize >= 1 && c.depthLimit >= 1
  }

  ghost function Insert<E(!new)>(env: Env<E>, c: Cache<E>, e: E): (Cache<E>, E)
    requires GoodEnv(env) && CacheOk(c)
  {
    Place(env, EpochCheck(c), e)
  }

  /** The insertion after the epoch check: an element found is kept, any other goes through the chain. */
  ghost function Place<E(!new)>(env: Env<E>, c: Cache<E>, e: E): (Cache<E>, E)
    requires GoodEnv(env) && CacheOk(c)
  {
    var s := c.slots;
    LocsInRange(env, |s.table|, e);
    var locs := Locs(env, |s.table|, e);
    var k := FindMatch(s.table, locs, e, 0);
    if k < 8 then
      (c.(slots := s.(dead := s.dead[locs[k] := false], epoch := s.epoch[locs[k] := true])), e)
    else
      var (s', lost) := Displace(env, Turn(s, e, -1, true), c.depthLimit);
      (c.(slots := s'), lost)
  }

  ghost function Contains<E(!new)>(env: Env<E>, c: Cache<E>, e: E, erase: bool): (Cache<E>, bool)
    requires GoodEnv(env) && CacheOk(c)
  {
    var s := c.slots;
    LocsInRange(env, |s.table|, e);
    var locs := Locs(env, |s.table|, e);
    var k := FindMatch(s.table, locs, e, 0);
    if k < 8 then (if erase then c.(slots := s.(dead := s.dead[locs[k] := true])) else c, true) else (c, false)
  }

  /** A fresh cache; the size is at least two and every slot is collectable. */
  function Setup<E>(env: Env<E>, newSize: nat, depthLimit: nat): Cache<E> {
    var size := Max(2, newSize);
    Cache(Slots(seq(size, _ => env.zero), seq(size, _ => true), seq(size, _ => false)),
          Max(1, ((45 * size) % 0x1_0000_0000) / 100), Max(1, ((45 * size) % 0x1_0000_0000) / 100), depthLimit)
  }

  // ---------------------------------------------------------------------------------------------------------------
  // Placement
  // ---------------------------------------------------------------------------------------------------------------

  ghost predicate Homes<E(!new)>(env: Env<E>, s: Slots<E>, e: E, loc: int) {
    loc in Locs(env, |s.table|, e)
  }

  /** Every live slot, and every slot that does not hold the default element, holds an element hashing there. */
  ghost predicate Placed<E(!new)>(env: Env<E>, s: Slots<E>) {
    && SlotsOk(s)
    && (forall i :: 0 <= i < |s.table| && (!s.dead[i] || s.table[i] != env.zero) ==> Homes(env, s, s.table[i], i))
    && (forall i, j :: 0 <= i < j < |s.table| && s.table[i] == s.table[j] ==> s.table[i] == env.zero)
  }

  /** The element in hand is nowhere in the table, and came from the slot last displaced. */
  ghost predicate InHand<E(!new)>(env: Env<E>, s: Slots<E>, e: E, last: int) {
    && (e in s.table ==> e == env.zero)
    && (last == -1 || Homes(env, s, e, last))
  }

  /** Putting `e` into one of its slots, whether collectable or displacing a live element. */
  lemma PutKeeps<E(!new)>(env: Env<E>, s: Slots<E>, e: E, loc: nat, dead: seq<bool>, epoch: seq<bool>)
    requires Placed(env, s) && loc < |s.table| && Homes(env, s, e, loc) && (e in s.table ==> e == env.zero)
    requires |dead| == |s.dead| && |epoch| == |s.epoch|
    requires forall i :: 0 <= i < |dead| && i != loc ==> dead[i] == s.dead[i]
    ensures Placed(env, Slots(s.table[loc := e], dead, epoch))
  {
    var s' := Slots(s.table[loc := e], dead, epoch);
    forall i | 0 <= i < |s'.table| && (!s'.dead[i] || s'.table[i] != env.zero)
      ensures Homes(env, s', s'.table[i], i)
    {
      if i != loc { assert Homes(env, s, s.table[i], i); }
    }
    forall i, j | 0 <= i < j < |s'.table| && s'.table[i] == s'.table[j]
      ensures s'.table[i] == env.zero
    {
      if i == loc { assert s.table[j] in s.table; }
      if j == loc { assert s.table[i] in s.table; }
    }
  }

  lemma MultisetSwap<E>(t: seq<E>, loc: nat, e: E)
    requires loc < |t|
    ensures multiset(t[loc := e]) + multiset{t[loc]} == multiset(t) + multiset{e}
  {
    assert t == t[..loc] + [t[loc]] + t[loc + 1..];
    assert t[loc := e] == t[..loc] + [e] + t[loc + 1..];
  }

  lemma {:induction false} CountAt(dead: seq<bool>, epoch: seq<bool>, loc: nat, d: bool, b: bool)
    requires |dead| == |epoch| && loc < |dead|
    ensures CountLive(dead[loc := d], epoch[loc := b]) + (if epoch[loc] && !dead[loc] then 1 else 0)
            == CountLive(dead, epoch) + (if b && !d then 1 else 0)
    decreases |dead|
  {
    if loc == 0 {
      assert dead[0 := d][1..] == dead[1..] && epoch[0 := b][1..] == epoch[1..];
    } else {
      assert dead[loc := d][1..] == dead[1..][loc - 1 := d] && epoch[loc := b][1..] == epoch[1..][loc - 1 := b];
      CountAt(dead[1..], epoch[1..], loc - 1, d, b);
    }
  }

  /** The chain conserves contents: the table afterwards and the one lost element are the table before and `e`. */
  lemma {:induction false} DisplaceConserves<E(!new)>(env: Env<E>, t: Turn<E>, depth: nat)
    requires GoodEnv(env) && SlotsOk(t.slots)
    ensures var (s', lost) := Displace(env, t, depth);
            && SlotsOk(s') && |s'.table| == |t.slots.table|
            && multiset(s'.table) + multiset{lost} == multiset(t.slots.table) + multiset{t.hand}
    decreases depth
  {
    if depth > 0 {
      MultisetSwap(t.slots.table, Target(env, t), t.hand);
      if Displaces(env, t) {
        DisplaceConserves(env, NextTurn(env, t), depth - 1);
      }
    }
  }

  lemma FillCounts<E>(s: Slots<E>, e: E, loc: nat, lastEpoch: bool)
    requires SlotsOk(s) && loc < |s.table|
    ensures var s' := Fill(s, e, loc, lastEpoch);
            CountLive(s'.dead, s'.epoch) <= CountLive(s.dead, s.epoch) + (if lastEpoch then 1 else 0)
  {
    CountAt(s.dead, s.epoch, loc, false, lastEpoch);
  }

  lemma SwapCounts<E>(s: Slots<E>, e: E, loc: nat, lastEpoch: bool)
    requires SlotsOk(s) && loc < |s.table| && !s.dead[loc]
    ensures var s' := Swap(s, e, loc, lastEpoch);
            CountLive(s'.dead, s'.epoch) + (if s.epoch[loc] then 1 else 0)
              == CountLive(s.dead, s.epoch) + (if lastEpoch then 1 else 0)
  {
    assert s.dead[loc := false] == s.dead;
    CountAt(s.dead, s.epoch, loc, false, lastEpoch);
  }

  lemma FillPlaces<E(!new)>(env: Env<E>, s: Slots<E>, e: E, loc: nat, lastEpoch: bool)
    requires Placed(env, s) && loc < |s.table| && Homes(env, s, e, loc) && (e in s.table ==> e == env.zero)
    ensures Placed(env, Fill(s, e, loc, lastEpoch))
  {
    PutKeeps(env, s, e, loc, s.dead[loc := false], s.epoch[loc := lastEpoch]);
  }

  lemma SwapPlaces<E(!new)>(env: Env<E>, s: Slots<E>, e: E, loc: nat, lastEpoch: bool)
    requires Placed(env, s) && loc < |s.table| && !s.dead[loc]
    requires Homes(env, s, e, loc) && (e in s.table ==> e == env.zero)
    ensures Placed(env, Swap(s, e, loc, lastEpoch)) && InHand(env, Swap(s, e, loc, lastEpoch), s.table[loc], loc)
  {
    PutKeeps(env, s, e, loc, s.dead, s.epoch[loc := lastEpoch]);
    HandOver(env, s, e, loc, Swap(s, e, loc, lastEpoch));
  }

  /** The table is well placed, and the element in hand is out of it. */
  ghost predicate Ready<E(!new)>(env: Env<E>, t: Turn<E>) {
    Placed(env, t.slots) && InHand(env, t.slots, t.hand, t.last)
  }

  lemma ReadyFills<E(!new)>(env: Env<E>, t: Turn<E>)
    requires GoodEnv(env) && Ready(env, t) && !Displaces(env, t)
    ensures Placed(env, Fill(t.slots, t.hand, Target(env, t), t.lastEpoch))
  {
    assert Homes(env, t.slots, t.hand, Target(env, t));
    FillPlaces(env, t.slots, t.hand, Target(env, t), t.lastEpoch);
  }

  lemma ReadyGoesOn<E(!new)>(env: Env<E>, t: Turn<E>)
    requires GoodEnv(env) && Ready(env, t) && Displaces(env, t)
    ensures Ready(env, NextTurn(env, t))
  {
    assert Homes(env, t.slots, t.hand, Target(env, t));
    SwapPlaces(env, t.slots, t.hand, Target(env, t), t.lastEpoch);
  }

  /** The search of a turn after the first finds the slot last displaced. */
  ghost predicate Finds<E(!new)>(env: Env<E>, t: Turn<E>)
    requires GoodEnv(env) && SlotsOk(t.slots)
  {
    LocsInRange(env, |t.slots.table|, t.hand);
    t.last != -1 ==> IndexOf(Locs(env, |t.slots.table|, t.hand), t.last, 0) < 8
  }

  lemma ReadyFinds<E(!new)>(env: Env<E>, t: Turn<E>)
    requires GoodEnv(env) && Ready(env, t)
    ensures Finds(env, t)
  {
    LocsInRange(env, |t.slots.table|, t.hand);
  }

  /** Along the whole chain, every turn after the first that has to displace finds the slot last displaced. */
  ghost predicate SearchesSucceed<E(!new)>(env: Env<E>, t: Turn<E>, depth: nat)
    requires GoodEnv(env) && SlotsOk(t.slots)
    decreases depth
  {
    depth > 0 && Displaces(env, t) ==> Finds(env, t) && SearchesSucceed(env, NextTurn(env, t), depth - 1)
  }

  /** What every displacing turn keeps holds at the end of the chain. */
  lemma {:induction false} ChainEnds<E(!new)>(env: Env<E>, t: Turn<E>, depth: nat, keeps: Turn<E> -> bool,
                                              ends: Slots<E> -> bool)
    requires GoodEnv(env) && keeps(t)
    requires forall u :: keeps(u) ==> SlotsOk(u.slots) && ends(u.slots)
    requires forall u :: keeps(u) && Displaces(env, u) ==> keeps(NextTurn(env, u))
    requires forall u :: keeps(u) && !Displaces(env, u) ==> ends(Fill(u.slots, u.hand, Target(env, u), u.lastEpoch))
    ensures ends(Displace(env, t, depth).0)
    decreases depth
  {
    if depth > 0 && Displaces(env, t) {
      ChainEnds(env, NextTurn(env, t), depth - 1, keeps, ends);
    }
  }

  /** What every displacing turn keeps holds in every search. */
  lemma {:induction false} ChainFinds<E(!new)>(env: Env<E>, t: Turn<E>, depth: nat, keeps: Turn<E> -> bool)
    requires GoodEnv(env) && keeps(t)
    requires forall u :: keeps(u) ==> SlotsOk(u.slots) && Finds(env, u)
    requires forall u :: keeps(u) && Displaces(env, u) ==> keeps(NextTurn(env, u))
    ensures SearchesSucceed(env, t, depth)
    decreases depth
  {
    if depth > 0 && Displaces(env, t) {
      ChainFinds(env, NextTurn(env, t), depth - 1, keeps);
    }
  }

  /**
   From any well-placed table and element in hand, the chain keeps every element where its hashes allow and never
   duplicates one, and all its searches succeed.
   */
  lemma DisplacePlaces<E(!new)>(env: Env<E>, t: Turn<E>, depth: nat)
    requires GoodEnv(env) && Ready(env, t)
    ensures Placed(env, Displace(env, t, depth).0)
    ensures SearchesSucceed(env, t, depth)
  {
    var keeps: Turn<E> -> bool := (u: Turn<E>) => Ready(env, u);
    var ends: Slots<E> -> bool := (u: Slots<E>) => Placed(env, u);
    forall u: Turn<E> | keeps(u)
      ensures Finds(env, u)
      ensures Displaces(env, u) ==> keeps(NextTurn(env, u))
      ensures !Displaces(env, u) ==> ends(Fill(u.slots, u.hand, Target(env, u), u.lastEpoch))
    {
      ReadyFinds(env, u);
      if Displaces(env, u) { ReadyGoesOn(env, u); } else { ReadyFills(env, u); }
    }
    ChainFinds(env, t, depth, keeps);
    ChainEnds(env, t, depth, keeps, ends);
    assert ends(Displace(env, t, depth).0);
  }

  /** The live entries of the current epoch, with the element in hand. */
  ghost function Weight<E>(t: Turn<E>): nat
    requires SlotsOk(t.slots)
  {
    CountLive(t.slots.dead, t.slots.epoch) + (if t.lastEpoch then 1 else 0)
  }

  lemma WeightKept<E(!new)>(env: Env<E>, t: Turn<E>)
    requires GoodEnv(env) && SlotsOk(t.slots)
    ensures Displaces(env, t) ==> Weight(NextTurn(env, t)) == Weight(t)
    ensures var s' := Fill(t.slots, t.hand, Target(env, t), t.lastEpoch); CountLive(s'.dead, s'.epoch) <= Weight(t)
  {
    FillCounts(t.slots, t.hand, Target(env, t), t.lastEpoch);
    if Displaces(env, t) {
      SwapCounts(t.slots, t.hand, Target(env, t), t.lastEpoch);
    }
  }

  /** The chain adds at most the one element in hand to the live entries of the current epoch. */
  lemma DisplaceCounts<E(!new)>(env: Env<E>, t: Turn<E>, depth: nat)
    requires GoodEnv(env) && SlotsOk(t.slots)
    ensures var s' := Displace(env, t, depth).0;
            |s'.dead| == |s'.epoch| && CountLive(s'.dead, s'.epoch) <= Weight(t)
  {
    var most := Weight(t);
    var keeps: Turn<E> -> bool := (u: Turn<E>) => SlotsOk(u.slots) && Weight(u) <= most;
    var ends: Slots<E> -> bool := (u: Slots<E>) => |u.dead| == |u.epoch| && CountLive(u.dead, u.epoch) <= most;
    forall u: Turn<E> | keeps(u)
      ensures Displaces(env, u) ==> keeps(NextTurn(env, u))
      ensures ends(Fill(u.slots, u.hand, Target(env, u), u.lastEpoch))
    {
      WeightKept(env, u);
    }
    ChainEnds(env, t, depth, keeps, ends);
    assert ends(Displace(env, t, depth).0);
  }

  /** Every search of the insertion, if the element is not found. */
  ghost predicate InsertFinds<E(!new)>(env: Env<E>, c: Cache<E>, e: E)
    requires GoodEnv(env) && CacheOk(c)
  {
    LocsInRange(env, |c.slots.table|, e);
    FindMatch(c.slots.table, Locs(env, |c.slots.table|, e), e, 0) == 8 ==>
      SearchesSucceed(env, Turn(c.slots, e, -1, true), c.depthLimit)
  }

  /** In every insertion, from any reachable cache. */
  lemma InsertSearches<E(!new)>(env: Env<E>, c: Cache<E>, e: E)
    requires Inv(env, c)
    ensures CacheOk(EpochCheck(c)) && InsertFinds(env, EpochCheck(c), e)
  {
    EpochCheckKeeps(env, c);
    var s := EpochCheck(c).slots;
    NoMatchInHand(env, s, e);
    if FindMatch(s.table, Locs(env, |s.table|, e), e, 0) == 8 {
      DisplacePlaces(env, Turn(s, e, -1, true), c.depthLimit);
    }
  }

  /** A displaced live element is no longer in the table and hashes to the slot it left. */
  lemma HandOver<E(!new)>(env: Env<E>, s: Slots<E>, e: E, loc: nat, s1: Slots<E>)
    requires Placed(env, s) && loc < |s.table| && !s.dead[loc] && (e in s.table ==> e == env.zero)
    requires |s1.table| == |s.table| && s1.table == s.table[loc := e]
    ensures InHand(env, s1, s.table[loc], loc)
  {
    var e' := s.table[loc];
    assert Homes(env, s, e', loc);
    if e' in s1.table {
      var i :| 0 <= i < |s1.table| && s1.table[i] == e';
    }
  }

  // ---------------------------------------------------------------------------------------------------------------
  // Epochs
  // ---------------------------------------------------------------------------------------------------------------

  function EpochBound(epochSize: nat): nat { epochSize + Max(1, epochSize / 16) }

  lemma {:induction false} CountNone(dead: seq<bool>, epoch: seq<bool>)
    requires |dead| == |epoch| && forall i :: 0 <= i < |epoch| ==> !epoch[i]
    ensures CountLive(dead, epoch) == 0
    decreases |dead|
  {
    if dead != [] { CountNone(dead[1..], epoch[1..]); }
  }

  lemma AgePlaces<E(!new)>(env: Env<E>, s: Slots<E>, dead: seq<bool>, epoch: seq<bool>)
    requires Placed(env, s) && |dead| == |s.dead| && |epoch| == |s.epoch|
    requires forall i :: 0 <= i < |dead| && s.dead[i] ==> dead[i]
    ensures Placed(env, s.(dead := dead, epoch := epoch))
  {
    var s' := s.(dead := dead, epoch := epoch);
    forall i | 0 <= i < |s'.table| && (!s'.dead[i] || s'.table[i] != env.zero)
      ensures Homes(env, s', s'.table[i], i)
    {
      assert Homes(env, s, s.table[i], i);
    }
  }

  /** The check leaves room for one more live entry below the bound. */
  lemma EpochCheckKeeps<E(!new)>(env: Env<E>, c: Cache<E>)
    requires CacheOk(c) && Placed(env, c.slots)
    requires CountLive(c.slots.dead, c.slots.epoch) + c.counter <= EpochBound(c.epochSize)
    ensures var c1 := EpochCheck(c);
            && CacheOk(c1) && Placed(env, c1.slots) && c1.slots.table == c.slots.table
            && c1.epochSize == c.epochSize && c1.depthLimit == c.depthLimit
            && CountLive(c1.slots.dead, c1.slots.epoch) + c1.counter + 1 <= EpochBound(c.epochSize)
  {
    var c1 := EpochCheck(c);
    var s, s1 := c.slots, c1.slots;
    if c.counter == 0 && CountLive(s.dead, s.epoch) >= c.epochSize {
      AgePlaces(env, s, s1.dead, s1.epoch);
      CountNone(s1.dead, s1.epoch);
    }
  }

  /** What holds of a cache between operations. */
  ghost predicate Inv<E(!new)>(env: Env<E>, c: Cache<E>) {
    && GoodEnv(env) && CacheOk(c) && Placed(env, c.slots)
    && CountLive(c.slots.dead, c.slots.epoch) + c.counter <= EpochBound(c.epochSize)
  }

  lemma SetupInv<E(!new)>(env: Env<E>, newSize: nat, depthLimit: nat)
    requires GoodEnv(env) && depthLimit >= 1
    ensures Inv(env, Setup(env, newSize, depthLimit))
  {
    var s := Setup(env, newSize, depthLimit).slots;
    CountNone(s.dead, s.epoch);
  }

  /** Whatever an insertion does, the cache stays consistent, loses exactly one element of old contents plus the new
      one unless the element was there already, and keeps the epoch bound. */
  lemma InsertKeeps<E(!new)>(env: Env<E>, c: Cache<E>, e: E)
    requires Inv(env, c)
    ensures var (c', lost) := Insert(env, c, e);
            && Inv(env, c') && |c'.slots.table| == |c.slots.table|
            && multiset(c'.slots.table) + multiset{lost} == multiset(c.slots.table) + multiset{e}
  {
    EpochCheckKeeps(env, c);
    var c1 := EpochCheck(c);
    var s := c1.slots;
    LocsInRange(env, |s.table|, e);
    var locs := Locs(env, |s.table|, e);
    var k := FindMatch(s.table, locs, e, 0);
    if k < 8 {
      MatchPlaces(env, s, e, locs[k]);
      CountAt(s.dead, s.epoch, locs[k], false, true);
    } else {
      NoMatchInHand(env, s, e);
      DisplacePlaces(env, Turn(s, e, -1, true), c.depthLimit);
      DisplaceConserves(env, Turn(s, e, -1, true), c.depthLimit);
      DisplaceCounts(env, Turn(s, e, -1, true), c.depthLimit);
    }
  }

  lemma MatchPlaces<E(!new)>(env: Env<E>, s: Slots<E>, e: E, loc: nat)
    requires Placed(env, s) && loc < |s.table| && s.table[loc] == e && Homes(env, s, e, loc)
    ensures Placed(env, s.(dead := s.dead[loc := false], epoch := s.epoch[loc := true]))
  {
    var s' := s.(dead := s.dead[loc := false], epoch := s.epoch[loc := true]);
    forall i | 0 <= i < |s'.table| && (!s'.dead[i] || s'.table[i] != env.zero)
      ensures Homes(env, s', s'.table[i], i)
    {
      if i != loc { assert Homes(env, s, s.table[i], i); }
    }
  }

  /** An element other than the default one, if it is anywhere, is found in one of its slots. */
  lemma FoundIfThere<E(!new)>(env: Env<E>, s: Slots<E>, e: E)
    requires GoodEnv(env) && Placed(env, s) && e in s.table && e != env.zero
    ensures InRange(Locs(env, |s.table|, e), |s.table|)
    ensures FindMatch(s.table, Locs(env, |s.table|, e), e, 0) < 8
  {
    LocsInRange(env, |s.table|, e);
    var locs := Locs(env, |s.table|, e);
    var i :| 0 <= i < |s.table| && s.table[i] == e;
    assert Homes(env, s, e, i);
    var k :| 0 <= k < 8 && locs[k] == i;
    assert s.table[locs[k]] == e;
  }

  lemma NoMatchInHand<E(!new)>(env: Env<E>, s: Slots<E>, e: E)
    requires GoodEnv(env) && Placed(env, s)
    ensures InRange(Locs(env, |s.table|, e), |s.table|)
    ensures FindMatch(s.table, Locs(env, |s.table|, e), e, 0) == 8 ==> InHand(env, s, e, -1)
  {
    LocsInRange(env, |s.table|, e);
    if e in s.table && e != env.zero { FoundIfThere(env, s, e); }
  }

  /** A lookup answers for every element but the default one whether it is anywhere in the table, and changes at most
      one collection flag. */
  lemma ContainsExact<E(!new)>(env: Env<E>, c: Cache<E>, e: E, erase: bool)
    requires Inv(env, c)
    ensures var (c', found) := Contains(env, c, e, erase);
            && Inv(env, c') && c'.slots.table == c.slots.table
            && (found ==> e in c.slots.table) && (e in c.slots.table && e != env.zero ==> found)
  {
    var s := c.slots;
    LocsInRange(env, |s.table|, e);
    var locs := Locs(env, |s.table|, e);
    var k := FindMatch(s.table, locs, e, 0);
    NoMatchInHand(env, s, e);
    if k < 8 && erase {
      var loc := locs[k];
      AgePlaces(env, s, s.dead[loc := true], s.epoch);
      assert s.epoch[loc := s.epoch[loc]] == s.epoch;
      CountAt(s.dead, s.epoch, loc, true, s.epoch[loc]);
    }
  }

  /** After an insertion the element is found, or it is the one that was lost. */
  lemma InsertedOrLost<E(!new)>(env: Env<E>, c: Cache<E>, e: E, erase: bool)
    requires Inv(env, c) && e != env.zero
    ensures Inv(env, Insert(env, c, e).0)
    ensures Contains(env, Insert(env, c, e).0, e, erase).1 || Insert(env, c, e).1 == e
  {
    InsertKeeps(env, c, e);
    var (c', lost) := Insert(env, c, e);
    if lost != e {
      assert e in multiset(c.slots.table) + multiset{e};
      assert e in multiset(c'.slots.table);
    }
    ContainsExact(env, c', e, erase);
  }

  // ---------------------------------------------------------------------------------------------------------------
  // Whole runs
  // ---------------------------------------------------------------------------------------------------------------

  datatype Op<E> = InsertOp(e: E) | ContainsOp(e: E, erase: bool)

  ghost function Run<E(!new)>(env: Env<E>, c: Cache<E>, ops: seq<Op<E>>): Cache<E>
    requires Inv(env, c)
    decreases |ops|
  {
    if ops == [] then c else
    match ops[0]
    case InsertOp(e) => InsertKeeps(env, c, e); Run(env, Insert(env, c, e).0, ops[1..])
    case ContainsOp(e, erase) => ContainsExact(env, c, e, erase); Run(env, Contains(env, c, e, erase).0, ops[1..])
  }

  /** Every run of inserts and erasing lookups keeps the invariant, with it the bound on the current epoch. */
  lemma {:induction false} RunKeeps<E(!new)>(env: Env<E>, c: Cache<E>, ops: seq<Op<E>>)
    requires Inv(env, c)
    ensures Inv(env, Run(env, c, ops))
    decreases |ops|
  {
    if ops != [] {
      match ops[0]
      case InsertOp(e) => InsertKeeps(env, c, e); RunKeeps(env, Insert(env, c, e).0, ops[1..]);
      case ContainsOp(e, erase) =>
        ContainsExact(env, c, e, erase);
        RunKeeps(env, Contains(env, c, e, erase).0, ops[1..]);
    }
  }
}
