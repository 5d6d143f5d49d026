/**
 The coin database on disk (`CCoinsViewDB::BatchWrite`): the changes of a flush are written in several batches, each
 atomic, between markers that say which transition is under way. A process may stop between any two batches.
 */
module CoinsDb {
  import opened Wrappers
  import opened Coins

  /** A null hash, zero, stands for a missing `DB_BEST_BLOCK`, and no heads for missing `DB_HEAD_BLOCKS`. */
  datatype Disk = Disk(coins: map<OutPoint, Coin>, best: nat, heads: seq<nat>)

  datatype Change =
    | WriteCoin(o: OutPoint, coin: Coin)
    | EraseCoin(o: OutPoint)
    | WriteBest(hash: nat)
    | EraseBest
    | WriteHeads(hashes: seq<nat>)
    | EraseHeads

  function Applied(d: Disk, c: Change): Disk {
    match c
    case WriteCoin(o, coin) => d.(coins := d.coins[o := coin])
    case EraseCoin(o) => d.(coins := d.coins - {o})
    case WriteBest(hash) => d.(best := hash)
    case EraseBest => d.(best := 0)
    case WriteHeads(hashes) => d.(heads := hashes)
    case EraseHeads => d.(heads := [])
  }

  function AppliedAll(d: Disk, batch: seq<Change>): Disk {
    if batch == [] then d else Applied(AppliedAll(d, batch[..|batch| - 1]), batch[|batch| - 1])
  }

  lemma AppliedSnoc(d: Disk, batch: seq<Change>, c: Change)
    ensures AppliedAll(d, batch + [c]) == Applied(AppliedAll(d, batch), c)
  {
    assert (batch + [c])[..|batch|] == batch;
  }

  /** The block that a transition starts from, also when an interrupted one is taken up again. */
  function OldTip(d: Disk): nat {
    if d.best != 0 then d.best else if |d.heads| == 2 then d.heads[1] else 0
  }

  /** An interrupted transition led to this block. */
  predicate Resumable(d: Disk, hash: nat) {
    d.best == 0 && |d.heads| == 2 ==> d.heads[0] == hash
  }

  // ---------------------------------------------------------------------------------------------------------------
  // Writing entries in any order
  // ---------------------------------------------------------------------------------------------------------------

  /** A write in progress: outpoints in `rest` are untouched, all others written. */
  ghost predicate Writing(now: map<OutPoint, Coin>, was: map<OutPoint, Coin>, child: map<OutPoint, Entry>,
                          rest: map<OutPoint, Entry>)
  {
    && (forall o :: o in rest ==> Get(rest, o) == Get(child, o) && Get(now, o) == Get(was, o))
    && (forall o :: o !in rest ==> Get(now, o) == Get(WriteDb(child, was), o))
  }

  lemma WritingStarts(was: map<OutPoint, Coin>, child: map<OutPoint, Entry>)
    ensures Writing(was, was, child, child)
  {
    forall o | o !in child
      ensures Get(was, o) == Get(WriteDb(child, was), o)
    {
      WrittenAt(child, was, o);
    }
  }

  /** One entry written, or left alone. */
  function WrittenOne(now: map<OutPoint, Coin>, o: OutPoint, e: Entry): map<OutPoint, Coin> {
    if !e.isDirty then now else if e.coin.IsSpent() then now - {o} else now[o := e.coin]
  }

  lemma WritingStep(now: map<OutPoint, Coin>, was: map<OutPoint, Coin>, child: map<OutPoint, Entry>,
                    rest: map<OutPoint, Entry>, o: OutPoint)
    requires Writing(now, was, child, rest) && o in rest
    ensures |rest - {o}| < |rest| && Writing(WrittenOne(now, o, rest[o]), was, child, rest - {o})
  {
    var next := WrittenOne(now, o, rest[o]);
    assert (rest - {o}).Keys == rest.Keys - {o};
    assert Get(rest, o) == Get(child, o) && Get(now, o) == Get(was, o);
    WrittenAt(child, was, o);
    forall p | p in rest - {o}
      ensures Get(rest - {o}, p) == Get(child, p) && Get(next, p) == Get(was, p)
    {
      assert Get(rest, p) == Get(child, p);
    }
    forall p | p !in rest - {o}
      ensures Get(next, p) == Get(WriteDb(child, was), p)
    {
      assert p != o ==> Get(now, p) == Get(WriteDb(child, was), p);
    }
  }

  lemma WrittenAt(mapCoins: map<OutPoint, Entry>, was: map<OutPoint, Coin>, o: OutPoint)
    ensures Get(WriteDb(mapCoins, was), o)
      == if o in mapCoins && mapCoins[o].isDirty
         then (if mapCoins[o].coin.IsSpent() then None else Some(mapCoins[o].coin)) else Get(was, o)
  {
  }

  lemma SameMap<V>(m: map<OutPoint, V>, n: map<OutPoint, V>)
    requires forall o :: Get(m, o) == Get(n, o)
    ensures m == n
  {
    forall o ensures o in m <==> o in n {
      assert Get(m, o) == Get(n, o);
    }
    forall o | o in m ensures m[o] == n[o] {
      assert Get(m, o) == Get(n, o);
    }
  }

  // ---------------------------------------------------------------------------------------------------------------
  // In the middle of a transition
  // ---------------------------------------------------------------------------------------------------------------

  /** Marked as a transition to `hash`, with every coin as it was or as it will be. */
  ghost predicate Between(d: Disk, was: map<OutPoint, Coin>, target: map<OutPoint, Coin>, hash: nat, tip: nat) {
    && d.best == 0 && d.heads == [hash, tip]
    && forall o :: Get(d.coins, o) == Get(was, o) || Get(d.coins, o) == Get(target, o)
  }

  ghost predicate AllBetween(states: seq<Disk>, was: map<OutPoint, Coin>, target: map<OutPoint, Coin>, hash: nat,
                             tip: nat)
  {
    forall i :: 0 <= i < |states| ==> Between(states[i], was, target, hash, tip)
  }

  /** What becomes of the outpoints that changes touch, whatever was there: a coin, or nothing. */
  type Effect = map<OutPoint, Option<Coin>>

  function Settle(m: map<OutPoint, Coin>, e: Effect): map<OutPoint, Coin> {
    (m - e.Keys) + map o | o in e && e[o].Some? :: e[o].value
  }

  lemma SettledAt(m: map<OutPoint, Coin>, e: Effect, o: OutPoint)
    ensures Get(Settle(m, e), o) == if o in e then e[o] else Get(m, o)
  {
  }

  /** The same effect on a half-written database gives what it gives at once. */
  lemma SettleTwice(now: map<OutPoint, Coin>, was: map<OutPoint, Coin>, e: Effect)
    requires forall o :: Get(now, o) == Get(was, o) || Get(now, o) == Get(Settle(was, e), o)
    ensures Settle(now, e) == Settle(was, e)
  {
    forall o
      ensures Get(Settle(now, e), o) == Get(Settle(was, e), o)
    {
      SettledAt(now, e, o);
      SettledAt(was, e, o);
    }
    SameMap(Settle(now, e), Settle(was, e));
  }

  /** One effect after another. */
  lemma SettleBoth(m: map<OutPoint, Coin>, e: Effect, f: Effect)
    ensures Settle(Settle(m, e), f) == Settle(m, e + f)
  {
    forall o
      ensures Get(Settle(Settle(m, e), f), o) == Get(Settle(m, e + f), o)
    {
      SettledAt(m, e, o);
      SettledAt(Settle(m, e), f, o);
      SettledAt(m, e + f, o);
    }
    SameMap(Settle(Settle(m, e), f), Settle(m, e + f));
  }

  function EffectOf(child: map<OutPoint, Entry>): Effect {
    map o | o in child && child[o].isDirty :: Shown(child[o].coin)
  }

  /** A fixed set of changes has a fixed effect. */
  lemma WriteSettles(child: map<OutPoint, Entry>, was: map<OutPoint, Coin>)
    ensures WriteDb(child, was) == Settle(was, EffectOf(child))
  {
    forall o
      ensures Get(WriteDb(child, was), o) == Get(Settle(was, EffectOf(child)), o)
    {
      WrittenAt(child, was, o);
      SettledAt(was, EffectOf(child), o);
    }
    SameMap(WriteDb(child, was), Settle(was, EffectOf(child)));
  }

  /** The database after a completed transition. */
  function Completed(target: map<OutPoint, Coin>, hash: nat): Disk {
    Disk(target, hash, [])
  }

  /** What an attempt may leave on disk: nothing new, some of its batches, or all of them. */
  ghost predicate Attempt(d: Disk, e: Disk, target: map<OutPoint, Coin>, hash: nat) {
    e == d || Between(e, d.coins, target, hash, OldTip(d)) || e == Completed(target, hash)
  }

  /** Each attempt may make changes of its own, computed from the coins it finds, but to the same effect. */
  ghost predicate Attempts(disks: seq<Disk>, effect: Effect, hash: nat) {
    forall i :: 0 <= i < |disks| - 1 ==> Attempt(disks[i], disks[i + 1], Settle(disks[i].coins, effect), hash)
  }

  /** What an attempt leaves has the same completion, and the assertion of the next attempt holds. */
  lemma AttemptHarmless(d: Disk, e: Disk, effect: Effect, hash: nat)
    requires hash != 0 && Attempt(d, e, Settle(d.coins, effect), hash) && Resumable(d, hash)
    ensures Settle(e.coins, effect) == Settle(d.coins, effect)
    ensures Resumable(e, hash)
    ensures OldTip(e) == OldTip(d) || e == Completed(Settle(d.coins, effect), hash)
  {
    SettleTwice(e.coins, d.coins, effect);
  }

  /**
   However often a transition is interrupted between batches and started again, completing it gives the database that
   one uninterrupted write gives.
   */
  lemma {:induction false} CrashesHarmless(disks: seq<Disk>, effect: Effect, hash: nat)
    requires disks != [] && hash != 0 && Attempts(disks, effect, hash) && Resumable(disks[0], hash)
    ensures var last := disks[|disks| - 1];
      Settle(last.coins, effect) == Settle(disks[0].coins, effect) && Resumable(last, hash)
    decreases |disks|
  {
    if |disks| > 1 {
      CrashesHarmless(disks[..|disks| - 1], effect, hash);
      var d := disks[|disks| - 2];
      assert Attempt(d, disks[|disks| - 1], Settle(d.coins, effect), hash);
      AttemptHarmless(d, disks[|disks| - 1], effect, hash);
    }
  }

  // ---------------------------------------------------------------------------------------------------------------
  // The code
  // ---------------------------------------------------------------------------------------------------------------

  class CoinsViewDb {
    var coins: map<OutPoint, Coin>
    var best: nat
    var heads: seq<nat>

    constructor (disk: Disk)
      ensures OnDisk() == disk
    {
      coins, best, heads := disk.coins, disk.best, disk.heads;
    }

    ghost function OnDisk(): Disk
      reads this
    {
      Disk(coins, best, heads)
    }

    /** What `BatchWrite` asserts: a block is given, and an interrupted transition led to it. */
    ghost predicate Accepts(hashBlock: nat)
      reads this
    {
      hashBlock != 0 && Resumable(OnDisk(), hashBlock)
    }

    /** LevelDB writes a batch whole or not at all. */
    method WriteBatch(batch: seq<Change>)
      modifies this
      ensures OnDisk() == AppliedAll(old(OnDisk()), batch)
    {
      for i := 0 to |batch|
        invariant OnDisk() == AppliedAll(old(OnDisk()), batch[..i])
      {
        assert batch[..i + 1] == batch[..i] + [batch[i]];
        AppliedSnoc(old(OnDisk()), batch[..i], batch[i]);
        match batch[i] {
          case WriteCoin(o, coin) => coins := coins[o := coin];
          case EraseCoin(o) => coins := coins - {o};
          case WriteBest(hash) => best := hash;
          case EraseBest => best := 0;
          case WriteHeads(hashes) => heads := hashes;
          case EraseHeads => heads := [];
        }
      }
      assert batch[..|batch|] == batch;
    }

    /** The block that the transition starts from. */
    method GetOldTip() returns (tip: nat)
      ensures tip == OldTip(OnDisk())
    {
      tip := best;
      if tip == 0 && |heads| == 2 {
        tip := heads[1];
      }
    }

    /** One entry's change, if it has one, goes into the batch. */
    method Batched(batch: seq<Change>, o: OutPoint, e: Entry) returns (batch': seq<Change>)
      ensures var d := AppliedAll(OnDisk(), batch);
              AppliedAll(OnDisk(), batch') == d.(coins := WrittenOne(d.coins, o, e))
    {
      batch' := batch;
      if e.isDirty {
        var change := if e.coin.IsSpent() then EraseCoin(o) else WriteCoin(o, e.coin);
        AppliedSnoc(OnDisk(), batch, change);
        batch' := batch + [change];
      }
    }

    /** A batch that is large enough is written, and the next begins. */
    method WriteIfFull(batch: seq<Change>, full: seq<Change> -> bool, ghost d: Disk, ghost states: seq<Disk>)
      returns (batch': seq<Change>, ghost states': seq<Disk>)
      requires AppliedAll(OnDisk(), batch) == d
      modifies this
      ensures AppliedAll(OnDisk(), batch') == d
      ensures states' == states || (states' == states + [d] && OnDisk() == d)
    {
      batch', states' := batch, states;
      if full(batch) {
        WriteBatch(batch);
        batch', states' := [], states + [OnDisk()];
      }
    }

    method Finish(batch: seq<Change>, hashBlock: nat, ghost d: Disk)
      requires AppliedAll(OnDisk(), batch) == d
      modifies this
      ensures OnDisk() == Disk(d.coins, hashBlock, [])
    {
      AppliedSnoc(OnDisk(), batch, EraseHeads);
      AppliedSnoc(OnDisk(), batch + [EraseHeads], WriteBest(hashBlock));
      WriteBatch(batch + [EraseHeads] + [WriteBest(hashBlock)]);
    }

    /**
     Writes the DIRTY entries in any order and in batches that `full` cuts off. `states` lists what is on disk after
     each batch but the last.
     */
    method BatchWrite(mapCoins: map<OutPoint, Entry>, hashBlock: nat, full: seq<Change> -> bool)
      returns (ghost states: seq<Disk>)
      requires Accepts(hashBlock)
      modifies this
      ensures OnDisk() == Completed(WriteDb(mapCoins, old(coins)), hashBlock)
      ensures AllBetween(states, old(coins), WriteDb(mapCoins, old(coins)), hashBlock, OldTip(old(OnDisk())))
    {
      ghost var was, now := coins, coins;
      var tip := GetOldTip();
      states := [];
      var batch := [EraseBest, WriteHeads([hashBlock, tip])];
      Marked(OnDisk(), hashBlock, tip);
      WritingStarts(was, mapCoins);
      var rest := mapCoins;
      while rest != map[]
        invariant AppliedAll(OnDisk(), batch) == Disk(now, 0, [hashBlock, tip])
        invariant Writing(now, was, mapCoins, rest)
        invariant AllBetween(states, was, WriteDb(mapCoins, was), hashBlock, tip)
        decreases |rest|
      {
        var o :| o in rest;
        WritingStep(now, was, mapCoins, rest, o);
        batch := Batched(batch, o, rest[o]);
        now := WrittenOne(now, o, rest[o]);
        rest := rest - {o};
        WritingBetween(now, was, mapCoins, rest, hashBlock, tip);
        batch, states := WriteIfFull(batch, full, Disk(now, 0, [hashBlock, tip]), states);
      }
      SameMap(now, WriteDb(mapCoins, was));
      Finish(batch, hashBlock, Disk(now, 0, [hashBlock, tip]));
    }
  }

  lemma WritingBetween(now: map<OutPoint, Coin>, was: map<OutPoint, Coin>, child: map<OutPoint, Entry>,
                       rest: map<OutPoint, Entry>, hash: nat, tip: nat)
    requires Writing(now, was, child, rest)
    ensures Between(Disk(now, 0, [hash, tip]), was, WriteDb(child, was), hash, tip)
  {
  }

  lemma Marked(d: Disk, hash: nat, tip: nat)
    ensures AppliedAll(d, [EraseBest, WriteHeads([hash, tip])]) == Disk(d.coins, 0, [hash, tip])
  {
    AppliedSnoc(d, [], EraseBest);
    AppliedSnoc(d, [EraseBest], WriteHeads([hash, tip]));
    assert [EraseBest] + [WriteHeads([hash, tip])] == [EraseBest, WriteHeads([hash, tip])];
    assert [] + [EraseBest] == [EraseBest];
  }
}
