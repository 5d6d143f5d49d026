/**
 Recovery of the coin database after a crash (`CChainState::ReplayBlocks`): the blocks of the interrupted transition are
 applied again to whatever mixture of old and new coins the crash has left.
 */
module Replay {
  import opened Wrappers
  import opened Coins
  import opened CoinsDb
  import opened CoinsCache

  datatype Tx = Tx(id: nat, coinBase: bool, vin: seq<OutPoint>, vout: seq<TxOut>)

  datatype Block = Block(hash: nat, vtx: seq<Tx>)

  /** The block index: for every known block, the blocks from the genesis block up to it. */
  type Index = map<nat, seq<Block>>

  // ---------------------------------------------------------------------------------------------------------------
  // What blocks do to a plain map of coins
  // ---------------------------------------------------------------------------------------------------------------

  function Inputs(tx: Tx): set<OutPoint> {
    if tx.coinBase then {} else set o | o in tx.vin
  }

  function Outputs(tx: Tx, height: nat): map<OutPoint, Coin> {
    map i: nat | i < |tx.vout| && !tx.vout[i].IsUnspendable() ::
      OutPoint(tx.id, i) := Coin(tx.vout[i], height, tx.coinBase)
  }

  function AfterTx(utxo: map<OutPoint, Coin>, tx: Tx, height: nat): map<OutPoint, Coin> {
    (utxo - Inputs(tx)) + Outputs(tx, height)
  }

  function AfterTxs(utxo: map<OutPoint, Coin>, vtx: seq<Tx>, height: nat): map<OutPoint, Coin> {
    if vtx == [] then utxo else AfterTx(AfterTxs(utxo, vtx[..|vtx| - 1], height), vtx[|vtx| - 1], height)
  }

  /** The blocks of a branch from height `start` up. */
  function AfterBlocks(utxo: map<OutPoint, Coin>, branch: seq<Block>, start: nat): map<OutPoint, Coin> {
    if |branch| <= start then utxo
    else AfterTxs(AfterBlocks(utxo, branch[..|branch| - 1], start), branch[|branch| - 1].vtx, |branch| - 1)
  }

  // ---------------------------------------------------------------------------------------------------------------
  // Blocks have a fixed effect
  // ---------------------------------------------------------------------------------------------------------------

  function TxEffect(tx: Tx, height: nat): Effect {
    (map o | o in Inputs(tx) :: None) + map o | o in Outputs(tx, height) :: Some(Outputs(tx, height)[o])
  }

  function TxsEffect(vtx: seq<Tx>, height: nat): Effect {
    if vtx == [] then map[] else TxsEffect(vtx[..|vtx| - 1], height) + TxEffect(vtx[|vtx| - 1], height)
  }

  function BranchEffect(branch: seq<Block>, start: nat): Effect {
    if |branch| <= start then map[]
    else BranchEffect(branch[..|branch| - 1], start) + TxsEffect(branch[|branch| - 1].vtx, |branch| - 1)
  }

  lemma TxSettles(utxo: map<OutPoint, Coin>, tx: Tx, height: nat)
    ensures AfterTx(utxo, tx, height) == Settle(utxo, TxEffect(tx, height))
  {
    forall o
      ensures Get(AfterTx(utxo, tx, height), o) == Get(Settle(utxo, TxEffect(tx, height)), o)
    {
      SettledAt(utxo, TxEffect(tx, height), o);
    }
    SameMap(AfterTx(utxo, tx, height), Settle(utxo, TxEffect(tx, height)));
  }

  lemma {:induction false} TxsSettle(utxo: map<OutPoint, Coin>, vtx: seq<Tx>, height: nat)
    ensures AfterTxs(utxo, vtx, height) == Settle(utxo, TxsEffect(vtx, height))
    decreases |vtx|
  {
    if vtx != [] {
      var before, tx := vtx[..|vtx| - 1], vtx[|vtx| - 1];
      TxsSettle(utxo, before, height);
      TxSettles(AfterTxs(utxo, before, height), tx, height);
      SettleBoth(utxo, TxsEffect(before, height), TxEffect(tx, height));
    }
  }

  /** Connecting a branch leaves every outpoint it touches in a state that does not depend on the coins before. */
  lemma {:induction false} BranchSettles(utxo: map<OutPoint, Coin>, branch: seq<Block>, start: nat)
    ensures AfterBlocks(utxo, branch, start) == Settle(utxo, BranchEffect(branch, start))
    decreases |branch|
  {
    if |branch| > start {
      var before, vtx, height := branch[..|branch| - 1], branch[|branch| - 1].vtx, |branch| - 1;
      BranchSettles(utxo, before, start);
      TxsSettle(AfterBlocks(utxo, before, start), vtx, height);
      SettleBoth(utxo, BranchEffect(before, start), TxsEffect(vtx, height));
    }
  }

  // ---------------------------------------------------------------------------------------------------------------
  // Recovery
  // ---------------------------------------------------------------------------------------------------------------

  /** The transition from `tip`, or from nothing, goes up one branch of known blocks. */
  predicate Forward(index: Index, hash: nat, tip: nat) {
    hash in index && (tip != 0 ==> tip in index && index[tip] <= index[hash])
  }

  /** The height of the first block to replay. The genesis block is never replayed. */
  function Start(index: Index, tip: nat): nat
    requires tip != 0 ==> tip in index
  {
    if tip == 0 then 1 else |index[tip]|
  }

  predicate Recoverable(d: Disk, index: Index) {
    d.heads == [] || (|d.heads| == 2 && Forward(index, d.heads[0], d.heads[1]))
  }

  /** The coins of block `hash`, from coins of the block `tip`. */
  function CoinsAt(coins: map<OutPoint, Coin>, index: Index, hash: nat, tip: nat): map<OutPoint, Coin>
    requires Forward(index, hash, tip)
  {
    AfterBlocks(coins, index[hash], Start(index, tip))
  }

  function Recovered(d: Disk, index: Index): Disk
    requires Recoverable(d, index)
  {
    if d.heads == [] then d else Completed(CoinsAt(d.coins, index, d.heads[0], d.heads[1]), d.heads[0])
  }

  /** What a start of the node may leave on disk: it recovers if it has to, and may be stopped again. */
  ghost predicate Restarted(d: Disk, e: Disk, index: Index) {
    if d.heads == [] || !Recoverable(d, index) then e == d
    else Attempt(d, e, Recovered(d, index).coins, d.heads[0])
  }

  /** Nothing has been written yet, everything has, or the transition is marked and leads to the same coins. */
  ghost predicate Underway(d: Disk, first: Disk, index: Index, hash: nat)
    requires Forward(index, hash, first.best)
  {
    var target := CoinsAt(first.coins, index, hash, first.best);
    || d == first
    || d == Completed(target, hash)
    || (d.best == 0 && d.heads == [hash, first.best] && CoinsAt(d.coins, index, hash, first.best) == target)
  }

  lemma RestartUnderway(d: Disk, e: Disk, first: Disk, index: Index, hash: nat)
    requires hash != 0 && first.heads == [] && Forward(index, hash, first.best)
    requires Underway(d, first, index, hash) && Restarted(d, e, index)
    ensures Underway(e, first, index, hash)
  {
    if d.heads != [] {
      AttemptUnderway(d, e, first, index, hash);
    }
  }

  lemma AttemptUnderway(d: Disk, e: Disk, first: Disk, index: Index, hash: nat)
    requires hash != 0 && first.heads == [] && Forward(index, hash, first.best) && Resumable(d, hash)
    requires OldTip(d) == first.best
    requires var target := CoinsAt(first.coins, index, hash, first.best);
      CoinsAt(d.coins, index, hash, first.best) == target && Attempt(d, e, target, hash)
    requires Underway(d, first, index, hash)
    ensures Underway(e, first, index, hash)
  {
    var effect := BranchEffect(index[hash], Start(index, first.best));
    BranchSettles(d.coins, index[hash], Start(index, first.best));
    BranchSettles(e.coins, index[hash], Start(index, first.best));
    AttemptHarmless(d, e, effect, hash);
  }

  /**
   A flush that moves the database from one block up to another may be interrupted between any two batches, and so may
   every recovery after it, any number of times. Unless nothing was written at all, recovery is then possible and ends
   with exactly the coins of the new block.
   */
  lemma {:induction false} RecoveryExact(disks: seq<Disk>, index: Index, hash: nat)
    requires |disks| > 1 && hash != 0 && disks[0].heads == [] && Forward(index, hash, disks[0].best)
    requires Attempt(disks[0], disks[1], CoinsAt(disks[0].coins, index, hash, disks[0].best), hash)
    requires forall i :: 1 <= i < |disks| - 1 ==> Restarted(disks[i], disks[i + 1], index)
    ensures var first, last := disks[0], disks[|disks| - 1];
      || last == first
      || (&& Recoverable(last, index)
          && Recovered(last, index) == Completed(CoinsAt(first.coins, index, hash, first.best), hash))
  {
    RestartsUnderway(disks, index, hash);
  }

  lemma {:induction false} RestartsUnderway(disks: seq<Disk>, index: Index, hash: nat)
    requires |disks| > 1 && hash != 0 && disks[0].heads == [] && Forward(index, hash, disks[0].best)
    requires Attempt(disks[0], disks[1], CoinsAt(disks[0].coins, index, hash, disks[0].best), hash)
    requires forall i :: 1 <= i < |disks| - 1 ==> Restarted(disks[i], disks[i + 1], index)
    ensures Underway(disks[|disks| - 1], disks[0], index, hash)
    decreases |disks|
  {
    if |disks| == 2 {
      AttemptUnderway(disks[0], disks[1], disks[0], index, hash);
    } else {
      RestartsUnderway(disks[..|disks| - 1], index, hash);
      assert Restarted(disks[|disks| - 2], disks[|disks| - 1], index);
      RestartUnderway(disks[|disks| - 2], disks[|disks| - 1], disks[0], index, hash);
    }
  }

  // ---------------------------------------------------------------------------------------------------------------
  // The code
  // ---------------------------------------------------------------------------------------------------------------

  ghost predicate Showing(s: Stack, utxo: map<OutPoint, Coin>) {
    forall o :: View(s, o) == Get(utxo, o)
  }

  /** No output has the value that marks a spent coin; `AddCoin` asserts it. */
  predicate Valued(vtx: seq<Tx>) {
    forall i, j :: 0 <= i < |vtx| && 0 <= j < |vtx[i].vout| ==> vtx[i].vout[j].value != -1
  }

  method SpendInputs(cache: CoinsViewCache, tx: Tx, ghost utxo: map<OutPoint, Coin>)
    requires cache.Linked() && Inv(cache.Model()) && Showing(cache.Model(), utxo) && !tx.coinBase
    modifies cache.Repr
    ensures Inv(cache.Model()) && Showing(cache.Model(), utxo - Inputs(tx))
    ensures cache.base.OnDb? ==> unchanged(cache.base.db)
  {
    for i := 0 to |tx.vin|
      invariant Inv(cache.Model()) && Showing(cache.Model(), utxo - set o | o in tx.vin[..i])
      invariant cache.base.OnDb? ==> unchanged(cache.base.db)
    {
      SpendKeeps(cache.Model(), tx.vin[i]);
      var _, _ := cache.SpendCoin(tx.vin[i]);
      assert tx.vin[..i + 1] == tx.vin[..i] + [tx.vin[i]];
    }
    assert tx.vin[..|tx.vin|] == tx.vin;
  }

  method RollforwardTx(cache: CoinsViewCache, tx: Tx, height: nat, ghost utxo: map<OutPoint, Coin>)
    requires cache.Linked() && Inv(cache.Model()) && Showing(cache.Model(), utxo)
    requires Valued([tx])
    modifies cache.Repr
    ensures Inv(cache.Model()) && Showing(cache.Model(), AfterTx(utxo, tx, height))
    ensures cache.base.OnDb? ==> unchanged(cache.base.db)
  {
    assert [tx][0] == tx;
    if !tx.coinBase {
      SpendInputs(cache, tx, utxo);
    }
    var thrown := AddCoins(cache, tx.id, tx.vout, height, tx.coinBase, true);
    assert !thrown;
  }

  /** Applies a block, some of whose effects may be there already. Nothing throws, whatever coins are found. */
  method RollforwardBlock(cache: CoinsViewCache, block: Block, height: nat, ghost utxo: map<OutPoint, Coin>)
    requires cache.Linked() && Inv(cache.Model()) && Showing(cache.Model(), utxo)
    requires Valued(block.vtx)
    modifies cache.Repr
    ensures Inv(cache.Model()) && Showing(cache.Model(), AfterTxs(utxo, block.vtx, height))
    ensures cache.base.OnDb? ==> unchanged(cache.base.db)
  {
    var vtx := block.vtx;
    for i := 0 to |vtx|
      invariant Inv(cache.Model()) && Showing(cache.Model(), AfterTxs(utxo, vtx[..i], height))
      invariant cache.base.OnDb? ==> unchanged(cache.base.db)
    {
      RollforwardTx(cache, vtx[i], height, AfterTxs(utxo, vtx[..i], height));
      assert vtx[..i + 1][..i] == vtx[..i];
    }
    assert vtx[..|vtx|] == vtx;
  }

  /** Every branch ends with its block, and no block has the null hash. */
  predicate WellFormed(index: Index) {
    && 0 !in index
    && forall hash :: hash in index ==>
         && index[hash] != [] && index[hash][|index[hash]| - 1].hash == hash
         && forall i :: 0 <= i < |index[hash]| ==> Valued(index[hash][i].vtx)
  }

  /** The blocks that recovery replays can all be read, and their special transactions processed. */
  predicate Readable(d: Disk, index: Index, fails: nat -> bool)
    requires Recoverable(d, index)
  {
    d.heads != [] ==>
      forall height :: Start(index, d.heads[1]) <= height < |index[d.heads[0]]| ==> !fails(height)
  }

  /** Replays a branch into an empty cache; `fails` tells at which heights a block cannot be read or processed. */
  method Rollforward(cache: CoinsViewCache, branch: seq<Block>, start: nat, fails: nat -> bool)
    returns (ok: bool)
    requires cache.Linked() && Inv(cache.Model()) && cache.base.OnDb? && Showing(cache.Model(), cache.base.db.coins)
    requires start <= |branch| && forall i :: 0 <= i < |branch| ==> Valued(branch[i].vtx)
    modifies cache.Repr
    ensures ok <==> forall height :: start <= height < |branch| ==> !fails(height)
    ensures unchanged(cache.base.db) && Inv(cache.Model())
    ensures ok ==> Showing(cache.Model(), AfterBlocks(cache.base.db.coins, branch, start))
  {
    ghost var utxo := cache.base.db.coins;
    for height := start to |branch|
      invariant forall h :: start <= h < height ==> !fails(h)
      invariant unchanged(cache.base.db) && Inv(cache.Model())
      invariant Showing(cache.Model(), AfterBlocks(utxo, branch[..height], start))
    {
      if fails(height) {
        return false;
      }
      RollforwardBlock(cache, branch[height], height, AfterBlocks(utxo, branch[..height], start));
      assert branch[..height + 1][..height] == branch[..height];
    }
    assert branch[..|branch|] == branch;
    return true;
  }

  /**
   `ReplayBlocks`. A transition that is not up one branch is refused, and so is anything unknown; a refusal or a failure
   writes nothing.
   */
  method ReplayBlocks(db: CoinsViewDb, index: Index, fails: nat -> bool, full: seq<Change> -> bool)
    returns (ok: bool, ghost states: seq<Disk>)
    requires WellFormed(index) && Inv(Db(db.coins))
    modifies db
    ensures ok <==> Recoverable(old(db.OnDisk()), index) && Readable(old(db.OnDisk()), index, fails)
    ensures ok ==> db.OnDisk() == Recovered(old(db.OnDisk()), index)
    ensures !ok ==> unchanged(db)
    ensures forall i :: 0 <= i < |states| ==> ok && Restarted(old(db.OnDisk()), states[i], index)
  {
    states := [];
    var heads := db.heads;
    if heads == [] {
      return true, [];
    }
    if |heads| != 2 || heads[0] !in index {
      return false, [];
    }
    var start := 1;
    if heads[1] != 0 {
      if heads[1] !in index || !(index[heads[1]] <= index[heads[0]]) {
        return false, [];
      }
      start := |index[heads[1]]|;
    }
    var cache := new CoinsViewCache(OnDb(db));
    ok := Rollforward(cache, index[heads[0]], start, fails);
    if ok {
      FlushToDatabase(cache.Model());
      SameMap(WriteDb(cache.cacheCoins, db.coins), AfterBlocks(db.coins, index[heads[0]], start));
      var _, written := cache.Flush(heads[0], full);
      states := written;
    }
  }
}
