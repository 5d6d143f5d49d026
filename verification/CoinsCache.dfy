/**
 `CCoinsViewCache` as an object updated in place. Each method is tied to the function of module Coins
 that says what it does to the whole stack of views below it; the theorems about those functions then apply to it.
 */
module CoinsCache {
  import opened Wrappers
  import C = Coins
  import opened Coins
  import opened CoinsDb

  datatype BaseView = OnDb(db: CoinsViewDb) | OnCache(cache: CoinsViewCache)

  class CoinsViewCache {
    const base: BaseView
    var cacheCoins: map<OutPoint, Entry>
    var cachedCoinsUsage: int
    ghost const Repr: set<object>

    /** The views below are other objects, and stay so: a level never reaches itself. */
    ghost predicate Linked()
      decreases Repr
    {
      && this in Repr
      && match base
         case OnDb(db) => Repr == {this, db}
         case OnCache(cache) =>
           cache.Repr < Repr && this !in cache.Repr && Repr == {this} + cache.Repr && cache.Linked()
    }

    /** The stack of levels from this one down to the database. */
    ghost function Model(): Stack
      requires Linked()
      reads Repr
      decreases Repr
    {
      Cache(cacheCoins, cachedCoinsUsage,
            match base
            case OnDb(db) => Db(db.coins)
            case OnCache(cache) => cache.Model())
    }

    constructor (base: BaseView)
      requires base.OnCache? ==> base.cache.Linked()
      ensures Linked() && fresh(this) && this.base == base
      ensures Repr == {this} + (match base case OnDb(db) => {db} case OnCache(cache) => cache.Repr)
      ensures cacheCoins == map[] && cachedCoinsUsage == 0
    {
      this.base := base;
      cacheCoins, cachedCoinsUsage := map[], 0;
      Repr := {this} + match base case OnDb(db) => {db} case OnCache(cache) => cache.Repr;
    }

    method FetchCoin(o: OutPoint) returns (found: bool)
      requires Linked()
      modifies Repr
      ensures Model() == C.FetchCoin(old(Model()), o)
      ensures found <==> o in cacheCoins
      ensures base.OnDb? ==> unchanged(base.db)
      decreases Repr, 0
    {
      if o in cacheCoins {
        return true;
      }
      var tmp: Option<Coin>;
      match base {
        case OnDb(db) => tmp := Get(db.coins, o);
        case OnCache(cache) => tmp := cache.GetCoin(o);
      }
      match tmp {
        case None => return false;
        case Some(coin) =>
          cacheCoins := cacheCoins[o := Entry(coin, false, coin.IsSpent())];
          cachedCoinsUsage := cachedCoinsUsage + coin.Usage();
          return true;
      }
    }

    method GetCoin(o: OutPoint) returns (coin: Option<Coin>)
      requires Linked()
      modifies Repr
      ensures Model() == C.FetchCoin(old(Model()), o)
      ensures coin == C.GetCoin(old(Model()), o)
      decreases Repr, 1
    {
      var found := FetchCoin(o);
      coin := if found && !cacheCoins[o].coin.IsSpent() then Some(cacheCoins[o].coin) else None;
    }

    /** Answers with the view, whatever mixture of levels the coin has to be found in. */
    method HaveCoin(o: OutPoint) returns (have: bool)
      requires Linked() && Inv(Model())
      modifies Repr
      ensures Model() == C.FetchCoin(old(Model()), o)
      ensures Inv(Model()) && have == old(View(Model(), o)).Some?
      ensures base.OnDb? ==> unchanged(base.db)
    {
      FetchKeeps(Model(), o);
      var found := FetchCoin(o);
      have := found && !cacheCoins[o].coin.IsSpent();
    }

    method AddCoin(o: OutPoint, coin: Coin, possibleOverwrite: bool) returns (thrown: bool)
      requires Linked() && !coin.IsSpent()
      modifies this
      ensures thrown == C.AddCoin(old(Model()), o, coin, possibleOverwrite).Err?
      ensures !thrown ==> Model() == C.AddCoin(old(Model()), o, coin, possibleOverwrite).value
    {
      if coin.out.IsUnspendable() {
        return false;
      }
      var inserted := o !in cacheCoins;
      if inserted {
        cacheCoins := cacheCoins[o := Entry(NullCoin, false, false)];
      } else {
        cachedCoinsUsage := cachedCoinsUsage - cacheCoins[o].coin.Usage();
      }
      var isFresh := false;
      if !possibleOverwrite {
        if !cacheCoins[o].coin.IsSpent() {
          return true;
        }
        isFresh := !cacheCoins[o].isDirty;
      }
      cacheCoins := cacheCoins[o := Entry(coin, true, cacheCoins[o].isFresh || isFresh)];
      cachedCoinsUsage := cachedCoinsUsage + coin.Usage();
      assert cacheCoins == C.AddCoin(old(Model()), o, coin, possibleOverwrite).value.entries;
      return false;
    }

    /** `moveout` is the coin handed to the caller, if any entry was found. */
    method SpendCoin(o: OutPoint) returns (found: bool, moveout: Coin)
      requires Linked() && Inv(Model())
      modifies Repr
      ensures Model() == C.SpendCoin(old(Model()), o) && Inv(Model())
      ensures View(Model(), o).None?
      ensures (if found then Shown(moveout) else None) == old(View(Model(), o))
      ensures base.OnDb? ==> unchanged(base.db)
    {
      ghost var was := Model();
      SpendKeeps(was, o);
      FetchKeeps(was, o);
      found := FetchCoin(o);
      moveout := NullCoin;
      if found {
        moveout := SpendOwn(o);
      }
    }

    /** Spends an entry of this cache itself. */
    method SpendOwn(o: OutPoint) returns (moveout: Coin)
      requires Linked() && o in cacheCoins
      modifies this
      ensures moveout == old(cacheCoins)[o].coin && Model() == SpendHere(old(Model()), o)
    {
      moveout := cacheCoins[o].coin;
      cachedCoinsUsage := cachedCoinsUsage - cacheCoins[o].coin.Usage();
      if cacheCoins[o].isFresh {
        cacheCoins := cacheCoins - {o};
      } else {
        cacheCoins := cacheCoins[o := Entry(NullCoin, true, cacheCoins[o].isFresh)];
      }
    }

    /** Pulls one child entry into this cache, as one turn of the source's loop does. */
    method MergeOne(o: OutPoint, c: Entry) returns (thrown: bool)
      modifies this
      ensures thrown == old(Misapplied(Some(c), Get(cacheCoins, o)))
      ensures !thrown ==> ChangedAt(cacheCoins, old(cacheCoins), o, MergedEntry(Some(c), old(Get(cacheCoins, o))))
      ensures thrown ==> cacheCoins == old(cacheCoins)
      ensures cachedCoinsUsage - old(cachedCoinsUsage) == TotalUsage(cacheCoins) - old(TotalUsage(cacheCoins))
    {
      thrown := false;
      if !c.isDirty {
        return;
      }
      if o !in cacheCoins {
        if !(c.isFresh && c.coin.IsSpent()) {
          UsageWith(cacheCoins, o, Entry(c.coin, true, c.isFresh));
          cacheCoins := cacheCoins[o := Entry(c.coin, true, c.isFresh)];
          cachedCoinsUsage := cachedCoinsUsage + c.coin.Usage();
        }
      } else {
        var us := cacheCoins[o];
        UsageWithout(cacheCoins, o);
        if c.isFresh && !us.coin.IsSpent() {
          return true;
        }
        if us.isFresh && c.coin.IsSpent() {
          cachedCoinsUsage := cachedCoinsUsage - us.coin.Usage();
          cacheCoins := cacheCoins - {o};
        } else {
          UsageWith(cacheCoins, o, Entry(c.coin, true, us.isFresh));
          cachedCoinsUsage := cachedCoinsUsage - us.coin.Usage() + c.coin.Usage();
          cacheCoins := cacheCoins[o := Entry(c.coin, true, us.isFresh)];
        }
      }
    }

    /**
     Merges a child's entries, taking each out of the child's map; it throws exactly when a FRESH entry meets an unspent
     coin here. `rest` is what is left in the child's map.
     */
    method BatchWrite(mapCoins: map<OutPoint, Entry>) returns (thrown: bool, rest: map<OutPoint, Entry>)
      modifies this
      ensures thrown <==> exists o :: Misapplied(Get(mapCoins, o), Get(old(cacheCoins), o))
      ensures !thrown ==> rest == map[] && cacheCoins == Merge(mapCoins, old(cacheCoins))
      ensures Merging(cacheCoins, old(cacheCoins), mapCoins, rest)
      ensures cachedCoinsUsage == old(cachedCoinsUsage) - TotalUsage(old(cacheCoins)) + TotalUsage(cacheCoins)
    {
      ghost var was := cacheCoins;
      rest := mapCoins;
      thrown := false;
      while rest != map[]
        invariant Merging(cacheCoins, was, mapCoins, rest)
        invariant cachedCoinsUsage - old(cachedCoinsUsage) == TotalUsage(cacheCoins) - TotalUsage(was)
        decreases |rest|
      {
        var o :| o in rest;
        MergingAt(cacheCoins, was, mapCoins, rest, o);
        ghost var now := cacheCoins;
        thrown := MergeOne(o, rest[o]);
        if thrown {
          assert Misapplied(Get(mapCoins, o), Get(was, o));
          return;
        }
        MergingStep(cacheCoins, now, was, mapCoins, rest, o);
        rest := rest - {o};
      }
      MergingDone(cacheCoins, was, mapCoins);
    }

    /**
     The best block, which the database marks, is given; so is where the database cuts its batches, and `states` lists
     what is on disk after each but the last. A throw leaves the entries not merged yet where they are, and the usage
     counter as it was.
     */
    method Flush(hashBlock: nat, full: seq<Change> -> bool) returns (thrown: bool, ghost states: seq<Disk>)
      requires Linked() && (base.OnDb? ==> base.db.Accepts(hashBlock))
      modifies Repr
      ensures thrown == C.Flush(old(Model())).Err?
      ensures !thrown ==> Model() == C.Flush(old(Model())).value
      ensures base.OnDb? ==> base.db.OnDisk() == Completed(WriteDb(old(cacheCoins), old(base.db.coins)), hashBlock)
      ensures base.OnDb? ==>
                AllBetween(states, old(base.db.coins), WriteDb(old(cacheCoins), old(base.db.coins)), hashBlock,
                           OldTip(old(base.db.OnDisk())))
      ensures thrown ==> base.OnCache? && cachedCoinsUsage == old(cachedCoinsUsage)
      ensures base.OnCache? ==>
                Merging(base.cache.cacheCoins, old(base.cache.cacheCoins), old(cacheCoins), cacheCoins)
    {
      match base {
        case OnDb(db) =>
          states := db.BatchWrite(cacheCoins, hashBlock, full);
          thrown, cacheCoins, cachedCoinsUsage := false, map[], 0;
        case OnCache(cache) =>
          thrown := FlushInto(cache);
          states := [];
      }
    }

    method FlushInto(cache: CoinsViewCache) returns (thrown: bool)
      requires Linked() && base == OnCache(cache)
      modifies Repr
      ensures thrown == C.Flush(old(Model())).Err?
      ensures !thrown ==> Model() == C.Flush(old(Model())).value
      ensures thrown ==> cachedCoinsUsage == old(cachedCoinsUsage)
      ensures Merging(cache.cacheCoins, old(cache.cacheCoins), old(cacheCoins), cacheCoins)
    {
      FlushOver(cacheCoins, cachedCoinsUsage, cache.Model());
      thrown, cacheCoins := cache.Absorb(cacheCoins);
      if !thrown {
        cacheCoins, cachedCoinsUsage := map[], 0;
      }
    }

    /** The merge, and what it does to the stack from this level down. */
    method Absorb(mapCoins: map<OutPoint, Entry>) returns (thrown: bool, rest: map<OutPoint, Entry>)
      requires Linked()
      modifies this
      ensures thrown == C.BatchWrite(mapCoins, old(Model())).Err?
      ensures !thrown ==> Model() == C.BatchWrite(mapCoins, old(Model())).value
      ensures Merging(cacheCoins, old(cacheCoins), mapCoins, rest)
    {
      thrown, rest := BatchWrite(mapCoins);
    }

    method Uncache(o: OutPoint)
      requires Linked()
      modifies this
      ensures Model() == C.Uncache(old(Model()), o)
    {
      if o in cacheCoins && !cacheCoins[o].isDirty && !cacheCoins[o].isFresh {
        cachedCoinsUsage := cachedCoinsUsage - cacheCoins[o].coin.Usage();
        cacheCoins := cacheCoins - {o};
      }
    }
  }

  lemma FlushOver(above: map<OutPoint, Entry>, usage: int, below: Stack)
    ensures var r, w := C.Flush(Cache(above, usage, below)), C.BatchWrite(above, below);
      r.Err? == w.Err? && (w.Ok? ==> r.Ok? && r.value == Cache(map[], 0, w.value))
  {
  }

  /** The maps agree except that the first holds `e` at `o`. */
  ghost predicate ChangedAt(m: map<OutPoint, Entry>, was: map<OutPoint, Entry>, o: OutPoint, e: Option<Entry>) {
    Get(m, o) == e && forall p :: p != o ==> Get(m, p) == Get(was, p)
  }

  /** A merge in progress: outpoints in `rest` are untouched, all others merged, and none of those was misapplied. */
  ghost predicate Merging(now: map<OutPoint, Entry>, was: map<OutPoint, Entry>, child: map<OutPoint, Entry>,
                          rest: map<OutPoint, Entry>)
  {
    && (forall o :: o in rest ==> Get(rest, o) == Get(child, o) && Get(now, o) == Get(was, o))
    && (forall o :: o !in rest ==> Get(now, o) == MergedEntry(Get(child, o), Get(was, o)))
    && (forall o :: o !in rest ==> !Misapplied(Get(child, o), Get(was, o)))
  }

  lemma MergingAt(now: map<OutPoint, Entry>, was: map<OutPoint, Entry>, child: map<OutPoint, Entry>,
                  rest: map<OutPoint, Entry>, o: OutPoint)
    requires Merging(now, was, child, rest) && o in rest
    ensures Get(child, o) == Some(rest[o]) && Get(now, o) == Get(was, o) && |rest - {o}| < |rest|
  {
    assert Get(rest, o) == Get(child, o);
    assert (rest - {o}).Keys == rest.Keys - {o};
  }

  lemma MergingDone(now: map<OutPoint, Entry>, was: map<OutPoint, Entry>, child: map<OutPoint, Entry>)
    requires Merging(now, was, child, map[])
    ensures now == Merge(child, was) && forall o :: !Misapplied(Get(child, o), Get(was, o))
  {
    SameMap(now, Merge(child, was));
  }

  lemma MergingStep(next: map<OutPoint, Entry>, now: map<OutPoint, Entry>, was: map<OutPoint, Entry>,
                    child: map<OutPoint, Entry>, rest: map<OutPoint, Entry>, o: OutPoint)
    requires Merging(now, was, child, rest) && o in rest && !Misapplied(Some(rest[o]), Get(now, o))
    requires ChangedAt(next, now, o, MergedEntry(Some(rest[o]), Get(now, o)))
    ensures Merging(next, was, child, rest - {o})
  {
    assert Get(rest, o) == Get(child, o);
    forall p | p in rest - {o}
      ensures Get(rest - {o}, p) == Get(child, p) && Get(next, p) == Get(was, p)
    {
      assert Get(rest, p) == Get(child, p);
    }
  }

  // ---------------------------------------------------------------------------------------------------------------
  // Adding a whole transaction
  // ---------------------------------------------------------------------------------------------------------------

  /** The view after the first `n` outputs of a transaction: spendable ones show, the rest is kept. */
  ghost predicate OutputsAdded(before: Stack, after: Stack, txid: nat, outs: seq<TxOut>, n: nat, height: nat,
                               coinBase: bool)
    requires n <= |outs|
  {
    forall o: OutPoint ::
      View(after, o) ==
        if o.hash == txid && o.n < n && !outs[o.n].IsUnspendable() then Some(Coin(outs[o.n], height, coinBase))
        else View(before, o)
  }

  /** An output that `AddCoin` refuses to add without an overwrite. */
  predicate Refused(entries: map<OutPoint, Entry>, o: OutPoint, out: TxOut) {
    !out.IsUnspendable() && o in entries && !entries[o].coin.IsSpent()
  }

  /** The first `n` outputs of an ordinary transaction added without looking for coins already there. */
  ghost function Unchecked(s: Stack, txid: nat, outs: seq<TxOut>, n: nat, height: nat): Result<Stack, Error>
    requires s.Cache? && n <= |outs|
    ensures Unchecked(s, txid, outs, n, height).Ok? ==> Unchecked(s, txid, outs, n, height).value.Cache?
  {
    if n == 0 then Ok(s) else
    match Unchecked(s, txid, outs, n - 1, height)
    case Err(e) => Err(e)
    case Ok(t) => C.AddCoin(t, OutPoint(txid, n - 1), Coin(outs[n - 1], height, false), false)
  }

  /** Throwing, the levels below, other entries, and the views. */
  lemma {:induction false} UncheckedShows(s: Stack, txid: nat, outs: seq<TxOut>, n: nat, height: nat)
    requires s.Cache? && n <= |outs| && forall i :: 0 <= i < |outs| ==> outs[i].value != -1
    ensures var r := Unchecked(s, txid, outs, n, height);
      && (r.Err? <==> exists i: nat :: i < n && Refused(s.entries, OutPoint(txid, i), outs[i]))
      && (r.Ok? ==>
            && r.value.base == s.base && OutputsAdded(s, r.value, txid, outs, n, height, false)
            && (s.usage == TotalUsage(s.entries) ==> r.value.usage == TotalUsage(r.value.entries))
            && forall o: OutPoint :: !(o.hash == txid && o.n < n) ==> Get(r.value.entries, o) == Get(s.entries, o))
  {
    if n > 0 {
      UncheckedShows(s, txid, outs, n - 1, height);
      var before := Unchecked(s, txid, outs, n - 1, height);
      if before.Ok? {
        var o, coin := OutPoint(txid, n - 1), Coin(outs[n - 1], height, false);
        assert Get(before.value.entries, o) == Get(s.entries, o);
        assert Refused(s.entries, o, outs[n - 1]) <==> Refused(before.value.entries, o, outs[n - 1]);
        if !coin.out.IsUnspendable() {
          AddCoinView(before.value, o, coin, false);
          if before.value.usage == TotalUsage(before.value.entries) {
            AddCoinUsage(before.value, o, coin, false);
          }
        }
      }
    }
  }

  /** Without the check a call that does not throw leaves the cache sound exactly if no added output was visible. */
  lemma {:induction false} UncheckedExact(s: Stack, txid: nat, outs: seq<TxOut>, n: nat, height: nat)
    requires Inv(s) && s.Cache? && n <= |outs| && forall i :: 0 <= i < |outs| ==> outs[i].value != -1
    requires Unchecked(s, txid, outs, n, height).Ok?
    ensures Inv(Unchecked(s, txid, outs, n, height).value)
      <==> forall i: nat :: i < n && !outs[i].IsUnspendable() ==> View(s, OutPoint(txid, i)).None?
  {
    if n > 0 {
      UncheckedExact(s, txid, outs, n - 1, height);
      UncheckedShows(s, txid, outs, n - 1, height);
      var t, o := Unchecked(s, txid, outs, n - 1, height).value, OutPoint(txid, n - 1);
      UncheckedStep(s, t, o, Coin(outs[n - 1], height, false));
    }
  }

  lemma UncheckedStep(s: Stack, t: Stack, o: OutPoint, coin: Coin)
    requires Inv(s) && s.Cache? && t.Cache? && t.base == s.base && t.usage == TotalUsage(t.entries) && !coin.IsSpent()
    requires Get(t.entries, o) == Get(s.entries, o) && C.AddCoin(t, o, coin, false).Ok?
    ensures Inv(C.AddCoin(t, o, coin, false).value)
      <==> Inv(t) && (coin.out.IsUnspendable() || View(s, o).None?)
  {
    assert View(t, o) == View(s, o);
    if !coin.out.IsUnspendable() {
      if Inv(t) {
        AddCoinExact(t, o, coin, false);
      } else {
        StaysUnsound(t, o, coin);
      }
    }
  }

  lemma StaysUnsound(t: Stack, o: OutPoint, coin: Coin)
    requires t.Cache? && Inv(t.base) && t.usage == TotalUsage(t.entries) && !Inv(t)
    requires o in t.entries ==> EntryOk(t.entries[o], View(t.base, o))
    requires !coin.out.IsUnspendable() && C.AddCoin(t, o, coin, false).Ok?
    ensures !Inv(C.AddCoin(t, o, coin, false).value)
  {
    var p :| p in t.entries && !EntryOk(t.entries[p], View(t.base, p));
    var r := C.AddCoin(t, o, coin, false).value;
    assert r.entries[p] == t.entries[p] && r.base == t.base;
  }

  /**
   `AddCoins`. It throws exactly if an unchecked, ordinary transaction has an output that this cache itself holds
   unspent. Otherwise the outputs are visible, and the cache is sound unless one was visible unannounced.
   */
  method AddCoins(cache: CoinsViewCache, txid: nat, outs: seq<TxOut>, height: nat, coinBase: bool,
                  checkForOverwrite: bool)
    returns (thrown: bool)
    requires cache.Linked() && Inv(cache.Model())
    requires forall i :: 0 <= i < |outs| ==> outs[i].value != -1
    modifies cache.Repr
    ensures thrown <==> (&& !checkForOverwrite && !coinBase
                         && exists i: nat :: i < |outs| && Refused(old(cache.cacheCoins), OutPoint(txid, i), outs[i]))
    ensures !thrown ==> OutputsAdded(old(cache.Model()), cache.Model(), txid, outs, |outs|, height, coinBase)
    ensures !thrown ==> (Inv(cache.Model()) <==>
      (checkForOverwrite || coinBase
       || forall i: nat :: i < |outs| && !outs[i].IsUnspendable() ==>
                             View(old(cache.Model()), OutPoint(txid, i)).None?))
    ensures cache.base.OnDb? ==> unchanged(cache.base.db)
  {
    if checkForOverwrite || coinBase {
      AddAnnounced(cache, txid, outs, height, coinBase, checkForOverwrite);
      return false;
    }
    thrown := AddUnannounced(cache, txid, outs, height);
  }

  /** Every overwrite is announced: by looking, or because a coinbase may overwrite. */
  method AddAnnounced(cache: CoinsViewCache, txid: nat, outs: seq<TxOut>, height: nat, coinBase: bool,
                      checkForOverwrite: bool)
    requires cache.Linked() && Inv(cache.Model()) && (checkForOverwrite || coinBase)
    requires forall i :: 0 <= i < |outs| ==> outs[i].value != -1
    modifies cache.Repr
    ensures Inv(cache.Model())
    ensures OutputsAdded(old(cache.Model()), cache.Model(), txid, outs, |outs|, height, coinBase)
    ensures cache.base.OnDb? ==> unchanged(cache.base.db)
  {
    ghost var before := cache.Model();
    for i := 0 to |outs|
      invariant Inv(cache.Model())
      invariant OutputsAdded(before, cache.Model(), txid, outs, i, height, coinBase)
      invariant cache.base.OnDb? ==> unchanged(cache.base.db)
    {
      AddNext(cache, OutPoint(txid, i), Coin(outs[i], height, coinBase), checkForOverwrite);
    }
  }

  method AddNext(cache: CoinsViewCache, o: OutPoint, coin: Coin, checkForOverwrite: bool)
    requires cache.Linked() && Inv(cache.Model()) && (checkForOverwrite || coin.coinBase) && !coin.IsSpent()
    modifies cache.Repr
    ensures Inv(cache.Model())
    ensures forall p :: View(cache.Model(), p) == if p == o && !coin.out.IsUnspendable() then Some(coin)
                                                  else View(old(cache.Model()), p)
    ensures cache.base.OnDb? ==> unchanged(cache.base.db)
  {
    ghost var was := cache.Model();
    var overwrite := coin.coinBase;
    if checkForOverwrite {
      FetchKeeps(was, o);
      overwrite := cache.HaveCoin(o);
    }
    ghost var m := cache.Model();
    assert forall p :: View(m, p) == View(was, p);
    if !coin.out.IsUnspendable() {
      AddCoinExact(m, o, coin, overwrite);
      AddCoinView(m, o, coin, overwrite);
    }
    var thrown := cache.AddCoin(o, coin, overwrite);
    assert !thrown;
  }

  method AddUnannounced(cache: CoinsViewCache, txid: nat, outs: seq<TxOut>, height: nat) returns (thrown: bool)
    requires cache.Linked() && Inv(cache.Model())
    requires forall i :: 0 <= i < |outs| ==> outs[i].value != -1
    modifies cache.Repr
    ensures thrown <==> exists i: nat :: i < |outs| && Refused(old(cache.cacheCoins), OutPoint(txid, i), outs[i])
    ensures !thrown ==> OutputsAdded(old(cache.Model()), cache.Model(), txid, outs, |outs|, height, false)
    ensures !thrown ==> (Inv(cache.Model()) <==>
      forall i: nat :: i < |outs| && !outs[i].IsUnspendable() ==> View(old(cache.Model()), OutPoint(txid, i)).None?)
    ensures cache.base.OnDb? ==> unchanged(cache.base.db)
  {
    ghost var s := cache.Model();
    for i := 0 to |outs|
      invariant Unchecked(s, txid, outs, i, height).Ok? && cache.Model() == Unchecked(s, txid, outs, i, height).value
      invariant cache.base.OnDb? ==> unchanged(cache.base.db)
    {
      thrown := cache.AddCoin(OutPoint(txid, i), Coin(outs[i], height, false), false);
      if thrown {
        UncheckedShows(s, txid, outs, i + 1, height);
        return true;
      }
    }
    UncheckedShows(s, txid, outs, |outs|, height);
    UncheckedExact(s, txid, outs, |outs|, height);
    return false;
  }
}
