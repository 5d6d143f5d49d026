/**
 Compact block relay (sections "HeaderAndShortIDs" and "Short transaction IDs" of BIP 152): what a receiver makes of a
 header, the short ids and the prefilled transactions, and how the block is put together again.

 Short ids are any function of transaction hashes. The bucket sizes of the hash table, the largest number of
 transactions and the validity check of the finished block are parameters.
 */
module CompactBlocks {
  import opened Wrappers

  datatype Tx = Tx(hash: nat, isNull: bool)

  type Slots = seq<Option<Tx>>

  datatype Prefilled = Prefilled(index: nat, tx: Tx)

  datatype Message = Message(headerIsNull: bool, shortIds: seq<nat>, prefilled: seq<Prefilled>) {
    function TxCount(): nat { |shortIds| + |prefilled| }

    /** What reading a message from the network ensures. */
    predicate Valid() {
      TxCount() <= 0xffff && forall i :: 0 <= i < |prefilled| ==> prefilled[i].index <= 0xffff
    }
  }

  /** A transaction from the mempool or the extra pool, with its hash. */
  datatype Offer = Offer(hash: nat, tx: Tx)

  datatype Context = Context(shortId: nat -> nat, bucketSize: (seq<nat>, nat) -> nat, maxTxs: nat)

  datatype Status = ReadOk | Invalid | Failed | CheckBlockFailed

  // ---------------------------------------------------------------------------------------------------------------
  // Prefilled transactions
  // ---------------------------------------------------------------------------------------------------------------

  /** Places the prefilled transactions from the `i`-th on; nothing if the message is refused. */
  function Place(slots: Slots, prefilled: seq<Prefilled>, i: nat, last: int, shortCount: nat): Option<Slots>
    requires i <= |prefilled| && |slots| == shortCount + |prefilled| && last >= -1
    decreases |prefilled| - i
  {
    if i == |prefilled| then Some(slots) else
    var p := prefilled[i];
    var at := last + p.index + 1;
    if p.tx.isNull || at > 0xffff || at > shortCount + i then None
    else Place(slots[at := Some(p.tx)], prefilled, i + 1, at, shortCount)
  }

  /** The same walk, with the places as they are when it ends or the message is refused. */
  function PlaceSome(slots: Slots, prefilled: seq<Prefilled>, i: nat, last: int, shortCount: nat): Slots
    requires i <= |prefilled| && |slots| == shortCount + |prefilled| && last >= -1
    decreases |prefilled| - i
  {
    if i == |prefilled| then slots else
    var p := prefilled[i];
    var at := last + p.index + 1;
    if p.tx.isNull || at > 0xffff || at > shortCount + i then slots
    else PlaceSome(slots[at := Some(p.tx)], prefilled, i + 1, at, shortCount)
  }

  /** A refused message leaves the transactions before the refused one placed. */
  lemma {:induction false} PlaceStops(slots: Slots, prefilled: seq<Prefilled>, i: nat, last: int, shortCount: nat)
    requires i <= |prefilled| && |slots| == shortCount + |prefilled| && last >= -1
    ensures var r := Place(slots, prefilled, i, last, shortCount);
            var t := PlaceSome(slots, prefilled, i, last, shortCount);
            && (r.Some? ==> t == r.value)
            && |t| == |slots|
            && (forall k :: 0 <= k <= last && k < |slots| ==> t[k] == slots[k])
    decreases |prefilled| - i
  {
    if i < |prefilled| {
      var p := prefilled[i];
      var at := last + p.index + 1;
      if !(p.tx.isNull || at > 0xffff || at > shortCount + i) {
        PlaceStops(slots[at := Some(p.tx)], prefilled, i + 1, at, shortCount);
      }
    }
  }

  function EmptySlots(n: nat): (s: Slots)
    ensures |s| == n
  {
    seq(n, _ => None)
  }

  /** The empty places among the first `n`, in order. */
  function Free(slots: Slots, n: nat): (f: seq<nat>)
    requires n <= |slots|
    ensures |f| <= n && forall i :: 0 <= i < |f| ==> f[i] < n
  {
    if n == 0 then [] else
    Free(slots, n - 1) + (if slots[n - 1].None? then [n - 1] else [])
  }

  lemma {:induction false} FreeAll(n: nat, k: nat)
    requires k <= n
    ensures |Free(EmptySlots(n), k)| == k
  {
    if k > 0 { FreeAll(n, k - 1); }
  }

  /** Filling an empty place leaves one fewer. */
  lemma {:induction false} FreeFill(slots: Slots, n: nat, at: nat, tx: Tx)
    requires n <= |slots| && at < |slots| && slots[at].None?
    ensures |Free(slots[at := Some(tx)], n)| == |Free(slots, n)| - if at < n then 1 else 0
  {
    if n > 0 { FreeFill(slots, n - 1, at, tx); }
  }

  predicate EmptyFrom(slots: Slots, k: int) {
    forall j :: 0 <= j < |slots| && k <= j ==> slots[j].None?
  }

  /** An accepted message leaves exactly one empty place for each short id. */
  lemma {:induction false} PlaceLeaves(slots: Slots, prefilled: seq<Prefilled>, i: nat, last: int, shortCount: nat)
    requires i <= |prefilled| && |slots| == shortCount + |prefilled| && last >= -1
    requires EmptyFrom(slots, last + 1) && |Free(slots, |slots|)| == shortCount + |prefilled| - i
    ensures var r := Place(slots, prefilled, i, last, shortCount);
      r.Some? ==> |r.value| == |slots| && |Free(r.value, |slots|)| == shortCount
    decreases |prefilled| - i
  {
    if i < |prefilled| {
      var p := prefilled[i];
      var at := last + p.index + 1;
      if !(p.tx.isNull || at > 0xffff || at > shortCount + i) {
        FreeFill(slots, |slots|, at, p.tx);
        PlaceLeaves(slots[at := Some(p.tx)], prefilled, i + 1, at, shortCount);
      }
    }
  }

  function Placed(msg: Message): Option<Slots> {
    Place(EmptySlots(msg.TxCount()), msg.prefilled, 0, -1, |msg.shortIds|)
  }

  function PlacedSome(msg: Message): Slots {
    PlaceSome(EmptySlots(msg.TxCount()), msg.prefilled, 0, -1, |msg.shortIds|)
  }

  lemma PlacedLeaves(msg: Message)
    ensures Placed(msg).Some? ==>
      |Placed(msg).value| == msg.TxCount() && |Free(Placed(msg).value, msg.TxCount())| == |msg.shortIds|
  {
    FreeAll(msg.TxCount(), msg.TxCount());
    PlaceLeaves(EmptySlots(msg.TxCount()), msg.prefilled, 0, -1, |msg.shortIds|);
  }

  // ---------------------------------------------------------------------------------------------------------------
  // Short ids
  // ---------------------------------------------------------------------------------------------------------------

  predicate Distinct(ids: seq<nat>) {
    forall i, j :: 0 <= i < j < |ids| ==> ids[i] != ids[j]
  }

  /** The table after the first `n` short ids: a later id replaces an equal earlier one. */
  function IdTable(ids: seq<nat>, free: seq<nat>, n: nat): map<nat, nat>
    requires n <= |ids| && n <= |free|
  {
    if n == 0 then map[] else IdTable(ids, free, n - 1)[ids[n - 1] := free[n - 1]]
  }

  lemma {:induction false} IdTableKeys(ids: seq<nat>, free: seq<nat>, n: nat)
    requires n <= |ids| && n <= |free|
    ensures forall id :: id in IdTable(ids, free, n) <==> id in ids[..n]
  {
    if n > 0 {
      IdTableKeys(ids, free, n - 1);
      assert ids[..n] == ids[..n - 1] + [ids[n - 1]];
    }
  }

  lemma TableGrows(t: map<nat, nat>, id: nat, place: nat)
    ensures |t[id := place]| == |t| + if id in t then 0 else 1
  {
    assert t[id := place].Keys == t.Keys + {id};
  }

  /** The table has as many entries as there were ids exactly when no two were equal. */
  lemma {:induction false} IdTableSize(ids: seq<nat>, free: seq<nat>, n: nat)
    requires n <= |ids| && n <= |free|
    ensures |IdTable(ids, free, n)| <= n
    ensures |IdTable(ids, free, n)| == n <==> Distinct(ids[..n])
  {
    if n > 0 {
      IdTableSize(ids, free, n - 1);
      IdTableKeys(ids, free, n - 1);
      TableGrows(IdTable(ids, free, n - 1), ids[n - 1], free[n - 1]);
      DistinctSnoc(ids, n);
    }
  }

  lemma DistinctSnoc(ids: seq<nat>, n: nat)
    requires 0 < n <= |ids|
    ensures Distinct(ids[..n]) <==> Distinct(ids[..n - 1]) && ids[n - 1] !in ids[..n - 1]
  {
    var a, b := ids[..n], ids[..n - 1];
    if Distinct(a) {
      assert forall i :: 0 <= i < n - 1 ==> b[i] == a[i] && a[i] != a[n - 1];
    }
    if Distinct(b) && ids[n - 1] !in b {
      forall i, j | 0 <= i < j < n
        ensures a[i] != a[j]
      {
        assert a[i] == b[i] && b[i] in b;
      }
    }
  }

  /** With distinct ids, each leads to the empty place with its own number. */
  lemma {:induction false} IdTableAt(ids: seq<nat>, free: seq<nat>, n: nat, i: nat)
    requires n <= |ids| && n <= |free| && Distinct(ids) && i < n
    ensures ids[i] in IdTable(ids, free, n) && IdTable(ids, free, n)[ids[i]] == free[i]
  {
    if i < n - 1 {
      IdTableAt(ids, free, n - 1, i);
    }
  }

  /** Every place in the table is a place with that number, even before equal ids are refused. */
  lemma {:induction false} IdTableFrom(ids: seq<nat>, free: seq<nat>, n: nat, id: nat) returns (i: nat)
    requires n <= |ids| && n <= |free| && id in IdTable(ids, free, n)
    ensures i < n && ids[i] == id && IdTable(ids, free, n)[id] == free[i]
  {
    if id == ids[n - 1] {
      i := n - 1;
    } else {
      i := IdTableFrom(ids, free, n - 1, id);
    }
  }

  /** The bucket of the `n`-th id held more than 12 ids once it was in. */
  predicate CrowdedAt(ctx: Context, ids: seq<nat>, n: nat)
    requires 0 < n <= |ids|
  {
    ctx.bucketSize(ids[..n], ids[n - 1]) > 12
  }

  predicate Crowded(ctx: Context, ids: seq<nat>, n: nat)
    requires n <= |ids|
  {
    n > 0 && (Crowded(ctx, ids, n - 1) || CrowdedAt(ctx, ids, n))
  }

  // ---------------------------------------------------------------------------------------------------------------
  // Offers from the pools
  // ---------------------------------------------------------------------------------------------------------------

  datatype Scan = Scan(slots: Slots, have: seq<bool>, count: int)

  predicate ScanFits(s: Scan, ids: map<nat, nat>) {
    |s.have| == |s.slots| && forall id :: id in ids ==> ids[id] < |s.slots|
  }

  /** One offer; `compare` says whether an offer with the hash already there is let through. */
  function ScanOne(ctx: Context, ids: map<nat, nat>, s: Scan, o: Offer, compare: bool): (r: Scan)
    requires ScanFits(s, ids)
    ensures ScanFits(r, ids) && |r.slots| == |s.slots|
  {
    var id := ctx.shortId(o.hash);
    if id !in ids then s else
    var k := ids[id];
    if !s.have[k] then Scan(s.slots[k := Some(o.tx)], s.have[k := true], s.count + 1)
    else if s.slots[k].Some? && (compare ==> s.slots[k].value.hash != o.tx.hash)
    then Scan(s.slots[k := None], s.have, s.count - 1)
    else s
  }

  /** The offers from the `i`-th on, up to the one that fills the last place. */
  function ScanAll(ctx: Context, ids: map<nat, nat>, s: Scan, offers: seq<Offer>, i: nat, compare: bool): (r: Scan)
    requires ScanFits(s, ids) && i <= |offers|
    ensures ScanFits(r, ids) && |r.slots| == |s.slots|
    decreases |offers| - i
  {
    if i == |offers| then s else
    var next := ScanOne(ctx, ids, s, offers[i], compare);
    if next.count == |ids| then next else ScanAll(ctx, ids, next, offers, i + 1, compare)
  }

  /** The number of places held by an offer. */
  function Held(s: Scan, n: nat): (c: nat)
    requires n <= |s.slots| == |s.have|
    ensures c <= n
  {
    if n == 0 then 0 else Held(s, n - 1) + if s.have[n - 1] && s.slots[n - 1].Some? then 1 else 0
  }

  /** An offer is good for a place when its short id leads there. */
  predicate Offered(ctx: Context, ids: map<nat, nat>, offers: seq<Offer>, k: nat, tx: Tx) {
    exists o :: o in offers && o.tx == tx && ctx.shortId(o.hash) in ids && ids[ctx.shortId(o.hash)] == k
  }

  /** What every scan keeps: prefilled places are untouched, the rest hold offers meant for them, all counted. */
  ghost predicate ScanInv(ctx: Context, ids: map<nat, nat>, base: Slots, offers: seq<Offer>, s: Scan) {
    && ScanFits(s, ids) && |s.slots| == |base|
    && (forall id :: id in ids ==> base[ids[id]].None?)
    && (forall k :: 0 <= k < |base| && base[k].Some? ==> s.slots[k] == base[k] && !s.have[k])
    && (forall k :: 0 <= k < |base| && base[k].None? && s.slots[k].Some? ==>
          s.have[k] && Offered(ctx, ids, offers, k, s.slots[k].value))
    && s.count == Held(s, |s.slots|)
  }

  lemma {:induction false} HeldChange(s: Scan, t: Scan, n: nat, k: nat)
    requires n <= |s.slots| == |s.have| == |t.slots| == |t.have| && k < |s.slots|
    requires forall j :: 0 <= j < |s.slots| && j != k ==> s.slots[j] == t.slots[j] && s.have[j] == t.have[j]
    ensures var was := if s.have[k] && s.slots[k].Some? then 1 else 0;
      var now := if t.have[k] && t.slots[k].Some? then 1 else 0;
      Held(t, n) == Held(s, n) + if k < n then now - was else 0
  {
    if n > 0 { HeldChange(s, t, n - 1, k); }
  }

  lemma ScanOneKeeps(ctx: Context, ids: map<nat, nat>, base: Slots, offers: seq<Offer>, s: Scan, o: Offer,
                     compare: bool)
    requires ScanInv(ctx, ids, base, offers, s) && o in offers
    ensures ScanInv(ctx, ids, base, offers, ScanOne(ctx, ids, s, o, compare))
  {
    var id := ctx.shortId(o.hash);
    if id in ids {
      var t := ScanOne(ctx, ids, s, o, compare);
      HeldChange(s, t, |s.slots|, ids[id]);
      assert base[ids[id]].None?;
      if !s.have[ids[id]] {
        assert s.slots[ids[id]].None?;
        assert Offered(ctx, ids, offers, ids[id], o.tx);
      }
    }
  }

  lemma {:induction false} ScanAllKeeps(ctx: Context, ids: map<nat, nat>, base: Slots, offers: seq<Offer>, s: Scan,
                                        list: seq<Offer>, i: nat, compare: bool)
    requires ScanInv(ctx, ids, base, offers, s) && i <= |list| && forall o :: o in list ==> o in offers
    ensures ScanInv(ctx, ids, base, offers, ScanAll(ctx, ids, s, list, i, compare))
    decreases |list| - i
  {
    if i < |list| {
      ScanOneKeeps(ctx, ids, base, offers, s, list[i], compare);
      var next := ScanOne(ctx, ids, s, list[i], compare);
      if next.count != |ids| {
        ScanAllKeeps(ctx, ids, base, offers, next, list, i + 1, compare);
      }
    }
  }

  /** Nothing is left to ask for exactly when as many places are held as were empty. */
  lemma {:induction false} AllHeld(ctx: Context, ids: map<nat, nat>, base: Slots, offers: seq<Offer>, s: Scan, n: nat)
    requires ScanInv(ctx, ids, base, offers, s) && n <= |base|
    ensures Held(s, n) <= |Free(base, n)|
    ensures Held(s, n) == |Free(base, n)| <==> forall k :: 0 <= k < n ==> s.slots[k].Some?
  {
    if n > 0 { AllHeld(ctx, ids, base, offers, s, n - 1); }
  }

  // ---------------------------------------------------------------------------------------------------------------
  // Receiving a message
  // ---------------------------------------------------------------------------------------------------------------

  datatype InitResult = InitResult(status: Status, slots: Slots)

  /** The table that leads from short ids to places. */
  function Table(msg: Message, base: Slots): (ids: map<nat, nat>)
    requires Placed(msg) == Some(base)
    ensures forall id :: id in ids ==> ids[id] < |base| && base[ids[id]].None?
  {
    PlacedLeaves(msg);
    TablePlaces(msg.shortIds, base, |msg.shortIds|);
    IdTable(msg.shortIds, Free(base, |base|), |msg.shortIds|)
  }

  lemma {:induction false} FreeIsEmpty(slots: Slots, n: nat, i: nat)
    requires n <= |slots| && i < |Free(slots, n)|
    ensures slots[Free(slots, n)[i]].None?
  {
    if i < |Free(slots, n - 1)| {
      FreeIsEmpty(slots, n - 1, i);
    }
  }

  lemma TablePlaces(ids: seq<nat>, base: Slots, n: nat)
    requires n <= |ids| && n <= |Free(base, |base|)|
    ensures forall id :: id in IdTable(ids, Free(base, |base|), n) ==>
      IdTable(ids, Free(base, |base|), n)[id] < |base| && base[IdTable(ids, Free(base, |base|), n)[id]].None?
  {
    var free := Free(base, |base|);
    forall id | id in IdTable(ids, free, n)
      ensures IdTable(ids, free, n)[id] < |base| && base[IdTable(ids, free, n)[id]].None?
    {
      var i := IdTableFrom(ids, free, n, id);
      FreeIsEmpty(base, |base|, i);
    }
  }

  function StartScan(base: Slots): Scan {
    Scan(base, seq(|base|, _ => false), 0)
  }

  function ScanPools(ctx: Context, ids: map<nat, nat>, base: Slots, pool: seq<Offer>, extra: seq<Offer>): (r: Scan)
    requires forall id :: id in ids ==> ids[id] < |base|
    ensures ScanFits(r, ids) && |r.slots| == |base|
  {
    ScanAll(ctx, ids, ScanAll(ctx, ids, StartScan(base), pool, 0, false), extra, 0, true)
  }

  /** Refused before anything is taken from the message. */
  predicate Unread(ctx: Context, msg: Message) {
    msg.headerIsNull || msg.TxCount() == 0 || msg.TxCount() > ctx.maxTxs
  }

  function Init(ctx: Context, msg: Message, pool: seq<Offer>, extra: seq<Offer>): InitResult {
    if Unread(ctx, msg) then InitResult(Invalid, []) else
    match Placed(msg)
    case None => InitResult(Invalid, PlacedSome(msg))
    case Some(base) =>
      var ids := Table(msg, base);
      if Crowded(ctx, msg.shortIds, |msg.shortIds|) || |ids| != |msg.shortIds| then InitResult(Failed, base)
      else InitResult(ReadOk, ScanPools(ctx, ids, base, pool, extra).slots)
  }

  lemma {:induction false} StartHeld(base: Slots, n: nat)
    requires n <= |base|
    ensures Held(StartScan(base), n) == 0
  {
    if n > 0 { StartHeld(base, n - 1); }
  }

  /** The first `n` offers, without stopping early. */
  function ScanFirst(ctx: Context, ids: map<nat, nat>, s: Scan, offers: seq<Offer>, n: nat, compare: bool): (r: Scan)
    requires ScanFits(s, ids) && n <= |offers|
    ensures ScanFits(r, ids) && |r.slots| == |s.slots|
  {
    if n == 0 then s else ScanOne(ctx, ids, ScanFirst(ctx, ids, s, offers, n - 1, compare), offers[n - 1], compare)
  }

  /** Scanning is scanning some first offers: all of them, unless every place counts as filled. */
  lemma {:induction false} ScanStops(ctx: Context, ids: map<nat, nat>, s: Scan, offers: seq<Offer>, i: nat,
                                     compare: bool, cur: Scan, end: Scan) returns (n: nat)
    requires ScanFits(s, ids) && i <= |offers| && cur == ScanFirst(ctx, ids, s, offers, i, compare)
    requires end == ScanAll(ctx, ids, cur, offers, i, compare)
    ensures i <= n <= |offers| && end == ScanFirst(ctx, ids, s, offers, n, compare)
    ensures n == |offers| || end.count == |ids|
    decreases |offers| - i
  {
    n := i;
    if i < |offers| {
      var next := ScanOne(ctx, ids, cur, offers[i], compare);
      n := i + 1;
      if next.count != |ids| {
        n := ScanStops(ctx, ids, s, offers, i + 1, compare, next, end);
      }
    }
  }

  /** How many of the first `n` offers have the short id of a place. */
  function MatchCount(ctx: Context, ids: map<nat, nat>, offers: seq<Offer>, n: nat, k: nat): nat
    requires n <= |offers|
  {
    if n == 0 then 0 else
    MatchCount(ctx, ids, offers, n - 1, k)
    + if ctx.shortId(offers[n - 1].hash) in ids && ids[ctx.shortId(offers[n - 1].hash)] == k then 1 else 0
  }

  /** After the mempool, a place is filled exactly if one transaction matched it; if several did it is asked for. */
  lemma {:induction false} PoolFillsUnique(ctx: Context, ids: map<nat, nat>, base: Slots, pool: seq<Offer>, n: nat,
                                           k: nat)
    requires (forall id :: id in ids ==> ids[id] < |base|) && n <= |pool| && k < |base| && base[k].None?
    ensures var s := ScanFirst(ctx, ids, StartScan(base), pool, n, false);
      && (s.have[k] <==> MatchCount(ctx, ids, pool, n, k) > 0)
      && (s.slots[k].Some? <==> MatchCount(ctx, ids, pool, n, k) == 1)
  {
    if n > 0 {
      PoolFillsUnique(ctx, ids, base, pool, n - 1, k);
    }
  }

  /** The same with the early stop: of the transactions looked at, which are all unless every place counts as filled. */
  lemma PoolFills(ctx: Context, ids: map<nat, nat>, base: Slots, pool: seq<Offer>, k: nat) returns (n: nat)
    requires (forall id :: id in ids ==> ids[id] < |base|) && k < |base| && base[k].None?
    ensures n <= |pool|
    ensures var s := ScanAll(ctx, ids, StartScan(base), pool, 0, false);
            && (n == |pool| || s.count == |ids|)
            && (s.slots[k].Some? <==> MatchCount(ctx, ids, pool, n, k) == 1)
  {
    var start := StartScan(base);
    n := ScanStops(ctx, ids, start, pool, 0, false, start, ScanAll(ctx, ids, start, pool, 0, false));
    PoolFillsUnique(ctx, ids, base, pool, n, k);
  }

  lemma ScanPoolsKeeps(ctx: Context, ids: map<nat, nat>, base: Slots, pool: seq<Offer>, extra: seq<Offer>)
    requires forall id :: id in ids ==> ids[id] < |base| && base[ids[id]].None?
    ensures ScanInv(ctx, ids, base, pool + extra, ScanPools(ctx, ids, base, pool, extra))
  {
    var start := StartScan(base);
    StartHeld(base, |base|);
    assert ScanInv(ctx, ids, base, pool + extra, start) by {
      assert forall k :: 0 <= k < |base| ==> !start.have[k] && start.slots[k] == base[k];
    }
    ScanAllKeeps(ctx, ids, base, pool + extra, start, pool, 0, false);
    var middle := ScanAll(ctx, ids, start, pool, 0, false);
    ScanAllKeeps(ctx, ids, base, pool + extra, middle, extra, 0, true);
  }

  /**
   An accepted message has distinct short ids, one for each place that is not prefilled; prefilled places keep their
   transaction, and what fills the `i`-th other place is an offer with the `i`-th short id.
   */
  lemma InitAccepts(ctx: Context, msg: Message, pool: seq<Offer>, extra: seq<Offer>)
    requires Init(ctx, msg, pool, extra).status == ReadOk
    ensures Placed(msg).Some? && Distinct(msg.shortIds)
    ensures var base, slots := Placed(msg).value, Init(ctx, msg, pool, extra).slots;
      && |base| == |slots| == msg.TxCount() && |Free(base, |base|)| == |msg.shortIds|
      && (forall k :: 0 <= k < |base| && base[k].Some? ==> slots[k] == base[k])
      && (forall i :: 0 <= i < |msg.shortIds| && slots[Free(base, |base|)[i]].Some? ==>
            FromOffer(ctx, pool + extra, msg.shortIds[i], slots[Free(base, |base|)[i]].value))
  {
    var base := Placed(msg).value;
    PlacedLeaves(msg);
    var ids, free := Table(msg, base), Free(base, |base|);
    assert msg.shortIds[..|msg.shortIds|] == msg.shortIds;
    IdTableSize(msg.shortIds, free, |msg.shortIds|);
    ScanPoolsKeeps(ctx, ids, base, pool, extra);
    var s := ScanPools(ctx, ids, base, pool, extra);
    forall i | 0 <= i < |msg.shortIds| && s.slots[free[i]].Some?
      ensures FromOffer(ctx, pool + extra, msg.shortIds[i], s.slots[free[i]].value)
    {
      FreeIsEmpty(base, |base|, i);
      OfferFits(ctx, msg.shortIds, base, pool + extra, i, s.slots[free[i]].value);
    }
  }

  predicate FromOffer(ctx: Context, offers: seq<Offer>, id: nat, tx: Tx) {
    exists o :: o in offers && o.tx == tx && ctx.shortId(o.hash) == id
  }

  lemma {:induction false} FreeDistinct(slots: Slots, n: nat, i: nat, j: nat)
    requires n <= |slots| && i < j < |Free(slots, n)|
    ensures Free(slots, n)[i] < Free(slots, n)[j]
  {
    if j < |Free(slots, n - 1)| {
      FreeDistinct(slots, n - 1, i, j);
    }
  }

  lemma OfferFits(ctx: Context, ids: seq<nat>, base: Slots, offers: seq<Offer>, i: nat, tx: Tx)
    requires |Free(base, |base|)| == |ids| && Distinct(ids) && i < |ids|
    requires Offered(ctx, IdTable(ids, Free(base, |base|), |ids|), offers, Free(base, |base|)[i], tx)
    ensures FromOffer(ctx, offers, ids[i], tx)
  {
    var free := Free(base, |base|);
    var table := IdTable(ids, free, |ids|);
    var o :| o in offers && o.tx == tx && ctx.shortId(o.hash) in table && table[ctx.shortId(o.hash)] == free[i];
    var j := IdTableFrom(ids, free, |ids|, ctx.shortId(o.hash));
    if j < i {
      FreeDistinct(base, |base|, j, i);
    }
    if i < j {
      FreeDistinct(base, |base|, i, j);
    }
  }

  // ---------------------------------------------------------------------------------------------------------------
  // Putting the block together
  // ---------------------------------------------------------------------------------------------------------------

  /** The block from the `i`-th place on, taking missing transactions from the `off`-th on. */
  function FillFrom(slots: Slots, missing: seq<Tx>, i: nat, off: nat): Option<seq<Tx>>
    requires i <= |slots| && off <= |missing|
    decreases |slots| - i
  {
    if i == |slots| then (if off == |missing| then Some([]) else None)
    else if slots[i].Some? then
      match FillFrom(slots, missing, i + 1, off)
      case None => None
      case Some(rest) => Some([slots[i].value] + rest)
    else if off == |missing| then None
    else
      match FillFrom(slots, missing, i + 1, off + 1)
      case None => None
      case Some(rest) => Some([missing[off]] + rest)
  }

  /** The transactions of a block that are not at hand, in order. */
  function MissingOf(slots: Slots, vtx: seq<Tx>): seq<Tx>
    requires |slots| == |vtx|
  {
    if slots == [] then []
    else (if slots[0].None? then [vtx[0]] else []) + MissingOf(slots[1..], vtx[1..])
  }

  predicate Agrees(slots: Slots, vtx: seq<Tx>) {
    |slots| == |vtx| && forall k :: 0 <= k < |slots| && slots[k].Some? ==> slots[k].value == vtx[k]
  }

  /** Filling in the missing transactions in order gives the block that the places agree with. */
  lemma {:induction false} FillRebuilds(slots: Slots, vtx: seq<Tx>, before: seq<Tx>, i: nat)
    requires Agrees(slots, vtx) && i <= |slots|
    ensures FillFrom(slots, before + MissingOf(slots[i..], vtx[i..]), i, |before|) == Some(vtx[i..])
    decreases |slots| - i
  {
    var later := MissingOf(slots[i..], vtx[i..]);
    if i == |slots| {
    } else {
      assert slots[i..][1..] == slots[i + 1..] && vtx[i..][1..] == vtx[i + 1..];
      assert vtx[i..] == [vtx[i]] + vtx[i + 1..];
      var rest := MissingOf(slots[i + 1..], vtx[i + 1..]);
      if slots[i].Some? {
        assert later == rest;
        FillRebuilds(slots, vtx, before, i + 1);
      } else {
        assert before + later == (before + [vtx[i]]) + rest;
        FillRebuilds(slots, vtx, before + [vtx[i]], i + 1);
      }
    }
  }

  /** Whatever is put together agrees with the places, and the rest of it is what was filled in. */
  lemma {:induction false} FillOnly(slots: Slots, missing: seq<Tx>, i: nat, off: nat)
    requires i <= |slots| && off <= |missing|
    ensures var r := FillFrom(slots, missing, i, off);
      r.Some? ==> Agrees(slots[i..], r.value) && MissingOf(slots[i..], r.value) == missing[off..]
    decreases |slots| - i
  {
    if i < |slots| {
      var rest := slots[i + 1..];
      assert slots[i..] == [slots[i]] + rest;
      if slots[i].Some? {
        FillOnly(slots, missing, i + 1, off);
      } else if off < |missing| {
        FillOnly(slots, missing, i + 1, off + 1);
        assert missing[off..] == [missing[off]] + missing[off + 1..];
      }
      var r := FillFrom(slots, missing, i, off);
      if r.Some? {
        assert slots[i..][1..] == rest;
        assert r.value[1..] == FillFrom(slots, missing, i + 1, if slots[i].Some? then off else off + 1).value;
      }
    }
  }

  /** The number of empty places from the `i`-th on. */
  function Gaps(slots: Slots, i: nat): nat
    requires i <= |slots|
    decreases |slots| - i
  {
    if i == |slots| then 0 else Gaps(slots, i + 1) + if slots[i].None? then 1 else 0
  }

  /** A block is put together exactly when as many transactions come as there are empty places. */
  lemma {:induction false} FillAccepts(slots: Slots, missing: seq<Tx>, i: nat, off: nat)
    requires i <= |slots| && off <= |missing|
    ensures FillFrom(slots, missing, i, off).Some? <==> |missing| - off == Gaps(slots, i)
    decreases |slots| - i
  {
    if i < |slots| {
      if slots[i].Some? {
        FillAccepts(slots, missing, i + 1, off);
      } else if off < |missing| {
        FillAccepts(slots, missing, i + 1, off + 1);
      }
    }
  }

  function Fill(slots: Slots, missing: seq<Tx>): Option<seq<Tx>> {
    FillFrom(slots, missing, 0, 0)
  }

  /** The places once those before the `n`-th have been moved into the block. */
  function Emptied(slots: Slots, n: nat): (r: Slots)
    requires n <= |slots|
    ensures |r| == |slots|
  {
    seq(|slots|, k requires 0 <= k < |slots| => if k < n then None else slots[k])
  }

  /** The places after an attempt with `n` transactions, fewer than there are empty places. */
  function AfterShort(slots: Slots, n: nat): Slots
    requires n < |Free(slots, |slots|)|
  {
    Emptied(slots, Free(slots, |slots|)[n])
  }

  lemma {:induction false} GapsAreFree(slots: Slots, i: nat)
    requires i <= |slots|
    ensures Gaps(slots, i) + |Free(slots, i)| == |Free(slots, |slots|)|
    decreases |slots| - i
  {
    if i < |slots| { GapsAreFree(slots, i + 1); }
  }

  lemma {:induction false} FreeEmptied(slots: Slots, n: nat, k: nat)
    requires n <= |slots| && k <= |slots|
    ensures |Free(Emptied(slots, n), k)| == if k <= n then k else |Free(slots, k)| + n - |Free(slots, n)|
  {
    if k > 0 { FreeEmptied(slots, n, k - 1); }
  }

  lemma {:induction false} FreeRank(slots: Slots, n: nat, i: nat)
    requires n <= |slots| && i < |Free(slots, n)|
    ensures |Free(slots, Free(slots, n)[i])| == i
  {
    if i < |Free(slots, n - 1)| { FreeRank(slots, n - 1, i); }
  }

  /**
   After an attempt with too few transactions another is possible, but it asks for those already moved out as well:
   the transactions that were missing complete the block only if nothing had been moved.
   */
  lemma RetryAsksForMore(slots: Slots, n: nat, missing: seq<Tx>)
    requires n < |Free(slots, |slots|)|
    ensures var moved := Free(slots, |slots|)[n] - n;
            Fill(AfterShort(slots, n), missing).Some? <==> |missing| == |Free(slots, |slots|)| + moved
    ensures Fill(slots, missing).Some? ==>
              (Fill(AfterShort(slots, n), missing).Some? <==>
                 forall k :: 0 <= k < Free(slots, |slots|)[n] ==> slots[k].None?)
  {
    var stop := Free(slots, |slots|)[n];
    var after := AfterShort(slots, n);
    FreeRank(slots, |slots|, n);
    FreeEmptied(slots, stop, |slots|);
    FillAccepts(after, missing, 0, 0);
    FillAccepts(slots, missing, 0, 0);
    GapsAreFree(after, 0);
    GapsAreFree(slots, 0);
    FreeLeading(slots, stop);
  }

  lemma {:induction false} FreeLeading(slots: Slots, n: nat)
    requires n <= |slots|
    ensures |Free(slots, n)| == n <==> forall k :: 0 <= k < n ==> slots[k].None?
  {
    if n > 0 { FreeLeading(slots, n - 1); }
  }

  lemma EmptiedStep(slots: Slots, i: nat)
    requires i < |slots|
    ensures Emptied(slots, i)[i] == slots[i]
    ensures Emptied(slots, i)[i := None] == Emptied(slots, i + 1)
    ensures slots[i].None? ==> Emptied(slots, i) == Emptied(slots, i + 1)
  {
  }

  /** The `i`-th place, with the empty ones before it filled: it is filled as well, or it is the one to stop at. */
  lemma FillTurn(slots: Slots, missing: seq<Tx>, i: nat)
    requires i < |slots| && |Free(slots, i)| <= |missing|
    ensures var off := |Free(slots, i)|;
            && |Free(slots, i + 1)| == off + (if slots[i].None? then 1 else 0)
            && (slots[i].None? ==> off < |Free(slots, |slots|)| && Free(slots, |slots|)[off] == i)
  {
    FreeBefore(slots, i + 1, |slots|);
  }

  // ---------------------------------------------------------------------------------------------------------------
  // From block to block
  // ---------------------------------------------------------------------------------------------------------------

  function ShortIds(ctx: Context, vtx: seq<Tx>): (ids: seq<nat>)
    requires vtx != []
    ensures |ids| == |vtx| - 1
  {
    seq<nat>(|vtx| - 1, i requires 0 <= i < |vtx| - 1 => ctx.shortId(vtx[i + 1].hash))
  }

  /** The message made from a block: the first transaction is prefilled. */
  function Compact(ctx: Context, vtx: seq<Tx>): Message
    requires vtx != []
  {
    Message(false, ShortIds(ctx, vtx), [Prefilled(0, vtx[0])])
  }

  /** An offer with the short id of a block's transaction is that transaction. */
  predicate NoCollision(ctx: Context, vtx: seq<Tx>, offers: seq<Offer>)
    requires vtx != []
  {
    Distinct(ShortIds(ctx, vtx))
    && forall o, j :: o in offers && 0 < j < |vtx| && ctx.shortId(o.hash) == ctx.shortId(vtx[j].hash) ==> o.tx == vtx[j]
  }

  lemma {:induction false} FreeAfterFirst(first: Tx, n: nat, k: nat)
    requires k <= n
    ensures var free := Free([Some(first)] + EmptySlots(n), k + 1);
      |free| == k && forall i :: 0 <= i < k ==> free[i] == i + 1
  {
    if k > 0 {
      FreeAfterFirst(first, n, k - 1);
    }
  }

  lemma CompactPlaced(ctx: Context, vtx: seq<Tx>)
    requires vtx != [] && !vtx[0].isNull
    ensures Placed(Compact(ctx, vtx)) == Some([Some(vtx[0])] + EmptySlots(|vtx| - 1))
  {
    var msg := Compact(ctx, vtx);
    var empty := EmptySlots(|vtx|);
    assert empty[0 := Some(vtx[0])] == [Some(vtx[0])] + EmptySlots(|vtx| - 1);
    assert Place(empty[0 := Some(vtx[0])], msg.prefilled, 1, 0, |vtx| - 1) == Some(empty[0 := Some(vtx[0])]);
  }

  /** The message of a block is accepted. */
  lemma CompactAccepted(ctx: Context, vtx: seq<Tx>, pool: seq<Offer>, extra: seq<Offer>)
    requires 0 < |vtx| <= ctx.maxTxs && !vtx[0].isNull && Distinct(ShortIds(ctx, vtx))
    requires !Crowded(ctx, ShortIds(ctx, vtx), |vtx| - 1)
    ensures Init(ctx, Compact(ctx, vtx), pool, extra).status == ReadOk
  {
    var msg := Compact(ctx, vtx);
    CompactPlaced(ctx, vtx);
    PlacedLeaves(msg);
    var base := Placed(msg).value;
    assert msg.shortIds[..|msg.shortIds|] == msg.shortIds;
    IdTableSize(msg.shortIds, Free(base, |base|), |msg.shortIds|);
  }

  lemma OfferIsTx(ctx: Context, vtx: seq<Tx>, offers: seq<Offer>, k: nat, tx: Tx)
    requires vtx != [] && NoCollision(ctx, vtx, offers) && 0 < k < |vtx|
    requires FromOffer(ctx, offers, ShortIds(ctx, vtx)[k - 1], tx)
    ensures tx == vtx[k]
  {
  }

  /** A place that is filled after receiving it holds the block's transaction. */
  lemma PlaceAgrees(ctx: Context, vtx: seq<Tx>, pool: seq<Offer>, extra: seq<Offer>, k: nat)
    requires 0 < |vtx| <= ctx.maxTxs && !vtx[0].isNull && NoCollision(ctx, vtx, pool + extra)
    requires var r := Init(ctx, Compact(ctx, vtx), pool, extra);
             r.status == ReadOk && k < |r.slots| && r.slots[k].Some?
    ensures |Init(ctx, Compact(ctx, vtx), pool, extra).slots| == |vtx|
    ensures Init(ctx, Compact(ctx, vtx), pool, extra).slots[k].value == vtx[k]
  {
    var msg := Compact(ctx, vtx);
    var slots := Init(ctx, msg, pool, extra).slots;
    InitAccepts(ctx, msg, pool, extra);
    CompactPlaced(ctx, vtx);
    var base := Placed(msg).value;
    if k == 0 {
      assert slots[0] == base[0];
    } else {
      FreeAfterFirst(vtx[0], |vtx| - 1, |vtx| - 1);
      assert Free(base, |base|)[k - 1] == k;
      OfferIsTx(ctx, vtx, pool + extra, k, slots[k].value);
    }
  }

  /** Receiving it gives places that agree with the block. */
  lemma CompactAgrees(ctx: Context, vtx: seq<Tx>, pool: seq<Offer>, extra: seq<Offer>)
    requires 0 < |vtx| <= ctx.maxTxs && !vtx[0].isNull && NoCollision(ctx, vtx, pool + extra)
    requires Init(ctx, Compact(ctx, vtx), pool, extra).status == ReadOk
    ensures Agrees(Init(ctx, Compact(ctx, vtx), pool, extra).slots, vtx)
  {
    var slots := Init(ctx, Compact(ctx, vtx), pool, extra).slots;
    InitAccepts(ctx, Compact(ctx, vtx), pool, extra);
    forall k | 0 <= k < |slots| && slots[k].Some?
      ensures slots[k].value == vtx[k]
    {
      PlaceAgrees(ctx, vtx, pool, extra, k);
    }
  }

  /** Without collisions the receiver rebuilds exactly the block that was sent. */
  lemma Rebuilds(ctx: Context, vtx: seq<Tx>, pool: seq<Offer>, extra: seq<Offer>)
    requires 0 < |vtx| <= ctx.maxTxs && |vtx| <= 0xffff && !vtx[0].isNull && NoCollision(ctx, vtx, pool + extra)
    requires !Crowded(ctx, ShortIds(ctx, vtx), |vtx| - 1)
    ensures Compact(ctx, vtx).Valid() && Init(ctx, Compact(ctx, vtx), pool, extra).status == ReadOk
    ensures var slots := Init(ctx, Compact(ctx, vtx), pool, extra).slots;
      |slots| == |vtx| && Fill(slots, MissingOf(slots, vtx)) == Some(vtx)
  {
    CompactAccepted(ctx, vtx, pool, extra);
    CompactAgrees(ctx, vtx, pool, extra);
    var slots := Init(ctx, Compact(ctx, vtx), pool, extra).slots;
    FillRebuilds(slots, vtx, [], 0);
    assert slots[0..] == slots && vtx[0..] == vtx && [] + MissingOf(slots, vtx) == MissingOf(slots, vtx);
  }

  // ---------------------------------------------------------------------------------------------------------------
  // The code
  // ---------------------------------------------------------------------------------------------------------------

  /** A value stored in 16 bits. */
  function Cut16(x: nat): nat {
    if x <= 0xffff then x else x % 0x1_0000
  }

  /** The outcome of checking the finished block. */
  datatype Check = Passed | MaybeCorrupt | Bad

  function FillStatus(built: Option<seq<Tx>>, check: seq<Tx> -> Check): Status {
    match built
    case None => Invalid
    case Some(vtx) =>
      match check(vtx)
      case Passed => ReadOk
      case MaybeCorrupt => Failed
      case Bad => CheckBlockFailed
  }

  class PartiallyDownloadedBlock {
    var headerIsNull: bool
    var slots: Slots

    constructor ()
      ensures headerIsNull && slots == []
    {
      headerIsNull, slots := true, [];
    }

    method PlacePrefilled(msg: Message) returns (ok: bool)
      requires msg.Valid() && slots == EmptySlots(msg.TxCount())
      modifies this`slots
      ensures ok <==> Placed(msg).Some?
      ensures slots == PlacedSome(msg) && (ok ==> slots == Placed(msg).value)
    {
      var last := -1;
      for i := 0 to |msg.prefilled|
        invariant |slots| == msg.TxCount() && last >= -1
        invariant Place(slots, msg.prefilled, i, last, |msg.shortIds|) == Placed(msg)
        invariant PlaceSome(slots, msg.prefilled, i, last, |msg.shortIds|) == PlacedSome(msg)
      {
        if msg.prefilled[i].tx.isNull {
          return false;
        }
        last := last + msg.prefilled[i].index + 1;
        if last > 0xffff || last > |msg.shortIds| + i {
          return false;
        }
        slots := slots[last := Some(msg.prefilled[i].tx)];
      }
      return true;
    }

    /** The first empty place at or after the `at`-th. */
    method NextFree(at: nat, i: nat) returns (r: nat)
      requires at <= |slots| && |Free(slots, at)| == i < |Free(slots, |slots|)|
      ensures at <= r < |slots| && slots[r].None? && |Free(slots, r)| == i && Free(slots, |slots|)[i] == r
    {
      r := at;
      FreeBefore(slots, at, |slots|);
      while slots[r].Some?
        invariant at <= r < |slots| && |Free(slots, r)| == i
        decreases |slots| - r
      {
        r := r + 1;
        FreeBefore(slots, r, |slots|);
      }
      FreeBefore(slots, r + 1, |slots|);
    }

    /** Numbers the empty places by 16-bit indices; nothing when a bucket gets too large. */
    method MapShortIds(ctx: Context, shortIds: seq<nat>) returns (ids: Option<map<nat, nat>>)
      requires |slots| <= 0xffff && |Free(slots, |slots|)| == |shortIds|
      ensures ids == if Crowded(ctx, shortIds, |shortIds|) then None
                     else Some(IdTable(shortIds, Free(slots, |slots|), |shortIds|))
    {
      var table: map<nat, nat> := map[];
      var offset := 0;
      for i := 0 to |shortIds|
        invariant 0 <= offset && i + offset <= |slots| && |Free(slots, i + offset)| == i
        invariant table == IdTable(shortIds, Free(slots, |slots|), i)
        invariant !Crowded(ctx, shortIds, i)
      {
        var place := NextFree(i + offset, i);
        offset := Cut16(place - i);
        assert i + offset == place && Cut16(i + offset) == place;
        table := table[shortIds[i] := Cut16(i + offset)];
        if CrowdedAt(ctx, shortIds, i + 1) {
          CrowdedStays(ctx, shortIds, i + 1, |shortIds|);
          return None;
        }
      }
      return Some(table);
    }

    method ScanOffers(ctx: Context, ids: map<nat, nat>, have: seq<bool>, count: int, offers: seq<Offer>, compare: bool)
      returns (have': seq<bool>, count': int)
      requires ScanFits(Scan(slots, have, count), ids)
      modifies this`slots
      ensures Scan(slots, have', count') == ScanAll(ctx, ids, Scan(old(slots), have, count), offers, 0, compare)
    {
      have', count' := have, count;
      ghost var all := ScanAll(ctx, ids, Scan(slots, have, count), offers, 0, compare);
      for i := 0 to |offers|
        invariant ScanFits(Scan(slots, have', count'), ids)
        invariant ScanAll(ctx, ids, Scan(slots, have', count'), offers, i, compare) == all
      {
        var id := ctx.shortId(offers[i].hash);
        if id in ids {
          var k := ids[id];
          if !have'[k] {
            slots := slots[k := Some(offers[i].tx)];
            have', count' := have'[k := true], count' + 1;
          } else if slots[k].Some? && (compare ==> slots[k].value.hash != offers[i].tx.hash) {
            slots := slots[k := None];
            count' := count' - 1;
          }
        }
        if count' == |ids| {
          return;
        }
      }
    }

    method ScanBoth(ctx: Context, ids: map<nat, nat>, pool: seq<Offer>, extra: seq<Offer>)
      requires forall id :: id in ids ==> ids[id] < |slots|
      modifies this`slots
      ensures slots == ScanPools(ctx, ids, old(slots), pool, extra).slots
    {
      var have, count := ScanOffers(ctx, ids, seq(|slots|, _ => false), 0, pool, false);
      have, count := ScanOffers(ctx, ids, have, count, extra, true);
    }

    method InitData(ctx: Context, msg: Message, pool: seq<Offer>, extra: seq<Offer>) returns (status: Status)
      requires msg.Valid() && headerIsNull && slots == []
      modifies this
      ensures status == Init(ctx, msg, pool, extra).status
      ensures slots == Init(ctx, msg, pool, extra).slots && (headerIsNull <==> Unread(ctx, msg))
    {
      if msg.headerIsNull || (|msg.shortIds| == 0 && |msg.prefilled| == 0) {
        return Invalid;
      }
      if |msg.shortIds| + |msg.prefilled| > ctx.maxTxs {
        return Invalid;
      }
      headerIsNull := false;
      slots := EmptySlots(msg.TxCount());
      var ok := PlacePrefilled(msg);
      if !ok {
        return Invalid;
      }
      PlacedLeaves(msg);
      var ids := MapShortIds(ctx, msg.shortIds);
      if ids.None? || |ids.value| != |msg.shortIds| {
        return Failed;
      }
      assert ids.value == Table(msg, slots);
      ScanBoth(ctx, ids.value, pool, extra);
      return ReadOk;
    }

    /**
     Moves the transactions into the block. With too few missing ones it returns before the header is cleared, having
     already moved out the transactions before the place it could not fill.
     */
    method FillBlock(missing: seq<Tx>, check: seq<Tx> -> Check) returns (status: Status, vtx: seq<Tx>)
      requires !headerIsNull
      modifies this
      ensures status == FillStatus(Fill(old(slots), missing), check)
      ensures Fill(old(slots), missing).Some? ==> vtx == Fill(old(slots), missing).value
      ensures headerIsNull <==> |missing| >= |Free(old(slots), |old(slots)|)|
      ensures slots == if headerIsNull then [] else AfterShort(old(slots), |missing|)
    {
      vtx := [];
      var off := 0;
      ghost var was := slots;
      PrependNothing(Fill(was, missing));
      for i := 0 to |slots|
        invariant !headerIsNull && slots == Emptied(was, i)
        invariant off == |Free(was, i)| <= |missing|
        invariant Fill(was, missing) == Prepend(vtx, FillFrom(was, missing, i, off))
      {
        EmptiedStep(was, i);
        FillTurn(was, missing, i);
        if slots[i].None? {
          if |missing| <= off {
            return Invalid, vtx;
          }
          PrependSnoc(vtx, missing[off], FillFrom(was, missing, i + 1, off + 1));
          vtx := vtx + [missing[off]];
          off := off + 1;
        } else {
          PrependSnoc(vtx, slots[i].value, FillFrom(was, missing, i + 1, off));
          vtx := vtx + [slots[i].value];
          slots := slots[i := None];
        }
      }
      headerIsNull, slots := true, [];
      assert vtx + [] == vtx;
      if |missing| != off {
        return Invalid, vtx;
      }
      var checked := check(vtx);
      status := if checked == Passed then ReadOk else if checked == MaybeCorrupt then Failed else CheckBlockFailed;
    }
  }

  function Prepend(head: seq<Tx>, tail: Option<seq<Tx>>): Option<seq<Tx>> {
    match tail case None => None case Some(t) => Some(head + t)
  }

  lemma PrependNothing(tail: Option<seq<Tx>>)
    ensures Prepend([], tail) == tail
  {
    if tail.Some? {
      assert [] + tail.value == tail.value;
    }
  }

  lemma PrependSnoc(head: seq<Tx>, tx: Tx, tail: Option<seq<Tx>>)
    ensures Prepend(head + [tx], tail) == Prepend(head, Prepend([tx], tail))
  {
    if tail.Some? {
      assert head + [tx] + tail.value == head + ([tx] + tail.value);
    }
  }

  lemma {:induction false} FreeBefore(slots: Slots, m: nat, n: nat)
    requires m <= n <= |slots|
    ensures Free(slots, m) <= Free(slots, n)
    ensures m == n ==> |Free(slots, m)| == |Free(slots, n)|
  {
    if m < n { FreeBefore(slots, m, n - 1); }
  }

  lemma {:induction false} CrowdedStays(ctx: Context, ids: seq<nat>, m: nat, n: nat)
    requires m <= n <= |ids| && Crowded(ctx, ids, m)
    ensures Crowded(ctx, ids, n)
  {
    if m < n { CrowdedStays(ctx, ids, m, n - 1); }
  }
}
