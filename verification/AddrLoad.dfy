/**
 What reading makes of any file that it accepts, whoever wrote it and whatever the map of autonomous systems was: the
 tables, the counters and the random list are always right, and the index is right exactly if the services allow it.
 */
module AddrLoad {
  import opened AddrBook
  import opened AddrFile

  /** Everything but the index and the counters; new entries may still be without a place. */
  ghost predicate Sound(cfg: Config, m: Book) {
    RandomOk(m) && TriedOk(cfg, m) && NewOk(cfg, m, m.info.Keys)
  }

  // ---------------------------------------------------------------------------------------------------------------
  // Entries
  // ---------------------------------------------------------------------------------------------------------------

  /** The next id is in no table. */
  lemma NextUnused(cfg: Config, m: Book, s: Service)
    requires Sound(cfg, m)
    ensures Refs(cfg, m.vvNew, s, m.idCount, NEW_BUCKETS) == 0 && m.idCount !in m.info
  {
    forall b | 0 <= b < NEW_BUCKETS
      ensures m.vvNew[b][cfg.position(s, true, b)] != m.idCount
    {
      assert NewPlaceOk(cfg, m, b, cfg.position(s, true, b));
    }
    RefsNone(cfg, m.vvNew, s, m.idCount, NEW_BUCKETS);
  }

  lemma EnteredSound(cfg: Config, m: Book, e: Persisted)
    requires Sound(cfg, m)
    ensures Sound(cfg, Entered(m, e, false))
  {
    var n := Entered(m, e, false);
    EnteredRandom(m, e, false);
    NextUnused(cfg, m, e.service);
    forall id | id in n.info
      ensures TriedEntryOk(cfg, n, id) && NewEntryOk(cfg, n, n.info.Keys, id)
    {
      assert id != m.idCount ==> TriedEntryOk(cfg, m, id) && NewEntryOk(cfg, m, m.info.Keys, id);
    }
    forall b, p | 0 <= b < TRIED_BUCKETS && 0 <= p < BUCKET_SIZE
      ensures TriedPlaceOk(cfg, n, b, p)
    {
      assert TriedPlaceOk(cfg, m, b, p);
    }
    forall b, p | 0 <= b < NEW_BUCKETS && 0 <= p < BUCKET_SIZE
      ensures NewPlaceOk(cfg, n, b, p)
    {
      assert NewPlaceOk(cfg, m, b, p);
    }
  }

  lemma TriedEnteredSound(cfg: Config, m: Book, e: Persisted)
    requires Sound(cfg, m)
    ensures Sound(cfg, TriedEntered(cfg, m, e))
  {
    var n := TriedEntered(cfg, m, e);
    EnteredRandom(m, e, true);
    NextUnused(cfg, m, e.service);
    forall id | id in n.info
      ensures TriedEntryOk(cfg, n, id) && NewEntryOk(cfg, n, n.info.Keys, id)
    {
      assert id != m.idCount ==> TriedEntryOk(cfg, m, id) && NewEntryOk(cfg, m, m.info.Keys, id);
    }
    forall b, p | 0 <= b < TRIED_BUCKETS && 0 <= p < BUCKET_SIZE
      ensures TriedPlaceOk(cfg, n, b, p)
    {
      assert TriedPlaceOk(cfg, m, b, p);
    }
    forall b, p | 0 <= b < NEW_BUCKETS && 0 <= p < BUCKET_SIZE
      ensures NewPlaceOk(cfg, n, b, p)
    {
      assert NewPlaceOk(cfg, m, b, p);
    }
  }

  /** The first ids are the new entries, and the counters are right but for the tried entries not read yet. */
  ghost predicate Numbers(m: Book, news: int, unread: int) {
    && news <= m.idCount && m.newCount == news
    && (forall id :: id in m.info ==> 0 <= id < m.idCount && (m.info[id].inTried <==> id >= news))
    && |NewIds(m)| == news && |TriedIds(m)| == m.triedCount - unread
  }

  lemma {:induction false} NewSound(cfg: Config, entries: seq<Persisted>, n: nat)
    requires n <= |entries|
    ensures Sound(cfg, LoadNew(entries, n)) && LoadNew(entries, n).idCount == n
    ensures forall id :: id in LoadNew(entries, n).info <==> 0 <= id < n
    ensures forall id :: id in LoadNew(entries, n).info ==> !LoadNew(entries, n).info[id].inTried
  {
    if n > 0 {
      NewSound(cfg, entries, n - 1);
      EnteredSound(cfg, LoadNew(entries, n - 1), entries[n - 1]);
    }
  }

  /** Before the tried entries are read. */
  lemma StartSound(cfg: Config, f: File)
    requires 0 <= f.newCount == |f.newEntries|
    ensures Sound(cfg, StartOf(f)) && Numbers(StartOf(f), f.newCount, f.triedCount)
  {
    var loaded, m := LoadNew(f.newEntries, f.newCount), StartOf(f);
    NewSound(cfg, f.newEntries, f.newCount);
    SameTables(cfg, loaded, m);
    RangeSize(0, f.newCount, NewIds(m));
    forall id
      ensures id in TriedIds(m) <==> id in {}
    {
    }
    assert TriedIds(m) == {};
  }

  lemma SameTables(cfg: Config, m: Book, n: Book)
    requires Sound(cfg, m) && n == m.(newCount := n.newCount, triedCount := n.triedCount)
    ensures Sound(cfg, n)
  {
    forall id | id in n.info
      ensures TriedEntryOk(cfg, n, id) && NewEntryOk(cfg, n, n.info.Keys, id)
    {
      assert InRandom(m, id) && TriedEntryOk(cfg, m, id) && NewEntryOk(cfg, m, m.info.Keys, id);
    }
    forall b, p | 0 <= b < TRIED_BUCKETS && 0 <= p < BUCKET_SIZE
      ensures TriedPlaceOk(cfg, n, b, p)
    {
      assert TriedPlaceOk(cfg, m, b, p);
    }
    forall b, p | 0 <= b < NEW_BUCKETS && 0 <= p < BUCKET_SIZE
      ensures NewPlaceOk(cfg, n, b, p)
    {
      assert NewPlaceOk(cfg, m, b, p);
    }
  }

  lemma AddedTried(m: Book, n: Book, id: int)
    requires id !in m.info && id in n.info && n.info[id].inTried && n.info == m.info[id := n.info[id]]
    ensures NewIds(n) == NewIds(m) && |TriedIds(n)| == |TriedIds(m)| + 1
  {
    assert TriedIds(n) == TriedIds(m) + {id};
  }

  lemma TriedNumbers(cfg: Config, m: Book, e: Persisted, news: int, unread: int)
    requires IsTable(m.vvTried, TRIED_BUCKETS) && Numbers(m, news, unread)
    ensures Numbers(TriedEntered(cfg, m, e), news, unread - 1)
  {
    var n := TriedEntered(cfg, m, e);
    if m.vvTried[cfg.triedBucket(e.service)][cfg.TriedPosition(e.service)] == -1 {
      assert m.idCount !in m.info && n.info == m.info[m.idCount := Revive(e, |m.random|, true)];
      AddedTried(m, n, m.idCount);
    } else {
      assert TriedIds(n) == TriedIds(m) && NewIds(n) == NewIds(m);
    }
  }

  lemma {:induction false} TriedSound(cfg: Config, f: File, k: nat)
    requires 0 <= f.newCount == |f.newEntries| && f.triedCount == |f.triedEntries| && k <= |f.triedEntries|
    ensures var m := LoadTried(cfg, StartOf(f), f.triedEntries, k);
      Sound(cfg, m) && Numbers(m, f.newCount, f.triedCount - k)
  {
    if k == 0 {
      StartSound(cfg, f);
    } else {
      TriedSound(cfg, f, k - 1);
      var m := LoadTried(cfg, StartOf(f), f.triedEntries, k - 1);
      TriedEnteredSound(cfg, m, f.triedEntries[k - 1]);
      TriedNumbers(cfg, m, f.triedEntries[k - 1], f.newCount, f.triedCount - (k - 1));
    }
  }

  // ---------------------------------------------------------------------------------------------------------------
  // Places
  // ---------------------------------------------------------------------------------------------------------------

  /** Both hold the same entries under the same services, and look services up alike. */
  ghost predicate SameServices(m: Book, n: Book) {
    && m.addr == n.addr && m.info.Keys == n.info.Keys && m.idCount == n.idCount
    && (forall id :: id in m.info ==> n.info[id].service == m.info[id].service)
  }

  ghost predicate Counted(cfg: Config, m: Book, news: int) {
    Sound(cfg, m) && CountsOk(m, 0) && forall id :: id in m.info ==> (m.info[id].inTried <==> id >= news)
  }

  lemma ReferencedSound(cfg: Config, m: Book, b: int, p: int, id: int, news: int)
    requires Counted(cfg, m, news) && 0 <= b < NEW_BUCKETS && 0 <= p < BUCKET_SIZE && m.vvNew[b][p] == -1
    requires id in m.info && id < news && m.info[id].refCount < MAX_REFS
    requires cfg.position(m.info[id].service, true, b) == p
    ensures Counted(cfg, Referenced(m, b, p, id), news) && SameServices(m, Referenced(m, b, p, id))
  {
    var n := Referenced(m, b, p, id);
    ReferenceTables(cfg, m, m.info.Keys, 0, b, p, id);
    assert n.info.Keys == m.info.Keys;
    MorePending(cfg, n, m.info.Keys - {id}, m.info.Keys);
    ReferencedRandom(m, b, p, id);
  }

  lemma RestoredSound(cfg: Config, m: Book, restore: bool, b: int, id: int, news: int)
    requires Counted(cfg, m, news) && id < news
    ensures Counted(cfg, Restored(cfg, m, restore, b, id), news) && SameServices(m, Restored(cfg, m, restore, b, id))
  {
    if id in m.info && m.info[id].refCount < MAX_REFS {
      var s := m.info[id].service;
      var home := cfg.newBucket(s, m.info[id].source);
      if restore && 0 <= b < NEW_BUCKETS && m.vvNew[b][cfg.position(s, true, b)] == -1 {
        ReferencedSound(cfg, m, b, cfg.position(s, true, b), id, news);
      } else if m.vvNew[home][cfg.position(s, true, home)] == -1 {
        ReferencedSound(cfg, m, home, cfg.position(s, true, home), id, news);
      }
    }
  }

  lemma {:induction false} AllRestoredSound(cfg: Config, m: Book, restore: bool, pairs: seq<(int, int)>, news: int)
    requires Counted(cfg, m, news) && forall i :: 0 <= i < |pairs| ==> pairs[i].1 < news
    ensures Counted(cfg, RestoreAll(cfg, m, restore, pairs), news)
    ensures SameServices(m, RestoreAll(cfg, m, restore, pairs))
    decreases |pairs|
  {
    if pairs != [] {
      var rest, last := pairs[..|pairs| - 1], pairs[|pairs| - 1];
      AllRestoredSound(cfg, m, restore, rest, news);
      RestoredSound(cfg, RestoreAll(cfg, m, restore, rest), restore, last.0, last.1, news);
    }
  }

  lemma {:induction false} RowPairsNew(row: seq<int>, b: int, news: int)
    ensures forall i :: 0 <= i < |RowPairs(row, b, news)| ==> RowPairs(row, b, news)[i].1 < news
    decreases |row|
  {
    if row != [] { RowPairsNew(row[..|row| - 1], b, news); }
  }

  lemma {:induction false} PairsNew(buckets: seq<seq<int>>, b: nat, news: int)
    requires b <= |buckets|
    ensures forall i :: 0 <= i < |Pairs(buckets, b, news)| ==> Pairs(buckets, b, news)[i].1 < news
  {
    if b > 0 {
      PairsNew(buckets, b - 1, news);
      RowPairsNew(buckets[b - 1], b - 1, news);
    }
  }

  // ---------------------------------------------------------------------------------------------------------------
  // Pruning
  // ---------------------------------------------------------------------------------------------------------------

  /** An entry that is left has kept its service and its part in the tables. */
  ghost predicate SamePlace(m: Book, n: Book, id: int) {
    && id in m.info && id in n.info && n.info[id].service == m.info[id].service
    && n.info[id].inTried == m.info[id].inTried && n.info[id].refCount == m.info[id].refCount
  }

  lemma DeletedSound(cfg: Config, m: Book, id: int, news: int)
    requires Counted(cfg, m, news) && Unplaced(m, id)
    ensures InRandom(m, id) && m.random[|m.random| - 1] in m.info
    ensures Counted(cfg, Deleted(cfg, m, id), news)
    ensures var n := Deleted(cfg, m, id);
      && n.info.Keys == m.info.Keys - {id} && n.addr == m.addr - {cfg.Key(m.info[id].service)}
      && (forall x :: x in n.info ==> SamePlace(m, n, x))
  {
    assert InRandom(m, id);
    DeletedRandom(cfg, m, id);
    var i, j := m.info[id].randomPos, |m.random| - 1;
    var s, n := Swapped(m, i, j), Deleted(cfg, m, id);
    SwapSame(m, i, j);
    SameEntriesKeep(cfg, m, s, m.info.Keys, 0);
    assert SameEntry(m, s, id);
    DropTables(cfg, s, m.info.Keys, 0, id);
    forall x | x in n.info
      ensures SamePlace(m, n, x) && (n.info[x].inTried <==> x >= news)
    {
      assert SameEntry(m, s, x);
    }
    assert forall x :: x in m.info ==> SameEntry(m, s, x);
    assert n.info.Keys == m.info.Keys - {id};
  }

  lemma SwapSame(m: Book, i: int, j: int)
    requires 0 <= i < |m.random| && 0 <= j < |m.random| && m.random[i] in m.info && m.random[j] in m.info
    ensures SameEntries(m, Swapped(m, i, j)) && Swapped(m, i, j).addr == m.addr
  {
  }

  /** The service is the key of an entry that was pruned. */
  ghost predicate Erased(cfg: Config, m: Book, n: Book, s: Service) {
    exists id :: id in m.info && id !in n.info && cfg.Key(m.info[id].service) == s
  }

  /** What has been pruned is gone from the index as well, under the key by which it would be looked up. */
  ghost predicate PrunedFrom(cfg: Config, m: Book, n: Book) {
    && (forall id :: id in n.info ==> SamePlace(m, n, id))
    && (forall s :: s in n.addr <==> s in m.addr && !Erased(cfg, m, n, s))
    && (forall s :: s in n.addr ==> n.addr[s] == m.addr[s])
  }

  lemma ErasedMore(cfg: Config, m: Book, p: Book, n: Book, id: int, s: Service)
    requires id in m.info && id in p.info && n.info.Keys == p.info.Keys - {id}
    ensures Erased(cfg, m, n, s) <==> Erased(cfg, m, p, s) || s == cfg.Key(m.info[id].service)
  {
    assert id !in n.info;
    if Erased(cfg, m, p, s) {
      var x :| x in m.info && x !in p.info && cfg.Key(m.info[x].service) == s;
      assert x !in n.info;
    }
    if Erased(cfg, m, n, s) {
      var x :| x in m.info && x !in n.info && cfg.Key(m.info[x].service) == s;
      assert x == id || x !in p.info;
    }
  }

  lemma PrunedMore(cfg: Config, m: Book, p: Book, n: Book, id: int)
    requires PrunedFrom(cfg, m, p) && id in p.info && n.info.Keys == p.info.Keys - {id}
    requires n.addr == p.addr - {cfg.Key(p.info[id].service)}
    requires forall x :: x in n.info ==> SamePlace(p, n, x)
    ensures PrunedFrom(cfg, m, n)
  {
    forall x | x in n.info
      ensures SamePlace(m, n, x)
    {
      assert SamePlace(p, n, x) && SamePlace(m, p, x);
    }
    forall s
      ensures s in n.addr <==> s in m.addr && !Erased(cfg, m, n, s)
    {
      ErasedMore(cfg, m, p, n, id, s);
    }
  }

  lemma NonePruned(cfg: Config, m: Book)
    ensures PrunedFrom(cfg, m, m)
  {
  }

  /** Of the entries below `i` exactly those with a place are left, and all others. */
  ghost predicate LeftBelow(m: Book, p: Book, i: int) {
    forall id :: id in p.info <==> id in m.info && !(0 <= id < i && Unplaced(m, id))
  }

  ghost predicate PrunedInv(cfg: Config, m: Book, news: int, i: int, p: Book) {
    Counted(cfg, p, news) && PrunedFrom(cfg, m, p) && LeftBelow(m, p, i)
  }

  lemma LeftMore(m: Book, p: Book, n: Book, i: int)
    requires 0 <= i && LeftBelow(m, p, i) && (forall id :: id in p.info ==> SamePlace(m, p, id))
    requires n.info.Keys == if Unplaced(p, i) then p.info.Keys - {i} else p.info.Keys
    ensures LeftBelow(m, n, i + 1)
  {
    forall id
      ensures id in n.info <==> id in m.info && !(0 <= id < i + 1 && Unplaced(m, id))
    {
      assert id in n.info <==> id in n.info.Keys;
      assert id in p.info <==> id in p.info.Keys;
      assert id in p.info ==> SamePlace(m, p, id);
    }
  }

  /** One entry of the last loop. */
  lemma PruneStep(cfg: Config, m: Book, p: Book, id: int, news: int)
    requires 0 <= id && PrunedInv(cfg, m, news, id, p)
    ensures PrunedInv(cfg, m, news, id + 1, PrunedOne(cfg, p, id))
  {
    if Unplaced(p, id) {
      DeletedSound(cfg, p, id, news);
      PrunedMore(cfg, m, p, Deleted(cfg, p, id), id);
    }
    LeftMore(m, p, PrunedOne(cfg, p, id), id);
  }

  lemma PrunedSound(cfg: Config, m: Book, news: int, k: nat)
    requires Counted(cfg, m, news)
    ensures PrunedInv(cfg, m, news, k, Pruned(cfg, m, k))
  {
    var inv := (i: int, p: Book) => PrunedInv(cfg, m, news, i, p);
    NonePruned(cfg, m);
    forall i: nat, p: Book | PrunedInv(cfg, m, news, i, p)
      ensures PrunedInv(cfg, m, news, i + 1, PrunedOne(cfg, p, i))
    {
      PruneStep(cfg, m, p, i, news);
    }
    PrunedSteps(cfg, m, k, inv);
    assert inv(k, Pruned(cfg, m, k));
  }

  /** Pruning leaves exactly the entries that have a place. */
  ghost predicate LeftPlaced(m: Book, n: Book) {
    forall id :: id in n.info <==> id in m.info && !Unplaced(m, id)
  }

  lemma PrunedLeaves(cfg: Config, m: Book, news: nat)
    requires Counted(cfg, m, news)
    ensures LeftPlaced(m, Pruned(cfg, m, news))
  {
    PrunedSound(cfg, m, news, news);
    assert LeftBelow(m, Pruned(cfg, m, news), news);
    assert forall id :: id in m.info ==> InRandom(m, id) && 0 <= id;
  }

  lemma AllPlacedNow(cfg: Config, n: Book, news: nat)
    requires Counted(cfg, n, news) && forall j :: 0 <= j < news ==> !Unplaced(n, j)
    ensures NewOk(cfg, n, {})
  {
    forall id | id in n.info
      ensures NewEntryOk(cfg, n, {}, id)
    {
      assert NewEntryOk(cfg, n, n.info.Keys, id) && InRandom(n, id);
      assert id < news ==> !Unplaced(n, id);
    }
  }

  // ---------------------------------------------------------------------------------------------------------------
  // The index
  // ---------------------------------------------------------------------------------------------------------------

  /** Each service leads to an entry that has it. */
  ghost predicate RawIndex(m: Book) {
    && (forall id :: id in m.info ==> 0 <= id < m.idCount && m.info[id].service in m.addr)
    && (forall s :: s in m.addr ==> m.addr[s] in m.info && m.info[m.addr[s]].service == s)
  }

  lemma EnteredRaw(m: Book, e: Persisted, tried: bool)
    requires RawIndex(m) && m.idCount >= 0
    ensures RawIndex(Entered(m, e, tried)) && Entered(m, e, tried).idCount >= 0
  {
  }

  lemma {:induction false} NewRaw(entries: seq<Persisted>, n: nat)
    requires n <= |entries|
    ensures RawIndex(LoadNew(entries, n)) && LoadNew(entries, n).idCount >= 0
  {
    if n > 0 {
      NewRaw(entries, n - 1);
      EnteredRaw(LoadNew(entries, n - 1), entries[n - 1], false);
    }
  }

  lemma {:induction false} TriedRaw(cfg: Config, m: Book, entries: seq<Persisted>, k: nat)
    requires IsTable(m.vvTried, TRIED_BUCKETS) && RawIndex(m) && m.idCount >= 0 && k <= |entries|
    ensures RawIndex(LoadTried(cfg, m, entries, k)) && LoadTried(cfg, m, entries, k).idCount >= 0
  {
    if k > 0 {
      TriedRaw(cfg, m, entries, k - 1);
      EnteredRaw(LoadTried(cfg, m, entries, k - 1), entries[k - 1], true);
    }
  }

  /** No entry that has a place shares its service with another. */
  ghost predicate NoTwins(m: Book) {
    forall i, j :: i in m.info && j in m.info && i != j && !Unplaced(m, i) ==> m.info[i].service != m.info[j].service
  }

  lemma IndexHolds(cfg: Config, e: Book, n: Book)
    requires RawIndex(e) && PrunedFrom(cfg, e, n) && LeftPlaced(e, n) && RandomOk(n)
    requires KeyedByService(cfg, e) && NoTwins(e)
    ensures IndexOk(cfg, n)
  {
    forall id | id in n.info
      ensures IdIndexed(cfg, n, id)
    {
      assert InRandom(n, id);
      LeftIsIndexed(cfg, e, n, id);
    }
    forall k | k in n.addr
      ensures n.addr[k] in n.info && cfg.Key(n.info[n.addr[k]].service) == k
    {
      IndexedIsLeft(cfg, e, n, k);
    }
  }

  lemma LeftIsIndexed(cfg: Config, e: Book, n: Book, id: int)
    requires RawIndex(e) && PrunedFrom(cfg, e, n) && LeftPlaced(e, n) && id in n.info
    requires KeyedByService(cfg, e) && NoTwins(e)
    ensures var s := n.info[id].service; cfg.Key(s) == s && s in n.addr && n.addr[s] == id
  {
    var s := e.info[id].service;
    assert e.addr[s] == id;
  }

  lemma IndexedIsLeft(cfg: Config, e: Book, n: Book, k: Service)
    requires RawIndex(e) && PrunedFrom(cfg, e, n) && KeyedByService(cfg, e) && k in n.addr
    ensures n.addr[k] in n.info && cfg.Key(n.info[n.addr[k]].service) == k
  {
    var a := e.addr[k];
    assert e.info[a].service == k && !Erased(cfg, e, n, k);
  }

  lemma KeysNeeded(cfg: Config, e: Book, n: Book, id: int)
    requires RawIndex(e) && PrunedFrom(cfg, e, n) && IndexOk(cfg, n) && id in e.info
    ensures cfg.Key(e.info[id].service) == e.info[id].service
  {
    var s := e.info[id].service;
    if id in n.info {
      assert IdIndexed(cfg, n, id);
    } else if s in n.addr {
      assert n.addr[s] in n.info && e.info[e.addr[s]].service == s;
    } else {
      assert Erased(cfg, e, n, s);
      var x :| x in e.info && x !in n.info && cfg.Key(e.info[x].service) == s;
      KeyTwice(cfg, e.info[x].service);
    }
  }

  lemma KeyTwice(cfg: Config, s: Service)
    ensures cfg.Key(cfg.Key(s)) == cfg.Key(s)
  {
  }

  lemma TwinNotLeft(cfg: Config, e: Book, n: Book, i: int, j: int)
    requires PrunedFrom(cfg, e, n) && IndexOk(cfg, n) && KeyedByService(cfg, e)
    requires i in e.info && j in e.info && i != j && i in n.info
    ensures e.info[i].service != e.info[j].service
  {
    assert IdIndexed(cfg, n, i);
    if j in n.info {
      assert IdIndexed(cfg, n, j);
    } else {
      assert Erased(cfg, e, n, e.info[j].service);
    }
  }

  /** After pruning the index is right exactly under these two conditions on what was there before. */
  lemma IndexExact(cfg: Config, e: Book, n: Book)
    requires RawIndex(e) && PrunedFrom(cfg, e, n) && LeftPlaced(e, n) && RandomOk(n)
    ensures IndexOk(cfg, n) <==> KeyedByService(cfg, e) && NoTwins(e)
  {
    if KeyedByService(cfg, e) && NoTwins(e) {
      IndexHolds(cfg, e, n);
    }
    if IndexOk(cfg, n) {
      forall id | id in e.info
        ensures cfg.Key(e.info[id].service) == e.info[id].service
      {
        KeysNeeded(cfg, e, n, id);
      }
      forall i, j | i in e.info && j in e.info && i != j && !Unplaced(e, i)
        ensures e.info[i].service != e.info[j].service
      {
        TwinNotLeft(cfg, e, n, i, j);
      }
    }
  }

  // ---------------------------------------------------------------------------------------------------------------
  // Any file
  // ---------------------------------------------------------------------------------------------------------------

  /** What was placed, before pruning. */
  lemma PlacedSound(cfg: Config, f: File, restore: bool)
    requires 0 <= f.newCount == |f.newEntries| && f.triedCount == |f.triedEntries|
    ensures Counted(cfg, PlacedOf(cfg, f, restore), f.newCount)
    ensures SameServices(EnteredOf(cfg, f), PlacedOf(cfg, f, restore))
  {
    TriedSound(cfg, f, |f.triedEntries|);
    PairsNew(f.buckets, |f.buckets|, f.newCount);
    AllRestoredSound(cfg, EnteredOf(cfg, f), restore, Pairs(f.buckets, |f.buckets|, f.newCount), f.newCount);
  }

  lemma EnteredRawIndex(cfg: Config, f: File)
    requires 0 <= f.newCount == |f.newEntries|
    ensures RawIndex(EnteredOf(cfg, f))
  {
    NewRaw(f.newEntries, f.newCount);
    TriedRaw(cfg, StartOf(f), f.triedEntries, |f.triedEntries|);
  }

  /**
   Whatever file is accepted: no new entry is left without a place, and both tables, the counters and the random list
   are right.
   */
  lemma LoadedTables(cfgOf: int -> Config, checksum: nat, f: File)
    requires Load(cfgOf, checksum, f).Some?
    ensures var n := Load(cfgOf, checksum, f).value;
      RandomOk(n) && TriedOk(cfgOf(f.key), n) && NewOk(cfgOf(f.key), n, {}) && CountsOk(n, 0)
  {
    var cfg, restore := cfgOf(f.key), SameBucketing(f, checksum);
    var placed := PlacedOf(cfg, f, restore);
    PlacedSound(cfg, f, restore);
    PrunedSound(cfg, placed, f.newCount, f.newCount);
    PrunedPlaced(cfg, placed, f.newCount);
    AllPlacedNow(cfg, Pruned(cfg, placed, f.newCount), f.newCount);
  }

  /**
   And the manager is consistent exactly if every service read is its own key and, when the places have been given out,
   no entry that has one shares its service with another.
   */
  lemma LoadedConsistent(cfgOf: int -> Config, checksum: nat, f: File)
    requires Load(cfgOf, checksum, f).Some?
    ensures 0 <= f.newCount <= |f.newEntries|
    ensures var cfg := cfgOf(f.key);
      Consistent(cfg, Load(cfgOf, checksum, f).value) <==>
        KeyedByService(cfg, EnteredOf(cfg, f)) && NoTwins(PlacedOf(cfg, f, SameBucketing(f, checksum)))
  {
    var cfg, restore := cfgOf(f.key), SameBucketing(f, checksum);
    var placed := PlacedOf(cfg, f, restore);
    LoadedTables(cfgOf, checksum, f);
    EnteredRawIndex(cfg, f);
    PlacedSound(cfg, f, restore);
    PrunedSound(cfg, placed, f.newCount, f.newCount);
    PrunedLeaves(cfg, placed, f.newCount);
    IndexExact(cfg, placed, Pruned(cfg, placed, f.newCount));
  }

  // ---------------------------------------------------------------------------------------------------------------
  // Services listed once, and twice
  // ---------------------------------------------------------------------------------------------------------------

  /** The entries have different services, all of them from the list. */
  ghost predicate FromList(m: Book, es: seq<Persisted>) {
    && (forall id :: id in m.info ==>
          0 <= id < m.idCount && exists i :: 0 <= i < |es| && m.info[id].service == es[i].service)
    && (forall i, j :: i in m.info && j in m.info && i != j ==> m.info[i].service != m.info[j].service)
  }

  predicate DistinctServices(es: seq<Persisted>) {
    forall i, j :: 0 <= i < j < |es| ==> es[i].service != es[j].service
  }

  lemma MoreList(m: Book, es: seq<Persisted>, e: Persisted)
    requires FromList(m, es)
    ensures FromList(m, es + [e])
  {
    forall id | id in m.info
      ensures exists i :: 0 <= i < |es + [e]| && m.info[id].service == (es + [e])[i].service
    {
      var i :| 0 <= i < |es| && m.info[id].service == es[i].service;
      assert (es + [e])[i] == es[i];
    }
  }

  lemma EnteredFromList(m: Book, es: seq<Persisted>, e: Persisted, tried: bool)
    requires FromList(m, es) && DistinctServices(es + [e]) && m.idCount >= 0
    ensures FromList(Entered(m, e, tried), es + [e])
  {
    MoreList(m, es, e);
    assert (es + [e])[|es|] == e;
    forall id | id in m.info
      ensures m.info[id].service != e.service
    {
      var i :| 0 <= i < |es| && m.info[id].service == es[i].service;
      assert (es + [e])[i] == es[i];
    }
  }

  lemma {:induction false} NewFromList(es: seq<Persisted>, n: nat)
    requires n <= |es| && DistinctServices(es)
    ensures FromList(LoadNew(es, n), es[..n]) && LoadNew(es, n).idCount >= 0
  {
    if n > 0 {
      NewFromList(es, n - 1);
      assert es[..n] == es[..n - 1] + [es[n - 1]];
      EnteredFromList(LoadNew(es, n - 1), es[..n - 1], es[n - 1], false);
    }
  }

  lemma {:induction false} TriedFromList(cfg: Config, m: Book, es: seq<Persisted>, tries: seq<Persisted>, k: nat)
    requires IsTable(m.vvTried, TRIED_BUCKETS) && k <= |tries| && DistinctServices(es + tries)
    requires FromList(m, es) && m.idCount >= 0
    ensures FromList(LoadTried(cfg, m, tries, k), es + tries[..k]) && LoadTried(cfg, m, tries, k).idCount >= 0
  {
    if k == 0 {
      assert es + tries[..0] == es;
    } else {
      TriedFromList(cfg, m, es, tries, k - 1);
      var r, so := LoadTried(cfg, m, tries, k - 1), es + tries[..k - 1];
      assert es + tries[..k] == so + [tries[k - 1]];
      assert so + [tries[k - 1]] == (es + tries)[..|es| + k];
      EnteredFromList(r, so, tries[k - 1], true);
      MoreList(r, so, tries[k - 1]);
    }
  }

  /** It is enough that the file lists no service twice, and only services that are their own keys. */
  lemma DistinctConsistent(cfgOf: int -> Config, checksum: nat, f: File)
    requires Load(cfgOf, checksum, f).Some? && DistinctServices(f.newEntries + f.triedEntries)
    requires forall e :: e in f.newEntries + f.triedEntries ==> cfgOf(f.key).Key(e.service) == e.service
    ensures Consistent(cfgOf(f.key), Load(cfgOf, checksum, f).value)
  {
    var cfg, es := cfgOf(f.key), f.newEntries + f.triedEntries;
    assert forall i, j :: 0 <= i < j < |f.newEntries| ==> es[i] == f.newEntries[i] && es[j] == f.newEntries[j];
    NewFromList(f.newEntries, f.newCount);
    assert f.newEntries[..f.newCount] == f.newEntries && f.triedEntries[..|f.triedEntries|] == f.triedEntries;
    TriedFromList(cfg, StartOf(f), f.newEntries, f.triedEntries, |f.triedEntries|);
    forall id | id in EnteredOf(cfg, f).info
      ensures cfg.Key(EnteredOf(cfg, f).info[id].service) == EnteredOf(cfg, f).info[id].service
    {
      var i :| 0 <= i < |es| && EnteredOf(cfg, f).info[id].service == es[i].service;
      assert es[i] in es;
    }
    PlacedSound(cfg, f, SameBucketing(f, checksum));
    LoadedConsistent(cfgOf, checksum, f);
  }

  /** A file that lists one entry twice, and gives a place to the first of the two. */
  function Doubled(e: Persisted, key: int, checksum: nat): File {
    File(3, 32, key, 2, 0, Flip30(1), [e, e], [], [[0]], checksum)
  }

  lemma DoubledPlaced(cfg: Config, e: Persisted, key: int, checksum: nat)
    ensures var p := PlacedOf(cfg, Doubled(e, key, checksum), false);
      && 0 in p.info && 1 in p.info && !Unplaced(p, 0)
      && p.info[0].service == p.info[1].service == e.service
  {
    var f := Doubled(e, key, checksum);
    LoadNewStep(f.newEntries, 1);
    LoadNewStep(f.newEntries, 2);
    var m := EnteredOf(cfg, f);
    assert m == StartOf(f);
    DoubledPairs();
    var pairs := [(0, 0)];
    assert pairs[..|pairs| - 1] == [] && pairs[|pairs| - 1] == (0, 0);
    assert RestoreAll(cfg, m, false, pairs) == Restored(cfg, RestoreAll(cfg, m, false, []), false, 0, 0);
  }

  lemma LoadNewStep(es: seq<Persisted>, n: nat)
    requires 0 < n <= |es|
    ensures LoadNew(es, n) == Entered(LoadNew(es, n - 1), es[n - 1], false)
  {
  }

  lemma DoubledPairs()
    ensures Pairs([[0]], 1, 2) == [(0, 0)]
  {
    assert [0][..0] == [];
    assert RowPairs([0], 0, 2) == RowPairs([], 0, 2) + [(0, 0)];
    assert Pairs([[0]], 1, 2) == Pairs([[0]], 0, 2) + RowPairs([0], 0, 2);
  }

  /** It is accepted, and the manager read from it is not consistent. */
  lemma TwiceListed(cfgOf: int -> Config, e: Persisted, key: int, checksum: nat)
    ensures var r := Load(cfgOf, checksum, Doubled(e, key, checksum));
      r.Some? && !Consistent(cfgOf(key), r.value)
  {
    var f := Doubled(e, key, checksum);
    assert BucketCount(f) == 1;
    DoubledPlaced(cfgOf(key), e, key, checksum);
    LoadedConsistent(cfgOf, checksum, f);
  }
}
