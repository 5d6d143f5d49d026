/**
 The address manager on disk: what is written, what reading makes of it, and that reading gives back what was written.

 A file is the record of its fields; an entry is one field. Hashes under a key, for the map of autonomous systems in
 use, are given by `cfgOf`. The order in which the entries are walked is any order.
 */
module AddrFile {
  import opened Wrappers
  import opened AddrBook

  const TWO_30 := 0x4000_0000

  /** The part of an entry that is written. */
  datatype Persisted = Persisted(service: Service, source: NetAddr, services: set<nat>, time: int, lastSuccess: int,
                                 attempts: int)

  datatype File = File(format: nat, keySize: nat, key: int, newCount: int, triedCount: int, bucketWord: nat,
                       newEntries: seq<Persisted>, triedEntries: seq<Persisted>, buckets: seq<seq<int>>, checksum: nat)

  function Persist(i: Info): Persisted {
    Persisted(i.service, i.source, i.stats.services, i.stats.time, i.stats.lastSuccess, i.stats.attempts)
  }

  function Revive(e: Persisted, at: int, tried: bool): Info {
    Info(e.service, e.source, Stats(e.services, e.time, 0, 0, e.lastSuccess, e.attempts), 0, tried, at)
  }

  /** Exclusive or with bit 30. */
  function Flip30(x: nat): nat {
    if x / TWO_30 % 2 == 0 then x + TWO_30 else x - TWO_30
  }

  // ---------------------------------------------------------------------------------------------------------------
  // Writing
  // ---------------------------------------------------------------------------------------------------------------

  /** The ids, in the order given, that are referenced in the new table. */
  function NewOrder(info: map<int, Info>, order: seq<int>): (r: seq<int>)
    requires forall i :: 0 <= i < |order| ==> order[i] in info
    ensures forall i :: 0 <= i < |r| ==> r[i] in info
  {
    if order == [] then [] else
    var last := order[|order| - 1];
    NewOrder(info, order[..|order| - 1]) + if info[last].refCount != 0 then [last] else []
  }

  function TriedOrder(info: map<int, Info>, order: seq<int>): (r: seq<int>)
    requires forall i :: 0 <= i < |order| ==> order[i] in info
    ensures forall i :: 0 <= i < |r| ==> r[i] in info
  {
    if order == [] then [] else
    var last := order[|order| - 1];
    TriedOrder(info, order[..|order| - 1]) + if info[last].inTried then [last] else []
  }

  function Index(ids: seq<int>, id: int): (i: nat)
    requires id in ids
    ensures i < |ids| && ids[i] == id
  {
    if ids[0] == id then 0 else 1 + Index(ids[1..], id)
  }

  function Entries(info: map<int, Info>, ids: seq<int>): (es: seq<Persisted>)
    requires forall i :: 0 <= i < |ids| ==> ids[i] in info
    ensures |es| == |ids|
  {
    seq(|ids|, i requires 0 <= i < |ids| => Persist(info[ids[i]]))
  }

  /** The numbers, in the list of new entries, of those in the first `n` places of a bucket. */
  function BucketList(row: seq<int>, ids: seq<int>, n: nat): seq<int>
    requires n <= |row|
  {
    if n == 0 then [] else
    BucketList(row, ids, n - 1) + if row[n - 1] != -1 && row[n - 1] in ids then [Index(ids, row[n - 1])] else []
  }

  function Buckets(t: Table, ids: seq<int>): (r: seq<seq<int>>)
    ensures |r| == |t|
  {
    seq(|t|, b requires 0 <= b < |t| => BucketList(t[b], ids, |t[b]|))
  }

  function Serialized(m: Book, order: seq<int>, key: int, checksum: nat): File
    requires forall i :: 0 <= i < |order| ==> order[i] in m.info
  {
    File(3, 32, key, m.newCount, m.triedCount, Flip30(NEW_BUCKETS), Entries(m.info, NewOrder(m.info, order)),
         Entries(m.info, TriedOrder(m.info, order)), Buckets(m.vvNew, NewOrder(m.info, order)), checksum)
  }

  lemma {:induction false} OrderMembers(info: map<int, Info>, order: seq<int>)
    requires forall i :: 0 <= i < |order| ==> order[i] in info
    ensures forall id :: id in NewOrder(info, order) <==> id in order && info[id].refCount != 0
    ensures forall id :: id in TriedOrder(info, order) <==> id in order && info[id].inTried
    decreases |order|
  {
    if order != [] {
      OrderMembers(info, order[..|order| - 1]);
      assert order == order[..|order| - 1] + [order[|order| - 1]];
    }
  }

  // ---------------------------------------------------------------------------------------------------------------
  // Reading
  // ---------------------------------------------------------------------------------------------------------------

  /** An entry read, under the next id; services are looked up as they are, whatever the port. */
  function Entered(m: Book, e: Persisted, tried: bool): Book {
    var id := m.idCount;
    m.(idCount := id + 1, info := m.info[id := Revive(e, |m.random|, tried)], addr := m.addr[e.service := id],
       random := m.random + [id])
  }

  function LoadNew(entries: seq<Persisted>, n: nat): (m: Book)
    requires n <= |entries|
    ensures IsTable(m.vvTried, TRIED_BUCKETS) && IsTable(m.vvNew, NEW_BUCKETS)
  {
    if n == 0 then EmptyBook() else Entered(LoadNew(entries, n - 1), entries[n - 1], false)
  }

  /** A tried entry is lost when its place is taken. */
  function TriedEntered(cfg: Config, m: Book, e: Persisted): (r: Book)
    requires IsTable(m.vvTried, TRIED_BUCKETS)
    ensures IsTable(r.vvTried, TRIED_BUCKETS) && r.vvNew == m.vvNew
  {
    var b, p := cfg.triedBucket(e.service), cfg.TriedPosition(e.service);
    if m.vvTried[b][p] != -1 then m.(triedCount := m.triedCount - 1)
    else Entered(m, e, true).(vvTried := Put(m.vvTried, b, p, m.idCount))
  }

  function LoadTried(cfg: Config, m: Book, entries: seq<Persisted>, n: nat): (r: Book)
    requires IsTable(m.vvTried, TRIED_BUCKETS) && n <= |entries|
    ensures IsTable(r.vvTried, TRIED_BUCKETS) && r.vvNew == m.vvNew
  {
    if n == 0 then m else TriedEntered(cfg, LoadTried(cfg, m, entries, n - 1), entries[n - 1])
  }

  /** The bucket entries with a number that stands for a new entry. */
  function Pairs(buckets: seq<seq<int>>, b: nat, newCount: int): seq<(int, int)>
    requires b <= |buckets|
  {
    if b == 0 then [] else Pairs(buckets, b - 1, newCount) + RowPairs(buckets[b - 1], b - 1, newCount)
  }

  function RowPairs(row: seq<int>, b: int, newCount: int): seq<(int, int)> {
    if row == [] then [] else
    var last := row[|row| - 1];
    RowPairs(row[..|row| - 1], b, newCount) + if 0 <= last < newCount then [(b, last)] else []
  }

  /** One bucket entry: back to its own place, or else to the entry's home if that is empty. */
  function Restored(cfg: Config, m: Book, restore: bool, b: int, id: int): (r: Book)
    requires IsTable(m.vvNew, NEW_BUCKETS)
    ensures IsTable(r.vvNew, NEW_BUCKETS)
  {
    if id !in m.info || m.info[id].refCount >= MAX_REFS then m else
    var s := m.info[id].service;
    var p := cfg.position(s, true, b);
    if restore && 0 <= b < NEW_BUCKETS && m.vvNew[b][p] == -1 then Referenced(m, b, p, id) else
    var home := cfg.newBucket(s, m.info[id].source);
    var q := cfg.position(s, true, home);
    if m.vvNew[home][q] == -1 then Referenced(m, home, q, id) else m
  }

  function RestoreAll(cfg: Config, m: Book, restore: bool, pairs: seq<(int, int)>): (r: Book)
    requires IsTable(m.vvNew, NEW_BUCKETS)
    ensures IsTable(r.vvNew, NEW_BUCKETS)
  {
    if pairs == [] then m else
    var (b, id) := pairs[|pairs| - 1];
    Restored(cfg, RestoreAll(cfg, m, restore, pairs[..|pairs| - 1]), restore, b, id)
  }

  predicate Unplaced(m: Book, id: int) {
    id in m.info && !m.info[id].inTried && m.info[id].refCount == 0
  }

  function PrunedOne(cfg: Config, m: Book, id: int): Book {
    if Unplaced(m, id) && InRandom(m, id) && m.random[|m.random| - 1] in m.info then Deleted(cfg, m, id) else m
  }

  /** The ids below `n` that found no place are deleted. */
  function Pruned(cfg: Config, m: Book, n: nat): Book {
    if n == 0 then m else PrunedOne(cfg, Pruned(cfg, m, n - 1), n - 1)
  }

  /** The number of buckets, as an unsigned word. */
  function BucketCount(f: File): nat {
    if f.format >= 1 then Flip30(f.bucketWord) else f.bucketWord
  }

  /** The number of buckets read: the word is signed, and of a negative number none is. */
  function Rows(f: File): nat {
    if BucketCount(f) < 0x8000_0000 then BucketCount(f) else 0
  }

  /** The buckets, and the map of autonomous systems, are the ones that the file was written with. */
  predicate SameBucketing(f: File, checksum: nat) {
    BucketCount(f) == NEW_BUCKETS && (if f.format >= 2 then f.checksum else 0) == checksum
  }

  /** The managers that reading passes through. */
  function StartOf(f: File): Book
    requires 0 <= f.newCount <= |f.newEntries|
  {
    LoadNew(f.newEntries, f.newCount).(newCount := f.newCount, triedCount := f.triedCount)
  }

  function EnteredOf(cfg: Config, f: File): Book
    requires 0 <= f.newCount <= |f.newEntries|
  {
    LoadTried(cfg, StartOf(f), f.triedEntries, |f.triedEntries|)
  }

  function PlacedOf(cfg: Config, f: File, restore: bool): Book
    requires 0 <= f.newCount <= |f.newEntries|
  {
    RestoreAll(cfg, EnteredOf(cfg, f), restore, Pairs(f.buckets, |f.buckets|, f.newCount))
  }

  /** The manager read from a file, or nothing if the file is refused. */
  function Load(cfgOf: int -> Config, checksum: nat, f: File): Option<Book> {
    if f.format > 3 || f.keySize != 32 then None
    else if !(0 <= f.newCount <= NEW_BUCKETS * BUCKET_SIZE) || !(0 <= f.triedCount <= TRIED_BUCKETS * BUCKET_SIZE)
      || f.newCount != |f.newEntries| || f.triedCount != |f.triedEntries| || |f.buckets| != Rows(f) then None
    else Some(Pruned(cfgOf(f.key), PlacedOf(cfgOf(f.key), f, SameBucketing(f, checksum)), f.newCount))
  }

  // ---------------------------------------------------------------------------------------------------------------
  // Numbering
  // ---------------------------------------------------------------------------------------------------------------

  ghost predicate Distinct(ids: seq<int>) {
    forall i, j :: 0 <= i < j < |ids| ==> ids[i] != ids[j]
  }

  /** A walk over the entries. */
  ghost predicate Walks(m: Book, order: seq<int>) {
    && Distinct(order) && (forall id :: id in order <==> id in m.info)
    && (forall i :: 0 <= i < |order| ==> order[i] in m.info)
  }

  lemma IndexUnique(ids: seq<int>, j: nat)
    requires Distinct(ids) && j < |ids|
    ensures Index(ids, ids[j]) == j
  {
  }

  lemma {:induction false} OrdersDistinct(info: map<int, Info>, order: seq<int>)
    requires (forall i :: 0 <= i < |order| ==> order[i] in info) && Distinct(order)
    ensures Distinct(NewOrder(info, order)) && Distinct(TriedOrder(info, order))
    decreases |order|
  {
    if order != [] {
      var rest := order[..|order| - 1];
      OrdersDistinct(info, rest);
      OrderMembers(info, rest);
      assert order[|order| - 1] !in rest;
      SnocDistinct(NewOrder(info, rest), order[|order| - 1]);
      SnocDistinct(TriedOrder(info, rest), order[|order| - 1]);
    }
  }

  lemma SnocDistinct(ids: seq<int>, id: int)
    requires Distinct(ids)
    ensures id !in ids ==> Distinct(ids + [id])
  {
  }

  /** The ids as they are numbered when read back: first the new entries, then the tried ones. */
  function Numbering(m: Book, order: seq<int>): (r: seq<int>)
    requires forall i :: 0 <= i < |order| ==> order[i] in m.info
    ensures forall i :: 0 <= i < |r| ==> r[i] in m.info
  {
    NewOrder(m.info, order) + TriedOrder(m.info, order)
  }

  ghost function Renumbered(ids: seq<int>, id: int): int {
    if id in ids then Index(ids, id) else -1
  }

  lemma OrdersExact(cfg: Config, m: Book, order: seq<int>)
    requires Consistent(cfg, m) && Walks(m, order)
    ensures forall id :: id in NewIds(m) <==> id in NewOrder(m.info, order)
    ensures forall id :: id in TriedIds(m) <==> id in TriedOrder(m.info, order)
  {
    OrderMembers(m.info, order);
    forall id | id in m.info
      ensures m.info[id].inTried <==> m.info[id].refCount == 0
    {
      assert TriedEntryOk(cfg, m, id) && NewEntryOk(cfg, m, {}, id);
    }
  }

  lemma NumberingSizes(cfg: Config, m: Book, order: seq<int>)
    requires Consistent(cfg, m) && Walks(m, order)
    ensures |NewOrder(m.info, order)| == m.newCount && |TriedOrder(m.info, order)| == m.triedCount
  {
    OrdersDistinct(m.info, order);
    OrdersExact(cfg, m, order);
    AllIn(NewOrder(m.info, order), NewIds(m));
    AllIn(TriedOrder(m.info, order), TriedIds(m));
  }

  lemma JoinDistinct(a: seq<int>, b: seq<int>)
    requires Distinct(a) && Distinct(b) && forall x :: x in a ==> x !in b
    ensures Distinct(a + b)
  {
    var c := a + b;
    forall i, j | 0 <= i < j < |c|
      ensures c[i] != c[j]
    {
      if i < |a| && j >= |a| {
        assert a[i] in a && b[j - |a|] in b;
      }
    }
  }

  /** Each entry gets one number. */
  lemma NumberingDistinct(cfg: Config, m: Book, order: seq<int>)
    requires Consistent(cfg, m) && Walks(m, order)
    ensures Distinct(Numbering(m, order)) && forall id :: id in Numbering(m, order) <==> id in m.info
  {
    var news, tries := NewOrder(m.info, order), TriedOrder(m.info, order);
    OrdersDistinct(m.info, order);
    OrdersExact(cfg, m, order);
    forall id | id in news
      ensures id !in tries
    {
      assert id in NewIds(m);
    }
    JoinDistinct(news, tries);
    forall id | id in m.info
      ensures id in news + tries
    {
      assert id in NewIds(m) || id in TriedIds(m);
    }
  }

  /** The new entries get the first numbers. */
  lemma NumberingSplit(cfg: Config, m: Book, order: seq<int>, j: nat)
    requires Consistent(cfg, m) && Walks(m, order) && j < |Numbering(m, order)|
    ensures m.info[Numbering(m, order)[j]].inTried <==> j >= m.newCount
  {
    NumberingSizes(cfg, m, order);
    OrdersExact(cfg, m, order);
    var id := Numbering(m, order)[j];
    if j < m.newCount {
      assert id in NewOrder(m.info, order);
      assert id in NewIds(m);
    } else {
      assert id in TriedOrder(m.info, order);
      assert id in TriedIds(m);
    }
  }

  // ---------------------------------------------------------------------------------------------------------------
  // Entries come back
  // ---------------------------------------------------------------------------------------------------------------

  /** A consistent manager with its entries numbered, the new ones first. */
  ghost predicate Numbered(cfg: Config, m: Book, ids: seq<int>) {
    && Consistent(cfg, m) && Distinct(ids) && 0 <= m.newCount <= |ids|
    && (forall id :: id in ids <==> id in m.info)
    && (forall j :: 0 <= j < |ids| ==> ids[j] in m.info && (m.info[ids[j]].inTried <==> j >= m.newCount))
  }

  lemma ServicesDiffer(cfg: Config, m: Book, ids: seq<int>, i: nat, j: nat)
    requires Numbered(cfg, m, ids) && i < j < |ids|
    ensures m.info[ids[i]].service != m.info[ids[j]].service
  {
    assert IdIndexed(cfg, m, ids[i]) && IdIndexed(cfg, m, ids[j]);
  }

  /** The entry with a number, as it is read. */
  ghost function EntryOf(m: Book, ids: seq<int>, j: int): Info
    requires 0 <= j < |ids| && ids[j] in m.info
  {
    Revive(Persist(m.info[ids[j]]), j, j >= m.newCount)
  }

  /** The first `k` entries have been read. */
  ghost predicate Loaded(m: Book, ids: seq<int>, k: nat, n: Book)
    requires k <= |ids| && forall j :: 0 <= j < |ids| ==> ids[j] in m.info
  {
    && n.idCount == k && |n.random| == k
    && (forall j :: 0 <= j < k ==> n.random[j] == j && j in n.info && n.info[j] == EntryOf(m, ids, j))
    && (forall j :: j in n.info ==> 0 <= j < k)
    && (forall j :: 0 <= j < k ==> m.info[ids[j]].service in n.addr && n.addr[m.info[ids[j]].service] == j)
    && (forall s :: s in n.addr ==> 0 <= n.addr[s] < k && m.info[ids[n.addr[s]]].service == s)
  }

  lemma EnterKeeps(cfg: Config, m: Book, ids: seq<int>, k: nat, n: Book)
    requires Numbered(cfg, m, ids) && k < |ids| && Loaded(m, ids, k, n)
    ensures Loaded(m, ids, k + 1, Entered(n, Persist(m.info[ids[k]]), k >= m.newCount))
  {
    var r := Entered(n, Persist(m.info[ids[k]]), k >= m.newCount);
    assert r.info[k] == EntryOf(m, ids, k);
    EnterAddr(cfg, m, ids, k, n.addr);
  }

  lemma EnterAddr(cfg: Config, m: Book, ids: seq<int>, k: nat, addr: map<Service, int>)
    requires Numbered(cfg, m, ids) && k < |ids|
    requires forall j :: 0 <= j < k ==> m.info[ids[j]].service in addr && addr[m.info[ids[j]].service] == j
    ensures var r := addr[m.info[ids[k]].service := k];
      forall j :: 0 <= j < k + 1 ==> m.info[ids[j]].service in r && r[m.info[ids[j]].service] == j
  {
    forall j | 0 <= j < k
      ensures m.info[ids[j]].service != m.info[ids[k]].service
    {
      ServicesDiffer(cfg, m, ids, j, k);
    }
  }

  lemma {:induction false} NewComeBack(cfg: Config, m: Book, ids: seq<int>, entries: seq<Persisted>, k: nat)
    requires Numbered(cfg, m, ids) && |entries| == m.newCount && k <= |entries|
    requires forall j :: 0 <= j < |entries| ==> entries[j] == Persist(m.info[ids[j]])
    ensures var n := LoadNew(entries, k);
      Loaded(m, ids, k, n) && n.vvTried == EmptyTable(TRIED_BUCKETS) && n.vvNew == EmptyTable(NEW_BUCKETS)
  {
    if k > 0 {
      NewComeBack(cfg, m, ids, entries, k - 1);
      EnterKeeps(cfg, m, ids, k - 1, LoadNew(entries, k - 1));
    }
  }

  /** A table under the new numbers, as far as the first `k` entries fill it. */
  ghost predicate TriedUpTo(m: Book, ids: seq<int>, k: nat, t: Table)
    requires IsTable(m.vvTried, TRIED_BUCKETS)
  {
    && IsTable(t, TRIED_BUCKETS)
    && (forall b, p :: 0 <= b < TRIED_BUCKETS && 0 <= p < BUCKET_SIZE ==>
          t[b][p] == if Renumbered(ids, m.vvTried[b][p]) < k then Renumbered(ids, m.vvTried[b][p]) else -1)
  }

  lemma EmptyUpTo(cfg: Config, m: Book, ids: seq<int>)
    requires Numbered(cfg, m, ids)
    ensures TriedUpTo(m, ids, m.newCount, EmptyTable(TRIED_BUCKETS))
  {
    forall b, p | 0 <= b < TRIED_BUCKETS && 0 <= p < BUCKET_SIZE
      ensures Renumbered(ids, m.vvTried[b][p]) == -1 || Renumbered(ids, m.vvTried[b][p]) >= m.newCount
    {
      assert TriedPlaceOk(cfg, m, b, p);
      var id := m.vvTried[b][p];
      if id in ids {
        assert IdIndexed(cfg, m, id);
      }
    }
  }

  lemma TriedTableStep(cfg: Config, m: Book, ids: seq<int>, k: nat, t: Table)
    requires Numbered(cfg, m, ids) && m.newCount <= k < |ids| && TriedUpTo(m, ids, k, t)
    ensures var s := m.info[ids[k]].service;
      && t[cfg.triedBucket(s)][cfg.TriedPosition(s)] == -1
      && TriedUpTo(m, ids, k + 1, Put(t, cfg.triedBucket(s), cfg.TriedPosition(s), k))
  {
    var id := ids[k];
    var s := m.info[id].service;
    assert TriedEntryOk(cfg, m, id);
    IndexUnique(ids, k);
    var r := Put(t, cfg.triedBucket(s), cfg.TriedPosition(s), k);
    forall c, q | 0 <= c < TRIED_BUCKETS && 0 <= q < BUCKET_SIZE
      ensures r[c][q] == if Renumbered(ids, m.vvTried[c][q]) < k + 1 then Renumbered(ids, m.vvTried[c][q]) else -1
    {
      assert TriedPlaceOk(cfg, m, c, q);
    }
  }

  /** From `n` on, tried entries have been read up to the number `k`, and none was lost. */
  ghost predicate TriedRead(m: Book, ids: seq<int>, k: nat, n: Book, r: Book)
    requires IsTable(m.vvTried, TRIED_BUCKETS) && k <= |ids| && forall j :: 0 <= j < |ids| ==> ids[j] in m.info
  {
    && Loaded(m, ids, k, r) && TriedUpTo(m, ids, k, r.vvTried)
    && r.vvNew == n.vvNew && r.newCount == n.newCount && r.triedCount == n.triedCount
  }

  /** The next tried entry finds its place empty. */
  lemma TriedStep(cfg: Config, m: Book, ids: seq<int>, k: nat, n: Book, r: Book)
    requires Numbered(cfg, m, ids) && m.newCount <= k < |ids| && TriedRead(m, ids, k, n, r)
    ensures TriedRead(m, ids, k + 1, n, TriedEntered(cfg, r, Persist(m.info[ids[k]])))
  {
    TriedTableStep(cfg, m, ids, k, r.vvTried);
    EnterKeeps(cfg, m, ids, k, r);
  }

  /** What every tried entry keeps holds at the end. */
  lemma {:induction false} TriedSteps(cfg: Config, n: Book, entries: seq<Persisted>, k: nat, inv: (int, Book) -> bool)
    requires IsTable(n.vvTried, TRIED_BUCKETS) && k <= |entries| && inv(0, n)
    requires forall i: nat, r: Book :: i < |entries| && IsTable(r.vvTried, TRIED_BUCKETS) && inv(i, r) ==>
      inv(i + 1, TriedEntered(cfg, r, entries[i]))
    ensures inv(k, LoadTried(cfg, n, entries, k))
  {
    if k > 0 {
      TriedSteps(cfg, n, entries, k - 1, inv);
      assert inv(k - 1, LoadTried(cfg, n, entries, k - 1));
    }
  }

  ghost predicate TriedInv(m: Book, ids: seq<int>, n: Book, i: int, r: Book) {
    && IsTable(m.vvTried, TRIED_BUCKETS) && (forall j :: 0 <= j < |ids| ==> ids[j] in m.info)
    && 0 <= m.newCount <= m.newCount + i <= |ids| && TriedRead(m, ids, m.newCount + i, n, r)
  }

  lemma TriedInvStep(cfg: Config, m: Book, ids: seq<int>, n: Book, i: int, r: Book)
    requires Numbered(cfg, m, ids) && TriedInv(m, ids, n, i, r) && m.newCount + i < |ids|
    ensures TriedInv(m, ids, n, i + 1, TriedEntered(cfg, r, Persist(m.info[ids[m.newCount + i]])))
  {
    var k := m.newCount + i;
    TriedStep(cfg, m, ids, k, n, r);
    assert k + 1 == m.newCount + (i + 1);
  }

  lemma TriedInvSteps(cfg: Config, m: Book, ids: seq<int>, n: Book, entries: seq<Persisted>)
    requires Numbered(cfg, m, ids) && |entries| == |ids| - m.newCount
    requires forall j :: 0 <= j < |entries| ==> entries[j] == Persist(m.info[ids[m.newCount + j]])
    ensures forall i: nat, r: Book ::
      i < |entries| && IsTable(r.vvTried, TRIED_BUCKETS) && TriedInv(m, ids, n, i, r) ==>
      TriedInv(m, ids, n, i + 1, TriedEntered(cfg, r, entries[i]))
  {
    forall i: nat, r: Book | i < |entries| && IsTable(r.vvTried, TRIED_BUCKETS) && TriedInv(m, ids, n, i, r)
      ensures TriedInv(m, ids, n, i + 1, TriedEntered(cfg, r, entries[i]))
    {
      TriedInvStep(cfg, m, ids, n, i, r);
    }
  }

  lemma TriedComeBack(cfg: Config, m: Book, ids: seq<int>, n: Book, entries: seq<Persisted>)
    requires Numbered(cfg, m, ids) && |entries| == |ids| - m.newCount
    requires forall j :: 0 <= j < |entries| ==> entries[j] == Persist(m.info[ids[m.newCount + j]])
    requires IsTable(n.vvTried, TRIED_BUCKETS) && TriedInv(m, ids, n, 0, n)
    ensures TriedInv(m, ids, n, |entries|, LoadTried(cfg, n, entries, |entries|))
  {
    var inv := (i: int, r: Book) => TriedInv(m, ids, n, i, r);
    TriedInvSteps(cfg, m, ids, n, entries);
    TriedSteps(cfg, n, entries, |entries|, inv);
    assert inv(|entries|, LoadTried(cfg, n, entries, |entries|));
  }

  // ---------------------------------------------------------------------------------------------------------------
  // Places come back
  // ---------------------------------------------------------------------------------------------------------------

  /** The references of an entry in the buckets before `b` and the places before `p` of bucket `b`. */
  ghost function PartRefs(cfg: Config, m: Book, id: int, b: nat, p: nat): nat
    requires IsTable(m.vvNew, NEW_BUCKETS) && b <= NEW_BUCKETS && id in m.info
  {
    var s := m.info[id].service;
    Refs(cfg, m.vvNew, s, id, b)
    + if b < NEW_BUCKETS && cfg.position(s, true, b) < p && m.vvNew[b][cfg.position(s, true, b)] == id then 1 else 0
  }

  /** The new table under the new numbers, as far as the places before the `p`-th of bucket `b`. */
  ghost predicate NewUpTo(m: Book, ids: seq<int>, b: nat, p: nat, t: Table)
    requires IsTable(m.vvNew, NEW_BUCKETS)
  {
    && IsTable(t, NEW_BUCKETS)
    && (forall c, q :: 0 <= c < NEW_BUCKETS && 0 <= q < BUCKET_SIZE ==>
          t[c][q] == if c < b || (c == b && q < p) then Renumbered(ids, m.vvNew[c][q]) else -1)
  }

  ghost predicate CountsUpTo(cfg: Config, m: Book, ids: seq<int>, b: nat, p: nat, info: map<int, Info>)
    requires IsTable(m.vvNew, NEW_BUCKETS) && b <= NEW_BUCKETS && forall j :: 0 <= j < |ids| ==> ids[j] in m.info
  {
    && (forall j :: j in info ==> 0 <= j < |ids|)
    && (forall j :: 0 <= j < |ids| ==>
          j in info && info[j] == EntryOf(m, ids, j).(refCount := PartRefs(cfg, m, ids[j], b, p)))
  }

  /** From `e` on, the places before the `p`-th of bucket `b` have been restored. */
  ghost predicate PlacedUpTo(cfg: Config, m: Book, ids: seq<int>, b: nat, p: nat, e: Book, r: Book) {
    && IsTable(m.vvNew, NEW_BUCKETS) && b <= NEW_BUCKETS && (forall j :: 0 <= j < |ids| ==> ids[j] in m.info)
    && r == e.(info := r.info, vvNew := r.vvNew)
    && NewUpTo(m, ids, b, p, r.vvNew) && CountsUpTo(cfg, m, ids, b, p, r.info)
  }

  lemma {:induction false} RefsMonotone(cfg: Config, t: Table, s: Service, id: int, a: nat, b: nat)
    requires IsTable(t, NEW_BUCKETS) && a <= b <= NEW_BUCKETS
    ensures Refs(cfg, t, s, id, a) <= Refs(cfg, t, s, id, b)
  {
    if a < b { RefsMonotone(cfg, t, s, id, a, b - 1); }
  }

  /** The holder of a place has fewer than all its references before that place. */
  lemma RoomForMore(cfg: Config, m: Book, b: nat, p: nat)
    requires Consistent(cfg, m) && b < NEW_BUCKETS && p < BUCKET_SIZE && m.vvNew[b][p] != -1
    ensures m.vvNew[b][p] in m.info && !m.info[m.vvNew[b][p]].inTried
    ensures cfg.position(m.info[m.vvNew[b][p]].service, true, b) == p
    ensures PartRefs(cfg, m, m.vvNew[b][p], b, p) < MAX_REFS
  {
    var id := m.vvNew[b][p];
    assert NewPlaceOk(cfg, m, b, p) && NewEntryOk(cfg, m, {}, id);
    RefsMonotone(cfg, m.vvNew, m.info[id].service, id, b + 1, NEW_BUCKETS);
  }

  lemma NewTableStep(m: Book, ids: seq<int>, b: nat, p: nat, t: Table)
    requires IsTable(m.vvNew, NEW_BUCKETS) && b < NEW_BUCKETS && p < BUCKET_SIZE && NewUpTo(m, ids, b, p, t)
    ensures t[b][p] == -1 && NewUpTo(m, ids, b, p + 1, Put(t, b, p, Renumbered(ids, m.vvNew[b][p])))
  {
  }

  lemma CountsStep(cfg: Config, m: Book, ids: seq<int>, b: nat, p: nat, info: map<int, Info>, j: nat)
    requires Numbered(cfg, m, ids) && b < NEW_BUCKETS && p < BUCKET_SIZE && j < |ids| && m.vvNew[b][p] == ids[j]
    requires cfg.position(m.info[ids[j]].service, true, b) == p && CountsUpTo(cfg, m, ids, b, p, info)
    ensures CountsUpTo(cfg, m, ids, b, p + 1, info[j := info[j].(refCount := info[j].refCount + 1)])
  {
    var r := info[j := info[j].(refCount := info[j].refCount + 1)];
    forall i | 0 <= i < |ids|
      ensures i in r && r[i] == EntryOf(m, ids, i).(refCount := PartRefs(cfg, m, ids[i], b, p + 1))
    {
      assert i in info && info[i] == EntryOf(m, ids, i).(refCount := PartRefs(cfg, m, ids[i], b, p));
    }
  }

  /** A written place is restored. */
  lemma PlaceStep(cfg: Config, m: Book, ids: seq<int>, b: nat, p: nat, e: Book, r: Book)
    requires Numbered(cfg, m, ids) && b < NEW_BUCKETS && p < BUCKET_SIZE && m.vvNew[b][p] != -1
    requires PlacedUpTo(cfg, m, ids, b, p, e, r)
    ensures 0 <= Renumbered(ids, m.vvNew[b][p]) < m.newCount
    ensures PlacedUpTo(cfg, m, ids, b, p + 1, e, Restored(cfg, r, true, b, Renumbered(ids, m.vvNew[b][p])))
  {
    RoomForMore(cfg, m, b, p);
    var j := Index(ids, m.vvNew[b][p]);
    NewTableStep(m, ids, b, p, r.vvNew);
    CountsStep(cfg, m, ids, b, p, r.info, j);
    assert r.info[j] == EntryOf(m, ids, j).(refCount := PartRefs(cfg, m, ids[j], b, p));
    assert Restored(cfg, r, true, b, j) == Referenced(r, b, p, j);
  }

  /** An empty place stays empty. */
  lemma SkipStep(cfg: Config, m: Book, ids: seq<int>, b: nat, p: nat, e: Book, r: Book)
    requires Numbered(cfg, m, ids) && b < NEW_BUCKETS && p < BUCKET_SIZE && m.vvNew[b][p] == -1
    requires PlacedUpTo(cfg, m, ids, b, p, e, r)
    ensures PlacedUpTo(cfg, m, ids, b, p + 1, e, r)
  {
    assert forall id :: id in m.info ==> IdIndexed(cfg, m, id);
    assert -1 !in ids;
    forall j | 0 <= j < |ids|
      ensures PartRefs(cfg, m, ids[j], b, p) == PartRefs(cfg, m, ids[j], b, p + 1)
    {
      assert ids[j] in ids;
    }
  }

  /** The end of one bucket is the start of the next. */
  lemma RowStep(cfg: Config, m: Book, ids: seq<int>, b: nat, e: Book, r: Book)
    requires b < NEW_BUCKETS && PlacedUpTo(cfg, m, ids, b, BUCKET_SIZE, e, r)
    ensures PlacedUpTo(cfg, m, ids, b + 1, 0, e, r)
  {
    forall j | 0 <= j < |ids|
      ensures PartRefs(cfg, m, ids[j], b, BUCKET_SIZE) == PartRefs(cfg, m, ids[j], b + 1, 0)
    {
    }
  }

  lemma RestoreSnoc(cfg: Config, e: Book, pairs: seq<(int, int)>, b: int, id: int)
    requires IsTable(e.vvNew, NEW_BUCKETS)
    ensures RestoreAll(cfg, e, true, pairs + [(b, id)]) == Restored(cfg, RestoreAll(cfg, e, true, pairs), true, b, id)
  {
    assert (pairs + [(b, id)])[..|pairs|] == pairs;
  }

  /** The pairs that a bucket's list stands for, with one more place. */
  lemma RowPairsSnoc(row: seq<int>, ids: seq<int>, b: int, p: nat, newCount: int)
    requires p < |row|
    ensures RowPairs(BucketList(row, ids, p + 1), b, newCount)
      == RowPairs(BucketList(row, ids, p), b, newCount)
         + if row[p] != -1 && row[p] in ids && Index(ids, row[p]) < newCount then [(b, Index(ids, row[p]))] else []
  {
    var list := BucketList(row, ids, p);
    if row[p] != -1 && row[p] in ids {
      assert (list + [Index(ids, row[p])])[..|list|] == list;
    } else {
      assert list + [] == list;
      assert RowPairs(list, b, newCount) + [] == RowPairs(list, b, newCount);
    }
  }

  lemma {:induction false} IndexPrefix(ids: seq<int>, n: nat, id: int)
    requires n <= |ids| && id in ids && Index(ids, id) < n
    ensures id in ids[..n] && Index(ids[..n], id) == Index(ids, id)
    decreases |ids|
  {
    assert ids[..n][Index(ids, id)] == id;
    if ids[0] != id {
      assert ids[..n][1..] == ids[1..][..n - 1];
      IndexPrefix(ids[1..], n - 1, id);
    }
  }

  /** All the pairs before the `p`-th place of bucket `b`. */
  ghost function PairsUpTo(m: Book, news: seq<int>, b: nat, p: nat): seq<(int, int)>
    requires b < |m.vvNew| && p <= |m.vvNew[b]|
  {
    Pairs(Buckets(m.vvNew, news), b, m.newCount) + RowPairs(BucketList(m.vvNew[b], news, p), b, m.newCount)
  }

  /** An empty place adds no pair, a held one adds the pair of its bucket and its holder's number. */
  lemma PairsSnoc(cfg: Config, m: Book, ids: seq<int>, b: nat, p: nat)
    requires Numbered(cfg, m, ids) && b < NEW_BUCKETS && p < BUCKET_SIZE
    requires m.vvNew[b][p] != -1 ==> 0 <= Renumbered(ids, m.vvNew[b][p]) < m.newCount
    ensures PairsUpTo(m, ids[..m.newCount], b, p + 1)
      == PairsUpTo(m, ids[..m.newCount], b, p)
         + if m.vvNew[b][p] == -1 then [] else [(b, Renumbered(ids, m.vvNew[b][p]))]
  {
    var news := ids[..m.newCount];
    RowPairsSnoc(m.vvNew[b], news, b, p, m.newCount);
    if m.vvNew[b][p] != -1 {
      IndexPrefix(ids, m.newCount, m.vvNew[b][p]);
    }
  }

  lemma PairStep(cfg: Config, m: Book, ids: seq<int>, b: nat, p: nat, e: Book, pairs: seq<(int, int)>)
    requires Numbered(cfg, m, ids) && b < NEW_BUCKETS && p < BUCKET_SIZE && IsTable(e.vvNew, NEW_BUCKETS)
    requires PlacedUpTo(cfg, m, ids, b, p, e, RestoreAll(cfg, e, true, pairs))
    ensures m.vvNew[b][p] != -1 ==> 0 <= Renumbered(ids, m.vvNew[b][p]) < m.newCount
    ensures PlacedUpTo(cfg, m, ids, b, p + 1, e,
                       RestoreAll(cfg, e, true, pairs + if m.vvNew[b][p] == -1 then []
                                                        else [(b, Renumbered(ids, m.vvNew[b][p]))]))
  {
    if m.vvNew[b][p] == -1 {
      SkipStep(cfg, m, ids, b, p, e, RestoreAll(cfg, e, true, pairs));
      assert pairs + [] == pairs;
    } else {
      PlaceStep(cfg, m, ids, b, p, e, RestoreAll(cfg, e, true, pairs));
      RestoreSnoc(cfg, e, pairs, b, Renumbered(ids, m.vvNew[b][p]));
    }
  }

  lemma NoPairs(m: Book, news: seq<int>, b: nat)
    requires b < |m.vvNew|
    ensures PairsUpTo(m, news, b, 0) == Pairs(Buckets(m.vvNew, news), b, m.newCount)
  {
    var before := Pairs(Buckets(m.vvNew, news), b, m.newCount);
    assert before + [] == before;
  }

  lemma {:induction false} RowComesBack(cfg: Config, m: Book, ids: seq<int>, b: nat, p: nat, e: Book)
    requires Numbered(cfg, m, ids) && b < NEW_BUCKETS && p <= BUCKET_SIZE && IsTable(e.vvNew, NEW_BUCKETS)
    requires PlacedUpTo(cfg, m, ids, b, 0, e,
                        RestoreAll(cfg, e, true, Pairs(Buckets(m.vvNew, ids[..m.newCount]), b, m.newCount)))
    ensures PlacedUpTo(cfg, m, ids, b, p, e, RestoreAll(cfg, e, true, PairsUpTo(m, ids[..m.newCount], b, p)))
  {
    if p == 0 {
      NoPairs(m, ids[..m.newCount], b);
    } else {
      RowComesBack(cfg, m, ids, b, p - 1, e);
      PairStep(cfg, m, ids, b, p - 1, e, PairsUpTo(m, ids[..m.newCount], b, p - 1));
      PairsSnoc(cfg, m, ids, b, p - 1);
    }
  }

  /** The manager after the first `b` buckets of a written file. */
  ghost function RowsBack(cfg: Config, m: Book, ids: seq<int>, b: nat, e: Book): (r: Book)
    requires IsTable(m.vvNew, NEW_BUCKETS) && 0 <= m.newCount <= |ids|
    requires b <= NEW_BUCKETS && IsTable(e.vvNew, NEW_BUCKETS)
  {
    RestoreAll(cfg, e, true, Pairs(Buckets(m.vvNew, ids[..m.newCount]), b, m.newCount))
  }

  lemma BucketBack(cfg: Config, m: Book, ids: seq<int>, b: nat, e: Book)
    requires Numbered(cfg, m, ids) && b < NEW_BUCKETS && IsTable(e.vvNew, NEW_BUCKETS)
    requires PlacedUpTo(cfg, m, ids, b, 0, e, RowsBack(cfg, m, ids, b, e))
    ensures PlacedUpTo(cfg, m, ids, b, BUCKET_SIZE, e, RowsBack(cfg, m, ids, b + 1, e))
  {
    RowComesBack(cfg, m, ids, b, BUCKET_SIZE, e);
    var news := ids[..m.newCount];
    assert PairsUpTo(m, news, b, BUCKET_SIZE) == Pairs(Buckets(m.vvNew, news), b + 1, m.newCount);
  }

  lemma {:induction false} RowsComeBack(cfg: Config, m: Book, ids: seq<int>, b: nat, e: Book, r: Book)
    requires Numbered(cfg, m, ids) && b <= NEW_BUCKETS && IsTable(e.vvNew, NEW_BUCKETS)
    requires PlacedUpTo(cfg, m, ids, 0, 0, e, e) && r == RowsBack(cfg, m, ids, b, e)
    ensures PlacedUpTo(cfg, m, ids, b, 0, e, r)
  {
    if b > 0 {
      RowsComeBack(cfg, m, ids, b - 1, e, RowsBack(cfg, m, ids, b - 1, e));
      BucketBack(cfg, m, ids, b - 1, e);
      RowStep(cfg, m, ids, b - 1, e, r);
    }
  }

  /** Before the first place nothing has been restored. */
  lemma NothingPlaced(cfg: Config, m: Book, ids: seq<int>, e: Book)
    requires Numbered(cfg, m, ids) && Loaded(m, ids, |ids|, e) && e.vvNew == EmptyTable(NEW_BUCKETS)
    ensures PlacedUpTo(cfg, m, ids, 0, 0, e, e)
  {
    forall j | 0 <= j < |ids|
      ensures e.info[j] == EntryOf(m, ids, j).(refCount := PartRefs(cfg, m, ids[j], 0, 0))
    {
      assert Refs(cfg, m.vvNew, m.info[ids[j]].service, ids[j], 0) == 0;
    }
  }

  /** Once all places are restored, every entry has its references back. */
  lemma AllPlaced(cfg: Config, m: Book, ids: seq<int>, e: Book, r: Book, j: nat)
    requires Numbered(cfg, m, ids) && PlacedUpTo(cfg, m, ids, NEW_BUCKETS, 0, e, r) && j < |ids|
    ensures j in r.info && r.info[j] == EntryOf(m, ids, j).(refCount := m.info[ids[j]].refCount)
    ensures !Unplaced(r, j)
  {
    var id := ids[j];
    assert NewEntryOk(cfg, m, {}, id) && TriedEntryOk(cfg, m, id) && IdIndexed(cfg, m, id);
    if m.info[id].inTried {
      TriedUnreferenced(cfg, m, {}, id);
    }
  }

  lemma {:induction false} NothingPruned(cfg: Config, r: Book, n: nat)
    requires forall j :: 0 <= j < n ==> !Unplaced(r, j)
    ensures Pruned(cfg, r, n) == r
  {
    if n > 0 {
      NothingPruned(cfg, r, n - 1);
      assert !Unplaced(r, n - 1);
    }
  }

  // ---------------------------------------------------------------------------------------------------------------
  // The counts are never too large to be read
  // ---------------------------------------------------------------------------------------------------------------

  lemma {:induction false} AtMost(s: seq<int>, ids: set<int>)
    requires forall id :: id in ids ==> id in s
    ensures |ids| <= |s|
    decreases |s|
  {
    if s == [] {
      forall id
        ensures id in ids <==> id in {}
      {
      }
      assert ids == {};
    } else {
      var last, rest := s[|s| - 1], s[..|s| - 1];
      forall id | id in ids - {last}
        ensures id in rest
      {
        assert s == rest + [last];
      }
      AtMost(rest, ids - {last});
      assert |ids - {last}| >= |ids| - 1;
    }
  }

  function Flat(t: Table, n: nat): (s: seq<int>)
    requires n <= |t| && forall b :: 0 <= b < |t| ==> |t[b]| == BUCKET_SIZE
    ensures |s| == n * BUCKET_SIZE
  {
    if n == 0 then [] else Flat(t, n - 1) + t[n - 1]
  }

  lemma {:induction false} InFlat(t: Table, n: nat, b: int, p: int)
    requires n <= |t| && (forall c :: 0 <= c < |t| ==> |t[c]| == BUCKET_SIZE) && 0 <= b < n && 0 <= p < BUCKET_SIZE
    ensures t[b][p] in Flat(t, n)
  {
    if b < n - 1 { InFlat(t, n - 1, b, p); }
  }

  /** A consistent manager holds no more entries than its tables have places. */
  lemma CountsFit(cfg: Config, m: Book)
    requires Consistent(cfg, m)
    ensures 0 <= m.newCount <= NEW_BUCKETS * BUCKET_SIZE && 0 <= m.triedCount <= TRIED_BUCKETS * BUCKET_SIZE
  {
    forall id | id in NewIds(m)
      ensures id in Flat(m.vvNew, NEW_BUCKETS)
    {
      var s := m.info[id].service;
      assert NewEntryOk(cfg, m, {}, id);
      RefsNone(cfg, m.vvNew, s, id, NEW_BUCKETS);
      var b :| 0 <= b < NEW_BUCKETS && m.vvNew[b][cfg.position(s, true, b)] == id;
      InFlat(m.vvNew, NEW_BUCKETS, b, cfg.position(s, true, b));
    }
    AtMost(Flat(m.vvNew, NEW_BUCKETS), NewIds(m));
    forall id | id in TriedIds(m)
      ensures id in Flat(m.vvTried, TRIED_BUCKETS)
    {
      var s := m.info[id].service;
      assert TriedEntryOk(cfg, m, id);
      InFlat(m.vvTried, TRIED_BUCKETS, cfg.triedBucket(s), cfg.TriedPosition(s));
    }
    AtMost(Flat(m.vvTried, TRIED_BUCKETS), TriedIds(m));
  }

  // ---------------------------------------------------------------------------------------------------------------
  // The round trip
  // ---------------------------------------------------------------------------------------------------------------

  /**
   The same manager under new ids: each entry has one number, and under it the same persisted data, reference count and
   table, and every place of both tables holds the same entry.
   */
  ghost predicate Renamed(m: Book, n: Book, ids: seq<int>)
    requires IsTable(m.vvTried, TRIED_BUCKETS) && IsTable(m.vvNew, NEW_BUCKETS)
  {
    && Distinct(ids) && (forall id :: id in ids <==> id in m.info)
    && (forall j :: j in n.info <==> 0 <= j < |ids|)
    && (forall j :: 0 <= j < |ids| ==> SamePart(m, n, ids[j], j))
    && IsTable(n.vvTried, TRIED_BUCKETS) && IsTable(n.vvNew, NEW_BUCKETS)
    && (forall b, p :: 0 <= b < TRIED_BUCKETS && 0 <= p < BUCKET_SIZE ==>
          n.vvTried[b][p] == Renumbered(ids, m.vvTried[b][p]))
    && (forall b, p :: 0 <= b < NEW_BUCKETS && 0 <= p < BUCKET_SIZE ==>
          n.vvNew[b][p] == Renumbered(ids, m.vvNew[b][p]))
    && n.newCount == m.newCount && n.triedCount == m.triedCount && |n.random| == |ids|
  }

  ghost predicate SamePart(m: Book, n: Book, id: int, j: int) {
    && id in m.info && j in n.info && Persist(n.info[j]) == Persist(m.info[id])
    && n.info[j].refCount == m.info[id].refCount && n.info[j].inTried == m.info[id].inTried
  }

  /** What reading has made of all entries, before any place is restored. */
  ghost predicate EntriesRead(cfg: Config, m: Book, ids: seq<int>, e: Book) {
    && Numbered(cfg, m, ids) && Loaded(m, ids, |ids|, e) && TriedUpTo(m, ids, |ids|, e.vvTried)
    && e.newCount == m.newCount && e.triedCount == m.triedCount
  }

  /** What reading has made of all entries and places. */
  ghost predicate ReadBack(cfg: Config, m: Book, ids: seq<int>, e: Book, n: Book) {
    EntriesRead(cfg, m, ids, e) && PlacedUpTo(cfg, m, ids, NEW_BUCKETS, 0, e, n)
  }

  lemma RenamedBack(cfg: Config, m: Book, ids: seq<int>, e: Book, n: Book)
    requires ReadBack(cfg, m, ids, e, n)
    ensures Renamed(m, n, ids)
  {
    forall j | 0 <= j < |ids|
      ensures SamePart(m, n, ids[j], j)
    {
      AllPlaced(cfg, m, ids, e, n, j);
    }
  }

  lemma StartBack(cfg: Config, m: Book, ids: seq<int>, news: seq<Persisted>, start: Book)
    requires Numbered(cfg, m, ids) && |news| == m.newCount
    requires forall j :: 0 <= j < |news| ==> news[j] == Persist(m.info[ids[j]])
    requires start == LoadNew(news, m.newCount).(newCount := m.newCount, triedCount := m.triedCount)
    ensures TriedInv(m, ids, start, 0, start) && start.vvNew == EmptyTable(NEW_BUCKETS)
  {
    NewComeBack(cfg, m, ids, news, m.newCount);
    EmptyUpTo(cfg, m, ids);
    assert Loaded(m, ids, m.newCount, start);
  }

  lemma AllRead(cfg: Config, m: Book, ids: seq<int>, start: Book, k: nat, e: Book)
    requires Numbered(cfg, m, ids) && TriedInv(m, ids, start, k, e) && m.newCount + k == |ids|
    requires start.newCount == m.newCount && start.triedCount == m.triedCount
    ensures EntriesRead(cfg, m, ids, e) && e.vvNew == start.vvNew
  {
  }

  lemma EntriesBack(cfg: Config, m: Book, ids: seq<int>, news: seq<Persisted>, tries: seq<Persisted>)
    requires Numbered(cfg, m, ids) && |news| == m.newCount && |tries| == m.triedCount == |ids| - m.newCount
    requires forall j :: 0 <= j < |news| ==> news[j] == Persist(m.info[ids[j]])
    requires forall j :: 0 <= j < |tries| ==> tries[j] == Persist(m.info[ids[m.newCount + j]])
    ensures var start := LoadNew(news, m.newCount).(newCount := m.newCount, triedCount := m.triedCount);
      var e := LoadTried(cfg, start, tries, |tries|);
      EntriesRead(cfg, m, ids, e) && e.vvNew == EmptyTable(NEW_BUCKETS)
  {
    var start := LoadNew(news, m.newCount).(newCount := m.newCount, triedCount := m.triedCount);
    StartBack(cfg, m, ids, news, start);
    TriedComeBack(cfg, m, ids, start, tries);
    AllRead(cfg, m, ids, start, |tries|, LoadTried(cfg, start, tries, |tries|));
  }

  /** Every service is looked up under itself. */
  ghost predicate KeyedByService(cfg: Config, m: Book) {
    forall id :: id in m.info ==> cfg.Key(m.info[id].service) == m.info[id].service
  }

  lemma IndexBack(cfg: Config, m: Book, ids: seq<int>, e: Book, n: Book)
    requires ReadBack(cfg, m, ids, e, n)
    ensures IndexOk(cfg, n) <==> KeyedByService(cfg, m)
  {
    if KeyedByService(cfg, m) {
      forall j | j in n.info
        ensures IdIndexed(cfg, n, j)
      {
        AllPlaced(cfg, m, ids, e, n, j);
      }
      forall k | k in n.addr
        ensures n.addr[k] in n.info && cfg.Key(n.info[n.addr[k]].service) == k
      {
        AllPlaced(cfg, m, ids, e, n, n.addr[k]);
      }
      forall i | 0 <= i < |n.random|
        ensures n.random[i] in n.info && n.info[n.random[i]].randomPos == i
      {
        AllPlaced(cfg, m, ids, e, n, i);
      }
    }
    if IndexOk(cfg, n) {
      forall id | id in m.info
        ensures cfg.Key(m.info[id].service) == m.info[id].service
      {
        var j := Index(ids, id);
        AllPlaced(cfg, m, ids, e, n, j);
        assert IdIndexed(cfg, n, j);
      }
    }
  }

  lemma TriedBack(cfg: Config, m: Book, ids: seq<int>, n: Book)
    requires Numbered(cfg, m, ids) && Renamed(m, n, ids)
    ensures TriedOk(cfg, n)
  {
    forall b, p | 0 <= b < TRIED_BUCKETS && 0 <= p < BUCKET_SIZE
      ensures TriedPlaceOk(cfg, n, b, p)
    {
      assert TriedPlaceOk(cfg, m, b, p);
      if n.vvTried[b][p] != -1 {
        assert SamePart(m, n, ids[n.vvTried[b][p]], n.vvTried[b][p]);
      }
    }
    forall j | j in n.info
      ensures TriedEntryOk(cfg, n, j)
    {
      assert SamePart(m, n, ids[j], j) && TriedEntryOk(cfg, m, ids[j]);
      IndexUnique(ids, j);
    }
  }

  lemma {:induction false} RefsBack(cfg: Config, m: Book, ids: seq<int>, n: Book, s: Service, j: nat, k: nat)
    requires Numbered(cfg, m, ids) && Renamed(m, n, ids) && j < |ids| && k <= NEW_BUCKETS
    ensures Refs(cfg, n.vvNew, s, j, k) == Refs(cfg, m.vvNew, s, ids[j], k)
  {
    if k > 0 {
      RefsBack(cfg, m, ids, n, s, j, k - 1);
      IndexUnique(ids, j);
    }
  }

  lemma NewBack(cfg: Config, m: Book, ids: seq<int>, n: Book)
    requires Numbered(cfg, m, ids) && Renamed(m, n, ids)
    ensures NewOk(cfg, n, {})
  {
    forall b, p | 0 <= b < NEW_BUCKETS && 0 <= p < BUCKET_SIZE
      ensures NewPlaceOk(cfg, n, b, p)
    {
      assert NewPlaceOk(cfg, m, b, p);
      if n.vvNew[b][p] != -1 {
        assert SamePart(m, n, ids[n.vvNew[b][p]], n.vvNew[b][p]);
      }
    }
    forall j | j in n.info
      ensures NewEntryOk(cfg, n, {}, j)
    {
      assert SamePart(m, n, ids[j], j) && NewEntryOk(cfg, m, {}, ids[j]);
      RefsBack(cfg, m, ids, n, n.info[j].service, j, NEW_BUCKETS);
    }
  }

  lemma {:induction false} RangeSize(lo: int, hi: int, s: set<int>)
    requires lo <= hi && forall x :: x in s <==> lo <= x < hi
    ensures |s| == hi - lo
    decreases hi - lo
  {
    if lo == hi {
      forall x
        ensures x in s <==> x in {}
      {
      }
      assert s == {};
    } else {
      RangeSize(lo, hi - 1, s - {hi - 1});
    }
  }

  lemma CountsBack(cfg: Config, m: Book, ids: seq<int>, n: Book)
    requires Numbered(cfg, m, ids) && Renamed(m, n, ids) && |ids| == m.newCount + m.triedCount
    ensures CountsOk(n, 0)
  {
    forall j
      ensures j in NewIds(n) <==> 0 <= j < m.newCount
      ensures j in TriedIds(n) <==> m.newCount <= j < |ids|
    {
      if 0 <= j < |ids| {
        assert SamePart(m, n, ids[j], j);
      }
    }
    RangeSize(0, m.newCount, NewIds(n));
    RangeSize(m.newCount, |ids|, TriedIds(n));
  }

  lemma NumberedBy(cfg: Config, m: Book, order: seq<int>)
    requires Consistent(cfg, m) && Walks(m, order)
    ensures Numbered(cfg, m, Numbering(m, order)) && |Numbering(m, order)| == m.newCount + m.triedCount
    ensures NewOrder(m.info, order) == Numbering(m, order)[..m.newCount]
  {
    NumberingSizes(cfg, m, order);
    NumberingDistinct(cfg, m, order);
    forall j | 0 <= j < |Numbering(m, order)|
      ensures m.info[Numbering(m, order)[j]].inTried <==> j >= m.newCount
    {
      NumberingSplit(cfg, m, order, j);
    }
  }

  lemma EntriesNumbered(cfg: Config, m: Book, order: seq<int>)
    requires Consistent(cfg, m) && Walks(m, order)
    ensures var ids := Numbering(m, order);
      var news, tries := Entries(m.info, NewOrder(m.info, order)), Entries(m.info, TriedOrder(m.info, order));
      && 0 <= |news| == m.newCount && |tries| == m.triedCount && |ids| == |news| + |tries|
      && (forall j :: 0 <= j < |news| ==> news[j] == Persist(m.info[ids[j]]))
      && (forall j :: 0 <= j < |tries| ==> tries[j] == Persist(m.info[ids[m.newCount + j]]))
  {
    NumberingSizes(cfg, m, order);
  }

  /** The entries of a manager are in a file. */
  ghost predicate Holds(m: Book, order: seq<int>, f: File)
    requires forall i :: 0 <= i < |order| ==> order[i] in m.info
  {
    && f.newEntries == Entries(m.info, NewOrder(m.info, order)) && f.newCount == m.newCount
    && f.triedEntries == Entries(m.info, TriedOrder(m.info, order)) && f.triedCount == m.triedCount
    && f.buckets == Buckets(m.vvNew, NewOrder(m.info, order))
  }

  lemma WrittenEntries(cfg: Config, m: Book, order: seq<int>, f: File)
    requires Consistent(cfg, m) && Walks(m, order) && Holds(m, order, f)
    ensures 0 <= f.newCount == |f.newEntries| && f.triedCount == |f.triedEntries|
    ensures EntriesRead(cfg, m, Numbering(m, order), EnteredOf(cfg, f))
    ensures EnteredOf(cfg, f).vvNew == EmptyTable(NEW_BUCKETS)
  {
    EntriesNumbered(cfg, m, order);
    NumberedBy(cfg, m, order);
    EntriesBack(cfg, m, Numbering(m, order), f.newEntries, f.triedEntries);
  }

  lemma WrittenReadBack(cfg: Config, m: Book, order: seq<int>, f: File)
    requires Consistent(cfg, m) && Walks(m, order) && Holds(m, order, f)
    ensures 0 <= f.newCount == |f.newEntries| && f.triedCount == |f.triedEntries|
    ensures ReadBack(cfg, m, Numbering(m, order), EnteredOf(cfg, f), PlacedOf(cfg, f, true))
  {
    WrittenEntries(cfg, m, order, f);
    NumberedBy(cfg, m, order);
    var ids, e := Numbering(m, order), EnteredOf(cfg, f);
    NothingPlaced(cfg, m, ids, e);
    assert PlacedOf(cfg, f, true) == RowsBack(cfg, m, ids, NEW_BUCKETS, e);
    RowsComeBack(cfg, m, ids, NEW_BUCKETS, e, PlacedOf(cfg, f, true));
  }

  lemma WrittenKept(cfg: Config, m: Book, ids: seq<int>, e: Book, n: Book)
    requires ReadBack(cfg, m, ids, e, n)
    ensures Pruned(cfg, n, m.newCount) == n
  {
    forall j | 0 <= j < m.newCount
      ensures !Unplaced(n, j)
    {
      AllPlaced(cfg, m, ids, e, n, j);
    }
    NothingPruned(cfg, n, m.newCount);
  }

  /** A written file is accepted, and read without pruning. */
  lemma WrittenAccepted(cfgOf: int -> Config, m: Book, order: seq<int>, key: int, checksum: nat, f: File)
    requires Consistent(cfgOf(key), m) && Walks(m, order) && f == Serialized(m, order, key, checksum)
    ensures 0 <= f.newCount == |f.newEntries| && f.triedCount == |f.triedEntries|
    ensures Load(cfgOf, checksum, f) == Some(Pruned(cfgOf(key), PlacedOf(cfgOf(key), f, true), f.newCount))
  {
    CountsFit(cfgOf(key), m);
    EntriesNumbered(cfgOf(key), m, order);
    assert Flip30(f.bucketWord) == NEW_BUCKETS;
  }

  lemma WrittenRead(cfgOf: int -> Config, m: Book, order: seq<int>, key: int, checksum: nat, f: File)
    requires Consistent(cfgOf(key), m) && Walks(m, order) && f == Serialized(m, order, key, checksum)
    ensures 0 <= f.newCount == |f.newEntries| && Load(cfgOf, checksum, f) == Some(PlacedOf(cfgOf(key), f, true))
  {
    WrittenAccepted(cfgOf, m, order, key, checksum, f);
    WrittenReadBack(cfgOf(key), m, order, f);
    WrittenKept(cfgOf(key), m, Numbering(m, order), EnteredOf(cfgOf(key), f), PlacedOf(cfgOf(key), f, true));
  }

  /**
   Writing a consistent manager and reading the file with the same map of autonomous systems gives the same manager up
   to renaming. It is consistent again exactly if every service is looked up under its own port.
   */
  lemma RoundTrip(cfgOf: int -> Config, m: Book, order: seq<int>, key: int, checksum: nat)
    requires Consistent(cfgOf(key), m) && Walks(m, order)
    ensures var r := Load(cfgOf, checksum, Serialized(m, order, key, checksum));
      && r.Some? && Renamed(m, r.value, Numbering(m, order))
      && (Consistent(cfgOf(key), r.value) <==> KeyedByService(cfgOf(key), m))
  {
    var cfg, f, ids := cfgOf(key), Serialized(m, order, key, checksum), Numbering(m, order);
    WrittenRead(cfgOf, m, order, key, checksum, f);
    WrittenReadBack(cfg, m, order, f);
    var e, n := EnteredOf(cfg, f), PlacedOf(cfg, f, true);
    RenamedBack(cfg, m, ids, e, n);
    NumberedBy(cfg, m, order);
    IndexBack(cfg, m, ids, e, n);
    TriedBack(cfg, m, ids, n);
    NewBack(cfg, m, ids, n);
    CountsBack(cfg, m, ids, n);
  }

  /** When ports are told apart, every service is looked up under its own port. */
  lemma RoundTripConsistent(cfgOf: int -> Config, m: Book, order: seq<int>, key: int, checksum: nat)
    requires Consistent(cfgOf(key), m) && Walks(m, order) && cfgOf(key).discriminatePorts
    ensures var r := Load(cfgOf, checksum, Serialized(m, order, key, checksum));
      r.Some? && Consistent(cfgOf(key), r.value) && Renamed(m, r.value, Numbering(m, order))
  {
    RoundTrip(cfgOf, m, order, key, checksum);
  }

  /** When they are not, an entry with a port is no longer found after reading. */
  lemma LostToLookup(cfgOf: int -> Config, m: Book, order: seq<int>, key: int, checksum: nat, id: int)
    requires Consistent(cfgOf(key), m) && Walks(m, order) && id in m.info
    requires cfgOf(key).Key(m.info[id].service) != m.info[id].service
    ensures var r := Load(cfgOf, checksum, Serialized(m, order, key, checksum));
      r.Some? && cfgOf(key).Key(m.info[id].service) !in r.value.addr
  {
    var cfg, f, ids := cfgOf(key), Serialized(m, order, key, checksum), Numbering(m, order);
    WrittenRead(cfgOf, m, order, key, checksum, f);
    WrittenReadBack(cfg, m, order, f);
    var n := PlacedOf(cfg, f, true);
    forall s | s in n.addr
      ensures s != cfg.Key(m.info[id].service)
    {
      var other := ids[n.addr[s]];
      assert m.info[other].service == s;
      assert IdIndexed(cfg, m, other) && IdIndexed(cfg, m, id);
    }
  }

  // ---------------------------------------------------------------------------------------------------------------
  // Any file
  // ---------------------------------------------------------------------------------------------------------------

  /** `mapInfo` and `vRandom` are inverse to each other. */
  ghost predicate RandomOk(m: Book) {
    && m.idCount >= 0
    && (forall id :: id in m.info ==> InRandom(m, id) && 0 <= id < m.idCount)
    && (forall i :: 0 <= i < |m.random| ==> m.random[i] in m.info && m.info[m.random[i]].randomPos == i)
  }

  lemma EnteredRandom(m: Book, e: Persisted, tried: bool)
    requires RandomOk(m)
    ensures RandomOk(Entered(m, e, tried))
  {
    var n := Entered(m, e, tried);
    forall id | id in n.info
      ensures InRandom(n, id)
    {
      assert id != m.idCount ==> InRandom(m, id);
    }
  }

  lemma {:induction false} LoadedRandom(cfg: Config, f: File, n: nat, k: nat)
    requires n <= |f.newEntries| && k <= |f.triedEntries|
    ensures RandomOk(LoadNew(f.newEntries, n))
    ensures var m := LoadNew(f.newEntries, n).(newCount := f.newCount, triedCount := f.triedCount);
      RandomOk(LoadTried(cfg, m, f.triedEntries, k))
    decreases n + k
  {
    if k > 0 {
      LoadedRandom(cfg, f, n, k - 1);
      var m := LoadNew(f.newEntries, n).(newCount := f.newCount, triedCount := f.triedCount);
      EnteredRandom(LoadTried(cfg, m, f.triedEntries, k - 1), f.triedEntries[k - 1], true);
    } else if n > 0 {
      LoadedRandom(cfg, f, n - 1, 0);
      EnteredRandom(LoadNew(f.newEntries, n - 1), f.newEntries[n - 1], false);
    }
  }

  lemma ReferencedRandom(m: Book, b: int, p: int, id: int)
    requires RandomOk(m) && 0 <= b < |m.vvNew| && 0 <= p < |m.vvNew[b]| && id in m.info
    ensures RandomOk(Referenced(m, b, p, id))
  {
    assert forall x :: x in m.info ==> InRandom(m, x);
  }

  lemma RestoredRandom(cfg: Config, m: Book, restore: bool, b: int, id: int)
    requires RandomOk(m) && IsTable(m.vvNew, NEW_BUCKETS)
    ensures RandomOk(Restored(cfg, m, restore, b, id))
  {
    if id in m.info {
      var s := m.info[id].service;
      var home := cfg.newBucket(s, m.info[id].source);
      if 0 <= b < NEW_BUCKETS {
        ReferencedRandom(m, b, cfg.position(s, true, b), id);
      }
      ReferencedRandom(m, home, cfg.position(s, true, home), id);
    }
  }

  lemma {:induction false} AllRestoredRandom(cfg: Config, m: Book, restore: bool, pairs: seq<(int, int)>)
    requires RandomOk(m) && IsTable(m.vvNew, NEW_BUCKETS)
    ensures RandomOk(RestoreAll(cfg, m, restore, pairs))
    decreases |pairs|
  {
    if pairs != [] {
      var rest, last := pairs[..|pairs| - 1], pairs[|pairs| - 1];
      AllRestoredRandom(cfg, m, restore, rest);
      RestoredRandom(cfg, RestoreAll(cfg, m, restore, rest), restore, last.0, last.1);
    }
  }

  lemma DeletedRandom(cfg: Config, m: Book, id: int)
    requires RandomOk(m) && InRandom(m, id)
    ensures m.random[|m.random| - 1] in m.info && RandomOk(Deleted(cfg, m, id)) && id !in Deleted(cfg, m, id).info
    ensures forall x :: Unplaced(Deleted(cfg, m, id), x) ==> Unplaced(m, x)
  {
    var i, j := m.info[id].randomPos, |m.random| - 1;
    var s, n := Swapped(m, i, j), Deleted(cfg, m, id);
    forall x | x in n.info
      ensures InRandom(n, x)
    {
      assert InRandom(m, x);
    }
  }

  lemma PrunedOnePlaced(cfg: Config, m: Book, id: int)
    requires RandomOk(m)
    ensures var r := PrunedOne(cfg, m, id);
      RandomOk(r) && !Unplaced(r, id) && forall x :: Unplaced(r, x) ==> Unplaced(m, x)
  {
    if Unplaced(m, id) {
      assert InRandom(m, id);
      DeletedRandom(cfg, m, id);
    }
  }

  /** What every turn of the last loop keeps holds at its end. */
  lemma {:induction false} PrunedSteps(cfg: Config, m: Book, k: nat, inv: (int, Book) -> bool)
    requires inv(0, m)
    requires forall i: nat, p: Book :: inv(i, p) ==> inv(i + 1, PrunedOne(cfg, p, i))
    ensures inv(k, Pruned(cfg, m, k))
  {
    if k > 0 {
      PrunedSteps(cfg, m, k - 1, inv);
      assert inv(k - 1, Pruned(cfg, m, k - 1));
    }
  }

  ghost predicate PlacedBelow(i: int, m: Book) {
    RandomOk(m) && forall j :: 0 <= j < i ==> !Unplaced(m, j)
  }

  /** Pruning leaves no entry without a place. */
  lemma PrunedPlaced(cfg: Config, m: Book, n: nat)
    requires RandomOk(m)
    ensures RandomOk(Pruned(cfg, m, n)) && forall j :: 0 <= j < n ==> !Unplaced(Pruned(cfg, m, n), j)
  {
    var inv := (i: int, p: Book) => PlacedBelow(i, p);
    forall i: nat, p: Book | PlacedBelow(i, p)
      ensures PlacedBelow(i + 1, PrunedOne(cfg, p, i))
    {
      PrunedOnePlaced(cfg, p, i);
    }
    PrunedSteps(cfg, m, n, inv);
    assert inv(n, Pruned(cfg, m, n));
  }

  // ---------------------------------------------------------------------------------------------------------------
  // The code
  // ---------------------------------------------------------------------------------------------------------------

  /** One more id walked over. */
  lemma OrderGrows(info: map<int, Info>, order: seq<int>, i: nat)
    requires (forall k :: 0 <= k < |order| ==> order[k] in info) && i < |order| && Distinct(order)
    ensures order[..i + 1] == order[..i] + [order[i]] && order[i] !in order[..i]
    ensures NewOrder(info, order[..i + 1])
      == NewOrder(info, order[..i]) + if info[order[i]].refCount != 0 then [order[i]] else []
    ensures TriedOrder(info, order[..i + 1])
      == TriedOrder(info, order[..i]) + if info[order[i]].inTried then [order[i]] else []
    ensures order[i] !in NewOrder(info, order[..i])
    ensures |NewOrder(info, order[..i + 1])| <= |NewOrder(info, order)|
    ensures |TriedOrder(info, order[..i + 1])| <= |TriedOrder(info, order)|
  {
    assert order[..i + 1][..i] == order[..i];
    OrderMembers(info, order[..i]);
    PrefixShorter(info, order, i + 1);
  }

  lemma {:induction false} PrefixShorter(info: map<int, Info>, order: seq<int>, i: nat)
    requires (forall k :: 0 <= k < |order| ==> order[k] in info) && i <= |order|
    ensures |NewOrder(info, order[..i])| <= |NewOrder(info, order)|
    ensures |TriedOrder(info, order[..i])| <= |TriedOrder(info, order)|
    decreases |order|
  {
    if i == |order| {
      assert order[..i] == order;
    } else {
      var rest := order[..|order| - 1];
      PrefixShorter(info, rest, i);
      assert rest[..i] == order[..i];
    }
  }

  method WriteNew(info: map<int, Info>, order: seq<int>, newCount: int)
    returns (news: seq<Persisted>, unkIds: map<int, int>)
    requires forall i :: 0 <= i < |order| ==> order[i] in info
    requires |NewOrder(info, order)| == newCount && Distinct(order)
    ensures news == Entries(info, NewOrder(info, order))
    ensures forall id :: id in NewOrder(info, order) ==> id in unkIds && unkIds[id] == Index(NewOrder(info, order), id)
  {
    news, unkIds := [], map[];
    ghost var ids: seq<int> := [];
    for i := 0 to |order|
      invariant ids == NewOrder(info, order[..i]) && news == Entries(info, ids)
      invariant forall j :: 0 <= j < |ids| ==> ids[j] in unkIds && unkIds[ids[j]] == j
    {
      OrderGrows(info, order, i);
      unkIds := unkIds[order[i] := |news|];
      if info[order[i]].refCount != 0 {
        assert |news| != newCount;
        news := news + [Persist(info[order[i]])];
        ids := ids + [order[i]];
      }
    }
    assert order[..|order|] == order;
    forall id | id in ids
      ensures id in unkIds && unkIds[id] == Index(ids, id)
    {
      assert ids[Index(ids, id)] == id;
    }
  }

  method WriteTried(info: map<int, Info>, order: seq<int>, triedCount: int) returns (tries: seq<Persisted>)
    requires forall i :: 0 <= i < |order| ==> order[i] in info
    requires |TriedOrder(info, order)| == triedCount && Distinct(order)
    ensures tries == Entries(info, TriedOrder(info, order))
  {
    tries := [];
    for i := 0 to |order|
      invariant tries == Entries(info, TriedOrder(info, order[..i]))
    {
      OrderGrows(info, order, i);
      if info[order[i]].inTried {
        assert |tries| != triedCount;
        tries := tries + [Persist(info[order[i]])];
      }
    }
    assert order[..|order|] == order;
  }

  method WriteBucket(row: seq<int>, ghost news: seq<int>, unkIds: map<int, int>) returns (list: seq<int>)
    requires forall id :: id in news ==> id in unkIds && unkIds[id] == Index(news, id)
    requires forall p :: 0 <= p < |row| ==> row[p] == -1 || row[p] in news
    ensures list == BucketList(row, news, |row|)
  {
    list := [];
    for p := 0 to |row|
      invariant list == BucketList(row, news, p)
    {
      if row[p] != -1 {
        list := list + [unkIds[row[p]]];
      }
    }
  }

  /** Writes a consistent manager; its counters are right whenever the code asserts so. */
  method Serialize(cfg: Config, m: Book, order: seq<int>, key: int, checksum: nat) returns (f: File)
    requires Consistent(cfg, m) && Walks(m, order)
    ensures f == Serialized(m, order, key, checksum)
  {
    NumberingSizes(cfg, m, order);
    PlacesWalked(cfg, m, order);
    var news, unkIds := WriteNew(m.info, order, m.newCount);
    var tries := WriteTried(m.info, order, m.triedCount);
    ghost var ids := NewOrder(m.info, order);
    var buckets := [];
    for b := 0 to NEW_BUCKETS
      invariant buckets == Buckets(m.vvNew, ids)[..b]
    {
      var list := WriteBucket(m.vvNew[b], ids, unkIds);
      buckets := buckets + [list];
    }
    assert buckets == Buckets(m.vvNew, ids);
    return File(3, 32, key, m.newCount, m.triedCount, Flip30(NEW_BUCKETS), news, tries, buckets, checksum);
  }

  lemma PlacesWalked(cfg: Config, m: Book, order: seq<int>)
    requires Consistent(cfg, m) && Walks(m, order)
    ensures forall b, p :: 0 <= b < NEW_BUCKETS && 0 <= p < BUCKET_SIZE ==>
      m.vvNew[b][p] == -1 || m.vvNew[b][p] in NewOrder(m.info, order)
  {
    OrdersExact(cfg, m, order);
    forall b, p | 0 <= b < NEW_BUCKETS && 0 <= p < BUCKET_SIZE
      ensures m.vvNew[b][p] == -1 || m.vvNew[b][p] in NewOrder(m.info, order)
    {
      assert NewPlaceOk(cfg, m, b, p);
      assert m.vvNew[b][p] == -1 || m.vvNew[b][p] in NewIds(m);
    }
  }

  method ReadEntries(cfg: Config, f: File) returns (m: Book)
    requires 0 <= f.newCount == |f.newEntries| && f.triedCount == |f.triedEntries|
    ensures m == EnteredOf(cfg, f)
  {
    m := EmptyBook();
    for n := 0 to f.newCount
      invariant m == LoadNew(f.newEntries, n)
    {
      m := Entered(m, f.newEntries[n], false);
    }
    m := m.(newCount := f.newCount, triedCount := f.triedCount);
    for n := 0 to f.triedCount
      invariant m == LoadTried(cfg, StartOf(f), f.triedEntries, n)
    {
      m := TriedEntered(cfg, m, f.triedEntries[n]);
    }
  }

  method ReadPairs(buckets: seq<seq<int>>, newCount: int) returns (pairs: seq<(int, int)>)
    ensures pairs == Pairs(buckets, |buckets|, newCount)
  {
    pairs := [];
    for b := 0 to |buckets|
      invariant pairs == Pairs(buckets, b, newCount)
    {
      var row := buckets[b];
      ghost var before := pairs;
      for n := 0 to |row|
        invariant pairs == before + RowPairs(row[..n], b, newCount)
      {
        assert row[..n + 1][..n] == row[..n];
        if 0 <= row[n] < newCount {
          pairs := pairs + [(b, row[n])];
        }
      }
      assert row[..|row|] == row;
    }
  }

  method RestorePlaces(cfg: Config, entered: Book, restore: bool, pairs: seq<(int, int)>) returns (m: Book)
    requires IsTable(entered.vvNew, NEW_BUCKETS)
    ensures m == RestoreAll(cfg, entered, restore, pairs)
  {
    m := entered;
    for i := 0 to |pairs|
      invariant m == RestoreAll(cfg, entered, restore, pairs[..i])
    {
      assert pairs[..i + 1][..i] == pairs[..i];
      m := Restored(cfg, m, restore, pairs[i].0, pairs[i].1);
    }
    assert pairs[..|pairs|] == pairs;
  }

  method Prune(cfg: Config, placed: Book, newCount: nat) returns (m: Book)
    requires RandomOk(placed)
    ensures m == Pruned(cfg, placed, newCount)
  {
    m := placed;
    for n := 0 to newCount
      invariant m == Pruned(cfg, placed, n)
    {
      PrunedPlaced(cfg, placed, n);
      if Unplaced(m, n) {
        DeletedRandom(cfg, m, n);
        m := Deleted(cfg, m, n);
      }
    }
  }

  /** Reads a file, or refuses it. */
  method Unserialize(cfgOf: int -> Config, checksum: nat, f: File) returns (r: Option<Book>)
    ensures r == Load(cfgOf, checksum, f)
  {
    if f.format > 3 || f.keySize != 32 {
      return None;
    }
    if !(0 <= f.newCount <= NEW_BUCKETS * BUCKET_SIZE) || !(0 <= f.triedCount <= TRIED_BUCKETS * BUCKET_SIZE) {
      return None;
    }
    if f.newCount != |f.newEntries| || f.triedCount != |f.triedEntries| || |f.buckets| != Rows(f) {
      return None;
    }
    var cfg := cfgOf(f.key);
    var m := ReadEntries(cfg, f);
    var pairs := ReadPairs(f.buckets, f.newCount);
    var restore := SameBucketing(f, checksum);
    LoadedRandom(cfg, f, f.newCount, |f.triedEntries|);
    AllRestoredRandom(cfg, m, restore, pairs);
    m := RestorePlaces(cfg, m, restore, pairs);
    m := Prune(cfg, m, f.newCount);
    return Some(m);
  }
}
