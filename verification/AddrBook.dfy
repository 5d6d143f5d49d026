/**
 The tables of the address manager as a value: what is consistent, and what each elementary change keeps.

 The bucket and position hashes are any functions into their ranges. Ids are those of the source; an empty table
 place holds -1.
 */
module AddrBook {
  const NEW_BUCKETS := 1024
  const TRIED_BUCKETS := 256
  const BUCKET_SIZE := 64
  const MAX_REFS := 8

  type NewBucket = x: int | 0 <= x < NEW_BUCKETS
  type TriedBucket = x: int | 0 <= x < TRIED_BUCKETS
  type Position = x: int | 0 <= x < BUCKET_SIZE

  datatype Service = Service(ip: nat, port: nat)

  type NetAddr = nat

  /** Service flags are the set of the bits that are on. */
  datatype Stats = Stats(services: set<nat>, time: int, lastTry: int, lastCountAttempt: int, lastSuccess: int,
                         attempts: int)

  datatype Info = Info(service: Service, source: NetAddr, stats: Stats, refCount: int, inTried: bool, randomPos: int)

  datatype Config = Config(discriminatePorts: bool, triedBucket: Service -> TriedBucket,
                           newBucket: (Service, NetAddr) -> NewBucket, position: (Service, bool, int) -> Position)
  {
    /** The form under which a service is looked up. */
    function Key(s: Service): Service {
      if discriminatePorts then s else Service(s.ip, 0)
    }

    /** The place of a service in the tried table. */
    function TriedPosition(s: Service): Position {
      position(s, false, triedBucket(s))
    }
  }

  type Table = seq<seq<int>>

  datatype Book = Book(idCount: int, info: map<int, Info>, addr: map<Service, int>, random: seq<int>,
                       triedCount: int, newCount: int, vvTried: Table, vvNew: Table)

  // ---------------------------------------------------------------------------------------------------------------
  // Tables
  // ---------------------------------------------------------------------------------------------------------------

  predicate IsTable(t: Table, rows: nat) {
    |t| == rows && forall b :: 0 <= b < rows ==> |t[b]| == BUCKET_SIZE
  }

  function Put(t: Table, b: int, p: int, id: int): (r: Table)
    requires 0 <= b < |t| && 0 <= p < |t[b]|
    ensures |r| == |t| && forall c :: 0 <= c < |t| ==> |r[c]| == |t[c]|
    ensures r[b][p] == id
    ensures forall c, q :: 0 <= c < |t| && 0 <= q < |t[c]| && !(c == b && q == p) ==> r[c][q] == t[c][q]
  {
    t[b := t[b][p := id]]
  }

  /** The number of places, in the first `n` buckets, where a service holds its own position. */
  function Refs(cfg: Config, t: Table, s: Service, id: int, n: nat): nat
    requires IsTable(t, NEW_BUCKETS) && n <= NEW_BUCKETS
  {
    if n == 0 then 0 else
    Refs(cfg, t, s, id, n - 1) + if t[n - 1][cfg.position(s, true, n - 1)] == id then 1 else 0
  }

  lemma {:induction false} RefsPut(cfg: Config, t: Table, s: Service, id: int, n: nat, b: int, p: int, v: int)
    requires IsTable(t, NEW_BUCKETS) && n <= NEW_BUCKETS && 0 <= b < NEW_BUCKETS && 0 <= p < BUCKET_SIZE
    ensures Refs(cfg, Put(t, b, p, v), s, id, n) == Refs(cfg, t, s, id, n)
      + if b < n && cfg.position(s, true, b) == p then (if v == id then 1 else 0) - (if t[b][p] == id then 1 else 0)
        else 0
  {
    if n > 0 { RefsPut(cfg, t, s, id, n - 1, b, p, v); }
  }

  /** No references means that no bucket holds the id at its position, and the other way round. */
  lemma {:induction false} RefsNone(cfg: Config, t: Table, s: Service, id: int, n: nat)
    requires IsTable(t, NEW_BUCKETS) && n <= NEW_BUCKETS
    ensures Refs(cfg, t, s, id, n) == 0 <==> forall b :: 0 <= b < n ==> t[b][cfg.position(s, true, b)] != id
  {
    if n > 0 { RefsNone(cfg, t, s, id, n - 1); }
  }

  // ---------------------------------------------------------------------------------------------------------------
  // Consistency
  // ---------------------------------------------------------------------------------------------------------------

  ghost predicate IdIndexed(cfg: Config, m: Book, id: int)
    requires id in m.info
  {
    var i := m.info[id];
    && 0 <= id < m.idCount
    && cfg.Key(i.service) in m.addr && m.addr[cfg.Key(i.service)] == id
    && 0 <= i.randomPos < |m.random| && m.random[i.randomPos] == id
  }

  /** `mapAddr`, `mapInfo` and `vRandom` are inverse to each other. */
  ghost predicate IndexOk(cfg: Config, m: Book) {
    && m.idCount >= 0
    && (forall id :: id in m.info ==> IdIndexed(cfg, m, id))
    && (forall k :: k in m.addr ==> m.addr[k] in m.info && cfg.Key(m.info[m.addr[k]].service) == k)
    && (forall i :: 0 <= i < |m.random| ==> m.random[i] in m.info && m.info[m.random[i]].randomPos == i)
  }

  ghost predicate TriedPlaceOk(cfg: Config, m: Book, b: int, p: int)
    requires IsTable(m.vvTried, TRIED_BUCKETS) && 0 <= b < TRIED_BUCKETS && 0 <= p < BUCKET_SIZE
  {
    var id := m.vvTried[b][p];
    id != -1 ==>
      id in m.info && m.info[id].inTried
      && cfg.triedBucket(m.info[id].service) == b && cfg.position(m.info[id].service, false, b) == p
  }

  ghost predicate TriedEntryOk(cfg: Config, m: Book, id: int)
    requires IsTable(m.vvTried, TRIED_BUCKETS) && id in m.info
  {
    var i := m.info[id];
    i.inTried ==> i.refCount == 0 && m.vvTried[cfg.triedBucket(i.service)][cfg.TriedPosition(i.service)] == id
  }

  /** Tried entries sit in exactly their own place. */
  ghost predicate TriedOk(cfg: Config, m: Book) {
    && IsTable(m.vvTried, TRIED_BUCKETS)
    && (forall b, p :: 0 <= b < TRIED_BUCKETS && 0 <= p < BUCKET_SIZE ==> TriedPlaceOk(cfg, m, b, p))
    && (forall id :: id in m.info ==> TriedEntryOk(cfg, m, id))
  }

  ghost predicate NewPlaceOk(cfg: Config, m: Book, b: int, p: int)
    requires IsTable(m.vvNew, NEW_BUCKETS) && 0 <= b < NEW_BUCKETS && 0 <= p < BUCKET_SIZE
  {
    var id := m.vvNew[b][p];
    id != -1 ==> id in m.info && !m.info[id].inTried && cfg.position(m.info[id].service, true, b) == p
  }

  /** A new entry counts its references; between steps, entries under way may have none. */
  ghost predicate NewEntryOk(cfg: Config, m: Book, pending: set<int>, id: int)
    requires IsTable(m.vvNew, NEW_BUCKETS) && id in m.info
  {
    var i := m.info[id];
    !i.inTried ==>
      && i.refCount == Refs(cfg, m.vvNew, i.service, id, NEW_BUCKETS) && i.refCount <= MAX_REFS
      && (id !in pending ==> i.refCount >= 1)
  }

  ghost predicate NewOk(cfg: Config, m: Book, pending: set<int>) {
    && IsTable(m.vvNew, NEW_BUCKETS)
    && (forall b, p :: 0 <= b < NEW_BUCKETS && 0 <= p < BUCKET_SIZE ==> NewPlaceOk(cfg, m, b, p))
    && (forall id :: id in m.info ==> NewEntryOk(cfg, m, pending, id))
  }

  ghost function TriedIds(m: Book): set<int> { set id | id in m.info && m.info[id].inTried }

  ghost function NewIds(m: Book): set<int> { set id | id in m.info && !m.info[id].inTried }

  /** The counters are right, but for `ahead` new entries not counted yet. */
  ghost predicate CountsOk(m: Book, ahead: int) {
    m.triedCount == |TriedIds(m)| && m.newCount + ahead == |NewIds(m)|
  }

  ghost predicate Inv(cfg: Config, m: Book, pending: set<int>, ahead: int) {
    IndexOk(cfg, m) && TriedOk(cfg, m) && NewOk(cfg, m, pending) && CountsOk(m, ahead)
  }

  ghost predicate Consistent(cfg: Config, m: Book) {
    Inv(cfg, m, {}, 0)
  }

  // ---------------------------------------------------------------------------------------------------------------
  // What a run never does: reuse an id, change an entry's service, or empty a tried place
  // ---------------------------------------------------------------------------------------------------------------

  ghost predicate Survives(m: Book, n: Book) {
    && m.idCount <= n.idCount
    && (forall id :: id in n.info && id < m.idCount ==>
          id in m.info && n.info[id].service == m.info[id].service && n.info[id].source == m.info[id].source)
  }

  ghost predicate TriedKept(m: Book, n: Book) {
    && IsTable(m.vvTried, TRIED_BUCKETS) && IsTable(n.vvTried, TRIED_BUCKETS)
    && (forall b, p :: 0 <= b < TRIED_BUCKETS && 0 <= p < BUCKET_SIZE && m.vvTried[b][p] != -1 ==>
          n.vvTried[b][p] != -1)
  }

  /** Waiting ids are few, and the place each is waiting for is taken. */
  ghost predicate CollisionsOk(cfg: Config, m: Book, collisions: set<int>) {
    && |collisions| <= 10 && IsTable(m.vvTried, TRIED_BUCKETS)
    && (forall id :: id in collisions ==> id < m.idCount)
    && (forall id :: id in collisions && id in m.info ==>
          m.vvTried[cfg.triedBucket(m.info[id].service)][cfg.TriedPosition(m.info[id].service)] != -1)
  }

  // ---------------------------------------------------------------------------------------------------------------
  // Elementary changes
  // ---------------------------------------------------------------------------------------------------------------

  /** An entry is in both or in neither, with the same part in the tables. */
  ghost predicate SameEntry(m: Book, n: Book, id: int) {
    && (id in m.info <==> id in n.info)
    && (id in m.info ==>
          && m.info[id].service == n.info[id].service && m.info[id].source == n.info[id].source
          && m.info[id].refCount == n.info[id].refCount && m.info[id].inTried == n.info[id].inTried)
  }

  /** Nothing the tables depend on differs. */
  ghost predicate SameEntries(m: Book, n: Book) {
    && m.vvTried == n.vvTried && m.vvNew == n.vvNew && m.triedCount == n.triedCount && m.newCount == n.newCount
    && (forall id :: SameEntry(m, n, id))
  }

  lemma SameEntriesKeep(cfg: Config, m: Book, n: Book, pending: set<int>, ahead: int)
    requires TriedOk(cfg, m) && NewOk(cfg, m, pending) && CountsOk(m, ahead) && SameEntries(m, n)
    ensures TriedOk(cfg, n) && NewOk(cfg, n, pending) && CountsOk(n, ahead)
  {
    forall id
      ensures id in TriedIds(n) <==> id in TriedIds(m)
      ensures id in NewIds(n) <==> id in NewIds(m)
    {
      assert SameEntry(m, n, id);
    }
    assert TriedIds(n) == TriedIds(m) && NewIds(n) == NewIds(m);
    forall id | id in n.info
      ensures TriedEntryOk(cfg, n, id) && NewEntryOk(cfg, n, pending, id)
    {
      assert SameEntry(m, n, id);
      assert TriedEntryOk(cfg, m, id) && NewEntryOk(cfg, m, pending, id);
    }
    forall b, p | 0 <= b < TRIED_BUCKETS && 0 <= p < BUCKET_SIZE
      ensures TriedPlaceOk(cfg, n, b, p)
    {
      assert TriedPlaceOk(cfg, m, b, p) && SameEntry(m, n, m.vvTried[b][p]);
    }
    forall b, p | 0 <= b < NEW_BUCKETS && 0 <= p < BUCKET_SIZE
      ensures NewPlaceOk(cfg, n, b, p)
    {
      assert NewPlaceOk(cfg, m, b, p) && SameEntry(m, n, m.vvNew[b][p]);
    }
  }

  function Touched(m: Book, id: int, stats: Stats): Book
    requires id in m.info
  {
    m.(info := m.info[id := m.info[id].(stats := stats)])
  }

  lemma TouchKeeps(cfg: Config, m: Book, pending: set<int>, ahead: int, id: int, stats: Stats)
    requires Inv(cfg, m, pending, ahead) && id in m.info
    ensures Inv(cfg, Touched(m, id, stats), pending, ahead)
  {
    var n := Touched(m, id, stats);
    SameEntriesKeep(cfg, m, n, pending, ahead);
    assert forall i :: i in m.info ==> IdIndexed(cfg, m, i);
  }

  /** Two places of `vRandom` exchanged. */
  function Swapped(m: Book, i: int, j: int): Book
    requires 0 <= i < |m.random| && 0 <= j < |m.random| && m.random[i] in m.info && m.random[j] in m.info
  {
    if i == j then m else
    var a, b := m.random[i], m.random[j];
    var moved := m.info[a := m.info[a].(randomPos := j)];
    if b !in moved then m else
    m.(info := moved[b := moved[b].(randomPos := i)], random := m.random[i := b][j := a])
  }

  lemma SwapKeeps(cfg: Config, m: Book, pending: set<int>, ahead: int, i: int, j: int)
    requires Inv(cfg, m, pending, ahead) && 0 <= i < |m.random| && 0 <= j < |m.random|
    ensures Inv(cfg, Swapped(m, i, j), pending, ahead) && SameEntries(m, Swapped(m, i, j))
    ensures m.random[i] in Swapped(m, i, j).info && Swapped(m, i, j).info[m.random[i]].randomPos == j
    ensures |Swapped(m, i, j).random| == |m.random| && Swapped(m, i, j).idCount == m.idCount
  {
    var n := Swapped(m, i, j);
    if i != j {
      var a, b := m.random[i], m.random[j];
      assert m.info[a].randomPos == i && m.info[b].randomPos == j;
      assert a != b;
      SameEntriesKeep(cfg, m, n, pending, ahead);
      SwapIndexed(cfg, m, i, j);
    }
  }

  lemma SwapIndexed(cfg: Config, m: Book, i: int, j: int)
    requires IndexOk(cfg, m) && 0 <= i < |m.random| && 0 <= j < |m.random| && i != j
    ensures IndexOk(cfg, Swapped(m, i, j))
  {
    var n := Swapped(m, i, j);
    var a, b := m.random[i], m.random[j];
    forall id | id in n.info
      ensures IdIndexed(cfg, n, id)
    {
      assert IdIndexed(cfg, m, id) && IdIndexed(cfg, m, a) && IdIndexed(cfg, m, b);
    }
  }

  /** The last place of `vRandom` and the maps lose an entry. */
  function Dropped(cfg: Config, m: Book, id: int): Book
    requires id in m.info && m.random != []
  {
    m.(random := m.random[..|m.random| - 1], addr := m.addr - {cfg.Key(m.info[id].service)}, info := m.info - {id},
       newCount := m.newCount - 1)
  }

  lemma DropIndexed(cfg: Config, m: Book, id: int)
    requires IndexOk(cfg, m) && id in m.info && m.info[id].randomPos == |m.random| - 1
    ensures m.random != [] && IndexOk(cfg, Dropped(cfg, m, id))
  {
    assert IdIndexed(cfg, m, id);
    var n := Dropped(cfg, m, id);
    forall x | x in n.info
      ensures IdIndexed(cfg, n, x)
    {
      assert IdIndexed(cfg, m, x);
    }
    forall k | k in n.addr
      ensures n.addr[k] in n.info && cfg.Key(n.info[n.addr[k]].service) == k
    {
      assert m.addr[k] in m.info && cfg.Key(m.info[m.addr[k]].service) == k;
    }
  }

  lemma MorePending(cfg: Config, m: Book, few: set<int>, many: set<int>)
    requires NewOk(cfg, m, few) && few <= many
    ensures NewOk(cfg, m, many)
  {
    forall id | id in m.info
      ensures NewEntryOk(cfg, m, many, id)
    {
      assert NewEntryOk(cfg, m, few, id);
    }
  }

  /** The tables do not miss an entry that is neither tried nor referenced. */
  lemma DropTables(cfg: Config, m: Book, pending: set<int>, ahead: int, id: int)
    requires TriedOk(cfg, m) && NewOk(cfg, m, pending) && CountsOk(m, ahead) && m.random != []
    requires 0 <= id && id in m.info && !m.info[id].inTried && m.info[id].refCount == 0
    ensures var n := Dropped(cfg, m, id);
      TriedOk(cfg, n) && NewOk(cfg, n, pending - {id}) && CountsOk(n, ahead)
  {
    var n := Dropped(cfg, m, id);
    assert NewEntryOk(cfg, m, pending, id);
    RefsNone(cfg, m.vvNew, m.info[id].service, id, NEW_BUCKETS);
    assert TriedIds(n) == TriedIds(m) && NewIds(n) == NewIds(m) - {id};
    forall b, p | 0 <= b < TRIED_BUCKETS && 0 <= p < BUCKET_SIZE
      ensures TriedPlaceOk(cfg, n, b, p)
    {
      assert TriedPlaceOk(cfg, m, b, p);
    }
    forall b, p | 0 <= b < NEW_BUCKETS && 0 <= p < BUCKET_SIZE
      ensures NewPlaceOk(cfg, n, b, p)
    {
      assert NewPlaceOk(cfg, m, b, p);
    }
    assert forall x :: x in n.info ==> TriedEntryOk(cfg, m, x) && NewEntryOk(cfg, m, pending, x);
  }

  /** An entry that is neither tried nor referenced can be dropped. */
  lemma DropKeeps(cfg: Config, m: Book, pending: set<int>, ahead: int, id: int)
    requires Inv(cfg, m, pending, ahead) && id in m.info && !m.info[id].inTried && m.info[id].refCount == 0
    requires m.info[id].randomPos == |m.random| - 1
    ensures m.random != [] && Inv(cfg, Dropped(cfg, m, id), pending - {id}, ahead)
  {
    assert IdIndexed(cfg, m, id);
    DropIndexed(cfg, m, id);
    DropTables(cfg, m, pending, ahead, id);
  }

  predicate InRandom(m: Book, id: int) {
    id in m.info && 0 <= m.info[id].randomPos < |m.random| && m.random[m.info[id].randomPos] == id
  }

  /** `Delete`: the entry is moved to the end of `vRandom` and dropped. */
  function Deleted(cfg: Config, m: Book, id: int): Book
    requires InRandom(m, id) && m.random[|m.random| - 1] in m.info
  {
    var s := Swapped(m, m.info[id].randomPos, |m.random| - 1);
    if id in s.info then Dropped(cfg, s, id) else s
  }

  lemma DeleteKeeps(cfg: Config, m: Book, pending: set<int>, ahead: int, id: int)
    requires Inv(cfg, m, pending, ahead) && id in m.info && !m.info[id].inTried && m.info[id].refCount == 0
    ensures IdIndexed(cfg, m, id) && m.random[|m.random| - 1] in m.info
    ensures Inv(cfg, Deleted(cfg, m, id), pending - {id}, ahead)
  {
    assert IdIndexed(cfg, m, id);
    var i, j := m.info[id].randomPos, |m.random| - 1;
    SwapKeeps(cfg, m, pending, ahead, i, j);
    assert SameEntry(m, Swapped(m, i, j), id);
    DropKeeps(cfg, Swapped(m, i, j), pending, ahead, id);
  }

  /** The other entries keep everything but their place in `vRandom`. */
  lemma DeletedOthers(cfg: Config, m: Book, id: int, x: int)
    requires IndexOk(cfg, m) && id in m.info && IdIndexed(cfg, m, id) && m.random[|m.random| - 1] in m.info
    ensures id !in Deleted(cfg, m, id).info
    ensures x != id ==> SameEntry(m, Deleted(cfg, m, id), x)
  {
  }

  /** A place of the new table emptied, and its entry's references counted down. */
  function Unreferenced(m: Book, b: int, p: int): Book
    requires 0 <= b < |m.vvNew| && 0 <= p < |m.vvNew[b]| && m.vvNew[b][p] in m.info
  {
    var id := m.vvNew[b][p];
    m.(vvNew := Put(m.vvNew, b, p, -1), info := m.info[id := m.info[id].(refCount := m.info[id].refCount - 1)])
  }

  /** A place of the new table given to an entry. */
  function Referenced(m: Book, b: int, p: int, id: int): Book
    requires 0 <= b < |m.vvNew| && 0 <= p < |m.vvNew[b]| && id in m.info
  {
    m.(vvNew := Put(m.vvNew, b, p, id), info := m.info[id := m.info[id].(refCount := m.info[id].refCount + 1)])
  }

  /** Only the references of one new entry differ. */
  ghost predicate Recounted(m: Book, n: Book, id: int)
    requires id in n.info
  {
    && id in m.info && !m.info[id].inTried
    && n == m.(info := m.info[id := m.info[id].(refCount := n.info[id].refCount)], vvNew := n.vvNew)
  }

  lemma RecountTables(cfg: Config, m: Book, n: Book, ahead: int, id: int)
    requires TriedOk(cfg, m) && CountsOk(m, ahead) && id in n.info && Recounted(m, n, id)
    ensures TriedOk(cfg, n) && CountsOk(n, ahead)
  {
    assert TriedIds(n) == TriedIds(m) && NewIds(n) == NewIds(m);
    forall x | x in n.info
      ensures TriedEntryOk(cfg, n, x)
    {
      assert TriedEntryOk(cfg, m, x);
    }
    forall b, p | 0 <= b < TRIED_BUCKETS && 0 <= p < BUCKET_SIZE
      ensures TriedPlaceOk(cfg, n, b, p)
    {
      assert TriedPlaceOk(cfg, m, b, p);
    }
  }

  lemma RecountKeeps(cfg: Config, m: Book, n: Book, ahead: int, id: int)
    requires IndexOk(cfg, m) && TriedOk(cfg, m) && CountsOk(m, ahead) && id in n.info && Recounted(m, n, id)
    ensures IndexOk(cfg, n) && TriedOk(cfg, n) && CountsOk(n, ahead)
  {
    RecountTables(cfg, m, n, ahead, id);
    RecountIndexed(cfg, m, n, id);
  }

  lemma RecountIndexed(cfg: Config, m: Book, n: Book, id: int)
    requires IndexOk(cfg, m) && id in n.info && Recounted(m, n, id)
    ensures IndexOk(cfg, n) && forall x :: x in m.info ==> 0 <= x
  {
    assert forall x :: x in m.info ==> IdIndexed(cfg, m, x);
  }

  lemma UnreferenceKeeps(cfg: Config, m: Book, pending: set<int>, ahead: int, b: int, p: int)
    requires Inv(cfg, m, pending, ahead) && 0 <= b < NEW_BUCKETS && 0 <= p < BUCKET_SIZE && m.vvNew[b][p] != -1
    ensures m.vvNew[b][p] in m.info && m.info[m.vvNew[b][p]].refCount > 0 && !m.info[m.vvNew[b][p]].inTried
    ensures Inv(cfg, Unreferenced(m, b, p), pending + {m.vvNew[b][p]}, ahead) && Survives(m, Unreferenced(m, b, p))
  {
    var id := m.vvNew[b][p];
    assert NewPlaceOk(cfg, m, b, p);
    assert NewEntryOk(cfg, m, pending, id);
    RefsNone(cfg, m.vvNew, m.info[id].service, id, NEW_BUCKETS);
    var n := Unreferenced(m, b, p);
    RecountKeeps(cfg, m, n, ahead, id);
    forall c, q | 0 <= c < NEW_BUCKETS && 0 <= q < BUCKET_SIZE
      ensures NewPlaceOk(cfg, n, c, q)
    {
      assert NewPlaceOk(cfg, m, c, q);
    }
    forall x | x in n.info
      ensures NewEntryOk(cfg, n, pending + {id}, x)
    {
      assert NewEntryOk(cfg, m, pending, x);
      RefsPut(cfg, m.vvNew, m.info[x].service, x, NEW_BUCKETS, b, p, -1);
      assert IdIndexed(cfg, m, x);
    }
  }

  /** An empty place may go to a new entry whose position it is. */
  lemma ReferenceTables(cfg: Config, m: Book, pending: set<int>, ahead: int, b: int, p: int, id: int)
    requires TriedOk(cfg, m) && NewOk(cfg, m, pending) && CountsOk(m, ahead) && forall x :: x in m.info ==> 0 <= x
    requires 0 <= b < NEW_BUCKETS && 0 <= p < BUCKET_SIZE && m.vvNew[b][p] == -1
    requires id in m.info && !m.info[id].inTried && m.info[id].refCount < MAX_REFS
    requires cfg.position(m.info[id].service, true, b) == p
    ensures var n := Referenced(m, b, p, id);
      TriedOk(cfg, n) && NewOk(cfg, n, pending - {id}) && CountsOk(n, ahead)
  {
    var n := Referenced(m, b, p, id);
    assert NewEntryOk(cfg, m, pending, id);
    RecountTables(cfg, m, n, ahead, id);
    forall c, q | 0 <= c < NEW_BUCKETS && 0 <= q < BUCKET_SIZE
      ensures NewPlaceOk(cfg, n, c, q)
    {
      assert NewPlaceOk(cfg, m, c, q);
    }
    forall x | x in n.info
      ensures NewEntryOk(cfg, n, pending - {id}, x)
    {
      assert NewEntryOk(cfg, m, pending, x);
      RefsPut(cfg, m.vvNew, m.info[x].service, x, NEW_BUCKETS, b, p, id);
    }
  }

  lemma ReferenceKeeps(cfg: Config, m: Book, pending: set<int>, ahead: int, b: int, p: int, id: int)
    requires Inv(cfg, m, pending, ahead) && 0 <= b < NEW_BUCKETS && 0 <= p < BUCKET_SIZE && m.vvNew[b][p] == -1
    requires id in m.info && !m.info[id].inTried && m.info[id].refCount < MAX_REFS
    requires cfg.position(m.info[id].service, true, b) == p
    ensures Inv(cfg, Referenced(m, b, p, id), pending - {id}, ahead) && Survives(m, Referenced(m, b, p, id))
  {
    RecountIndexed(cfg, m, Referenced(m, b, p, id), id);
    ReferenceTables(cfg, m, pending, ahead, b, p, id);
  }

  /** A tried place emptied, and its entry no longer tried. */
  function Demoted(m: Book, b: int, p: int): Book
    requires 0 <= b < |m.vvTried| && 0 <= p < |m.vvTried[b]| && m.vvTried[b][p] in m.info
  {
    var id := m.vvTried[b][p];
    m.(vvTried := Put(m.vvTried, b, p, -1), info := m.info[id := m.info[id].(inTried := false)],
       triedCount := m.triedCount - 1)
  }

  /** No place of the new table holds a tried entry. */
  lemma TriedUnreferenced(cfg: Config, m: Book, pending: set<int>, id: int)
    requires NewOk(cfg, m, pending) && id in m.info && m.info[id].inTried && id != -1
    ensures Refs(cfg, m.vvNew, m.info[id].service, id, NEW_BUCKETS) == 0
  {
    var s := m.info[id].service;
    forall b | 0 <= b < NEW_BUCKETS
      ensures m.vvNew[b][cfg.position(s, true, b)] != id
    {
      assert NewPlaceOk(cfg, m, b, cfg.position(s, true, b));
    }
    RefsNone(cfg, m.vvNew, s, id, NEW_BUCKETS);
  }

  lemma DemoteTables(cfg: Config, m: Book, pending: set<int>, b: int, p: int)
    requires IndexOk(cfg, m) && TriedOk(cfg, m) && NewOk(cfg, m, pending)
    requires 0 <= b < TRIED_BUCKETS && 0 <= p < BUCKET_SIZE && m.vvTried[b][p] != -1
    ensures m.vvTried[b][p] in m.info && TriedOk(cfg, Demoted(m, b, p))
    ensures NewOk(cfg, Demoted(m, b, p), pending + {m.vvTried[b][p]})
  {
    var id := m.vvTried[b][p];
    assert TriedPlaceOk(cfg, m, b, p);
    assert TriedEntryOk(cfg, m, id);
    var n := Demoted(m, b, p);
    TriedUnreferenced(cfg, m, pending, id);
    forall x | x in n.info
      ensures TriedEntryOk(cfg, n, x) && NewEntryOk(cfg, n, pending + {id}, x)
    {
      assert TriedEntryOk(cfg, m, x) && NewEntryOk(cfg, m, pending, x);
    }
    forall c, q | 0 <= c < TRIED_BUCKETS && 0 <= q < BUCKET_SIZE
      ensures TriedPlaceOk(cfg, n, c, q)
    {
      assert TriedPlaceOk(cfg, m, c, q);
    }
    forall c, q | 0 <= c < NEW_BUCKETS && 0 <= q < BUCKET_SIZE
      ensures NewPlaceOk(cfg, n, c, q)
    {
      assert NewPlaceOk(cfg, m, c, q);
    }
  }

  lemma DemoteKeeps(cfg: Config, m: Book, pending: set<int>, ahead: int, b: int, p: int)
    requires Inv(cfg, m, pending, ahead)
    requires 0 <= b < TRIED_BUCKETS && 0 <= p < BUCKET_SIZE && m.vvTried[b][p] != -1
    ensures m.vvTried[b][p] in m.info && m.info[m.vvTried[b][p]].inTried
    ensures Inv(cfg, Demoted(m, b, p), pending + {m.vvTried[b][p]}, ahead + 1)
  {
    var id := m.vvTried[b][p];
    assert TriedPlaceOk(cfg, m, b, p);
    DemoteTables(cfg, m, pending, b, p);
    var n := Demoted(m, b, p);
    assert TriedIds(n) == TriedIds(m) - {id} && NewIds(n) == NewIds(m) + {id};
    forall x | x in n.info
      ensures IdIndexed(cfg, n, x)
    {
      assert IdIndexed(cfg, m, x);
    }
  }

  /** An unreferenced entry put into its tried place. */
  function Promoted(cfg: Config, m: Book, id: int): Book
    requires id in m.info && IsTable(m.vvTried, TRIED_BUCKETS)
  {
    var s := m.info[id].service;
    m.(vvTried := Put(m.vvTried, cfg.triedBucket(s), cfg.TriedPosition(s), id),
       info := m.info[id := m.info[id].(inTried := true)], triedCount := m.triedCount + 1)
  }

  lemma PromoteTables(cfg: Config, m: Book, pending: set<int>, id: int)
    requires IndexOk(cfg, m) && TriedOk(cfg, m) && NewOk(cfg, m, pending) && id in m.info
    requires !m.info[id].inTried && m.info[id].refCount == 0
    requires m.vvTried[cfg.triedBucket(m.info[id].service)][cfg.TriedPosition(m.info[id].service)] == -1
    ensures TriedOk(cfg, Promoted(cfg, m, id)) && NewOk(cfg, Promoted(cfg, m, id), pending - {id})
  {
    var n := Promoted(cfg, m, id);
    assert NewEntryOk(cfg, m, pending, id) && IdIndexed(cfg, m, id);
    RefsNone(cfg, m.vvNew, m.info[id].service, id, NEW_BUCKETS);
    forall x | x in n.info
      ensures TriedEntryOk(cfg, n, x) && NewEntryOk(cfg, n, pending - {id}, x)
    {
      assert TriedEntryOk(cfg, m, x) && NewEntryOk(cfg, m, pending, x) && IdIndexed(cfg, m, x);
    }
    forall c, q | 0 <= c < TRIED_BUCKETS && 0 <= q < BUCKET_SIZE
      ensures TriedPlaceOk(cfg, n, c, q)
    {
      assert TriedPlaceOk(cfg, m, c, q);
    }
    forall c, q | 0 <= c < NEW_BUCKETS && 0 <= q < BUCKET_SIZE
      ensures NewPlaceOk(cfg, n, c, q)
    {
      assert NewPlaceOk(cfg, m, c, q);
    }
  }

  lemma PromoteKeeps(cfg: Config, m: Book, pending: set<int>, ahead: int, id: int)
    requires Inv(cfg, m, pending, ahead) && id in m.info && !m.info[id].inTried && m.info[id].refCount == 0
    requires m.vvTried[cfg.triedBucket(m.info[id].service)][cfg.TriedPosition(m.info[id].service)] == -1
    ensures Inv(cfg, Promoted(cfg, m, id), pending - {id}, ahead - 1)
  {
    PromoteTables(cfg, m, pending, id);
    var n := Promoted(cfg, m, id);
    assert TriedIds(n) == TriedIds(m) + {id} && NewIds(n) == NewIds(m) - {id};
    forall x | x in n.info
      ensures IdIndexed(cfg, n, x)
    {
      assert IdIndexed(cfg, m, x);
    }
  }

  /** A new entry, in none of the tables yet. */
  function Created(cfg: Config, m: Book, service: Service, source: NetAddr, stats: Stats): Book {
    var id := m.idCount;
    m.(idCount := id + 1, info := m.info[id := Info(service, source, stats, 0, false, |m.random|)],
       addr := m.addr[cfg.Key(service) := id], random := m.random + [id])
  }

  lemma CreateTables(cfg: Config, m: Book, pending: set<int>, service: Service, source: NetAddr, stats: Stats)
    requires IndexOk(cfg, m) && TriedOk(cfg, m) && NewOk(cfg, m, pending)
    ensures TriedOk(cfg, Created(cfg, m, service, source, stats))
    ensures NewOk(cfg, Created(cfg, m, service, source, stats), pending + {m.idCount})
  {
    var n := Created(cfg, m, service, source, stats);
    var id := m.idCount;
    forall b, p | 0 <= b < NEW_BUCKETS && 0 <= p < BUCKET_SIZE
      ensures NewPlaceOk(cfg, n, b, p) && n.vvNew[b][p] != id
    {
      assert NewPlaceOk(cfg, m, b, p);
      if m.vvNew[b][p] != -1 {
        assert IdIndexed(cfg, m, m.vvNew[b][p]);
      }
    }
    forall b, p | 0 <= b < TRIED_BUCKETS && 0 <= p < BUCKET_SIZE
      ensures TriedPlaceOk(cfg, n, b, p)
    {
      assert TriedPlaceOk(cfg, m, b, p);
      if m.vvTried[b][p] != -1 {
        assert IdIndexed(cfg, m, m.vvTried[b][p]);
      }
    }
    RefsNone(cfg, n.vvNew, service, id, NEW_BUCKETS);
    forall x | x in n.info
      ensures TriedEntryOk(cfg, n, x) && NewEntryOk(cfg, n, pending + {id}, x)
    {
      if x != id {
        assert TriedEntryOk(cfg, m, x) && NewEntryOk(cfg, m, pending, x);
      }
    }
  }

  lemma CreateIndexed(cfg: Config, m: Book, service: Service, source: NetAddr, stats: Stats)
    requires IndexOk(cfg, m) && cfg.Key(service) !in m.addr
    ensures IndexOk(cfg, Created(cfg, m, service, source, stats))
  {
    var n := Created(cfg, m, service, source, stats);
    forall x | x in n.info
      ensures IdIndexed(cfg, n, x)
    {
      if x != m.idCount {
        assert IdIndexed(cfg, m, x);
      }
    }
    forall k | k in n.addr
      ensures n.addr[k] in n.info && cfg.Key(n.info[n.addr[k]].service) == k
    {
      if k != cfg.Key(service) {
        assert IdIndexed(cfg, m, m.addr[k]);
      }
    }
    forall i | 0 <= i < |n.random|
      ensures n.random[i] in n.info && n.info[n.random[i]].randomPos == i
    {
      if i < |m.random| {
        assert IdIndexed(cfg, m, m.random[i]);
      }
    }
  }

  lemma CreateKeeps(cfg: Config, m: Book, pending: set<int>, ahead: int, service: Service, source: NetAddr,
                    stats: Stats)
    requires Inv(cfg, m, pending, ahead) && cfg.Key(service) !in m.addr
    ensures Inv(cfg, Created(cfg, m, service, source, stats), pending + {m.idCount}, ahead + 1)
  {
    CreateTables(cfg, m, pending, service, source, stats);
    CreateIndexed(cfg, m, service, source, stats);
    var n := Created(cfg, m, service, source, stats);
    assert forall x :: x in m.info ==> IdIndexed(cfg, m, x);
    assert m.idCount !in m.info;
    assert TriedIds(n) == TriedIds(m) && NewIds(n) == NewIds(m) + {m.idCount};
  }

  function EmptyTable(rows: nat): (t: Table)
    ensures IsTable(t, rows) && forall b, p :: 0 <= b < rows && 0 <= p < BUCKET_SIZE ==> t[b][p] == -1
  {
    seq(rows, _ => seq(BUCKET_SIZE, _ => -1))
  }

  /** What `Clear` leaves. */
  function EmptyBook(): Book {
    Book(0, map[], map[], [], 0, 0, EmptyTable(TRIED_BUCKETS), EmptyTable(NEW_BUCKETS))
  }

  lemma EmptyConsistent(cfg: Config)
    ensures Consistent(cfg, EmptyBook())
  {
    var m := EmptyBook();
    assert TriedIds(m) == {} && NewIds(m) == {};
  }

  // ---------------------------------------------------------------------------------------------------------------
  // What consistency means for a user
  // ---------------------------------------------------------------------------------------------------------------

  lemma {:induction false} AllIn(random: seq<int>, ids: set<int>)
    requires forall i, j :: 0 <= i < j < |random| ==> random[i] != random[j]
    requires forall id :: id in ids <==> id in random
    ensures |ids| == |random|
    decreases |random|
  {
    if random == [] {
      assert forall id :: id in ids ==> id in random;
      assert ids == {};
    } else {
      var last, rest := random[|random| - 1], random[..|random| - 1];
      forall id
        ensures id in ids - {last} <==> id in rest
      {
        if id in random {
          var i :| 0 <= i < |random| && random[i] == id;
          assert i < |rest| ==> rest[i] == id;
        }
      }
      AllIn(rest, ids - {last});
    }
  }

  /** `vRandom` lists every id once, so its length is the sum of the two counters. */
  lemma SizeIsSum(cfg: Config, m: Book)
    requires Consistent(cfg, m)
    ensures |m.random| == m.triedCount + m.newCount
  {
    var ids := TriedIds(m) + NewIds(m);
    forall id
      ensures id in ids <==> id in m.random
    {
      if id in m.info {
        assert IdIndexed(cfg, m, id);
      }
    }
    AllIn(m.random, ids);
    assert TriedIds(m) !! NewIds(m);
  }
}
