/**
 The stochastic address manager. Every operation keeps the tables consistent, and the assertions of the code stand
 where the code has them. Hashes, random draws, the clock and the verdict "terrible" are parameters; the key and the
 map of autonomous systems are fixed.
 */
module AddrMan {
  import opened Wrappers
  import opened Arithmetic
  import opened AddrBook

  const MAX_COLLISIONS := 10
  const REPLACEMENT_SECONDS := 4 * 60 * 60
  const TEST_WINDOW := 40 * 60

  lemma IdsNatural(cfg: Config, m: Book)
    requires IndexOk(cfg, m)
    ensures forall id :: id in m.info ==> 0 <= id < m.idCount
  {
    assert forall id :: id in m.info ==> IdIndexed(cfg, m, id);
  }

  /** An entry with references need not be pending. */
  lemma NotPending(cfg: Config, m: Book, pending: set<int>, ahead: int, id: int)
    requires Inv(cfg, m, pending + {id}, ahead) && (id in m.info ==> m.info[id].refCount >= 1)
    ensures Inv(cfg, m, pending, ahead)
  {
    forall x | x in m.info
      ensures NewEntryOk(cfg, m, pending, x)
    {
      assert NewEntryOk(cfg, m, pending + {id}, x);
    }
  }

  lemma CountShift(cfg: Config, m: Book, pending: set<int>, ahead: int, k: int)
    requires Inv(cfg, m, pending, ahead)
    ensures Inv(cfg, m.(newCount := m.newCount + k), pending, ahead - k)
  {
    var n := m.(newCount := m.newCount + k);
    assert TriedIds(n) == TriedIds(m) && NewIds(n) == NewIds(m);
    forall id | id in n.info
      ensures IdIndexed(cfg, n, id) && TriedEntryOk(cfg, n, id) && NewEntryOk(cfg, n, pending, id)
    {
      assert IdIndexed(cfg, m, id) && TriedEntryOk(cfg, m, id) && NewEntryOk(cfg, m, pending, id);
    }
    assert forall b, p :: 0 <= b < TRIED_BUCKETS && 0 <= p < BUCKET_SIZE ==>
        TriedPlaceOk(cfg, m, b, p) && TriedPlaceOk(cfg, n, b, p);
    assert forall b, p :: 0 <= b < NEW_BUCKETS && 0 <= p < BUCKET_SIZE ==>
        NewPlaceOk(cfg, m, b, p) && NewPlaceOk(cfg, n, b, p);
  }

  /** What emptying a place of the new table does to the entries. */
  ghost predicate ClearedAt(m: Book, n: Book, b: int, p: int)
    requires IsTable(m.vvNew, NEW_BUCKETS) && 0 <= b < NEW_BUCKETS && 0 <= p < BUCKET_SIZE
  {
    var id := m.vvNew[b][p];
    && n.vvNew == Put(m.vvNew, b, p, -1)
    && n.idCount == m.idCount && n.triedCount == m.triedCount && n.vvTried == m.vvTried
    && (forall x :: x != id ==> SameEntry(m, n, x))
    && (id in n.info ==> id in m.info && m.info[id].refCount > 1 && n.info[id].service == m.info[id].service
                         && n.info[id].source == m.info[id].source && !n.info[id].inTried)
  }

  lemma PutSame(t: Table, b: int, p: int)
    requires 0 <= b < |t| && 0 <= p < |t[b]|
    ensures Put(t, b, p, t[b][p]) == t
  {
    assert t[b][p := t[b][p]] == t[b];
  }

  /** The entry has other references. */
  lemma ClearShared(cfg: Config, m: Book, pending: set<int>, ahead: int, b: int, p: int)
    requires Inv(cfg, m, pending, ahead) && 0 <= b < NEW_BUCKETS && 0 <= p < BUCKET_SIZE
    requires m.vvNew[b][p] in m.info && m.vvNew[b][p] != -1 && m.info[m.vvNew[b][p]].refCount != 1
    ensures Inv(cfg, Unreferenced(m, b, p), pending, ahead) && ClearedAt(m, Unreferenced(m, b, p), b, p)
  {
    UnreferenceKeeps(cfg, m, pending, ahead, b, p);
    NotPending(cfg, Unreferenced(m, b, p), pending, ahead, m.vvNew[b][p]);
  }

  /** The entry had its last reference there. */
  lemma ClearLast(cfg: Config, m: Book, pending: set<int>, ahead: int, b: int, p: int)
    requires Inv(cfg, m, pending, ahead) && 0 <= b < NEW_BUCKETS && 0 <= p < BUCKET_SIZE
    requires m.vvNew[b][p] in m.info && m.vvNew[b][p] != -1 && m.info[m.vvNew[b][p]].refCount == 1
    ensures var id, u := m.vvNew[b][p], Unreferenced(m, b, p);
      && !u.info[id].inTried && u.info[id].refCount == 0
      && IdIndexed(cfg, u, id) && u.random[|u.random| - 1] in u.info
      && Inv(cfg, Deleted(cfg, u, id), pending, ahead) && ClearedAt(m, Deleted(cfg, u, id), b, p)
  {
    var id, u := m.vvNew[b][p], Unreferenced(m, b, p);
    UnreferenceKeeps(cfg, m, pending, ahead, b, p);
    DeleteKeeps(cfg, u, pending + {id}, ahead, id);
    var n := Deleted(cfg, u, id);
    MorePending(cfg, n, pending + {id} - {id}, pending);
    forall x | x != id
      ensures SameEntry(m, n, x)
    {
      DeletedOthers(cfg, u, id, x);
    }
    DeletedOthers(cfg, u, id, id);
  }

  /** The place that an entry gets in the new table when it comes back from the tried table. */
  function HomeBucket(cfg: Config, i: Info): NewBucket { cfg.newBucket(i.service, i.source) }

  function HomePosition(cfg: Config, i: Info): Position { cfg.position(i.service, true, HomeBucket(cfg, i)) }

  /** The new table without an id. */
  ghost predicate Purged(t: Table, u: Table, id: int) {
    && IsTable(t, NEW_BUCKETS) && IsTable(u, NEW_BUCKETS)
    && (forall b, p :: 0 <= b < NEW_BUCKETS && 0 <= p < BUCKET_SIZE ==>
          u[b][p] == if t[b][p] == id then -1 else t[b][p])
  }

  /** A tried entry `e` moved back to its home in the new table, where the entry before it lost a reference. */
  ghost predicate SentHome(cfg: Config, m: Book, n: Book, e: int)
    requires e in m.info && IsTable(m.vvNew, NEW_BUCKETS)
  {
    var b, p := HomeBucket(cfg, m.info[e]), HomePosition(cfg, m.info[e]);
    && n.idCount == m.idCount && n.vvNew == Put(m.vvNew, b, p, e)
    && e in n.info && !n.info[e].inTried && n.info[e].refCount == 1
    && n.info[e].service == m.info[e].service && n.info[e].source == m.info[e].source
    && (forall x :: x != e && x != m.vvNew[b][p] ==> SameEntry(m, n, x))
    && (forall x :: x == m.vvNew[b][p] && x in n.info ==>
          x in m.info && m.info[x].refCount > 1 && n.info[x].service == m.info[x].service
          && n.info[x].source == m.info[x].source && !n.info[x].inTried)
  }

  /** An entry and another state's entry of the same id are about the same service. */
  ghost predicate SameService(m: Book, n: Book, id: int) {
    id in m.info && id in n.info
    && n.info[id].service == m.info[id].service && n.info[id].source == m.info[id].source
  }

  /**
   An entry moved to its place in the tried table. Whatever was there is back in the new table with one reference, and
   of the other entries only the one that held that home may have lost a reference, or be gone with its last one.
   */
  ghost predicate MadeTried(cfg: Config, m: Book, n: Book, id: int)
    requires id in m.info && IsTable(m.vvTried, TRIED_BUCKETS) && IsTable(m.vvNew, NEW_BUCKETS)
  {
    var b, p := cfg.triedBucket(m.info[id].service), cfg.TriedPosition(m.info[id].service);
    var e := m.vvTried[b][p];
    && n.idCount == m.idCount && n.vvTried == Put(m.vvTried, b, p, id)
    && SameService(m, n, id) && n.info[id].inTried
    && (e == -1 ==> forall x :: x != id ==> SameEntry(m, n, x))
    && (e != -1 ==> Replaced(cfg, m, n, id, e))
  }

  ghost predicate Replaced(cfg: Config, m: Book, n: Book, id: int, e: int)
    requires IsTable(m.vvNew, NEW_BUCKETS)
  {
    && SameService(m, n, e) && !n.info[e].inTried && n.info[e].refCount == 1
    && IsTable(n.vvNew, NEW_BUCKETS)
    && n.vvNew[HomeBucket(cfg, m.info[e])][HomePosition(cfg, m.info[e])] == e
    && var held := m.vvNew[HomeBucket(cfg, m.info[e])][HomePosition(cfg, m.info[e])];
       && (forall x :: x != id && x != e && x != held ==> SameEntry(m, n, x))
       && (held != id && held in n.info ==>
             SameService(m, n, held) && m.info[held].refCount > 1 && !n.info[held].inTried)
  }

  lemma MadeTriedSurvives(cfg: Config, m: Book, n: Book, id: int)
    requires id in m.info && IsTable(m.vvTried, TRIED_BUCKETS) && IsTable(m.vvNew, NEW_BUCKETS) && id != -1
    requires MadeTried(cfg, m, n, id)
    ensures Survives(m, n) && TriedKept(m, n)
  {
    forall x | x in n.info && x < m.idCount
      ensures SameService(m, n, x)
    {
      assert SameEntry(m, n, x) || SameService(m, n, x);
    }
  }

  lemma PutTwice(t: Table, b: int, p: int, v: int, w: int)
    requires 0 <= b < |t| && 0 <= p < |t[b]|
    ensures Put(Put(t, b, p, v), b, p, w) == Put(t, b, p, w)
  {
    assert t[b][p := v][p := w] == t[b][p := w];
  }

  function GoodStats(s: Stats, time: int): Stats {
    s.(lastSuccess := time, lastTry := time, attempts := 0)
  }

  /** The place that an entry has, or would have, in the tried table. */
  function TriedHolder(cfg: Config, m: Book, id: int): int
    requires id in m.info && IsTable(m.vvTried, TRIED_BUCKETS)
  {
    m.vvTried[cfg.triedBucket(m.info[id].service)][cfg.TriedPosition(m.info[id].service)]
  }

  /** The entry that is about exactly this service, if there is one. */
  ghost predicate Knows(cfg: Config, m: Book, service: Service, id: int) {
    cfg.Key(service) in m.addr && m.addr[cfg.Key(service)] == id && id in m.info && m.info[id].service == service
  }

  /** What marking a service good does. */
  ghost predicate GoodDone(cfg: Config, m: Book, c: set<int>, n: Book, d: set<int>, id: int, test: bool, time: int)
    requires id in m.info && IsTable(m.vvTried, TRIED_BUCKETS) && IsTable(m.vvNew, NEW_BUCKETS)
  {
    var t := Touched(m, id, GoodStats(m.info[id].stats, time));
    if m.info[id].inTried then n == t && d == c
    else if test && TriedHolder(cfg, m, id) != -1 then n == t && d == if |c| < MAX_COLLISIONS then c + {id} else c
    else MadeTried(cfg, t, n, id) && d == c
  }

  lemma TouchSurvives(m: Book, id: int, stats: Stats)
    requires id in m.info && IsTable(m.vvTried, TRIED_BUCKETS)
    ensures Survives(m, Touched(m, id, stats)) && TriedKept(m, Touched(m, id, stats))
  {
  }

  lemma SurvivesTrans(m: Book, n: Book, r: Book)
    requires Survives(m, n) && Survives(n, r) && TriedKept(m, n) && TriedKept(n, r)
    ensures Survives(m, r) && TriedKept(m, r)
  {
  }

  lemma OneMore(c: set<int>, id: int)
    ensures |c + {id}| <= |c| + 1
  {
    if id in c {
      assert c + {id} == c;
    }
  }

  /** An operation lets the blocked collisions wait on, and adds at most one that is blocked. */
  lemma CollisionsKept(cfg: Config, m: Book, c: set<int>, n: Book, d: set<int>)
    requires CollisionsOk(cfg, m, c) && Survives(m, n) && TriedKept(m, n) && |d| <= MAX_COLLISIONS
    requires forall id :: id in d && id !in c ==> id in m.info && id < m.idCount && TriedHolder(cfg, m, id) != -1
    ensures CollisionsOk(cfg, n, d)
  {
  }

  /** What is learned about a known service from hearing of it again. */
  function Refreshed(s: Stats, services: set<nat>, time: int, penalty: int, now: int): Stats {
    var interval := if now - time < 24 * 60 * 60 then 60 * 60 else 24 * 60 * 60;
    var t := if time != 0 && (s.time == 0 || s.time < time - interval - penalty)
             then (if time - penalty > 0 then time - penalty else 0) else s.time;
    s.(time := t, services := s.services + services)
  }

  function FirstStats(services: set<nat>, time: int, penalty: int): Stats {
    Stats(services, if time - penalty > 0 then time - penalty else 0, 0, 0, 0, 0)
  }

  /** An entry put into a place of the new table, whose holder lost a reference. */
  ghost predicate Inserted(m: Book, n: Book, id: int, b: int, p: int)
    requires IsTable(m.vvNew, NEW_BUCKETS) && 0 <= b < NEW_BUCKETS && 0 <= p < BUCKET_SIZE
  {
    && n.vvNew == Put(m.vvNew, b, p, id) && SameService(m, n, id) && !n.info[id].inTried
    && n.info[id].refCount == m.info[id].refCount + 1
    && var held := m.vvNew[b][p];
       && (forall x :: x != id && x != held ==> SameEntry(m, n, x))
       && (held in n.info ==> SameService(m, n, held) && m.info[held].refCount > 1 && !n.info[held].inTried)
  }

  /** What adding a reference does: only a terrible entry, or one with spare references, makes room. */
  ghost predicate PlaceDone(m: Book, n: Book, id: int, b: int, p: int, terrible: Stats -> bool)
    requires IsTable(m.vvNew, NEW_BUCKETS) && 0 <= b < NEW_BUCKETS && 0 <= p < BUCKET_SIZE && id in m.info
  {
    var held := m.vvNew[b][p];
    n.idCount == m.idCount && n.vvTried == m.vvTried && n.triedCount == m.triedCount &&
    if held == id then n == m
    else if held == -1 || (held in m.info && (terrible(m.info[held].stats)
                                             || (m.info[held].refCount > 1 && m.info[id].refCount == 0)))
    then Inserted(m, n, id, b, p)
    else if m.info[id].refCount == 0
    then n.vvNew == m.vvNew && id !in n.info && forall x :: x != id ==> SameEntry(m, n, x)
    else n == m
  }

  /** The news is news, the entry is new and short of references, and one draw in `2 ^ refCount` is lucky. */
  predicate WantsPlace(i: Info, time: int, draw: int -> int) {
    && time != 0 && (i.stats.time == 0 || time > i.stats.time) && !i.inTried && 0 <= i.refCount != MAX_REFS
    && (i.refCount > 0 ==> draw(Pow2(i.refCount)) == 0)
  }

  /** A known service heard of again: its entry is refreshed, and may get a further place. */
  ghost predicate HeardAgain(cfg: Config, m: Book, n: Book, id: int, source: NetAddr, stats: Stats, time: int,
                             draw: int -> int, terrible: Stats -> bool)
    requires id in m.info && IsTable(m.vvNew, NEW_BUCKETS)
  {
    var t := Touched(m, id, stats);
    var b := cfg.newBucket(m.info[id].service, source);
    if WantsPlace(t.info[id], time, draw)
    then PlaceDone(t, n, id, b, cfg.position(m.info[id].service, true, b), terrible)
    else n == t
  }

  /** An entry created and counted. */
  function Counted(cfg: Config, m: Book, service: Service, source: NetAddr, stats: Stats): Book {
    Created(cfg, m, service, source, stats).(newCount := m.newCount + 1)
  }

  /** An unknown service heard of: its entry gets one place, or is forgotten again. */
  ghost predicate HeardFirst(cfg: Config, m: Book, n: Book, service: Service, source: NetAddr, stats: Stats,
                             terrible: Stats -> bool)
    requires IsTable(m.vvNew, NEW_BUCKETS)
  {
    var b := cfg.newBucket(service, source);
    PlaceDone(Counted(cfg, m, service, source, stats), n, m.idCount, b, cfg.position(service, true, b), terrible)
  }

  lemma CountedKeeps(cfg: Config, m: Book, service: Service, source: NetAddr, stats: Stats)
    requires Consistent(cfg, m) && cfg.Key(service) !in m.addr
    ensures Inv(cfg, Counted(cfg, m, service, source, stats), {m.idCount}, 0)
    ensures Survives(m, Counted(cfg, m, service, source, stats))
  {
    CreateKeeps(cfg, m, {}, 0, service, source, stats);
    assert {} + {m.idCount} == {m.idCount};
    CountShift(cfg, Created(cfg, m, service, source, stats), {m.idCount}, 1, 1);
  }

  lemma PlaceSurvives(m: Book, n: Book, id: int, b: int, p: int, terrible: Stats -> bool)
    requires IsTable(m.vvNew, NEW_BUCKETS) && 0 <= b < NEW_BUCKETS && 0 <= p < BUCKET_SIZE && id in m.info
    requires PlaceDone(m, n, id, b, p, terrible) && IsTable(m.vvTried, TRIED_BUCKETS)
    ensures Survives(m, n) && TriedKept(m, n)
  {
    forall x | x in n.info && x < m.idCount
      ensures SameService(m, n, x)
    {
      assert SameEntry(m, n, x) || SameService(m, n, x);
    }
  }

  /** After its holder was cleared out, a place can be given to another entry. */
  lemma InsertReached(cfg: Config, m: Book, n: Book, id: int, b: int, p: int)
    requires Inv(cfg, m, {id}, 0) && Inv(cfg, n, {id}, 0) && 0 <= b < NEW_BUCKETS && 0 <= p < BUCKET_SIZE
    requires id in m.info && !m.info[id].inTried && m.info[id].refCount < MAX_REFS && m.vvNew[b][p] != id
    requires cfg.position(m.info[id].service, true, b) == p && ClearedAt(m, n, b, p)
    ensures id in n.info && Consistent(cfg, Referenced(n, b, p, id)) && Inserted(m, Referenced(n, b, p, id), id, b, p)
  {
    assert SameEntry(m, n, id);
    ReferenceKeeps(cfg, n, {id}, 0, b, p, id);
    assert {id} - {id} == {};
    PutTwice(m.vvNew, b, p, -1, id);
    var r := Referenced(n, b, p, id);
    forall x | x != id && x != m.vvNew[b][p]
      ensures SameEntry(m, r, x)
    {
      assert SameEntry(m, n, x);
    }
  }

  lemma DropReached(cfg: Config, m: Book, id: int)
    requires Inv(cfg, m, {id}, 0) && id in m.info && !m.info[id].inTried && m.info[id].refCount == 0
    ensures IdIndexed(cfg, m, id) && m.random[|m.random| - 1] in m.info
    ensures var r := Deleted(cfg, m, id);
      Consistent(cfg, r) && id !in r.info && forall x :: x != id ==> SameEntry(m, r, x)
  {
    DeleteKeeps(cfg, m, {id}, 0, id);
    assert {id} - {id} == {};
    forall x | x != id
      ensures SameEntry(m, Deleted(cfg, m, id), x)
    {
      DeletedOthers(cfg, m, id, x);
    }
    DeletedOthers(cfg, m, id, id);
  }

  lemma HeldCounts(cfg: Config, m: Book, pending: set<int>, b: int, p: int)
    requires NewOk(cfg, m, pending) && 0 <= b < NEW_BUCKETS && 0 <= p < BUCKET_SIZE && m.vvNew[b][p] != -1
    ensures m.vvNew[b][p] in m.info && m.info[m.vvNew[b][p]].refCount >= 1
  {
    var id := m.vvNew[b][p];
    assert NewPlaceOk(cfg, m, b, p);
    assert NewEntryOk(cfg, m, pending, id);
    RefsNone(cfg, m.vvNew, m.info[id].service, id, NEW_BUCKETS);
  }

  function AttemptStats(s: Stats, countFailure: bool, time: int, lastGood: int): Stats {
    if countFailure && s.lastCountAttempt < lastGood
    then s.(lastTry := time, lastCountAttempt := time, attempts := s.attempts + 1)
    else s.(lastTry := time)
  }

  /** The ids, in order, whose entries are not terrible. */
  function Decent(info: map<int, Info>, ids: seq<int>, terrible: Stats -> bool): seq<int>
    requires forall i :: 0 <= i < |ids| ==> ids[i] in info
  {
    if ids == [] then []
    else
      var last := ids[|ids| - 1];
      Decent(info, ids[..|ids| - 1], terrible) + if terrible(info[last].stats) then [] else [last]
  }

  /** How many addresses are given away at once. */
  function ShareOf(size: nat): nat {
    var n := 23 * size / 100;
    if n > 2500 then 2500 else n
  }

  /** Nothing but the order of `vRandom` differs. */
  ghost predicate Shuffled(m: Book, n: Book) {
    && SameEntries(m, n) && n.addr == m.addr && n.idCount == m.idCount && |n.random| == |m.random|
    && (forall id :: id in m.info && id in n.info ==> n.info[id].stats == m.info[id].stats)
  }

  lemma SwapShuffles(cfg: Config, m: Book, n: Book, i: int, j: int)
    requires Shuffled(m, n) && Consistent(cfg, n) && 0 <= i < |n.random| && 0 <= j < |n.random|
    ensures Shuffled(m, Swapped(n, i, j)) && Consistent(cfg, Swapped(n, i, j))
  {
    SwapKeeps(cfg, n, {}, 0, i, j);
    var r := Swapped(n, i, j);
    forall id
      ensures SameEntry(m, r, id)
    {
      assert SameEntry(m, n, id) && SameEntry(n, r, id);
    }
    forall id | id in m.info && id in r.info
      ensures r.info[id].stats == m.info[id].stats
    {
      assert SameEntry(m, n, id);
    }
  }

  /** What becomes of a collision. */
  datatype Verdict = Erase | Replace | Keep

  function Judge(holder: Stats, waiting: Stats, now: int): Verdict {
    if now - holder.lastSuccess < REPLACEMENT_SECONDS then Erase
    else if now - holder.lastTry < REPLACEMENT_SECONDS then (if now - holder.lastTry > 60 then Replace else Keep)
    else if now - waiting.lastSuccess > TEST_WINDOW then Replace
    else Keep
  }

  /** What resolving one collision does. */
  ghost predicate ResolvedOne(cfg: Config, m: Book, c: set<int>, n: Book, id: int, erase: bool, now: int,
                              valid: Service -> bool)
    requires IsTable(m.vvTried, TRIED_BUCKETS) && IsTable(m.vvNew, NEW_BUCKETS)
  {
    if id !in m.info || !valid(m.info[id].service) then erase && n == m
    else
      var holder := TriedHolder(cfg, m, id);
      if holder == -1 then erase && GoodDone(cfg, m, c, n, c, id, false, now)
      else
        && holder in m.info
        && match Judge(m.info[holder].stats, m.info[id].stats, now)
           case Erase => erase && n == m
           case Keep => !erase && n == m
           case Replace => erase && GoodDone(cfg, m, c, n, c, id, false, now)
  }

  /** One turn of the loop over the collisions: those still waiting, the one looked at, and the manager around it. */
  datatype Turn = Turn(waiting: set<int>, id: int, erase: bool, before: Book, after: Book)

  ghost predicate TurnOk(cfg: Config, t: Turn, now: int, valid: Service -> bool) {
    && IsTable(t.before.vvTried, TRIED_BUCKETS) && IsTable(t.before.vvNew, NEW_BUCKETS)
    && ResolvedOne(cfg, t.before, t.waiting, t.after, t.id, t.erase, now, valid)
  }

  /** The manager and the collisions before the `i`-th turn. */
  ghost function BookAt(m: Book, turns: seq<Turn>, i: nat): Book
    requires i <= |turns|
  {
    if i == 0 then m else turns[i - 1].after
  }

  ghost function WaitingAt(c: set<int>, turns: seq<Turn>, i: nat): set<int>
    requires i <= |turns|
  {
    if i == 0 then c else
    var t := turns[i - 1];
    if t.erase then t.waiting - {t.id} else t.waiting
  }

  /** The `i`-th turn starts from what the turns before it left, and does what the times say. */
  ghost predicate TurnAt(cfg: Config, m: Book, c: set<int>, turns: seq<Turn>, i: nat, now: int, valid: Service -> bool)
    requires i < |turns|
  {
    && turns[i].before == BookAt(m, turns, i) && turns[i].waiting == WaitingAt(c, turns, i)
    && TurnOk(cfg, turns[i], now, valid)
  }

  /** The turns lead from one manager and its collisions to another. */
  ghost predicate Resolved(cfg: Config, m: Book, c: set<int>, turns: seq<Turn>, n: Book, d: set<int>, now: int,
                           valid: Service -> bool)
  {
    && (forall i :: 0 <= i < |turns| ==> TurnAt(cfg, m, c, turns, i, now, valid))
    && n == BookAt(m, turns, |turns|) && d == WaitingAt(c, turns, |turns|)
  }

  lemma TurnStays(cfg: Config, m: Book, c: set<int>, turns: seq<Turn>, t: Turn, i: nat, now: int,
                  valid: Service -> bool)
    requires i < |turns| && TurnAt(cfg, m, c, turns, i, now, valid)
    ensures TurnAt(cfg, m, c, turns + [t], i, now, valid)
  {
    assert (turns + [t])[i] == turns[i];
    assert i > 0 ==> (turns + [t])[i - 1] == turns[i - 1];
  }

  lemma ResolvedNext(cfg: Config, m: Book, c: set<int>, turns: seq<Turn>, t: Turn, now: int, valid: Service -> bool)
    requires Resolved(cfg, m, c, turns, t.before, t.waiting, now, valid) && TurnOk(cfg, t, now, valid)
    ensures Resolved(cfg, m, c, turns + [t], t.after, if t.erase then t.waiting - {t.id} else t.waiting, now, valid)
  {
    forall i | 0 <= i < |turns + [t]|
      ensures TurnAt(cfg, m, c, turns + [t], i, now, valid)
    {
      if i < |turns| {
        TurnStays(cfg, m, c, turns, t, i, now, valid);
      } else {
        assert (turns + [t])[i] == t && (i > 0 ==> (turns + [t])[i - 1] == turns[i - 1]);
      }
    }
  }

  /** The collisions that have had their turn. */
  ghost function Turned(turns: seq<Turn>): set<int> { set t | t in turns :: t.id }

  lemma TurnedNext(turns: seq<Turn>, t: Turn)
    ensures Turned(turns + [t]) == Turned(turns) + {t.id}
  {
    forall id
      ensures id in Turned(turns + [t]) <==> id in Turned(turns) + {t.id}
    {
      if id in Turned(turns) {
        var u :| u in turns && u.id == id;
        assert u in turns + [t];
      }
      assert t in turns + [t];
    }
  }

  /** The tried entry in the place that an entry is waiting for. */
  ghost function HolderOf(cfg: Config, m: Book, id: int): Info
    requires Consistent(cfg, m) && id in m.info && TriedHolder(cfg, m, id) != -1
  {
    var b, p := cfg.triedBucket(m.info[id].service), cfg.TriedPosition(m.info[id].service);
    assert TriedPlaceOk(cfg, m, b, p);
    m.info[TriedHolder(cfg, m, id)]
  }

  /** A default-constructed entry. */
  const BLANK: Info := Info(Service(0, 0), 0, Stats({}, 100_000_000, 0, 0, 0, 0), 0, false, -1)

  /** Looking up `mapInfo[-1]` creates an entry. */
  ghost function WithBlank(m: Book): Book {
    m.(info := m.info[-1 := BLANK])
  }

  lemma BlankBreaks(cfg: Config, m: Book)
    ensures !Consistent(cfg, WithBlank(m))
  {
    assert -1 in WithBlank(m).info && !IdIndexed(cfg, WithBlank(m), -1);
  }

  /** Clearing the manager leaves waiting ids that have not been given out: they are blocked only if there are none. */
  lemma ClearedCollisions(cfg: Config, c: set<int>)
    requires |c| <= MAX_COLLISIONS && forall id :: id in c ==> 0 <= id
    ensures CollisionsOk(cfg, EmptyBook(), c) <==> c == {}
  {
    if c != {} {
      Inhabited(c);
    }
  }

  /**
   What may then happen: a service heard of after the clearing gets an id that is still waiting, its tried place is
   empty, and selecting it breaks the manager.
   */
  lemma StaleAfterClear(cfg: Config, service: Service, source: NetAddr, stats: Stats)
    ensures var b := cfg.newBucket(service, source);
      var n := Referenced(Counted(cfg, EmptyBook(), service, source, stats), b, cfg.position(service, true, b), 0);
      && Consistent(cfg, n) && 0 in n.info && TriedHolder(cfg, n, 0) == -1 && !CollisionsOk(cfg, n, {0})
      && !Consistent(cfg, WithBlank(n))
  {
    var b := cfg.newBucket(service, source);
    var m := Counted(cfg, EmptyBook(), service, source, stats);
    EmptyConsistent(cfg);
    CountedKeeps(cfg, EmptyBook(), service, source, stats);
    ReferenceKeeps(cfg, m, {0}, 0, b, cfg.position(service, true, b), 0);
    assert {0} - {0} == {};
    BlankBreaks(cfg, Referenced(m, b, cfg.position(service, true, b), 0));
  }

  datatype Op =
    | AddOp(service: Service, source: NetAddr, services: set<nat>, time: int, penalty: int, routable: bool)
    | GoodOp(service: Service, testBeforeEvict: bool, time: int)
    | AttemptOp(service: Service, countFailure: bool, time: int)
    | GetAddrOp
    | ResolveOp
    | SelectCollisionOp
    | ClearOp(rekeyed: Config)

  /** The clock, the random draws and the verdicts of one operation. */
  datatype Chance = Chance(now: int, start: NewBucket, draw: int -> int, terrible: Stats -> bool,
                           valid: Service -> bool)

  /** An entry taken out of the new table. */
  ghost predicate TakenOut(m: Book, n: Book, id: int)
    requires id in m.info
  {
    && n.info == m.info[id := m.info[id].(refCount := 0)] && Purged(m.vvNew, n.vvNew, id)
    && n.vvTried == m.vvTried && n.idCount == m.idCount
  }

  lemma PromotedAlone(cfg: Config, m: Book, n: Book, id: int)
    requires id in m.info && TakenOut(m, n, id) && IsTable(m.vvTried, TRIED_BUCKETS)
    requires m.vvTried[cfg.triedBucket(m.info[id].service)][cfg.TriedPosition(m.info[id].service)] == -1
    ensures MadeTried(cfg, m, Promoted(cfg, n, id), id)
  {
  }

  lemma PromotedAfterEviction(cfg: Config, m: Book, n: Book, r: Book, id: int)
    requires id in m.info && TakenOut(m, n, id) && IsTable(m.vvTried, TRIED_BUCKETS) && -1 !in m.info
    requires var b, p := cfg.triedBucket(m.info[id].service), cfg.TriedPosition(m.info[id].service);
      && m.vvTried[b][p] in n.info && m.vvTried[b][p] != -1 && m.vvTried[b][p] != id
      && SentHome(cfg, n, r, m.vvTried[b][p]) && r.vvTried == Put(m.vvTried, b, p, -1)
    requires SameEntry(n, r, id)
    ensures MadeTried(cfg, m, Promoted(cfg, r, id), id)
  {
    var b, p := cfg.triedBucket(m.info[id].service), cfg.TriedPosition(m.info[id].service);
    var e, q := m.vvTried[b][p], Promoted(cfg, r, id);
    PutTwice(m.vvTried, b, p, -1, id);
    var held := m.vvNew[HomeBucket(cfg, m.info[e])][HomePosition(cfg, m.info[e])];
    forall x | x != id && x != e && x != held
      ensures SameEntry(m, q, x)
    {
      if x != n.vvNew[HomeBucket(cfg, m.info[e])][HomePosition(cfg, m.info[e])] {
        assert SameEntry(n, r, x);
      } else {
        assert x == -1 && x !in n.info && x !in r.info;
      }
    }
  }

  /** Once its home is clear, an entry can be put there. */
  lemma HomeReached(cfg: Config, m: Book, n: Book, e: int, id: int)
    requires Inv(cfg, n, {id} + {e}, 2) && id != e && IsTable(m.vvNew, NEW_BUCKETS)
    requires e in m.info && !m.info[e].inTried && m.info[e].refCount == 0
    requires m.vvNew[HomeBucket(cfg, m.info[e])][HomePosition(cfg, m.info[e])] != e
    requires ClearedAt(m, n, HomeBucket(cfg, m.info[e]), HomePosition(cfg, m.info[e]))
    ensures e in n.info && n.info[e].refCount == 0
    ensures var r := Referenced(n, HomeBucket(cfg, m.info[e]), HomePosition(cfg, m.info[e]), e);
      && Inv(cfg, r.(newCount := r.newCount + 1), {id}, 1)
      && SentHome(cfg, m, r.(newCount := r.newCount + 1), e)
  {
    var b, p := HomeBucket(cfg, m.info[e]), HomePosition(cfg, m.info[e]);
    assert SameEntry(m, n, e);
    ReferenceKeeps(cfg, n, {id} + {e}, 2, b, p, e);
    assert {id} + {e} - {e} == {id};
    CountShift(cfg, Referenced(n, b, p, e), {id}, 2, 1);
    HomeEntries(cfg, m, n, e);
  }

  lemma HomeEntries(cfg: Config, m: Book, n: Book, e: int)
    requires e in m.info && !m.info[e].inTried && IsTable(m.vvNew, NEW_BUCKETS)
    requires m.vvNew[HomeBucket(cfg, m.info[e])][HomePosition(cfg, m.info[e])] != e
    requires ClearedAt(m, n, HomeBucket(cfg, m.info[e]), HomePosition(cfg, m.info[e]))
    requires e in n.info && n.info[e].refCount == 0
    ensures var r := Referenced(n, HomeBucket(cfg, m.info[e]), HomePosition(cfg, m.info[e]), e);
      SentHome(cfg, m, r.(newCount := r.newCount + 1), e)
  {
    var b, p := HomeBucket(cfg, m.info[e]), HomePosition(cfg, m.info[e]);
    var r := Referenced(n, b, p, e);
    var q := r.(newCount := r.newCount + 1);
    PutTwice(m.vvNew, b, p, -1, e);
    assert SameEntry(m, n, e);
    assert q.vvNew == Put(m.vvNew, b, p, e);
    forall x | x != e && x != m.vvNew[b][p]
      ensures SameEntry(m, q, x)
    {
      assert SameEntry(m, n, x);
    }
  }

  lemma Inhabited(s: set<int>)
    requires s != {}
    ensures exists id :: id in s
  {
    if !(exists id :: id in s) {
      NoMembers(s);
    }
  }

  lemma NoMembers(s: set<int>)
    requires forall id :: id !in s
    ensures s == {}
  {
    forall id
      ensures id in s <==> id in {}
    {
    }
  }

  lemma Fewer(c: set<int>, id: int)
    ensures |c - {id}| <= |c|
  {
  }

  lemma ShuffleSurvives(m: Book, n: Book)
    requires Shuffled(m, n) && IsTable(m.vvTried, TRIED_BUCKETS)
    ensures Survives(m, n) && TriedKept(m, n)
  {
    forall id | id in n.info
      ensures SameService(m, n, id)
    {
      assert SameEntry(m, n, id);
    }
  }

  /** Swapping later places leaves the earlier choices as they were. */
  lemma {:induction false} DecentSame(a: map<int, Info>, b: map<int, Info>, ids: seq<int>, terrible: Stats -> bool)
    requires forall i :: 0 <= i < |ids| ==> ids[i] in a && ids[i] in b && a[ids[i]].stats == b[ids[i]].stats
    ensures Decent(a, ids, terrible) == Decent(b, ids, terrible)
    decreases |ids|
  {
    if ids != [] {
      DecentSame(a, b, ids[..|ids| - 1], terrible);
    }
  }

  lemma DecentKept(cfg: Config, m: Book, n: Book, k: nat, j: int, terrible: Stats -> bool)
    requires IndexOk(cfg, m) && k <= j < |m.random| && n == Swapped(m, k, j)
    ensures k < |n.random| && n.random[..k] == m.random[..k] && n.random[k] in n.info
    ensures forall i :: 0 <= i < k ==> n.random[i] in n.info && n.random[i] in m.info
    ensures Decent(n.info, n.random[..k], terrible) == Decent(m.info, m.random[..k], terrible)
  {
    assert n.random[..k] == m.random[..k];
    DecentSame(n.info, m.info, m.random[..k], terrible);
  }

  lemma DrawKeeps(cfg: Config, m: Book, n: Book, k: nat, j: int, terrible: Stats -> bool)
    requires Shuffled(m, n) && Consistent(cfg, n) && k <= j < |n.random|
    ensures forall i :: 0 <= i < k ==> n.random[i] in n.info
    ensures var r := Swapped(n, k, j);
      && Shuffled(m, r) && Consistent(cfg, r)
      && |r.random| == |n.random| && (forall i :: 0 <= i < k + 1 ==> r.random[i] in r.info)
      && Decent(r.info, r.random[..k + 1], terrible)
         == Decent(n.info, n.random[..k], terrible)
            + if terrible(r.info[r.random[k]].stats) then [] else [r.random[k]]
  {
    var r := Swapped(n, k, j);
    SwapShuffles(cfg, m, n, k, j);
    SwapKeeps(cfg, n, {}, 0, k, j);
    DecentKept(cfg, n, r, k, j, terrible);
    assert r.random[..k + 1][..k] == r.random[..k];
  }

  lemma HomeFromTried(cfg: Config, m: Book, b: int, p: int, n: Book)
    requires IsTable(m.vvNew, NEW_BUCKETS) && IsTable(m.vvTried, TRIED_BUCKETS)
    requires 0 <= b < TRIED_BUCKETS && 0 <= p < BUCKET_SIZE && m.vvTried[b][p] in m.info
    requires SentHome(cfg, Demoted(m, b, p), n, m.vvTried[b][p])
    ensures SentHome(cfg, m, n, m.vvTried[b][p])
  {
    var e, d := m.vvTried[b][p], Demoted(m, b, p);
    var ub, up := HomeBucket(cfg, m.info[e]), HomePosition(cfg, m.info[e]);
    forall x | x != e && x != m.vvNew[ub][up]
      ensures SameEntry(m, n, x)
    {
      assert SameEntry(d, n, x);
    }
  }

  /** An entry that is tried, or has no references, is in no place of the new table. */
  lemma NotInNew(cfg: Config, m: Book, pending: set<int>, id: int)
    requires IndexOk(cfg, m) && NewOk(cfg, m, pending) && id in m.info
    requires m.info[id].inTried || m.info[id].refCount == 0
    ensures id >= 0
    ensures forall b, p :: 0 <= b < NEW_BUCKETS && 0 <= p < BUCKET_SIZE ==> m.vvNew[b][p] != id
  {
    assert IdIndexed(cfg, m, id) && NewEntryOk(cfg, m, pending, id);
    RefsNone(cfg, m.vvNew, m.info[id].service, id, NEW_BUCKETS);
    forall b, p | 0 <= b < NEW_BUCKETS && 0 <= p < BUCKET_SIZE
      ensures m.vvNew[b][p] != id
    {
      assert NewPlaceOk(cfg, m, b, p);
    }
  }

  class AddrMan {
    var cfg: Config
    var idCount: int
    var info: map<int, Info>
    var addr: map<Service, int>
    var random: seq<int>
    var triedCount: int
    var newCount: int
    var vvTried: Table
    var vvNew: Table
    var collisions: set<int>
    var lastGood: int

    ghost function Model(): Book
      reads this
    {
      Book(idCount, info, addr, random, triedCount, newCount, vvTried, vvNew)
    }

    ghost predicate Valid()
      reads this
    {
      Consistent(cfg, Model()) && |collisions| <= MAX_COLLISIONS && forall id :: id in collisions ==> 0 <= id
    }

    /** Every waiting id is one that has been given out, and the place its entry waits for is taken. */
    ghost predicate Blocked()
      reads this
    {
      CollisionsOk(cfg, Model(), collisions)
    }

    constructor (cfg: Config)
      ensures Valid() && Blocked() && this.cfg == cfg && Model() == EmptyBook() && collisions == {}
    {
      this.cfg := cfg;
      idCount, info, addr, random, triedCount, newCount := 0, map[], map[], [], 0, 0;
      vvTried, vvNew := EmptyTable(TRIED_BUCKETS), EmptyTable(NEW_BUCKETS);
      collisions, lastGood := {}, 1;
      new;
      EmptyConsistent(cfg);
    }

    method SwapRandom(i: int, j: int)
      requires i != j ==> 0 <= i < |random| && 0 <= j < |random| && random[i] in info && random[j] in info
      modifies this`info, this`random
      ensures Model() == if i == j then old(Model()) else Swapped(old(Model()), i, j)
    {
      if i == j {
        return;
      }
      var a, b := random[i], random[j];
      info := info[a := info[a].(randomPos := j)];
      info := info[b := info[b].(randomPos := i)];
      random := random[i := b][j := a];
    }

    /** The last entry of `vRandom` takes the place of the deleted one. */
    method Delete(id: int)
      requires id in info && !info[id].inTried && info[id].refCount == 0
      requires IdIndexed(cfg, Model(), id) && random[|random| - 1] in info
      modifies this`info, this`random, this`addr, this`newCount
      ensures Model() == old(Deleted(cfg, Model(), id))
    {
      var key := cfg.Key(info[id].service);
      SwapRandom(info[id].randomPos, |random| - 1);
      random := random[..|random| - 1];
      addr := addr - {key};
      info := info - {id};
      newCount := newCount - 1;
    }

    /** Empties a place of the new table; an entry that loses its last reference goes. */
    method ClearNew(b: int, p: int, ghost pending: set<int>, ghost ahead: int)
      requires Inv(cfg, Model(), pending, ahead) && 0 <= b < NEW_BUCKETS && 0 <= p < BUCKET_SIZE
      modifies this`info, this`random, this`addr, this`newCount, this`vvNew
      ensures Inv(cfg, Model(), pending, ahead) && ClearedAt(old(Model()), Model(), b, p)
    {
      if vvNew[b][p] == -1 {
        PutSame(vvNew, b, p);
        return;
      }
      var id := vvNew[b][p];
      ghost var m := Model();
      UnreferenceKeeps(cfg, m, pending, ahead, b, p);
      if info[id].refCount == 1 {
        ClearLast(cfg, m, pending, ahead, b, p);
      } else {
        ClearShared(cfg, m, pending, ahead, b, p);
      }
      assert info[id].refCount > 0;
      Unreference(b, p);
      if info[id].refCount == 0 {
        Delete(id);
      }
    }

    method Unreference(b: int, p: int)
      requires 0 <= b < |vvNew| && 0 <= p < |vvNew[b]| && vvNew[b][p] in info
      modifies this`info, this`vvNew
      ensures Model() == Unreferenced(old(Model()), b, p)
    {
      var id := vvNew[b][p];
      info := info[id := info[id].(refCount := info[id].refCount - 1)];
      vvNew := Put(vvNew, b, p, -1);
    }

    /** Takes an entry out of all buckets of the new table, looking only at its own position in each. */
    method RemoveFromNew(id: int)
      requires Inv(cfg, Model(), {}, 0) && id in info && !info[id].inTried
      modifies this`info, this`vvNew
      ensures Inv(cfg, Model(), {id}, 0)
      ensures info == old(info)[id := old(info)[id].(refCount := 0)]
      ensures Purged(old(vvNew), vvNew, id)
    {
      MorePending(cfg, Model(), {}, {id});
      for b := 0 to NEW_BUCKETS
        invariant Inv(cfg, Model(), {id}, 0)
        invariant id in info && info == old(info)[id := old(info)[id].(refCount := info[id].refCount)]
        invariant IsTable(vvNew, NEW_BUCKETS)
        invariant forall c, q :: 0 <= c < NEW_BUCKETS && 0 <= q < BUCKET_SIZE ==>
          vvNew[c][q] == if c < b && old(vvNew)[c][q] == id then -1 else old(vvNew)[c][q]
      {
        RemoveFromBucket(id, b);
      }
      assert NewEntryOk(cfg, Model(), {id}, id) && IdIndexed(cfg, Model(), id);
      RefsNone(cfg, vvNew, info[id].service, id, NEW_BUCKETS);
    }

    method RemoveFromBucket(id: int, b: int)
      requires Inv(cfg, Model(), {id}, 0) && id in info && !info[id].inTried && 0 <= b < NEW_BUCKETS
      modifies this`info, this`vvNew
      ensures Inv(cfg, Model(), {id}, 0)
      ensures id in info && info == old(info)[id := old(info)[id].(refCount := info[id].refCount)]
      ensures IsTable(vvNew, NEW_BUCKETS)
      ensures forall c, q :: 0 <= c < NEW_BUCKETS && 0 <= q < BUCKET_SIZE ==>
        vvNew[c][q] == if c == b && old(vvNew)[c][q] == id then -1 else old(vvNew)[c][q]
    {
      var pos := cfg.position(info[id].service, true, b);
      assert IdIndexed(cfg, Model(), id);
      forall q | 0 <= q < BUCKET_SIZE && vvNew[b][q] == id
        ensures q == pos
      {
        assert NewPlaceOk(cfg, Model(), b, q);
      }
      if vvNew[b][pos] == id {
        ghost var m := Model();
        UnreferenceKeeps(cfg, m, {id}, 0, b, pos);
        assert {id} + {id} == {id};
        vvNew := Put(vvNew, b, pos, -1);
        info := info[id := info[id].(refCount := info[id].refCount - 1)];
        assert Model() == Unreferenced(m, b, pos);
      } else {
        assert info == info[id := info[id].(refCount := info[id].refCount)];
      }
    }

    /** Gives an entry its home place in the new table, clearing it first. */
    method SendHome(e: int, ghost id: int)
      requires Inv(cfg, Model(), {id} + {e}, 2) && e in info && !info[e].inTried && info[e].refCount == 0
      requires id != e && id in info && !info[id].inTried && info[id].refCount == 0
      modifies this`info, this`random, this`addr, this`newCount, this`vvNew
      ensures Inv(cfg, Model(), {id}, 1) && SentHome(cfg, old(Model()), Model(), e)
    {
      var ub, up := HomeBucket(cfg, info[e]), HomePosition(cfg, info[e]);
      ClearHome(e, id, ub, up);
      GiveHome(e, ub, up);
    }

    /** Clears the home, after which putting the entry there is right. */
    method ClearHome(e: int, ghost id: int, ub: int, up: int)
      requires Inv(cfg, Model(), {id} + {e}, 2) && e in info && !info[e].inTried && info[e].refCount == 0
      requires id != e && ub == HomeBucket(cfg, info[e]) && up == HomePosition(cfg, info[e])
      modifies this`info, this`random, this`addr, this`newCount, this`vvNew
      ensures IsTable(vvNew, NEW_BUCKETS) && e in info && info[e].refCount == 0
      ensures var r := Referenced(Model(), ub, up, e);
        && Inv(cfg, r.(newCount := r.newCount + 1), {id}, 1)
        && SentHome(cfg, old(Model()), r.(newCount := r.newCount + 1), e)
    {
      NotInNew(cfg, Model(), {id} + {e}, e);
      ClearNew(ub, up, {id} + {e}, 2);
      HomeReached(cfg, old(Model()), Model(), e, id);
    }

    method GiveHome(e: int, ub: int, up: int)
      requires 0 <= ub < |vvNew| && 0 <= up < |vvNew[ub]| && e in info && info[e].refCount == 0
      modifies this`info, this`newCount, this`vvNew
      ensures Model() == Referenced(old(Model()), ub, up, e).(newCount := old(newCount) + 1)
    {
      info := info[e := info[e].(refCount := 1)];
      vvNew := Put(vvNew, ub, up, e);
      newCount := newCount + 1;
    }

    /** Makes room in the tried table: the entry there goes back to its home in the new table. */
    method Evict(b: int, p: int, ghost id: int)
      requires Inv(cfg, Model(), {id}, 1) && id in info && !info[id].inTried && info[id].refCount == 0
      requires 0 <= b < TRIED_BUCKETS && 0 <= p < BUCKET_SIZE && vvTried[b][p] != -1
      modifies this`info, this`random, this`addr, this`newCount, this`vvNew, this`vvTried, this`triedCount
      ensures Inv(cfg, Model(), {id}, 1) && vvTried == Put(old(vvTried), b, p, -1)
      ensures old(vvTried)[b][p] in old(info) && SentHome(cfg, old(Model()), Model(), old(vvTried)[b][p])
      ensures SameEntry(old(Model()), Model(), id)
    {
      var e := vvTried[b][p];
      ghost var m := Model();
      DemoteKeeps(cfg, m, {id}, 1, b, p);
      assert TriedEntryOk(cfg, m, e);
      NotInNew(cfg, m, {id}, id);
      assert e in info;
      info := info[e := info[e].(inTried := false)];
      vvTried := Put(vvTried, b, p, -1);
      triedCount := triedCount - 1;
      assert Model() == Demoted(m, b, p);
      SendHome(e, id);
      HomeFromTried(cfg, m, b, p, Model());
      assert SameEntry(m, Model(), id);
    }

    /** Moves an entry from the new table to the tried table. */
    method MakeTried(id: int)
      requires Consistent(cfg, Model()) && id in info && !info[id].inTried
      modifies this`info, this`random, this`addr, this`newCount, this`vvNew, this`vvTried, this`triedCount
      ensures Consistent(cfg, Model()) && MadeTried(cfg, old(Model()), Model(), id)
    {
      ghost var m := Model();
      TakeOut(id);
      ghost var m1 := Model();
      var b, p := cfg.triedBucket(info[id].service), cfg.TriedPosition(info[id].service);
      if vvTried[b][p] != -1 {
        Evict(b, p, id);
        PromotedAfterEviction(cfg, m, m1, Model(), id);
      } else {
        PromotedAlone(cfg, m, m1, id);
      }
      Promote(id);
    }

    method Find(service: Service) returns (id: Option<int>)
      requires IndexOk(cfg, Model())
      ensures id.Some? <==> cfg.Key(service) in addr
      ensures id.Some? ==> id.value == addr[cfg.Key(service)] && id.value in info
    {
      var key := cfg.Key(service);
      return if key in addr then Some(addr[key]) else None;
    }

    /** A bucket of the new table that holds the entry, searched from a random one on; -1 if none does. */
    method FindBucket(id: int, start: int) returns (b: int)
      requires IsTable(vvNew, NEW_BUCKETS) && id in info && 0 <= start < NEW_BUCKETS
      ensures b == -1 <==> Refs(cfg, vvNew, info[id].service, id, NEW_BUCKETS) == 0
      ensures b != -1 ==> 0 <= b < NEW_BUCKETS && vvNew[b][cfg.position(info[id].service, true, b)] == id
    {
      RefsNone(cfg, vvNew, info[id].service, id, NEW_BUCKETS);
      for n := 0 to NEW_BUCKETS
        invariant forall c :: 0 <= c < NEW_BUCKETS && (start <= c < start + n || c < start + n - NEW_BUCKETS) ==>
          vvNew[c][cfg.position(info[id].service, true, c)] != id
      {
        b := (n + start) % NEW_BUCKETS;
        assert b == if n + start < NEW_BUCKETS then n + start else n + start - NEW_BUCKETS;
        if vvNew[b][cfg.position(info[id].service, true, b)] == id {
          return;
        }
      }
      b := -1;
    }

    /** Marks a service as reachable, which may move its entry to the tried table. */
    method Good(service: Service, testBeforeEvict: bool, time: int, start: int)
      requires Valid() && 0 <= start < NEW_BUCKETS
      modifies this
      ensures Valid() && lastGood == time && Survives(old(Model()), Model()) && TriedKept(old(Model()), Model())
      ensures cfg == old(cfg)
      ensures forall id :: Knows(cfg, old(Model()), service, id) ==>
        GoodDone(cfg, old(Model()), old(collisions), Model(), collisions, id, testBeforeEvict, time)
      ensures (forall id :: !Knows(cfg, old(Model()), service, id)) ==>
        Model() == old(Model()) && collisions == old(collisions)
    {
      lastGood := time;
      var found := Find(service);
      if found.None? {
        return;
      }
      var id := found.value;
      if info[id].service != service {
        return;
      }
      assert Knows(cfg, Model(), service, id);
      GoodEntry(id, testBeforeEvict, time, start);
    }

    method GoodEntry(id: int, testBeforeEvict: bool, time: int, start: int)
      requires Valid() && id in info && 0 <= start < NEW_BUCKETS
      modifies this`info, this`random, this`addr, this`newCount, this`vvNew, this`vvTried, this`triedCount,
               this`collisions
      ensures Valid() && Survives(old(Model()), Model()) && TriedKept(old(Model()), Model())
      ensures GoodDone(cfg, old(Model()), old(collisions), Model(), collisions, id, testBeforeEvict, time)
    {
      ghost var m := Model();
      var stats := GoodStats(info[id].stats, time);
      TouchKeeps(cfg, m, {}, 0, id, stats);
      TouchSurvives(m, id, stats);
      info := info[id := info[id].(stats := stats)];
      assert Model() == Touched(m, id, stats);
      if info[id].inTried {
        return;
      }
      assert NewEntryOk(cfg, Model(), {}, id) && IdIndexed(cfg, Model(), id);
      var bucket := FindBucket(id, start);
      assert bucket != -1;
      var b, p := cfg.triedBucket(info[id].service), cfg.TriedPosition(info[id].service);
      if testBeforeEvict && vvTried[b][p] != -1 {
        if |collisions| < MAX_COLLISIONS {
          OneMore(collisions, id);
          collisions := collisions + {id};
        }
      } else {
        ghost var t := Model();
        MakeTried(id);
        MadeTriedSurvives(cfg, t, Model(), id);
        SurvivesTrans(m, t, Model());
      }
    }

    method Insert(id: int, b: int, p: int)
      requires Inv(cfg, Model(), {id}, 0) && id in info && !info[id].inTried && info[id].refCount < MAX_REFS
      requires 0 <= b < NEW_BUCKETS && p == cfg.position(info[id].service, true, b) && vvNew[b][p] != id
      modifies this`info, this`random, this`addr, this`newCount, this`vvNew
      ensures Consistent(cfg, Model()) && Inserted(old(Model()), Model(), id, b, p)
    {
      ghost var m := Model();
      ClearNew(b, p, {id}, 0);
      ghost var n := Model();
      InsertReached(cfg, m, n, id, b, p);
      info := info[id := info[id].(refCount := info[id].refCount + 1)];
      vvNew := Put(vvNew, b, p, id);
      assert Model() == Referenced(n, b, p, id);
    }

    method Forget(id: int)
      requires Inv(cfg, Model(), {id}, 0) && id in info && !info[id].inTried && info[id].refCount == 0
      modifies this`info, this`random, this`addr, this`newCount
      ensures Consistent(cfg, Model()) && id !in info && forall x :: x != id ==> SameEntry(old(Model()), Model(), x)
    {
      DropReached(cfg, Model(), id);
      Delete(id);
    }

    /** Gives an entry a further place in the new table, if the holder of that place may be cleared out. */
    method PlaceNew(id: int, b: int, p: int, terrible: Stats -> bool)
      requires Inv(cfg, Model(), {id}, 0) && id in info && !info[id].inTried && info[id].refCount < MAX_REFS
      requires 0 <= b < NEW_BUCKETS && p == cfg.position(info[id].service, true, b)
      modifies this`info, this`random, this`addr, this`newCount, this`vvNew
      ensures Consistent(cfg, Model()) && PlaceDone(old(Model()), Model(), id, b, p, terrible)
    {
      ghost var m := Model();
      var held := vvNew[b][p];
      assert {} + {id} == {id} && IdIndexed(cfg, m, id);
      if held != -1 {
        HeldCounts(cfg, m, {id}, b, p);
      }
      if held == id {
        NotPending(cfg, m, {}, 0, id);
        return;
      }
      var insert := held == -1 || terrible(info[held].stats) || (info[held].refCount > 1 && info[id].refCount == 0);
      if insert {
        Insert(id, b, p);
      } else if info[id].refCount == 0 {
        Forget(id);
      } else {
        assert NewEntryOk(cfg, m, {id}, id);
        NotPending(cfg, m, {}, 0, id);
      }
    }

    /** The entry of a service that is known already. */
    method AddKnown(id: int, source: NetAddr, services: set<nat>, time: int, penalty: int, now: int, draw: int -> int,
                    terrible: Stats -> bool)
      requires Valid() && id in info
      modifies this`info, this`random, this`addr, this`newCount, this`vvNew
      ensures Valid() && Survives(old(Model()), Model())
      ensures HeardAgain(cfg, old(Model()), Model(), id, source,
                         Refreshed(old(info)[id].stats, services, time, penalty, now), time, draw, terrible)
    {
      ghost var m := Model();
      var stats := Refreshed(info[id].stats, services, time, penalty, now);
      TouchKeeps(cfg, m, {}, 0, id, stats);
      TouchSurvives(m, id, stats);
      info := info[id := info[id].(stats := stats)];
      ghost var t := Model();
      assert t == Touched(m, id, stats);
      if time == 0 || (info[id].stats.time != 0 && time <= info[id].stats.time) || info[id].inTried {
        return;
      }
      assert NewEntryOk(cfg, t, {}, id);
      if info[id].refCount == MAX_REFS {
        return;
      }
      var factor := 1;
      for n := 0 to info[id].refCount
        invariant factor == Pow2(n)
      {
        factor := factor * 2;
      }
      if factor > 1 && draw(factor) != 0 {
        return;
      }
      PlaceAndKeep(id, source, terrible);
      SurvivesTrans(m, t, Model());
    }

    method PlaceAndKeep(id: int, source: NetAddr, terrible: Stats -> bool)
      requires Inv(cfg, Model(), {id}, 0)
      requires id in info && !info[id].inTried && info[id].refCount < MAX_REFS
      modifies this`info, this`random, this`addr, this`newCount, this`vvNew
      ensures Consistent(cfg, Model()) && Survives(old(Model()), Model())
      ensures var b := cfg.newBucket(old(info)[id].service, source);
        PlaceDone(old(Model()), Model(), id, b, cfg.position(old(info)[id].service, true, b), terrible)
    {
      ghost var m := Model();
      var b := cfg.newBucket(info[id].service, source);
      var p := cfg.position(info[id].service, true, b);
      PlaceNew(id, b, p, terrible);
      PlaceSurvives(m, Model(), id, b, p, terrible);
    }

    method Create(service: Service, source: NetAddr, stats: Stats) returns (id: int)
      requires Valid() && cfg.Key(service) !in addr
      modifies this`idCount, this`info, this`addr, this`random
      ensures Model() == Created(cfg, old(Model()), service, source, stats) && id == old(idCount)
    {
      id := idCount;
      idCount := idCount + 1;
      info := info[id := Info(service, source, stats, 0, false, |random|)];
      addr := addr[cfg.Key(service) := id];
      random := random + [id];
    }

    /** Hears of a service from a source. */
    method Add(service: Service, source: NetAddr, services: set<nat>, time: int, penalty: int, routable: bool, now: int,
               draw: int -> int, terrible: Stats -> bool) returns (isNew: bool)
      requires Valid()
      modifies this`idCount, this`info, this`random, this`addr, this`newCount, this`vvNew
      ensures Valid() && Survives(old(Model()), Model())
      ensures isNew <==> routable && cfg.Key(service) !in old(addr)
      ensures !routable ==> Model() == old(Model())
      ensures var pen := if service.ip == source then 0 else penalty;
        && (isNew ==>
              HeardFirst(cfg, old(Model()), Model(), service, source, FirstStats(services, time, pen), terrible))
        && (routable && !isNew ==>
              var id := old(addr)[cfg.Key(service)];
              id in old(info) && HeardAgain(cfg, old(Model()), Model(), id, source,
                                            Refreshed(old(info)[id].stats, services, time, pen, now), time, draw,
                                            terrible))
    {
      if !routable {
        return false;
      }
      var pen := if service.ip == source then 0 else penalty;
      var found := Find(service);
      if found.Some? {
        AddKnown(found.value, source, services, time, pen, now, draw, terrible);
        return false;
      }
      ghost var m := Model();
      var stats := FirstStats(services, time, pen);
      CountedKeeps(cfg, m, service, source, stats);
      var id := Create(service, source, stats);
      newCount := newCount + 1;
      ghost var n := Model();
      assert n == Counted(cfg, m, service, source, stats);
      PlaceAndKeep(id, source, terrible);
      SurvivesTrans(m, n, Model());
      return true;
    }

    method Attempt(service: Service, countFailure: bool, time: int)
      requires Valid()
      modifies this`info
      ensures Valid() && Survives(old(Model()), Model())
      ensures forall id :: Knows(cfg, old(Model()), service, id) ==>
        Model() == Touched(old(Model()), id, AttemptStats(old(info)[id].stats, countFailure, time, lastGood))
      ensures (forall id :: !Knows(cfg, old(Model()), service, id)) ==> Model() == old(Model())
    {
      var found := Find(service);
      if found.None? {
        return;
      }
      var id := found.value;
      if info[id].service != service {
        return;
      }
      ghost var m := Model();
      assert Knows(cfg, m, service, id);
      var stats := AttemptStats(info[id].stats, countFailure, time, lastGood);
      TouchKeeps(cfg, m, {}, 0, id, stats);
      TouchSurvives(m, id, stats);
      info := info[id := info[id].(stats := stats)];
    }

    /** Of the first `n` places of the shuffled list, `ids` are those that are not terrible. */
    ghost predicate Chosen(m: Book, n: int, ids: seq<int>, terrible: Stats -> bool)
      reads this
    {
      && Consistent(cfg, Model()) && Shuffled(m, Model()) && 0 <= n <= |random|
      && (forall i :: 0 <= i < n ==> random[i] in info)
      && ids == Decent(info, random[..n], terrible)
    }

    /** A random choice of addresses: those that are not terrible among the first places of the shuffled `vRandom`. */
    method GetAddr(draw: int -> int, terrible: Stats -> bool) returns (ids: seq<int>, n: nat)
      requires Valid()
      modifies this`info, this`random
      ensures Valid() && Chosen(old(Model()), n, ids, terrible)
      ensures |ids| <= ShareOf(|random|) && (n == |random| || |ids| == ShareOf(|random|))
    {
      ids, n := [], 0;
      var size := |random|;
      var nNodes := ShareOf(size);
      while n < size && |ids| < nNodes
        invariant Chosen(old(Model()), n, ids, terrible) && |random| == size && |ids| <= nNodes
        decreases size - n
      {
        ids := Draw(n, ids, draw(size - n), terrible, old(Model()));
        n := n + 1;
      }
    }

    method Draw(n: nat, ids: seq<int>, drawn: int, terrible: Stats -> bool, ghost m: Book) returns (r: seq<int>)
      requires Chosen(m, n, ids, terrible) && n < |random|
      modifies this`info, this`random
      ensures Chosen(m, n + 1, r, terrible) && |random| == old(|random|) && |r| <= |ids| + 1
    {
      var at := n + drawn % (|random| - n);
      DrawKeeps(cfg, m, Model(), n, at, terrible);
      SwapRandom(n, at);
      assert random[n] in info;
      r := if terrible(info[random[n]].stats) then ids else ids + [random[n]];
    }

    method ResolveOne(id: int, now: int, valid: Service -> bool, start: int) returns (erase: bool)
      requires Valid() && id in collisions && 0 <= start < NEW_BUCKETS
      modifies this
      ensures Valid() && Survives(old(Model()), Model()) && TriedKept(old(Model()), Model())
      ensures cfg == old(cfg) && collisions == old(collisions)
      ensures ResolvedOne(cfg, old(Model()), collisions, Model(), id, erase, now, valid)
    {
      if id !in info {
        return true;
      }
      if !valid(info[id].service) {
        return true;
      }
      var b, p := cfg.triedBucket(info[id].service), cfg.TriedPosition(info[id].service);
      var holder := vvTried[b][p];
      if holder == -1 {
        Replace(id, now, start);
        return true;
      }
      assert TriedPlaceOk(cfg, Model(), b, p);
      var verdict := Judge(info[holder].stats, info[id].stats, now);
      if verdict == Verdict.Replace {
        Replace(id, now, start);
      }
      erase := verdict != Keep;
    }

    /** The waiting entry is marked good without testing whom it evicts. */
    method Replace(id: int, now: int, start: int)
      requires Valid() && id in info && 0 <= start < NEW_BUCKETS
      modifies this
      ensures Valid() && Survives(old(Model()), Model()) && TriedKept(old(Model()), Model())
      ensures cfg == old(cfg) && collisions == old(collisions)
      ensures GoodDone(cfg, old(Model()), collisions, Model(), collisions, id, false, now)
    {
      assert IdIndexed(cfg, Model(), id);
      assert Knows(cfg, Model(), info[id].service, id);
      Good(info[id].service, false, now, start);
    }

    /** Resolves the collisions one after the other, in any order: each gets one turn. */
    method ResolveCollisions(now: int, valid: Service -> bool, start: int) returns (ghost turns: seq<Turn>)
      requires Valid() && 0 <= start < NEW_BUCKETS
      modifies this
      ensures Valid() && Survives(old(Model()), Model()) && TriedKept(old(Model()), Model())
      ensures cfg == old(cfg) && collisions <= old(collisions)
      ensures Turned(turns) == old(collisions) && |turns| == |old(collisions)|
      ensures Resolved(cfg, old(Model()), old(collisions), turns, Model(), collisions, now, valid)
    {
      var todo := collisions;
      ghost var m := Model();
      turns := [];
      while todo != {}
        invariant Valid() && Survives(m, Model()) && TriedKept(m, Model())
        invariant cfg == old(cfg) && todo <= collisions <= old(collisions)
        invariant Turned(turns) + todo == old(collisions) && |turns| + |todo| == |old(collisions)|
        invariant Resolved(cfg, m, old(collisions), turns, Model(), collisions, now, valid)
        decreases todo
      {
        Inhabited(todo);
        var id :| id in todo;
        todo := todo - {id};
        turns := Resolve(id, now, valid, start, m, old(collisions), turns);
      }
    }

    /** One turn: the collision is resolved, and erased from the list or left there. */
    method Resolve(id: int, now: int, valid: Service -> bool, start: int, ghost m: Book, ghost c: set<int>,
                   ghost turns: seq<Turn>)
      returns (ghost turns': seq<Turn>)
      requires Valid() && id in collisions && 0 <= start < NEW_BUCKETS && Survives(m, Model()) && TriedKept(m, Model())
      requires Resolved(cfg, m, c, turns, Model(), collisions, now, valid)
      modifies this
      ensures Valid() && Survives(m, Model()) && TriedKept(m, Model())
      ensures cfg == old(cfg) && old(collisions) - {id} <= collisions <= old(collisions)
      ensures Turned(turns') == Turned(turns) + {id} && |turns'| == |turns| + 1
      ensures Resolved(cfg, m, c, turns', Model(), collisions, now, valid)
    {
      ghost var before := Model();
      var erase := ResolveOne(id, now, valid, start);
      SurvivesTrans(m, before, Model());
      ghost var t := Turn(collisions, id, erase, before, Model());
      ResolvedNext(cfg, m, c, turns, t, now, valid);
      TurnedNext(turns, t);
      turns' := turns + [t];
      if erase {
        Fewer(collisions, id);
        collisions := collisions - {id};
      }
    }

    /**
     The tried entry that the waiting entry drawn would replace, and `pick` is that entry's id. There is none exactly if
     nothing waits or the one drawn is gone, which is then forgotten. If the place looked up is empty, which `Blocked`
     rules out, reading `mapInfo[-1]` puts a blank entry there, and the manager is no longer consistent.
     */
    method SelectTriedCollision() returns (r: Option<Info>, ghost pick: int)
      requires Valid()
      modifies this`collisions, this`info
      ensures old(collisions) != {} ==> pick in old(collisions)
      ensures r.Some? <==> old(collisions) != {} && pick in old(info)
      ensures collisions == if r.Some? then old(collisions) else old(collisions) - {pick}
      ensures var stale := r.Some? && TriedHolder(cfg, old(Model()), pick) == -1;
        && Model() == (if stale then WithBlank(old(Model())) else old(Model())) && (Valid() <==> !stale)
        && r == (if r.None? then None else if stale then Some(BLANK) else Some(HolderOf(cfg, old(Model()), pick)))
    {
      pick := 0;
      if collisions == {} {
        return None, pick;
      }
      Inhabited(collisions);
      var id :| id in collisions;
      pick := id;
      if id !in info {
        Fewer(collisions, id);
        collisions := collisions - {id};
        return None, pick;
      }
      var b, p := cfg.triedBucket(info[id].service), cfg.TriedPosition(info[id].service);
      var holder := vvTried[b][p];
      assert TriedPlaceOk(cfg, Model(), b, p);
      if holder !in info {
        BlankBreaks(cfg, Model());
        info := info[holder := BLANK];
      }
      return Some(info[holder]), pick;
    }

    /** Forgets everything but the waiting ids, under a new key. */
    method Clear(rekeyed: Config)
      modifies this
      ensures Model() == EmptyBook() && cfg == rekeyed && collisions == old(collisions) && lastGood == 1
      ensures old(Valid()) ==> Valid() && (Blocked() <==> collisions == {})
    {
      cfg := rekeyed;
      idCount, info, addr, random, triedCount, newCount := 0, map[], map[], [], 0, 0;
      vvTried, vvNew := EmptyTable(TRIED_BUCKETS), EmptyTable(NEW_BUCKETS);
      lastGood := 1;
      EmptyConsistent(cfg);
      if old(Valid()) {
        ClearedCollisions(cfg, collisions);
      }
    }

    /** The ids that start to wait are blocked. */
    twostate predicate BlockedSince()
      reads this
    {
      forall id :: id in collisions && id !in old(collisions) ==>
        && id in old(info) && id < old(idCount) && IsTable(old(vvTried), TRIED_BUCKETS)
        && TriedHolder(old(cfg), old(Model()), id) != -1
    }

    /** What every operation but `Clear` does to the manager and its waiting ids. */
    twostate predicate GoesOn()
      reads this
    {
      && cfg == old(cfg) && Survives(old(Model()), Model()) && TriedKept(old(Model()), Model())
      && BlockedSince()
    }

    method Hear(op: Op, c: Chance)
      requires Valid() && (op.AddOp? || op.GoodOp?)
      modifies this
      ensures Valid() && GoesOn()
    {
      ghost var m := Model();
      if op.AddOp? {
        var _ := Add(op.service, op.source, op.services, op.time, op.penalty, op.routable, c.now, c.draw, c.terrible);
      } else {
        Good(op.service, op.testBeforeEvict, op.time, c.start);
        IdsNatural(cfg, m);
      }
    }

    method Consult(op: Op, c: Chance)
      requires Valid() && (op.AttemptOp? || op.GetAddrOp? || op.ResolveOp?)
      modifies this
      ensures Valid() && GoesOn()
    {
      ghost var m := Model();
      if op.AttemptOp? {
        Attempt(op.service, op.countFailure, op.time);
      } else if op.ResolveOp? {
        ghost var _ := ResolveCollisions(c.now, c.valid, c.start);
      } else {
        var _, _ := GetAddr(c.draw, c.terrible);
        ShuffleSurvives(m, Model());
      }
    }

    /** `ok` is false exactly if the operation left the manager inconsistent, which a blocked list rules out. */
    method Perform(op: Op, c: Chance) returns (ok: bool)
      requires Valid()
      modifies this
      ensures |collisions| <= MAX_COLLISIONS
      ensures ok <==> Valid()
      ensures !ok ==> op.SelectCollisionOp? && !Consistent(cfg, Model()) && !old(Blocked())
      ensures old(Blocked()) && (op.ClearOp? ==> old(collisions) == {}) ==> ok && Blocked()
      ensures ok && !op.ClearOp? ==> GoesOn()
    {
      ghost var m, w := Model(), collisions;
      ok := true;
      if op.SelectCollisionOp? {
        ok := Select();
      } else if op.ClearOp? {
        Clear(op.rekeyed.(discriminatePorts := cfg.discriminatePorts));
      } else if op.AddOp? || op.GoodOp? {
        Hear(op, c);
      } else {
        Consult(op, c);
      }
      if ok && !op.ClearOp? && CollisionsOk(old(cfg), m, w) {
        CollisionsKept(cfg, m, w, Model(), collisions);
      }
    }

    method Select() returns (ok: bool)
      requires Valid()
      modifies this`collisions, this`info
      ensures ok <==> Valid()
      ensures ok ==> GoesOn()
      ensures |collisions| <= MAX_COLLISIONS
      ensures !ok ==> !Consistent(cfg, Model()) && !old(Blocked())
    {
      ghost var pick;
      var r;
      IdsNatural(cfg, Model());
      r, pick := SelectTriedCollision();
      Fewer(old(collisions), pick);
      ok := -1 !in info;
    }

    /**
     Every run of operations keeps the manager consistent and at most ten ids waiting, unless a collision is selected
     whose place is empty; `n` operations are performed up to that point. Without `Clear` no such collision exists, no
     id is reused for another service, and no place of the tried table is emptied.
     */
    method Run(ops: seq<(Op, Chance)>) returns (n: nat)
      requires Valid()
      modifies this
      ensures n <= |ops| && |collisions| <= MAX_COLLISIONS
      ensures n == |ops| ==> Valid()
      ensures n < |ops| ==> ops[n].0.SelectCollisionOp? && !Consistent(cfg, Model())
      ensures n < |ops| && old(Blocked()) ==> exists i :: 0 <= i < n && ops[i].0.ClearOp?
      ensures old(Blocked()) && (forall i :: 0 <= i < |ops| ==> !ops[i].0.ClearOp?) ==>
        && n == |ops| && Blocked() && cfg == old(cfg)
        && Survives(old(Model()), Model()) && TriedKept(old(Model()), Model())
    {
      ghost var m, blocked := Model(), Blocked();
      n := 0;
      while n < |ops|
        invariant n <= |ops| && Valid()
        invariant blocked && (forall i :: 0 <= i < n ==> !ops[i].0.ClearOp?) ==>
          Blocked() && cfg == old(cfg) && Survives(m, Model()) && TriedKept(m, Model())
      {
        ghost var before := Model();
        ghost var plain := blocked && forall i :: 0 <= i < n ==> !ops[i].0.ClearOp?;
        var ok := Perform(ops[n].0, ops[n].1);
        if !ok {
          return;
        }
        if plain && !ops[n].0.ClearOp? {
          SurvivesTrans(m, before, Model());
        }
        n := n + 1;
      }
    }

    method TakeOut(id: int)
      requires Consistent(cfg, Model()) && id in info && !info[id].inTried
      modifies this`info, this`newCount, this`vvNew
      ensures Inv(cfg, Model(), {id}, 1) && TakenOut(old(Model()), Model(), id) && -1 !in info
    {
      IdsNatural(cfg, Model());
      RemoveFromNew(id);
      CountShift(cfg, Model(), {id}, 0, -1);
      newCount := newCount - 1;
      assert info[id].refCount == 0;
    }

    method Promote(id: int)
      requires Inv(cfg, Model(), {id}, 1) && id in info && !info[id].inTried && info[id].refCount == 0
      requires vvTried[cfg.triedBucket(info[id].service)][cfg.TriedPosition(info[id].service)] == -1
      modifies this`info, this`vvTried, this`triedCount
      ensures Consistent(cfg, Model()) && Model() == Promoted(cfg, old(Model()), id)
    {
      PromoteKeeps(cfg, Model(), {id}, 1, id);
      assert {id} - {id} == {};
      var b, p := cfg.triedBucket(info[id].service), cfg.TriedPosition(info[id].service);
      vvTried := Put(vvTried, b, p, id);
      triedCount := triedCount + 1;
      info := info[id := info[id].(inTried := true)];
    }
  }
}
