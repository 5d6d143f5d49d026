/**
 The stack of write-back UTXO caches (`CCoinsViewCache` over `CCoinsViewCache` over ... over `CCoinsViewDB`)
 as a value, and the plain map from outpoint to coin that each of its levels stands for.

 A level is read through the levels below it. `View` is what a level shows; `Inv` is the agreement between the
 DIRTY/FRESH flags of one level and the view of the level below, which no single operation states.
 */
module Coins {
  import opened Wrappers
  import opened Sums

  const OP_RETURN := 0x6a
  const MAX_SCRIPT_SIZE := 10000
  /** Scripts up to this length are stored inline by the source's vector type and own no heap memory. */
  const INLINE_SCRIPT_SIZE := 28

  datatype OutPoint = OutPoint(hash: nat, n: nat)

  datatype TxOut = TxOut(value: int, script: seq<nat>) {
    predicate IsUnspendable() {
      (|script| > 0 && script[0] == OP_RETURN) || |script| > MAX_SCRIPT_SIZE
    }
  }

  datatype Coin = Coin(out: TxOut, height: nat, coinBase: bool) {
    predicate IsSpent() {
      out.value == -1
    }

    /** Heap memory owned by the coin: its script, rounded up to the allocator's 16-byte granules. */
    function Usage(): nat {
      if |out.script| <= INLINE_SCRIPT_SIZE then 0 else (|out.script| + 31) / 16 * 16
    }
  }

  /** What `Coin()` and `Coin::Clear` leave behind. */
  const NullCoin := Coin(TxOut(-1, []), 0, false)

  datatype Entry = Entry(coin: Coin, isDirty: bool, isFresh: bool)

  datatype Stack =
    | Db(utxo: map<OutPoint, Coin>)
    | Cache(entries: map<OutPoint, Entry>, usage: int, base: Stack)

  datatype Error = OverwriteUnspent | FreshMisapplied | NoSuchLevel

  // ---------------------------------------------------------------------------------------------------------------
  // Meaning
  // ---------------------------------------------------------------------------------------------------------------

  function Get<K, V>(m: map<K, V>, k: K): Option<V> {
    if k in m then Some(m[k]) else None
  }

  /** A spent coin is shown as no coin at all. */
  function Shown(coin: Coin): Option<Coin> {
    if coin.IsSpent() then None else Some(coin)
  }

  /** What a level shows for an outpoint, from its own entry and the view below. */
  function ShownBy(entry: Option<Entry>, below: Option<Coin>): Option<Coin> {
    match entry
    case Some(e) => Shown(e.coin)
    case None => below
  }

  /** The coin a level shows to its readers: its own entry if it has one, else what the level below shows. */
  function View(s: Stack, o: OutPoint): Option<Coin> {
    match s
    case Db(utxo) => Get(utxo, o)
    case Cache(entries, _, base) => ShownBy(Get(entries, o), View(base, o))
  }

  /** Level by level, topmost first, the stack shows exactly these plain maps. */
  ghost predicate Shows(s: Stack, utxos: seq<map<OutPoint, Coin>>) {
    && |utxos| > 0
    && (forall o :: View(s, o) == Get(utxos[0], o))
    && (if s.Cache? then Shows(s.base, utxos[1..]) else |utxos| == 1)
  }

  function Usages(m: map<OutPoint, Entry>): map<OutPoint, nat> {
    map o | o in m :: m[o].coin.Usage()
  }

  ghost function TotalUsage(m: map<OutPoint, Entry>): nat {
    Sum(Usages(m))
  }

  /**
   How an entry's flags relate to the view below it. FRESH promises that nothing unspent lies below, an entry that is
   not DIRTY repeats what lies below, and a spent entry is kept only as a DIRTY tombstone that is not FRESH.
   */
  predicate EntryOk(e: Entry, below: Option<Coin>) {
    && (e.coin.IsSpent() ==> e.coin == NullCoin && e.isDirty && !e.isFresh)
    && (e.isFresh ==> e.isDirty && below == None)
    && (!e.isDirty ==> below == Some(e.coin))
  }

  ghost predicate Inv(s: Stack) {
    match s
    case Db(utxo) => forall o :: o in utxo ==> !utxo[o].IsSpent()
    case Cache(entries, usage, base) =>
      && Inv(base)
      && usage == TotalUsage(entries)
      && forall o :: o in entries ==> EntryOk(entries[o], View(base, o))
  }

  // ---------------------------------------------------------------------------------------------------------------
  // The operations on the topmost level
  // ---------------------------------------------------------------------------------------------------------------

  /** `FetchCoin`: copies the coin into this level (and every level below that lacks it) when it is found there. */
  function FetchCoin(s: Stack, o: OutPoint): Stack {
    match s
    case Db(_) => s
    case Cache(entries, usage, base) =>
      if o in entries then s else
      var base' := FetchCoin(base, o);
      match Found(base', o)
      case Some(coin) => Cache(entries[o := Entry(coin, false, coin.IsSpent())], usage + coin.Usage(), base')
      case None => Cache(entries, usage, base')
  }

  /** What the topmost level holds, once fetched: the database answers from its table, a cache only if unspent. */
  function Found(s: Stack, o: OutPoint): Option<Coin> {
    match s
    case Db(utxo) => Get(utxo, o)
    case Cache(entries, _, _) => if o in entries then Shown(entries[o].coin) else None
  }

  /** `GetCoin`. */
  function GetCoin(s: Stack, o: OutPoint): Option<Coin> {
    Found(FetchCoin(s, o), o)
  }

  function AddCoin(s: Stack, o: OutPoint, coin: Coin, possibleOverwrite: bool): Result<Stack, Error>
    requires s.Cache?
  {
    if coin.out.IsUnspendable() then Ok(s) else
    var prior := if o in s.entries then s.entries[o] else Entry(NullCoin, false, false);
    var usage := if o in s.entries then s.usage - prior.coin.Usage() else s.usage;
    if !possibleOverwrite && !prior.coin.IsSpent() then Err(OverwriteUnspent) else
    var isFresh := !possibleOverwrite && !prior.isDirty;
    Ok(Cache(s.entries[o := Entry(coin, true, prior.isFresh || isFresh)], usage + coin.Usage(), s.base))
  }

  function SpendCoin(s: Stack, o: OutPoint): Stack
    requires s.Cache?
  {
    SpendHere(FetchCoin(s, o), o)
  }

  /** The entry of a fetched coin, if there is one, is forgotten or left as a tombstone. */
  function SpendHere(f: Stack, o: OutPoint): Stack
    requires f.Cache?
  {
    if o !in f.entries then f else
    var e := f.entries[o];
    if e.isFresh then Cache(f.entries - {o}, f.usage - e.coin.Usage(), f.base)
    else Cache(f.entries[o := Entry(NullCoin, true, e.isFresh)], f.usage - e.coin.Usage(), f.base)
  }

  function Uncache(s: Stack, o: OutPoint): Stack
    requires s.Cache?
  {
    if o in s.entries && !s.entries[o].isDirty && !s.entries[o].isFresh then
      Cache(s.entries - {o}, s.usage - s.entries[o].coin.Usage(), s.base)
    else s
  }

  /** A child's FRESH entry meets an unspent coin in the parent: the case the source throws on. */
  predicate Misapplied(child: Option<Entry>, parent: Option<Entry>) {
    child.Some? && child.value.isDirty && child.value.isFresh && parent.Some? && !parent.value.coin.IsSpent()
  }

  /** What the parent holds for one outpoint after `BatchWrite`. */
  function MergedEntry(child: Option<Entry>, parent: Option<Entry>): Option<Entry> {
    if child.None? || !child.value.isDirty then parent else
    var c := child.value;
    match parent
    case None => if c.isFresh && c.coin.IsSpent() then None else Some(Entry(c.coin, true, c.isFresh))
    case Some(p) => if p.isFresh && c.coin.IsSpent() then None else Some(Entry(c.coin, true, p.isFresh))
  }

  function Merge(child: map<OutPoint, Entry>, parent: map<OutPoint, Entry>): map<OutPoint, Entry> {
    map o | o in child.Keys + parent.Keys && MergedEntry(Get(child, o), Get(parent, o)).Some?
      :: MergedEntry(Get(child, o), Get(parent, o)).value
  }

  /** `CCoinsViewDB::BatchWrite`: DIRTY entries are written or erased, the rest ignored. */
  function WriteDb(child: map<OutPoint, Entry>, utxo: map<OutPoint, Coin>): map<OutPoint, Coin> {
    (utxo - set o | o in child && child[o].isDirty)
    + map o | o in child && child[o].isDirty && !child[o].coin.IsSpent() :: child[o].coin
  }

  ghost function BatchWrite(child: map<OutPoint, Entry>, base: Stack): Result<Stack, Error> {
    match base
    case Db(utxo) => Ok(Db(WriteDb(child, utxo)))
    case Cache(entries, usage, below) =>
      if exists o :: Misapplied(Get(child, o), Get(entries, o)) then Err(FreshMisapplied) else
      Ok(Cache(Merge(child, entries), usage - TotalUsage(entries) + TotalUsage(Merge(child, entries)), below))
  }

  ghost function Flush(s: Stack): Result<Stack, Error>
    requires s.Cache?
  {
    match BatchWrite(s.entries, s.base)
    case Ok(base') => Ok(Cache(map[], 0, base'))
    case Err(e) => Err(e)
  }

  // ---------------------------------------------------------------------------------------------------------------
  // Usage sums
  // ---------------------------------------------------------------------------------------------------------------

  lemma UsageWithout(m: map<OutPoint, Entry>, o: OutPoint)
    requires o in m
    ensures TotalUsage(m) == m[o].coin.Usage() + TotalUsage(m - {o})
  {
    SumWithout(Usages(m), o);
    assert Usages(m) - {o} == Usages(m - {o});
  }

  lemma UsageWith(m: map<OutPoint, Entry>, o: OutPoint, e: Entry)
    ensures TotalUsage(m[o := e]) == e.coin.Usage() + TotalUsage(m - {o})
    ensures o !in m ==> m - {o} == m
  {
    UsageWithout(m[o := e], o);
    assert m[o := e] - {o} == m - {o};
  }

  // ---------------------------------------------------------------------------------------------------------------
  // What each operation keeps
  // ---------------------------------------------------------------------------------------------------------------

  /** Two stacks of the same height that show the same coins at every level. */
  ghost predicate SameViews(s: Stack, t: Stack) {
    && (forall o :: View(s, o) == View(t, o))
    && (s.Cache? <==> t.Cache?)
    && (s.Cache? ==> SameViews(s.base, t.base))
  }

  lemma {:induction false} SameViewsShow(s: Stack, t: Stack, utxos: seq<map<OutPoint, Coin>>)
    requires SameViews(s, t) && Shows(s, utxos)
    ensures Shows(t, utxos)
  {
    if s.Cache? { SameViewsShow(s.base, t.base, utxos[1..]); }
  }

  lemma {:induction false} SameViewsRefl(s: Stack)
    ensures SameViews(s, s)
  {
    if s.Cache? { SameViewsRefl(s.base); }
  }

  lemma {:induction false} ViewUnspent(s: Stack, o: OutPoint)
    requires Inv(s)
    ensures View(s, o).Some? ==> !View(s, o).value.IsSpent()
  {
    if s.Cache? { ViewUnspent(s.base, o); }
  }

  /** Reading a coin changes no level's view, keeps the invariant, and leaves the answer in the level itself. */
  lemma {:induction false} FetchKeeps(s: Stack, o: OutPoint)
    requires Inv(s)
    ensures Inv(FetchCoin(s, o)) && SameViews(s, FetchCoin(s, o))
    ensures GetCoin(s, o) == View(s, o)
  {
    SameViewsRefl(s);
    match s
    case Db(_) =>
      ViewUnspent(s, o);
    case Cache(entries, usage, base) =>
      if o !in entries {
        FetchKeeps(base, o);
        ViewUnspent(base, o);
        var f := FetchCoin(s, o);
        if View(base, o).Some? {
          UsageWith(entries, o, f.entries[o]);
        }
      }
  }

  /** An accepted `AddCoin` changes the view at its outpoint only; it is refused exactly on an unspent cached coin. */
  lemma AddCoinView(s: Stack, o: OutPoint, coin: Coin, possibleOverwrite: bool)
    requires s.Cache? && !coin.IsSpent() && !coin.out.IsUnspendable()
    ensures var r := AddCoin(s, o, coin, possibleOverwrite);
            && (r.Err? <==> !possibleOverwrite && o in s.entries && !s.entries[o].coin.IsSpent())
            && (r.Ok? ==> r.value.Cache? && r.value.base == s.base
                          && forall p :: View(r.value, p) == if p == o then Some(coin) else View(s, p))
  {
  }

  lemma AddCoinUsage(s: Stack, o: OutPoint, coin: Coin, possibleOverwrite: bool)
    requires s.Cache? && s.usage == TotalUsage(s.entries) && !coin.out.IsUnspendable()
    ensures var r := AddCoin(s, o, coin, possibleOverwrite); r.Ok? ==> r.value.usage == TotalUsage(r.value.entries)
  {
    var r := AddCoin(s, o, coin, possibleOverwrite);
    if r.Ok? {
      UsageWith(s.entries, o, r.value.entries[o]);
      if o in s.entries { UsageWithout(s.entries, o); }
    }
  }

  /**
   `AddCoin` succeeds and keeps the invariant exactly when the caller's `possible_overwrite` is honest: without it the
   coin must not be visible. A coin visible only below is not detected by the source and leaves a wrong FRESH flag.
   */
  lemma AddCoinExact(s: Stack, o: OutPoint, coin: Coin, possibleOverwrite: bool)
    requires Inv(s) && s.Cache? && !coin.IsSpent() && !coin.out.IsUnspendable()
    ensures var r := AddCoin(s, o, coin, possibleOverwrite);
            (r.Ok? && Inv(r.value)) <==> (possibleOverwrite || View(s, o).None?)
  {
    var r := AddCoin(s, o, coin, possibleOverwrite);
    AddCoinView(s, o, coin, possibleOverwrite);
    AddCoinUsage(s, o, coin, possibleOverwrite);
    if r.Ok? {
      assert EntryOk(r.value.entries[o], View(s.base, o)) <==> (possibleOverwrite || View(s, o).None?);
    }
  }

  lemma SpendHereUsage(f: Stack, o: OutPoint)
    requires f.Cache? && f.usage == TotalUsage(f.entries) && o in f.entries
    ensures SpendHere(f, o).usage == TotalUsage(SpendHere(f, o).entries)
  {
    UsageWithout(f.entries, o);
    UsageWith(f.entries, o, Entry(NullCoin, true, false));
  }

  lemma SpendHereKeeps(f: Stack, o: OutPoint)
    requires Inv(f) && f.Cache? && (o in f.entries || View(f, o).None?)
    ensures Inv(SpendHere(f, o)) && SpendHere(f, o).Cache? && SpendHere(f, o).base == f.base
    ensures forall p :: View(SpendHere(f, o), p) == if p == o then None else View(f, p)
  {
    if o in f.entries {
      var t := SpendHere(f, o);
      assert t.usage == TotalUsage(t.entries) by { SpendHereUsage(f, o); }
      forall p | p in t.entries
        ensures EntryOk(t.entries[p], View(t.base, p))
      {
        assert p != o ==> EntryOk(f.entries[p], View(f.base, p));
      }
    }
  }

  lemma SpendKeeps(s: Stack, o: OutPoint)
    requires Inv(s) && s.Cache?
    ensures Inv(SpendCoin(s, o)) && SpendCoin(s, o).Cache?
    ensures forall p :: View(SpendCoin(s, o), p) == if p == o then None else View(s, p)
    ensures SameViews(s.base, SpendCoin(s, o).base)
  {
    FetchKeeps(s, o);
    SpendHereKeeps(FetchCoin(s, o), o);
  }

  lemma UncacheKeeps(s: Stack, o: OutPoint)
    requires Inv(s) && s.Cache?
    ensures Inv(Uncache(s, o)) && SameViews(s, Uncache(s, o))
  {
    SameViewsRefl(s);
    SameViewsRefl(s.base);
    if o in s.entries { UsageWithout(s.entries, o); }
  }

  /** The entry a merge leaves in the parent agrees with the grandparent and shows what the child showed. */
  lemma MergedEntryOk(child: Option<Entry>, parent: Option<Entry>, below: Option<Coin>)
    requires parent.Some? ==> EntryOk(parent.value, below)
    requires child.Some? ==> EntryOk(child.value, ShownBy(parent, below))
    ensures !Misapplied(child, parent)
    ensures var m := MergedEntry(child, parent); m.Some? ==> EntryOk(m.value, below)
    ensures ShownBy(MergedEntry(child, parent), below) == ShownBy(child, ShownBy(parent, below))
  {
  }

  lemma MergedAt(child: map<OutPoint, Entry>, parent: map<OutPoint, Entry>, o: OutPoint)
    ensures Get(Merge(child, parent), o) == MergedEntry(Get(child, o), Get(parent, o))
  {
  }

  /** Merging a sound cache into a sound cache below it. */
  lemma MergeKeeps(s: Stack, o: OutPoint)
    requires Inv(s) && s.Cache? && s.base.Cache?
    ensures !Misapplied(Get(s.entries, o), Get(s.base.entries, o))
    ensures var m := Merge(s.entries, s.base.entries);
      && (o in m ==> EntryOk(m[o], View(s.base.base, o)))
      && ShownBy(Get(m, o), View(s.base.base, o)) == View(s, o)
  {
    MergedEntryOk(Get(s.entries, o), Get(s.base.entries, o), View(s.base.base, o));
    MergedAt(s.entries, s.base.entries, o);
  }

  /** Flushing never throws, keeps this level's view, and makes the level below show exactly that view. */
  lemma FlushKeeps(s: Stack)
    requires Inv(s) && s.Cache?
    ensures Flush(s).Ok? && Inv(Flush(s).value) && Flush(s).value.Cache?
    ensures forall o :: View(Flush(s).value, o) == View(s, o) == View(Flush(s).value.base, o)
    ensures s.base.Db? <==> Flush(s).value.base.Db?
    ensures s.base.Cache? ==> Flush(s).value.base.base == s.base.base
  {
    if s.base.Cache? {
      forall o
        ensures !Misapplied(Get(s.entries, o), Get(s.base.entries, o))
        ensures var m := Merge(s.entries, s.base.entries);
          && (o in m ==> EntryOk(m[o], View(s.base.base, o)))
          && ShownBy(Get(m, o), View(s.base.base, o)) == View(s, o)
      {
        MergeKeeps(s, o);
      }
    } else {
      FlushToDatabase(s);
    }
  }

  lemma FlushToDatabase(s: Stack)
    requires Inv(s) && s.Cache? && s.base.Db?
    ensures Inv(Db(WriteDb(s.entries, s.base.utxo)))
    ensures forall o :: Get(WriteDb(s.entries, s.base.utxo), o) == View(s, o)
  {
  }
}
