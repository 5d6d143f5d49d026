/**
 Whole runs over a stack of coin caches: any sequence of operations at any levels, caches being opened on top and
 dropped again, against one plain map of coins per level.
 */
module CoinsRuns {
  import opened Wrappers
  import opened Coins

  datatype Op =
    | GetOp(o: OutPoint)
    | AddOp(o: OutPoint, coin: Coin, possibleOverwrite: bool)
    | SpendOp(o: OutPoint)
    | UncacheOp(o: OutPoint)
    | FlushOp

  /** An operation at some level (0 is topmost), a new cache on top, or the topmost cache dropped without a flush. */
  datatype Action = At(level: nat, op: Op) | Open | Close

  ghost function Apply(s: Stack, op: Op): Result<Stack, Error>
    requires s.Cache?
  {
    match op
    case GetOp(o) => Ok(FetchCoin(s, o))
    case AddOp(o, coin, possibleOverwrite) => AddCoin(s, o, coin, possibleOverwrite)
    case SpendOp(o) => Ok(SpendCoin(s, o))
    case UncacheOp(o) => Ok(Uncache(s, o))
    case FlushOp => Flush(s)
  }

  ghost function ApplyAt(s: Stack, level: nat, op: Op): Result<Stack, Error> {
    if s.Db? then Err(NoSuchLevel)
    else if level == 0 then Apply(s, op)
    else
      match ApplyAt(s.base, level - 1, op)
      case Ok(base') => Ok(Cache(s.entries, s.usage, base'))
      case Err(e) => Err(e)
  }

  ghost function Step(s: Stack, a: Action): Result<Stack, Error> {
    match a
    case At(level, op) => ApplyAt(s, level, op)
    case Open => Ok(Cache(map[], 0, s))
    case Close => if s.Cache? then Ok(s.base) else Err(NoSuchLevel)
  }

  ghost function Run(s: Stack, actions: seq<Action>): Result<Stack, Error>
    decreases |actions|
  {
    if actions == [] then Ok(s) else
    match Step(s, actions[0])
    case Ok(s') => Run(s', actions[1..])
    case Err(e) => Err(e)
  }

  // ---------------------------------------------------------------------------------------------------------------
  // What callers owe
  // ---------------------------------------------------------------------------------------------------------------

  /** The operation changes what its level holds at its outpoint. */
  predicate Writes(op: Op) {
    op.SpendOp? || (op.AddOp? && !op.coin.out.IsUnspendable())
  }

  /** What a level shows at the outpoint once it has been written. */
  function Written(op: Op): Option<Coin>
    requires Writes(op)
  {
    if op.AddOp? then Some(op.coin) else None
  }

  /** Some cache above the level has an entry of its own, which hides a write from itself and from those above it. */
  predicate Masked(s: Stack, level: nat, op: Op) {
    Writes(op) && level > 0 && s.Cache? && (op.o in s.entries || Masked(s.base, level - 1, op))
  }

  /**
   The flags of the entry that hides a write stay right. A spend needs it DIRTY; an addition needs it not FRESH, and
   DIRTY too unless it is the very coin that a clean entry repeats.
   */
  predicate Tolerates(e: Entry, op: Op)
    requires Writes(op)
  {
    match op
    case AddOp(_, coin, _) => !e.isFresh && (e.isDirty || e.coin == coin)
    case SpendOp(_) => e.isDirty
  }

  /**
   A coin passed to `AddCoin` is unspent, and visible there only if an overwrite is announced; and if a cache above has
   an entry for a written outpoint, the nearest such entry tolerates the write.
   */
  ghost predicate Allowed(s: Stack, level: nat, op: Op) {
    && s.Cache?
    && if level == 0 then
         op.AddOp? ==>
           !op.coin.IsSpent() && (op.possibleOverwrite || op.coin.out.IsUnspendable() || View(s, op.o).None?)
       else
         && Allowed(s.base, level - 1, op)
         && (Writes(op) && op.o in s.entries && !Masked(s.base, level - 1, op) ==> Tolerates(s.entries[op.o], op))
  }

  ghost predicate RunAllowed(s: Stack, actions: seq<Action>)
    decreases |actions|
  {
    actions == [] ||
    (var a := actions[0];
     && (a.At? ==> Allowed(s, a.level, a.op))
     && (a.Close? ==> s.Cache?)
     && (Step(s, a).Ok? ==> RunAllowed(Step(s, a).value, actions[1..])))
  }

  // ---------------------------------------------------------------------------------------------------------------
  // The plain maps
  // ---------------------------------------------------------------------------------------------------------------

  function PlainOp(utxo: map<OutPoint, Coin>, op: Op): map<OutPoint, Coin> {
    match op
    case AddOp(o, coin, _) => if coin.out.IsUnspendable() then utxo else utxo[o := coin]
    case SpendOp(o) => utxo - {o}
    case _ => utxo
  }

  /** The operation at its level and at every level above that no entry hides it from; a flush copies the level down. */
  function PlainAt(s: Stack, utxos: seq<map<OutPoint, Coin>>, level: nat, op: Op): seq<map<OutPoint, Coin>> {
    if |utxos| < 2 || s.Db? then utxos
    else if level > 0 then
      [if Masked(s, level, op) then utxos[0] else PlainOp(utxos[0], op)] + PlainAt(s.base, utxos[1..], level - 1, op)
    else if op.FlushOp? then [utxos[0], utxos[0]] + utxos[2..]
    else [PlainOp(utxos[0], op)] + utxos[1..]
  }

  function PlainStep(s: Stack, utxos: seq<map<OutPoint, Coin>>, a: Action): seq<map<OutPoint, Coin>>
    requires |utxos| > 0
    ensures |PlainStep(s, utxos, a)| > 0
  {
    match a
    case At(level, op) => PlainAt(s, utxos, level, op)
    case Open => [utxos[0]] + utxos
    case Close => if |utxos| > 1 then utxos[1..] else utxos
  }

  /** The run on plain maps; the stack only tells which writes are hidden. */
  ghost function PlainRun(s: Stack, utxos: seq<map<OutPoint, Coin>>, actions: seq<Action>): seq<map<OutPoint, Coin>>
    requires |utxos| > 0
    decreases |actions|
  {
    if actions == [] || Step(s, actions[0]).Err? then utxos
    else PlainRun(Step(s, actions[0]).value, PlainStep(s, utxos, actions[0]), actions[1..])
  }

  // ---------------------------------------------------------------------------------------------------------------
  // Refinement
  // ---------------------------------------------------------------------------------------------------------------

  lemma ShowsTop(s: Stack, s': Stack, utxos: seq<map<OutPoint, Coin>>, utxos': seq<map<OutPoint, Coin>>)
    requires s.Cache? && s'.Cache? && Shows(s, utxos) && |utxos'| > 1
    requires Shows(s'.base, utxos'[1..])
    requires forall o :: View(s', o) == Get(utxos'[0], o)
    ensures Shows(s', utxos')
  {
  }

  /** A level below that shows what the flushed level showed, over the levels that were below it. */
  lemma FlushedShows(s: Stack, s': Stack, utxos: seq<map<OutPoint, Coin>>)
    requires s.Cache? && s'.Cache? && Shows(s, utxos)
    requires forall o :: View(s', o) == View(s, o) && View(s'.base, o) == View(s, o)
    requires s.base.Db? <==> s'.base.Db?
    requires s.base.Cache? ==> s'.base.base == s.base.base
    ensures |utxos| >= 2 && Shows(s', [utxos[0], utxos[0]] + utxos[2..])
  {
    var shown := [utxos[0], utxos[0]] + utxos[2..];
    assert shown[1..] == [utxos[0]] + utxos[2..];
    if s'.base.Cache? {
      assert Shows(s.base.base, utxos[1..][1..]);
      assert shown[1..][1..] == utxos[1..][1..];
    }
    ShowsTop(s, s', utxos, shown);
  }

  lemma FlushRefines(s: Stack, utxos: seq<map<OutPoint, Coin>>)
    requires Inv(s) && s.Cache? && Shows(s, utxos)
    ensures Flush(s).Ok? && Inv(Flush(s).value) && Flush(s).value.Cache?
    ensures |utxos| >= 2 && PlainAt(s, utxos, 0, FlushOp)[0] == utxos[0]
    ensures Shows(Flush(s).value, PlainAt(s, utxos, 0, FlushOp))
  {
    FlushKeeps(s);
    FlushedShows(s, Flush(s).value, utxos);
  }

  /** One operation on the topmost level. */
  lemma ApplyRefines(s: Stack, op: Op, utxos: seq<map<OutPoint, Coin>>)
    requires Inv(s) && Allowed(s, 0, op) && Shows(s, utxos)
    ensures var r := Apply(s, op);
            r.Ok? && Inv(r.value) && r.value.Cache? && Shows(r.value, PlainAt(s, utxos, 0, op))
    ensures PlainAt(s, utxos, 0, op)[0] == PlainOp(utxos[0], op)
  {
    SameViewsRefl(s);
    match op
    case GetOp(o) =>
      FetchKeeps(s, o);
      SameViewsShow(s, FetchCoin(s, o), utxos);
      assert PlainAt(s, utxos, 0, op) == utxos;
    case AddOp(o, coin, possibleOverwrite) =>
      if coin.out.IsUnspendable() {
        assert PlainAt(s, utxos, 0, op) == utxos;
      } else {
        AddCoinExact(s, o, coin, possibleOverwrite);
        AddCoinView(s, o, coin, possibleOverwrite);
        ShowsTop(s, AddCoin(s, o, coin, possibleOverwrite).value, utxos, PlainAt(s, utxos, 0, op));
      }
    case SpendOp(o) =>
      SpendKeeps(s, o);
      SameViewsShow(s.base, SpendCoin(s, o).base, utxos[1..]);
      ShowsTop(s, SpendCoin(s, o), utxos, PlainAt(s, utxos, 0, op));
    case UncacheOp(o) =>
      UncacheKeeps(s, o);
      SameViewsShow(s, Uncache(s, o), utxos);
      assert PlainAt(s, utxos, 0, op) == utxos;
    case FlushOp =>
      FlushRefines(s, utxos);
  }

  /** A level over a base that shows `v` at one outpoint, and elsewhere what it did, is sound iff its entry is. */
  lemma OverChangedBase(s: Stack, base': Stack, o: OutPoint, v: Option<Coin>)
    requires Inv(s) && s.Cache? && Inv(base')
    requires forall p :: View(base', p) == if p == o then v else View(s.base, p)
    ensures Inv(Cache(s.entries, s.usage, base')) <==> (o in s.entries ==> EntryOk(s.entries[o], v))
    ensures forall p :: View(Cache(s.entries, s.usage, base'), p)
                        == if p == o && o !in s.entries then v else View(s, p)
  {
    var s' := Cache(s.entries, s.usage, base');
    if o in s.entries && Inv(s') {
      assert EntryOk(s'.entries[o], View(base', o));
    }
  }

  /** For a sound entry, being sound over the written base is a matter of its flags. */
  lemma ToleratesExact(e: Entry, below: Option<Coin>, op: Op)
    requires EntryOk(e, below) && Writes(op)
    ensures EntryOk(e, Written(op)) <==> Tolerates(e, op)
  {
  }

  /** What an allowed operation shows: the written coin, unless an entry in between hides it, and all else as before. */
  lemma {:induction false} ApplyAtShows(s: Stack, level: nat, op: Op)
    requires Inv(s) && Allowed(s, level, op)
    ensures var r := ApplyAt(s, level, op);
      && r.Ok? && Inv(r.value) && r.value.Cache?
      && forall p :: View(r.value, p)
                     == if Writes(op) && p == op.o && !Masked(s, level, op) then Written(op) else View(s, p)
    decreases level
  {
    if level == 0 {
      ApplyShows(s, op);
    } else {
      ApplyAtShows(s.base, level - 1, op);
      LiftShows(s, level, op);
    }
  }

  lemma ApplyShows(s: Stack, op: Op)
    requires Inv(s) && Allowed(s, 0, op)
    ensures var r := Apply(s, op);
      && r.Ok? && Inv(r.value) && r.value.Cache?
      && forall p :: View(r.value, p) == if Writes(op) && p == op.o then Written(op) else View(s, p)
  {
    match op
    case GetOp(o) => FetchKeeps(s, o);
    case AddOp(o, coin, possibleOverwrite) =>
      if !coin.out.IsUnspendable() {
        AddCoinExact(s, o, coin, possibleOverwrite);
        AddCoinView(s, o, coin, possibleOverwrite);
      }
    case SpendOp(o) => SpendKeeps(s, o);
    case UncacheOp(o) => UncacheKeeps(s, o);
    case FlushOp => FlushKeeps(s);
  }

  /** One level further up. */
  lemma LiftShows(s: Stack, level: nat, op: Op)
    requires Inv(s) && s.Cache? && level > 0
    requires var r := ApplyAt(s.base, level - 1, op);
      && r.Ok? && Inv(r.value)
      && forall p :: View(r.value, p)
                     == if Writes(op) && p == op.o && !Masked(s.base, level - 1, op) then Written(op)
                        else View(s.base, p)
    ensures var r := ApplyAt(s, level, op);
      && r.Ok? && r.value.Cache?
      && (Inv(r.value) <==>
            (Writes(op) && op.o in s.entries && !Masked(s.base, level - 1, op) ==> Tolerates(s.entries[op.o], op)))
      && forall p :: View(r.value, p)
                     == if Writes(op) && p == op.o && !Masked(s, level, op) then Written(op) else View(s, p)
  {
    var base' := ApplyAt(s.base, level - 1, op).value;
    if Writes(op) && !Masked(s.base, level - 1, op) {
      OverChangedBase(s, base', op.o, Written(op));
      if op.o in s.entries {
        ToleratesExact(s.entries[op.o], View(s.base, op.o), op);
      }
    } else if Writes(op) {
      OverChangedBase(s, base', op.o, View(s.base, op.o));
    }
  }

  /** The operation finds its level, and a coin passed to `AddCoin` is unspent, as it asserts. */
  predicate Sensible(s: Stack, level: nat, op: Op) {
    s.Cache? && (if level == 0 then op.AddOp? ==> !op.coin.IsSpent() else Sensible(s.base, level - 1, op))
  }

  /** An operation at any level of a sound stack succeeds and leaves it sound if and only if it is allowed. */
  lemma {:induction false} ApplyAtExact(s: Stack, level: nat, op: Op)
    requires Inv(s) && Sensible(s, level, op)
    ensures (ApplyAt(s, level, op).Ok? && Inv(ApplyAt(s, level, op).value)) <==> Allowed(s, level, op)
    decreases level
  {
    if Allowed(s, level, op) {
      ApplyAtShows(s, level, op);
    } else if level == 0 {
      AddCoinExact(s, op.o, op.coin, op.possibleOverwrite);
    } else {
      ApplyAtExact(s.base, level - 1, op);
      if Allowed(s.base, level - 1, op) {
        ApplyAtShows(s.base, level - 1, op);
        LiftShows(s, level, op);
      }
    }
  }

  /**
   Why entries above matter: spending a coin below a clean entry that repeats it leaves that entry showing a coin which
   is gone, and the stack unsound.
   */
  lemma LowerSpendLeavesStale(o: OutPoint, coin: Coin)
    requires !coin.IsSpent()
    ensures var s := Cache(map[o := Entry(coin, false, false)], coin.Usage(), Cache(map[], 0, Db(map[o := coin])));
      var r := ApplyAt(s, 1, SpendOp(o));
      && Inv(s) && Sensible(s, 1, SpendOp(o)) && r.Ok? && r.value.Cache?
      && View(r.value, o) == Some(coin) && View(r.value.base, o) == None && !Inv(r.value)
  {
    var below := Cache(map[], 0, Db(map[o := coin]));
    var s := Cache(map[o := Entry(coin, false, false)], coin.Usage(), below);
    UsageWith(map[], o, Entry(coin, false, false));
    assert Inv(below);
    ApplyAtExact(s, 1, SpendOp(o));
    ApplyAtShows(below, 0, SpendOp(o));
    LiftShows(s, 1, SpendOp(o));
  }

  /** One operation at any level: it does not throw, keeps the invariant, and does to the plain maps what it should. */
  lemma {:induction false} ApplyAtRefines(s: Stack, level: nat, op: Op, utxos: seq<map<OutPoint, Coin>>)
    requires Inv(s) && Allowed(s, level, op) && Shows(s, utxos)
    ensures var r := ApplyAt(s, level, op);
            r.Ok? && Inv(r.value) && r.value.Cache? && Shows(r.value, PlainAt(s, utxos, level, op))
    decreases level
  {
    if level == 0 {
      ApplyRefines(s, op, utxos);
    } else {
      ApplyAtRefines(s.base, level - 1, op, utxos[1..]);
      ApplyAtShows(s, level, op);
      LiftRefines(s, ApplyAt(s, level, op).value, level, op, utxos);
    }
  }

  lemma LiftRefines(s: Stack, s': Stack, level: nat, op: Op, utxos: seq<map<OutPoint, Coin>>)
    requires s.Cache? && s'.Cache? && level > 0 && Shows(s, utxos)
    requires Shows(s'.base, PlainAt(s.base, utxos[1..], level - 1, op))
    requires forall p :: View(s', p)
                         == if Writes(op) && p == op.o && !Masked(s, level, op) then Written(op) else View(s, p)
    ensures Shows(s', PlainAt(s, utxos, level, op))
  {
    var utxos' := PlainAt(s, utxos, level, op);
    assert utxos'[1..] == PlainAt(s.base, utxos[1..], level - 1, op);
    forall o
      ensures View(s', o) == Get(utxos'[0], o)
    {
      assert View(s, o) == Get(utxos[0], o);
    }
    ShowsTop(s, s', utxos, utxos');
  }

  /** At every level, a read answers with that level's plain map. */
  lemma {:induction false} ReadAnswers(s: Stack, level: nat, o: OutPoint, utxos: seq<map<OutPoint, Coin>>)
    requires Inv(s) && Shows(s, utxos) && level < |utxos|
    ensures GetCoin(Level(s, level), o) == Get(utxos[level], o)
  {
    if level == 0 {
      FetchKeeps(s, o);
    } else if s.Cache? {
      ReadAnswers(s.base, level - 1, o, utxos[1..]);
    }
  }

  function Level(s: Stack, level: nat): Stack {
    if level == 0 || s.Db? then s else Level(s.base, level - 1)
  }

  lemma StepRefines(s: Stack, a: Action, utxos: seq<map<OutPoint, Coin>>)
    requires Inv(s) && Shows(s, utxos) && RunAllowed(s, [a])
    ensures Step(s, a).Ok? && Inv(Step(s, a).value) && Shows(Step(s, a).value, PlainStep(s, utxos, a))
  {
    match a
    case At(level, op) => ApplyAtRefines(s, level, op, utxos);
    case Open =>
      var s' := Cache(map[], 0, s);
      assert ([utxos[0]] + utxos)[1..] == utxos;
    case Close =>
  }

  /**
   Every allowed run over a stack of any height: nothing throws, the invariant holds at the end, and every level shows
   exactly the plain map obtained by running the same actions on plain maps.
   */
  lemma {:induction false} RunRefines(s: Stack, actions: seq<Action>, utxos: seq<map<OutPoint, Coin>>)
    requires Inv(s) && Shows(s, utxos) && RunAllowed(s, actions)
    ensures Run(s, actions).Ok? && Inv(Run(s, actions).value)
    ensures Shows(Run(s, actions).value, PlainRun(s, utxos, actions))
    decreases |actions|
  {
    if actions != [] {
      StepRefines(s, actions[0], utxos);
      RunRefines(Step(s, actions[0]).value, actions[1..], PlainStep(s, utxos, actions[0]));
    }
  }

  /** Every operation of the run finds its level, and coins passed to `AddCoin` are unspent. */
  ghost predicate RunSensible(s: Stack, actions: seq<Action>)
    decreases |actions|
  {
    actions == [] ||
    (var a := actions[0];
     && (a.At? ==> Sensible(s, a.level, a.op))
     && (a.Close? ==> s.Cache?)
     && (Step(s, a).Ok? ==> RunSensible(Step(s, a).value, actions[1..])))
  }

  /** No step throws or leaves the stack unsound. */
  ghost predicate RunSound(s: Stack, actions: seq<Action>)
    decreases |actions|
  {
    actions == [] ||
    (Step(s, actions[0]).Ok? && Inv(Step(s, actions[0]).value) && RunSound(Step(s, actions[0]).value, actions[1..]))
  }

  /** A run stays sound at every step if and only if every operation is allowed where it happens. */
  lemma {:induction false} RunExact(s: Stack, actions: seq<Action>)
    requires Inv(s) && RunSensible(s, actions)
    ensures RunSound(s, actions) <==> RunAllowed(s, actions)
    decreases |actions|
  {
    if actions != [] {
      var a := actions[0];
      if a.At? {
        ApplyAtExact(s, a.level, a.op);
      }
      if Step(s, a).Ok? && Inv(Step(s, a).value) {
        RunExact(Step(s, a).value, actions[1..]);
      }
    }
  }

  /** A run that starts from a database of unspent coins needs nothing assumed about its state. */
  lemma RunFromDatabase(utxo: map<OutPoint, Coin>, actions: seq<Action>)
    requires forall o :: o in utxo ==> !utxo[o].IsSpent()
    requires RunAllowed(Db(utxo), actions)
    ensures Run(Db(utxo), actions).Ok? && Inv(Run(Db(utxo), actions).value)
    ensures Shows(Run(Db(utxo), actions).value, PlainRun(Db(utxo), [utxo], actions))
  {
    RunRefines(Db(utxo), actions, [utxo]);
  }

  /**
   Of the eight combinations of spent, DIRTY and FRESH, only four occur on any allowed run. The header also lists a
   spent, FRESH, not DIRTY entry fetched from the parent; it cannot arise because `GetCoin` reports no spent coin.
   */
  lemma ReachableFlags(utxo: map<OutPoint, Coin>, actions: seq<Action>, level: nat, o: OutPoint)
    requires forall o :: o in utxo ==> !utxo[o].IsSpent()
    requires RunAllowed(Db(utxo), actions)
    ensures Run(Db(utxo), actions).Ok?
    ensures var s := Level(Run(Db(utxo), actions).value, level);
            s.Cache? && o in s.entries ==> ReachableEntry(s.entries[o])
  {
    RunFromDatabase(utxo, actions);
    LevelInv(Run(Db(utxo), actions).value, level);
  }

  predicate ReachableEntry(e: Entry) {
    || (!e.coin.IsSpent() && e.isFresh && e.isDirty)
    || (!e.coin.IsSpent() && !e.isFresh && e.isDirty)
    || (!e.coin.IsSpent() && !e.isFresh && !e.isDirty)
    || (e.coin.IsSpent() && !e.isFresh && e.isDirty)
  }

  lemma {:induction false} LevelInv(s: Stack, level: nat)
    requires Inv(s)
    ensures Inv(Level(s, level))
  {
    if level > 0 && s.Cache? { LevelInv(s.base, level - 1); }
  }

  /**
   Why honesty is owed: announcing no overwrite for a coin that is visible only below marks it FRESH, and spending it
   then merely forgets it, so that the coin below shows again.
   */
  lemma DishonestAddResurrects(o: OutPoint, coin: Coin)
    requires !coin.IsSpent() && !coin.out.IsUnspendable()
    ensures var s := Cache(map[], 0, Db(map[o := coin]));
            && AddCoin(s, o, coin, false).Ok?
            && View(SpendCoin(AddCoin(s, o, coin, false).value, o), o) == Some(coin)
  {
  }
}
