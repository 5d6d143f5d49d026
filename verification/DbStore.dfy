/**
 Database transactions (`CDBTransaction`) layered over a key/value store, possibly over one another: what a stack of
 pending writes and deletes reads as, how the operations change it, and that committing loses and adds nothing.
 */
module DbStore {
  import opened Wrappers
  import opened Sums

  /** Keys and values are serialized byte strings. */
  type Key = seq<nat>
  type Value = seq<nat>

  datatype Store =
    | Base(kv: map<Key, Value>)
    | Txn(writes: map<Key, Value>, deletes: set<Key>, memoryUsage: int, parent: Store)

  function Get(m: map<Key, Value>, k: Key): Option<Value> {
    if k in m then Some(m[k]) else None
  }

  // ---------------------------------------------------------------------------------------------------------------
  // Operations
  // ---------------------------------------------------------------------------------------------------------------

  function Read(s: Store, k: Key): Option<Value> {
    match s
    case Base(kv) => Get(kv, k)
    case Txn(writes, deletes, _, parent) =>
      if k in deletes then None else if k in writes then Some(writes[k]) else Read(parent, k)
  }

  function Exists(s: Store, k: Key): bool {
    match s
    case Base(kv) => k in kv
    case Txn(writes, deletes, _, parent) =>
      if k in deletes then false else if k in writes then true else Exists(parent, k)
  }

  function Write(s: Store, k: Key, v: Value): Store {
    match s
    case Base(kv) => Base(kv[k := v])
    case Txn(writes, deletes, usage, parent) =>
      var usage1 := if k in deletes then usage - |k| else usage;
      var usage2 := if k in writes then usage1 - (|k| + |writes[k]|) else usage1;
      Txn(writes[k := v], deletes - {k}, usage2 + |k| + |v|, parent)
  }

  function Erase(s: Store, k: Key): Store {
    match s
    case Base(kv) => Base(kv - {k})
    case Txn(writes, deletes, usage, parent) =>
      var usage1 := if k in writes then usage - (|k| + |writes[k]|) else usage;
      Txn(writes - {k}, deletes + {k}, if k in deletes then usage1 else usage1 + |k|, parent)
  }

  // ---------------------------------------------------------------------------------------------------------------
  // Meaning
  // ---------------------------------------------------------------------------------------------------------------

  /** The plain map a stack of transactions stands for: each level's deletes, then its writes, over its parent. */
  function View(s: Store): map<Key, Value> {
    match s
    case Base(kv) => kv
    case Txn(writes, deletes, _, parent) => (View(parent) - deletes) + writes
  }

  function WriteWeights(writes: map<Key, Value>): map<Key, nat> {
    map k | k in writes :: |k| + |writes[k]|
  }

  function DeleteWeights(deletes: set<Key>): map<Key, nat> {
    map k | k in deletes :: |k|
  }

  /** Writes and deletes are disjoint, and the memory counter is the exact sum of their sizes, at every level. */
  ghost predicate Inv(s: Store) {
    match s
    case Base(_) => true
    case Txn(writes, deletes, usage, parent) =>
      && writes.Keys !! deletes
      && usage == Sum(WriteWeights(writes)) + Sum(DeleteWeights(deletes))
      && Inv(parent)
  }

  /** Reading and asking answer from the overlay. */
  lemma {:induction false} ReadsOverlay(s: Store, k: Key)
    requires Inv(s)
    ensures Read(s, k) == Get(View(s), k) && Exists(s, k) == (k in View(s))
  {
    if s.Txn? { ReadsOverlay(s.parent, k); }
  }

  lemma WriteKeeps(s: Store, k: Key, v: Value)
    requires Inv(s)
    ensures Inv(Write(s, k, v))
    ensures forall j :: Read(Write(s, k, v), j) == if j == k then Some(v) else Read(s, j)
  {
    if s.Txn? { WriteUsage(s, k, v); }
  }

  lemma WriteUsage(s: Store, k: Key, v: Value)
    requires Inv(s) && s.Txn?
    ensures var t := Write(s, k, v); t.memoryUsage == Sum(WriteWeights(t.writes)) + Sum(DeleteWeights(t.deletes))
  {
    var ww, dw := WriteWeights(s.writes), DeleteWeights(s.deletes);
    assert WriteWeights(s.writes[k := v]) == ww[k := |k| + |v|];
    SumWith(ww, k, |k| + |v|);
    if k in s.writes { SumWithout(ww, k); }
    assert DeleteWeights(s.deletes - {k}) == dw - {k};
    if k in s.deletes { SumWithout(dw, k); } else { assert dw - {k} == dw; }
  }

  lemma EraseKeeps(s: Store, k: Key)
    requires Inv(s)
    ensures Inv(Erase(s, k))
    ensures forall j :: Read(Erase(s, k), j) == if j == k then None else Read(s, j)
  {
    if s.Txn? { EraseUsage(s, k); }
  }

  lemma EraseUsage(s: Store, k: Key)
    requires Inv(s) && s.Txn?
    ensures var t := Erase(s, k); t.memoryUsage == Sum(WriteWeights(t.writes)) + Sum(DeleteWeights(t.deletes))
  {
    var ww, dw := WriteWeights(s.writes), DeleteWeights(s.deletes);
    assert WriteWeights(s.writes - {k}) == ww - {k};
    if k in s.writes { SumWithout(ww, k); } else { assert ww - {k} == ww; }
    assert DeleteWeights(s.deletes + {k}) == dw[k := |k|];
    SumWith(dw, k, |k|);
    if k in s.deletes { SumWithout(dw, k); }
  }

  lemma ClearKeeps(parent: Store)
    requires Inv(parent)
    ensures Inv(Txn(map[], {}, 0, parent)) && forall k :: Read(Txn(map[], {}, 0, parent), k) == Read(parent, k)
  {
    assert WriteWeights(map[]) == map[] && DeleteWeights({}) == map[];
  }

  // ---------------------------------------------------------------------------------------------------------------
  // Committing
  // ---------------------------------------------------------------------------------------------------------------

  /** The target after some keys have been erased, and after some pairs have been written, in the order given. */
  function EraseAll(s: Store, ks: seq<Key>): Store
    decreases |ks|
  {
    if ks == [] then s else EraseAll(Erase(s, ks[0]), ks[1..])
  }

  function WriteAll(s: Store, ks: seq<Key>, writes: map<Key, Value>): Store
    requires forall i :: 0 <= i < |ks| ==> ks[i] in writes
    decreases |ks|
  {
    if ks == [] then s else WriteAll(Write(s, ks[0], writes[ks[0]]), ks[1..], writes)
  }

  /** The keys of a set, each at least once and in some order. */
  predicate Lists(ks: seq<Key>, s: set<Key>) {
    (forall i :: 0 <= i < |ks| ==> ks[i] in s) && forall k :: k in s ==> k in ks
  }

  lemma {:induction false} EraseAllKeeps(s: Store, ks: seq<Key>)
    requires Inv(s)
    ensures Inv(EraseAll(s, ks))
    ensures forall j :: Read(EraseAll(s, ks), j) == if j in ks then None else Read(s, j)
    decreases |ks|
  {
    if ks != [] {
      EraseKeeps(s, ks[0]);
      EraseAllKeeps(Erase(s, ks[0]), ks[1..]);
      assert ks == [ks[0]] + ks[1..];
    }
  }

  lemma {:induction false} WriteAllKeeps(s: Store, ks: seq<Key>, writes: map<Key, Value>)
    requires Inv(s) && forall i :: 0 <= i < |ks| ==> ks[i] in writes
    ensures Inv(WriteAll(s, ks, writes))
    ensures forall j :: Read(WriteAll(s, ks, writes), j) == if j in ks then Get(writes, j) else Read(s, j)
    decreases |ks|
  {
    if ks != [] {
      WriteKeeps(s, ks[0], writes[ks[0]]);
      WriteAllKeeps(Write(s, ks[0], writes[ks[0]]), ks[1..], writes);
      assert ks == [ks[0]] + ks[1..];
    }
  }

  /**
   `Commit` into the parent: the parent then reads exactly as the transaction did, and the emptied transaction still
   does, whatever the order in which deletes and writes are walked.
   */
  lemma CommitExact(s: Store, dels: seq<Key>, puts: seq<Key>)
    requires s.Txn? && Inv(s) && Lists(dels, s.deletes) && Lists(puts, s.writes.Keys)
    ensures var target := WriteAll(EraseAll(s.parent, dels), puts, s.writes);
            Inv(target) && forall k :: Read(target, k) == Read(s, k) == Read(Txn(map[], {}, 0, target), k)
  {
    EraseAllKeeps(s.parent, dels);
    WriteAllKeeps(EraseAll(s.parent, dels), puts, s.writes);
  }

  // ---------------------------------------------------------------------------------------------------------------
  // The transaction object
  // ---------------------------------------------------------------------------------------------------------------

  class KvStore {
    var kv: map<Key, Value>

    constructor (kv: map<Key, Value>)
      ensures this.kv == kv
    {
      this.kv := kv;
    }
  }

  datatype Parent = OnDb(db: KvStore) | OnTxn(txn: Transaction)

  class Transaction {
    const parent: Parent
    var writes: map<Key, Value>
    var deletes: set<Key>
    var memoryUsage: int
    ghost const Repr: set<object>

    ghost predicate Linked()
      decreases Repr
    {
      && this in Repr
      && match parent
         case OnDb(db) => Repr == {this, db}
         case OnTxn(txn) => this !in txn.Repr && Repr == {this} + txn.Repr && txn.Repr < Repr && txn.Linked()
    }

    ghost function Model(): Store
      requires Linked()
      reads Repr
      decreases Repr
    {
      Txn(writes, deletes, memoryUsage,
          match parent
          case OnDb(db) => Base(db.kv)
          case OnTxn(txn) => txn.Model())
    }

    constructor (parent: Parent)
      requires parent.OnTxn? ==> parent.txn.Linked()
      ensures Linked() && this.parent == parent && writes == map[] && deletes == {} && memoryUsage == 0
    {
      this.parent := parent;
      writes, deletes, memoryUsage := map[], {}, 0;
      Repr := {this} + match parent case OnDb(db) => {db} case OnTxn(txn) => txn.Repr;
    }

    /** Reads through every level below, as if the overlay were one plain map. */
    method ReadKey(k: Key) returns (v: Option<Value>)
      requires Linked() && Inv(Model())
      ensures v == Get(View(Model()), k)
      decreases Repr
    {
      ReadsOverlay(Model(), k);
      if k in deletes {
        return None;
      }
      if k in writes {
        return Some(writes[k]);
      }
      match parent {
        case OnDb(db) => v := Get(db.kv, k);
        case OnTxn(txn) =>
          ReadsOverlay(txn.Model(), k);
          v := txn.ReadKey(k);
      }
    }

    method WriteKey(k: Key, v: Value)
      requires Linked()
      modifies this
      ensures Model() == Write(old(Model()), k, v)
    {
      if k in deletes {
        memoryUsage := memoryUsage - |k|;
      }
      deletes := deletes - {k};
      if k in writes {
        memoryUsage := memoryUsage - (|k| + |writes[k]|);
      }
      writes := writes[k := v];
      memoryUsage := memoryUsage + |k| + |v|;
    }

    method EraseKey(k: Key)
      requires Linked()
      modifies this
      ensures Model() == Erase(old(Model()), k)
    {
      if k in writes {
        memoryUsage := memoryUsage - (|k| + |writes[k]|);
      }
      writes := writes - {k};
      if k !in deletes {
        memoryUsage := memoryUsage + |k|;
      }
      deletes := deletes + {k};
    }

    method Clear()
      requires Linked()
      modifies this
      ensures writes == map[] && deletes == {} && memoryUsage == 0 && Model().parent == old(Model().parent)
    {
      writes, deletes, memoryUsage := map[], {}, 0;
    }

    /** The counter never needs the source's guard against a negative value. */
    method GetMemoryUsage() returns (r: nat)
      requires Linked() && Inv(Model())
      ensures r == memoryUsage == Sum(WriteWeights(writes)) + Sum(DeleteWeights(deletes))
    {
      r := memoryUsage;
    }

    /** The store below this transaction. */
    ghost function ParentModel(): Store
      requires Linked()
      reads Repr
    {
      Model().parent
    }

    method EraseFromParent(k: Key)
      requires Linked()
      modifies Repr - {this}
      ensures ParentModel() == Erase(old(ParentModel()), k)
    {
      match parent {
        case OnDb(db) => db.kv := db.kv - {k};
        case OnTxn(txn) => txn.EraseKey(k);
      }
    }

    method WriteToParent(k: Key, v: Value)
      requires Linked()
      modifies Repr - {this}
      ensures ParentModel() == Write(old(ParentModel()), k, v)
    {
      match parent {
        case OnDb(db) => db.kv := db.kv[k := v];
        case OnTxn(txn) => txn.WriteKey(k, v);
      }
    }

    method CommitDeletes()
      requires Linked() && Inv(ParentModel())
      modifies Repr - {this}
      ensures Inv(ParentModel())
      ensures forall k :: Read(ParentModel(), k) == if k in deletes then None else Read(old(ParentModel()), k)
    {
      ghost var was := ParentModel();
      var dels := deletes;
      while dels != {}
        invariant Inv(ParentModel()) && dels <= deletes
        invariant forall k :: Read(ParentModel(), k) == if k in deletes - dels then None else Read(was, k)
        decreases dels
      {
        var k :| k in dels;
        EraseKeeps(ParentModel(), k);
        EraseFromParent(k);
        dels := dels - {k};
      }
    }

    method CommitWrites()
      requires Linked() && Inv(ParentModel())
      modifies Repr - {this}
      ensures Inv(ParentModel())
      ensures forall k :: Read(ParentModel(), k) == if k in writes then Some(writes[k]) else Read(old(ParentModel()), k)
    {
      ghost var was := ParentModel();
      var puts := writes.Keys;
      while puts != {}
        invariant Inv(ParentModel()) && puts <= writes.Keys
        invariant forall k :: Read(ParentModel(), k) ==
                    if k in writes.Keys - puts then Some(writes[k]) else Read(was, k)
        decreases puts
      {
        var k :| k in puts;
        WriteKeeps(ParentModel(), k, writes[k]);
        WriteToParent(k, writes[k]);
        puts := puts - {k};
      }
    }

    /** Pushes deletes and then writes to the parent, which then reads as this transaction did. */
    method Commit()
      requires Linked() && Inv(Model())
      modifies Repr
      ensures Inv(Model()) && writes == map[] && deletes == {} && memoryUsage == 0
      ensures forall k :: Read(ParentModel(), k) == Read(old(Model()), k) == Read(Model(), k)
    {
      CommitDeletes();
      CommitWrites();
      Clear();
      ClearKeeps(ParentModel());
    }
  }
}
