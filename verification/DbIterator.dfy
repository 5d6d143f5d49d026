/**
 The merge iterator over a transaction and its parent (`CDBTransactionIterator`), nested to any depth over a database
 cursor: it enumerates exactly the keys of the overlay, in ascending order and without repeats.
 */
module DbIterator {
  import opened Wrappers
  import opened DbStore

  // ---------------------------------------------------------------------------------------------------------------
  // The order of keys
  // ---------------------------------------------------------------------------------------------------------------

  /** Lexicographical order of byte strings (`DataStreamCmp::less`). */
  predicate Less(a: Key, b: Key) {
    if b == [] then false
    else if a == [] then true
    else if a[0] != b[0] then a[0] < b[0]
    else Less(a[1..], b[1..])
  }

  lemma {:induction false} LessTransitive(a: Key, b: Key, c: Key)
    requires Less(a, b) && Less(b, c)
    ensures Less(a, c)
    decreases |a|
  {
    if a != [] && a[0] == b[0] == c[0] { LessTransitive(a[1..], b[1..], c[1..]); }
  }

  lemma {:induction false} LessTotal(a: Key, b: Key)
    ensures Less(a, b) || Less(b, a) || a == b
    decreases |a|
  {
    if a != [] && b != [] && a[0] == b[0] {
      LessTotal(a[1..], b[1..]);
      assert a == [a[0]] + a[1..] && b == [b[0]] + b[1..];
    }
  }

  lemma {:induction false} LessIrreflexive(a: Key)
    ensures !Less(a, a)
    decreases |a|
  {
    if a != [] { LessIrreflexive(a[1..]); }
  }

  predicate Ascending(l: seq<Key>) {
    forall i, j :: 0 <= i < j < |l| ==> Less(l[i], l[j])
  }

  /** The list names the members of the set, each once, in ascending order. */
  ghost predicate Enumerates(l: seq<Key>, s: set<Key>) {
    Ascending(l) && forall k :: k in l <==> k in s
  }

  // ---------------------------------------------------------------------------------------------------------------
  // Merging
  // ---------------------------------------------------------------------------------------------------------------

  /** The key is hidden from the parent's enumeration by this transaction. */
  predicate Hidden(s: Store, k: Key)
    requires s.Txn?
  {
    k in s.deletes || k in s.writes
  }

  ghost function Visible(s: Store, l: seq<Key>): seq<Key>
    requires s.Txn?
  {
    if l == [] then [] else (if Hidden(s, l[0]) then [] else [l[0]]) + Visible(s, l[1..])
  }

  ghost function Merge(a: seq<Key>, b: seq<Key>): seq<Key>
    decreases |a| + |b|
  {
    if a == [] then b
    else if b == [] then a
    else if Less(a[0], b[0]) then [a[0]] + Merge(a[1..], b)
    else [b[0]] + Merge(a, b[1..])
  }

  lemma VisibleStep(s: Store, l: seq<Key>)
    requires s.Txn? && l != []
    ensures Hidden(s, l[0]) ==> Visible(s, l) == Visible(s, l[1..])
    ensures !Hidden(s, l[0]) ==>
              Visible(s, l) != [] && Visible(s, l)[0] == l[0] && Visible(s, l)[1..] == Visible(s, l[1..])
  {
  }

  /** Taking the head of the merge is taking the head of the list that holds the smaller key. */
  lemma NextFromParent(s: Store, a: seq<Key>, b: seq<Key>)
    requires s.Txn? && b != [] && !Hidden(s, b[0]) && (a == [] || !Less(a[0], b[0]))
    ensures Merge(a, Visible(s, b)) == [b[0]] + Merge(a, Visible(s, b[1..]))
  {
    VisibleStep(s, b);
  }

  lemma NextFromWrites(s: Store, a: seq<Key>, b: seq<Key>)
    requires s.Txn? && a != [] && (b == [] || (!Hidden(s, b[0]) && Less(a[0], b[0])))
    ensures Merge(a, Visible(s, b)) == [a[0]] + Merge(a[1..], Visible(s, b))
  {
    if b != [] { VisibleStep(s, b); }
  }

  lemma {:induction false} VisibleMembers(s: Store, l: seq<Key>)
    requires s.Txn?
    ensures forall k :: k in Visible(s, l) <==> k in l && !Hidden(s, k)
    decreases |l|
  {
    if l != [] {
      VisibleMembers(s, l[1..]);
      assert l == [l[0]] + l[1..];
    }
  }

  lemma AscendingTail(l: seq<Key>)
    requires Ascending(l) && l != []
    ensures Ascending(l[1..]) && forall k :: k in l[1..] ==> Less(l[0], k)
  {
  }

  lemma AscendingCons(x: Key, l: seq<Key>)
    requires Ascending(l) && forall k :: k in l ==> Less(x, k)
    ensures Ascending([x] + l)
  {
  }

  lemma {:induction false} VisibleAscending(s: Store, l: seq<Key>)
    requires s.Txn? && Ascending(l)
    ensures Ascending(Visible(s, l))
    decreases |l|
  {
    if l != [] {
      AscendingTail(l);
      VisibleAscending(s, l[1..]);
      VisibleMembers(s, l[1..]);
      if !Hidden(s, l[0]) { AscendingCons(l[0], Visible(s, l[1..])); }
    }
  }

  lemma {:induction false} MergeMembers(a: seq<Key>, b: seq<Key>)
    ensures forall k :: k in Merge(a, b) <==> k in a || k in b
    decreases |a| + |b|
  {
    if a != [] && b != [] {
      if Less(a[0], b[0]) {
        MergeMembers(a[1..], b);
        assert a == [a[0]] + a[1..];
      } else {
        MergeMembers(a, b[1..]);
        assert b == [b[0]] + b[1..];
      }
    }
  }

  lemma BelowAll(x: Key, l: seq<Key>)
    requires Ascending(l) && (l == [] || Less(x, l[0]))
    ensures forall k :: k in l ==> Less(x, k)
  {
    forall k | k in l ensures Less(x, k) {
      var i :| 0 <= i < |l| && l[i] == k;
      if i > 0 { LessTransitive(x, l[0], k); }
    }
  }

  /** Merging two ascending lists without common keys is ascending. */
  lemma {:induction false} MergeAscending(a: seq<Key>, b: seq<Key>)
    requires Ascending(a) && Ascending(b) && forall k :: k in a ==> k !in b
    ensures Ascending(Merge(a, b))
    decreases |a| + |b|
  {
    if a != [] && b != [] {
      LessTotal(a[0], b[0]);
      if Less(a[0], b[0]) {
        MergeAscendingStep(a, b);
        MergeAscending(a[1..], b);
        AscendingCons(a[0], Merge(a[1..], b));
      } else {
        assert a[0] in a && b[0] in b;
        MergeAscendingStep(b, a);
        MergeAscending(a, b[1..]);
        MergeMembers(a, b[1..]);
        AscendingCons(b[0], Merge(a, b[1..]));
      }
    }
  }

  lemma MergeAscendingStep(a: seq<Key>, b: seq<Key>)
    requires Ascending(a) && Ascending(b) && a != [] && (b == [] || Less(a[0], b[0]))
    ensures Ascending(a[1..]) && (forall k :: k in a[1..] ==> Less(a[0], k)) && (forall k :: k in b ==> Less(a[0], k))
    ensures forall k :: k in Merge(a[1..], b) ==> Less(a[0], k)
  {
    AscendingTail(a);
    BelowAll(a[0], b);
    MergeMembers(a[1..], b);
  }

  // ---------------------------------------------------------------------------------------------------------------
  // What there is to enumerate
  // ---------------------------------------------------------------------------------------------------------------

  predicate AtLeast(k: Key, from: Option<Key>) {
    from.Some? ==> !Less(k, from.value)
  }

  /** The keys of the overlay from a point on, or all of them. */
  ghost function KeysFrom(s: Store, from: Option<Key>): set<Key> {
    set k | k in View(s) && AtLeast(k, from)
  }

  /** The writes from a point, merged with the parent's keys from there less the hidden ones, are the overlay's keys. */
  lemma MergeEnumerates(s: Store, from: Option<Key>, a: seq<Key>, b: seq<Key>)
    requires s.Txn? && Inv(s)
    requires Ascending(a) && forall k :: k in a <==> k in s.writes && AtLeast(k, from)
    requires Enumerates(b, KeysFrom(s.parent, from))
    ensures Enumerates(Merge(a, Visible(s, b)), KeysFrom(s, from))
  {
    VisibleMembers(s, b);
    VisibleAscending(s, b);
    MergeMembers(a, Visible(s, b));
    MergeAscending(a, Visible(s, b));
  }

  // ---------------------------------------------------------------------------------------------------------------
  // Ordered key lists
  // ---------------------------------------------------------------------------------------------------------------

  /** The position of the first key not below `k` (`lower_bound`). */
  method LowerBound(l: seq<Key>, k: Key) returns (i: nat)
    requires Ascending(l)
    ensures i <= |l| && Ascending(l[i..]) && forall j :: j in l[i..] <==> j in l && !Less(j, k)
  {
    i := 0;
    while i < |l| && Less(l[i], k)
      invariant i <= |l| && forall j :: 0 <= j < i ==> Less(l[j], k)
    {
      i := i + 1;
    }
    forall j | j in l && !Less(j, k) ensures j in l[i..] {
      var n :| 0 <= n < |l| && l[n] == j;
      assert n >= i;
      assert l[i..][n - i] == j;
    }
    forall j | j in l[i..] ensures j in l && !Less(j, k) {
      var n :| i <= n < |l| && l[n] == j;
      if Less(j, k) {
        if n > i { LessTransitive(l[i], l[n], k); }
      }
    }
  }

  // ---------------------------------------------------------------------------------------------------------------
  // The iterator
  // ---------------------------------------------------------------------------------------------------------------

  /**
   An iterator over a store: a database cursor, or the merge of a transaction's ordered writes with an iterator over its
   parent. The store does not change while it is iterated.
   */
  class StoreIterator {
    const store: Store
    /** The ordered keys of the database, or of the transaction's writes. */
    const keys: seq<Key>
    const parentIt: StoreIterator?
    var pos: nat
    var parentKey: Key
    var curIsParent: bool
    /** The keys still to come, the current one first. */
    ghost var rest: seq<Key>
    ghost const Repr: set<object>

    ghost predicate Linked()
      decreases Repr
    {
      && this in Repr
      && match store
         case Base(kv) => parentIt == null && Repr == {this} && Enumerates(keys, kv.Keys)
         case Txn(writes, _, _, parent) =>
           && Inv(store) && Enumerates(keys, writes.Keys)
           && parentIt != null && parentIt.store == parent
           && this !in parentIt.Repr && Repr == {this} + parentIt.Repr && parentIt.Repr < Repr && parentIt.Linked()
    }

    constructor OverDatabase(kv: map<Key, Value>, keys: seq<Key>)
      requires Enumerates(keys, kv.Keys)
      ensures Linked() && store == Base(kv) && Ready() && rest == []
    {
      store, this.keys, parentIt := Base(kv), keys, null;
      pos, parentKey, curIsParent, rest := |keys|, [], false, [];
      Repr := {this};
    }

    constructor OverTransaction(s: Store, keys: seq<Key>, parentIt: StoreIterator)
      requires s.Txn? && Inv(s) && Enumerates(keys, s.writes.Keys)
      requires parentIt.Linked() && parentIt.store == s.parent && parentIt.Ready() && parentIt.rest == []
      ensures Linked() && store == s && Ready() && rest == []
    {
      store, this.keys, this.parentIt := s, keys, parentIt;
      pos, parentKey, curIsParent, rest := |keys|, [], false, [];
      Repr := {this} + parentIt.Repr;
    }

    /** The parent iterator rests on a key this transaction does not hide, and that key is remembered. */
    ghost predicate Skipped()
      requires store.Txn? && parentIt != null
      reads this, parentIt
    {
      parentIt.rest != [] ==> !Hidden(store, parentIt.rest[0]) && parentKey == parentIt.rest[0]
    }

    /** The flag says which of the two iterators holds the smaller key, and what remains is their merge. */
    ghost predicate Decided()
      requires store.Txn? && parentIt != null
      reads this, parentIt
    {
      && pos <= |keys|
      && rest == Merge(keys[pos..], Visible(store, parentIt.rest))
      && (pos < |keys| && parentIt.rest == [] ==> !curIsParent)
      && (pos == |keys| && parentIt.rest != [] ==> curIsParent)
      && (pos < |keys| && parentIt.rest != [] ==> (curIsParent <==> !Less(keys[pos], parentIt.rest[0])))
    }

    ghost predicate Ready()
      requires Linked()
      reads Repr
      decreases Repr
    {
      if store.Base? then pos <= |keys| && rest == keys[pos..]
      else parentIt.Ready() && Skipped() && Decided()
    }

    method Valid() returns (valid: bool)
      requires Linked() && Ready()
      ensures valid <==> rest != []
      decreases Repr
    {
      valid := pos < |keys|;
      if store.Txn? && !valid {
        valid := parentIt.Valid();
      }
    }

    /** The current key, or an empty stream at the end. */
    method GetKey() returns (k: Key)
      requires Linked() && Ready()
      ensures k == if rest == [] then [] else rest[0]
    {
      var valid := Valid();
      if !valid {
        return [];
      }
      if curIsParent && store.Txn? {
        return parentKey;
      }
      return keys[pos];
    }

    method SkipDeletedAndOverwritten()
      requires Linked() && store.Txn? && parentIt.Ready()
      modifies this`parentKey, parentIt.Repr
      ensures parentIt.Ready() && Skipped()
      ensures Visible(store, parentIt.rest) == Visible(store, old(parentIt.rest))
      decreases Repr, 0
    {
      ghost var goal := Visible(store, parentIt.rest);
      var valid := parentIt.Valid();
      while valid
        invariant parentIt.Ready()
        invariant valid <==> parentIt.rest != []
        invariant Visible(store, parentIt.rest) == goal
        decreases |parentIt.rest|
      {
        parentKey := parentIt.GetKey();
        if parentKey !in store.deletes && parentKey !in store.writes {
          break;
        }
        VisibleStep(store, parentIt.rest);
        parentIt.Next();
        valid := parentIt.Valid();
      }
    }

    method DecideCur()
      requires Linked() && store.Txn? && parentIt.Ready() && Skipped() && pos <= |keys|
      modifies this`curIsParent, this`rest
      ensures Ready() && rest == Merge(keys[pos..], Visible(store, parentIt.rest))
    {
      rest := Merge(keys[pos..], Visible(store, parentIt.rest));
      var parentValid := parentIt.Valid();
      if pos != |keys| && !parentValid {
        curIsParent := false;
      } else if pos == |keys| && parentValid {
        curIsParent := true;
      } else if pos != |keys| && parentValid {
        curIsParent := !Less(keys[pos], parentKey);
      }
    }

    /** Moves to the next key of the overlay. */
    method Next()
      requires Linked() && Ready()
      modifies Repr
      ensures Ready() && rest == if old(rest) == [] then [] else old(rest)[1..]
      decreases Repr, 2
    {
      if store.Base? {
        if pos < |keys| {
          pos := pos + 1;
          rest := rest[1..];
        }
        return;
      }
      var valid := Valid();
      if valid {
        NextInTransaction();
      }
    }

    method NextInTransaction()
      requires Linked() && Ready() && store.Txn? && rest != []
      modifies Repr
      ensures Ready() && rest == old(rest)[1..]
      decreases Repr, 1
    {
      if curIsParent {
        NextFromParent(store, keys[pos..], parentIt.rest);
        parentIt.Next();
        SkipDeletedAndOverwritten();
      } else {
        NextFromWrites(store, keys[pos..], parentIt.rest);
        pos := pos + 1;
      }
      DecideCur();
    }

    method SeekToFirst()
      requires Linked()
      modifies Repr
      ensures Ready() && Enumerates(rest, KeysFrom(store, None))
      decreases Repr
    {
      pos := 0;
      assert keys[0..] == keys;
      if store.Base? {
        rest := keys;
        return;
      }
      parentIt.SeekToFirst();
      MergeEnumerates(store, None, keys, parentIt.rest);
      SkipDeletedAndOverwritten();
      DecideCur();
    }

    /** Positions at the first key not below the given one; what remains is exactly the overlay's keys from there. */
    method Seek(key: Key)
      requires Linked()
      modifies Repr
      ensures Ready() && Enumerates(rest, KeysFrom(store, Some(key)))
      decreases Repr
    {
      pos := LowerBound(keys, key);
      if store.Base? {
        rest := keys[pos..];
        return;
      }
      parentIt.Seek(key);
      MergeEnumerates(store, Some(key), keys[pos..], parentIt.rest);
      SkipDeletedAndOverwritten();
      DecideCur();
    }
  }
}
