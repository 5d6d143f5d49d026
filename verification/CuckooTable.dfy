/** The cuckoo cache as an object updated in place, and its bit-packed collection flags. */
module CuckooTable {
  import opened Arithmetic
  import opened Cuckoo
  import opened Words

  // ---------------------------------------------------------------------------------------------------------------
  // Bit-packed flags
  // ---------------------------------------------------------------------------------------------------------------

  /** `bit_packed_atomic_flags`: eight flags to a byte, all set to begin with. */
  class PackedFlags {
    const mem: array<Word>

    ghost predicate Valid()
      reads mem
    {
      forall i :: 0 <= i < mem.Length ==> |mem[i]| == 8
    }

    ghost predicate IsSet(s: nat)
      requires s < 8 * mem.Length && Valid()
      reads mem
    {
      mem[s / 8][s % 8]
    }

    constructor (size: nat)
      ensures fresh(mem) && size <= 8 * mem.Length && Valid()
      ensures forall s: nat :: s < 8 * mem.Length ==> IsSet(s)
    {
      mem := new Word[(size + 7) / 8](_ => Words.Fill(8, true));
    }

    method BitSet(s: nat)
      requires s < 8 * mem.Length && Valid()
      modifies mem
      ensures Valid()
      ensures forall t: nat :: t < 8 * mem.Length ==> IsSet(t) == (t == s || old(IsSet(t)))
    {
      mem[s / 8] := Or(mem[s / 8], Shifted(8, true, s % 8));
    }

    method BitUnset(s: nat)
      requires s < 8 * mem.Length && Valid()
      modifies mem
      ensures Valid()
      ensures forall t: nat :: t < 8 * mem.Length ==> IsSet(t) == (t != s && old(IsSet(t)))
    {
      mem[s / 8] := And(mem[s / 8], Not(Shifted(8, true, s % 8)));
    }

    method BitIsSet(s: nat) returns (b: bool)
      requires s < 8 * mem.Length && Valid()
      ensures b == IsSet(s)
    {
      var w := And(Shifted(8, true, s % 8), mem[s / 8]);
      b := !IsZero(w);
      assert w[s % 8] == mem[s / 8][s % 8];
    }
  }

  // ---------------------------------------------------------------------------------------------------------------
  // The table
  // ---------------------------------------------------------------------------------------------------------------

  class Table<E(==, !new)> {
    const env: Env<E>
    const collection_flags: PackedFlags
    var table: seq<E>
    var epoch_flags: seq<bool>
    var epoch_heuristic_counter: nat
    var epoch_size: nat
    var depth_limit: nat

    ghost predicate Valid()
      reads this, collection_flags.mem
    {
      collection_flags.Valid() && |epoch_flags| == |table| <= 8 * collection_flags.mem.Length
    }

    /** The collection flags of the slots, unpacked. */
    ghost function Dead(): (dead: seq<bool>)
      requires Valid()
      reads this, collection_flags.mem
      ensures |dead| == |table| && forall i :: 0 <= i < |table| ==> dead[i] == collection_flags.IsSet(i)
    {
      seq(|table|, i requires 0 <= i < |table| && Valid() reads this, collection_flags.mem => collection_flags.IsSet(i))
    }

    ghost function Model(): Cache<E>
      requires Valid()
      reads this, collection_flags.mem
    {
      Cache(Slots(table, Dead(), epoch_flags), epoch_heuristic_counter, epoch_size, depth_limit)
    }

    /** `setup`; the depth limit is the source's floating-point logarithm of the size, given here. */
    constructor (env: Env<E>, new_size: nat, depth_limit: nat)
      ensures Valid() && fresh(collection_flags) && fresh(collection_flags.mem)
      ensures this.env == env && Model() == Setup(env, new_size, depth_limit)
    {
      this.env := env;
      this.depth_limit := depth_limit;
      var size := Max(2, new_size);
      table := seq(size, _ => env.zero);
      collection_flags := new PackedFlags(size);
      epoch_flags := seq(size, _ => false);
      epoch_size := Max(1, ((45 * size) % 0x1_0000_0000) / 100);
      epoch_heuristic_counter := Max(1, ((45 * size) % 0x1_0000_0000) / 100);
      new;
      assert Dead() == seq(size, _ => true);
    }

    method AllowErase(n: nat)
      requires Valid() && n < |table|
      modifies collection_flags.mem
      ensures Valid() && Dead() == old(Dead())[n := true]
    {
      collection_flags.BitSet(n);
    }

    method PleaseKeep(n: nat)
      requires Valid() && n < |table|
      modifies collection_flags.mem
      ensures Valid() && Dead() == old(Dead())[n := false]
    {
      collection_flags.BitUnset(n);
    }

    method CountLiveSlots() returns (n: nat)
      requires Valid()
      ensures n == CountLive(Dead(), epoch_flags)
    {
      n := 0;
      ghost var dead := Dead();
      for i := 0 to |epoch_flags|
        invariant n == CountLive(dead[..i], epoch_flags[..i])
      {
        CountSnoc(dead[..i], epoch_flags[..i], dead[i], epoch_flags[i]);
        assert dead[..i + 1] == dead[..i] + [dead[i]];
        assert epoch_flags[..i + 1] == epoch_flags[..i] + [epoch_flags[i]];
        var collectable := collection_flags.BitIsSet(i);
        if epoch_flags[i] && !collectable {
          n := n + 1;
        }
      }
      assert dead[..|epoch_flags|] == dead && epoch_flags[..|epoch_flags|] == epoch_flags;
    }

    method AgeEpochs()
      requires Valid()
      modifies collection_flags.mem, this`epoch_flags
      ensures Valid()
      ensures forall i :: 0 <= i < |table| ==> !epoch_flags[i] && Dead()[i] == (old(Dead())[i] || !old(epoch_flags)[i])
    {
      ghost var dead, epoch := Dead(), epoch_flags;
      for i := 0 to |epoch_flags|
        invariant Valid()
        invariant forall j :: 0 <= j < i ==> !epoch_flags[j] && Dead()[j] == (dead[j] || !epoch[j])
        invariant forall j :: i <= j < |table| ==> epoch_flags[j] == epoch[j] && Dead()[j] == dead[j]
      {
        if epoch_flags[i] {
          epoch_flags := epoch_flags[i := false];
        } else {
          AllowErase(i);
        }
      }
    }

    method CheckEpoch()
      requires Valid()
      modifies this, collection_flags.mem
      ensures Valid() && Model() == EpochCheck(old(Model()))
    {
      if epoch_heuristic_counter != 0 {
        epoch_heuristic_counter := epoch_heuristic_counter - 1;
        assert Dead() == old(Dead());
        return;
      }
      var epoch_unused_count := CountLiveSlots();
      if epoch_unused_count >= epoch_size {
        AgeEpochs();
        epoch_heuristic_counter := epoch_size;
        assert Model().slots == EpochCheck(old(Model())).slots;
      } else {
        epoch_heuristic_counter := Max(1, Max(epoch_size / 16, epoch_size - epoch_unused_count));
        assert Dead() == old(Dead());
      }
    }

    /** Some candidate slot holds the element already: keep it and put it into the current epoch. */
    method KeepIfThere(e: E, locs: seq<nat>) returns (found: bool)
      requires Valid() && InRange(locs, |table|)
      modifies collection_flags.mem, this`epoch_flags
      ensures Valid()
      ensures found <==> FindMatch(table, locs, e, 0) < 8
      ensures Dead() == if found then old(Dead())[locs[FindMatch(table, locs, e, 0)] := false] else old(Dead())
      ensures epoch_flags ==
              if found then old(epoch_flags)[locs[FindMatch(table, locs, e, 0)] := true] else old(epoch_flags)
    {
      for k := 0 to 8
        invariant Valid() && Dead() == old(Dead()) && epoch_flags == old(epoch_flags)
        invariant FindMatch(table, locs, e, 0) == FindMatch(table, locs, e, k)
      {
        var loc := locs[k];
        if table[loc] == e {
          PleaseKeep(loc);
          epoch_flags := epoch_flags[loc := true];
          assert Dead() == old(Dead())[loc := false];
          return true;
        }
      }
      return false;
    }

    method FirstCollectable(locs: seq<nat>) returns (k: nat)
      requires Valid() && InRange(locs, |table|)
      ensures k == FindDead(Dead(), locs, 0)
    {
      k := 0;
      while k < 8
        invariant k <= 8 && FindDead(Dead(), locs, 0) == FindDead(Dead(), locs, k)
      {
        var collectable := collection_flags.BitIsSet(locs[k]);
        if collectable {
          return;
        }
        k := k + 1;
      }
    }

    method FillSlot(loc: nat, e: E, epoch: bool)
      requires Valid() && 2 <= |table| && loc < |table|
      modifies this`table, this`epoch_flags, collection_flags.mem
      ensures Valid() && Model().slots == Cuckoo.Fill(old(Model()).slots, e, loc, epoch)
    {
      PleaseKeep(loc);
      ghost var dead := Dead();
      table := table[loc := e];
      epoch_flags := epoch_flags[loc := epoch];
      assert Dead() == dead;
    }

    method SwapSlot(loc: nat, e: E, epoch: bool) returns (out: E, out_epoch: bool)
      requires Valid() && 2 <= |table| && loc < |table|
      modifies this`table, this`epoch_flags
      ensures Valid() && Model().slots == Swap(old(Model()).slots, e, loc, epoch)
      ensures out == old(table)[loc] && out_epoch == old(epoch_flags)[loc]
    {
      out, out_epoch := table[loc], epoch_flags[loc];
      table := table[loc := e];
      epoch_flags := epoch_flags[loc := epoch];
      assert Dead() == old(Dead());
    }

    /** One turn of the chain: fills a collectable slot, or displaces a live element and goes on with it. */
    method DisplaceOnce(hand: E, last_loc: int, last_epoch: bool, ghost depth: nat)
      returns (done: bool, hand': E, loc: nat, epoch: bool)
      requires Valid() && GoodEnv(env) && |table| >= 2 && depth > 0
      requires SearchesSucceed(env, Turn(Model().slots, hand, last_loc, last_epoch), depth)
      modifies this`table, this`epoch_flags, collection_flags.mem
      ensures Valid() && |table| == old(|table|)
      ensures done ==> Model().slots == Displace(env, Turn(old(Model()).slots, hand, last_loc, last_epoch), depth).0
      ensures !done ==> Displace(env, Turn(Model().slots, hand', loc, epoch), depth - 1).0
                        == Displace(env, Turn(old(Model()).slots, hand, last_loc, last_epoch), depth).0
      ensures !done ==> SearchesSucceed(env, Turn(Model().slots, hand', loc, epoch), depth - 1)
    {
      ghost var t := Turn(Model().slots, hand, last_loc, last_epoch);
      LocsInRange(env, |table|, hand);
      var locs := Locs(env, |table|, hand);
      var k := FirstCollectable(locs);
      hand', epoch := hand, last_epoch;
      done := k < 8;
      if done {
        loc := locs[k];
        FillSlot(loc, hand, last_epoch);
      } else {
        assert last_loc != -1 ==> IndexOf(locs, last_loc, 0) < 8;
        loc := NextLoc(locs, last_loc);
        hand', epoch := SwapSlot(loc, hand, last_epoch);
        assert Turn(Model().slots, hand', loc, epoch) == NextTurn(env, t);
      }
    }

    /** The displacement chain. */
    method DisplaceFrom(e: E)
      requires Valid() && GoodEnv(env) && |table| >= 2
      requires SearchesSucceed(env, Turn(Model().slots, e, -1, true), depth_limit)
      modifies this`table, this`epoch_flags, collection_flags.mem
      ensures Valid() && Model().slots == Displace(env, Turn(old(Model()).slots, e, -1, true), depth_limit).0
    {
      ghost var goal := Displace(env, Turn(Model().slots, e, -1, true), depth_limit).0;
      var hand := e;
      var last_loc: int := -1;
      var last_epoch := true;
      var left := depth_limit;
      while left > 0
        invariant Valid() && |table| >= 2
        invariant goal == Displace(env, Turn(Model().slots, hand, last_loc, last_epoch), left).0
        invariant SearchesSucceed(env, Turn(Model().slots, hand, last_loc, last_epoch), left)
      {
        var done;
        done, hand, last_loc, last_epoch := DisplaceOnce(hand, last_loc, last_epoch, left);
        if done {
          return;
        }
        left := left - 1;
      }
    }

    method PlaceHere(e: E)
      requires Valid() && GoodEnv(env) && CacheOk(Model()) && InsertFinds(env, Model(), e)
      modifies this`table, this`epoch_flags, collection_flags.mem
      ensures Valid() && Model() == Place(env, old(Model()), e).0
    {
      LocsInRange(env, |table|, e);
      var locs := Locs(env, |table|, e);
      var found := KeepIfThere(e, locs);
      if !found {
        DisplaceFrom(e);
      }
    }

    method Add(e: E)
      requires Valid() && Inv(env, Model())
      modifies this, collection_flags.mem
      ensures Valid() && Model() == Insert(env, old(Model()), e).0 && Inv(env, Model())
    {
      InsertKeeps(env, Model(), e);
      InsertSearches(env, Model(), e);
      CheckEpoch();
      PlaceHere(e);
    }

    method Lookup(e: E, erase: bool) returns (found: bool)
      requires Valid() && Inv(env, Model())
      modifies collection_flags.mem
      ensures Valid() && (Model(), found) == Contains(env, old(Model()), e, erase) && Inv(env, Model())
    {
      ContainsExact(env, Model(), e, erase);
      LocsInRange(env, |table|, e);
      var locs := Locs(env, |table|, e);
      for k := 0 to 8
        invariant Valid() && Model() == old(Model())
        invariant FindMatch(table, locs, e, 0) == FindMatch(table, locs, e, k)
      {
        if table[locs[k]] == e {
          if erase {
            AllowErase(locs[k]);
          }
          return true;
        }
      }
      return false;
    }
  }

  lemma {:induction false} CountSnoc(dead: seq<bool>, epoch: seq<bool>, d: bool, b: bool)
    requires |dead| == |epoch|
    ensures CountLive(dead + [d], epoch + [b]) == CountLive(dead, epoch) + (if b && !d then 1 else 0)
    decreases |dead|
  {
    if dead != [] {
      assert (dead + [d])[1..] == dead[1..] + [d] && (epoch + [b])[1..] == epoch[1..] + [b];
      CountSnoc(dead[1..], epoch[1..], d, b);
    }
  }
}
