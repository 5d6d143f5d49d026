/**
 The block tree (`CBlockIndex`) with its skip list, and the active chain (`CChain`) as a vector of block pointers.
 Everything is measured against the plain walk along `pprev`.
 */
module Chain {
  import opened Arithmetic
  import Bits

  // ---------------------------------------------------------------------------------------------------------------
  // Skip heights
  // ---------------------------------------------------------------------------------------------------------------

  /** `n & (n - 1)`. */
  function InvertLowestOne(n: nat): (r: nat)
    ensures n > 0 ==> r < n
  {
    if n == 0 then 0 else
    Bits.AndAtMost(n, n - 1);
    Bits.And(n, n - 1)
  }

  /** A skip always goes strictly back. */
  function GetSkipHeight(height: nat): (r: nat)
    ensures height > 0 ==> r < height
    ensures r <= height
  {
    if height < 2 then 0
    else if height % 2 == 1 then InvertLowestOne(InvertLowestOne(height - 1)) + 1
    else InvertLowestOne(height)
  }

  // ---------------------------------------------------------------------------------------------------------------
  // The tree
  // ---------------------------------------------------------------------------------------------------------------

  class BlockIndex {
    const hash: nat
    const pprev: BlockIndex?
    const nHeight: nat
    var pskip: BlockIndex?

    constructor (hash: nat, pprev: BlockIndex?)
      requires pprev != null ==> pprev.Linked()
      ensures this.hash == hash && this.pprev == pprev && Linked() && pskip == null
      ensures nHeight == if pprev == null then 0 else pprev.nHeight + 1
    {
      this.hash := hash;
      this.pprev := pprev;
      nHeight := if pprev == null then 0 else pprev.nHeight + 1;
      pskip := null;
    }

    /** Heights count the steps to a root of the tree. */
    ghost predicate Linked()
      decreases nHeight
    {
      if pprev == null then nHeight == 0 else nHeight == pprev.nHeight + 1 && pprev.Linked()
    }

    /** The ancestor at a height, reached by walking `pprev`. */
    ghost function Walk(height: nat): (b: BlockIndex)
      requires Linked() && height <= nHeight
      ensures b.Linked() && b.nHeight == height
      decreases nHeight
    {
      if height == nHeight then this else pprev.Walk(height)
    }

    ghost predicate IsAncestor(a: BlockIndex)
      requires Linked()
    {
      a.nHeight <= nHeight && Walk(a.nHeight) == a
    }

    ghost function Ancestors(): set<BlockIndex>
      requires Linked()
      decreases nHeight
    {
      {this} + if pprev == null then {} else pprev.Ancestors()
    }

    /** The skip pointer, once built, is the ancestor at the skip height. */
    ghost predicate SkipOk()
      requires Linked()
      reads this
    {
      pskip == null || pskip == Walk(GetSkipHeight(nHeight))
    }

    ghost predicate SkipsOk()
      requires Linked()
      reads Ancestors()
    {
      forall a :: a in Ancestors() ==> a.Linked() && a.SkipOk()
    }

    /** The fast lookup returns exactly what the plain walk does, and never runs off the end of the chain. */
    method GetAncestor(height: int) returns (b: BlockIndex?)
      requires Linked() && SkipsOk()
      ensures b == if 0 <= height <= nHeight then Walk(height) else null
      ensures SkipsOk()
    {
      if height > nHeight || height < 0 {
        return null;
      }
      var pindexWalk: BlockIndex := this;
      var heightWalk := nHeight;
      WalkIsAncestor(this, nHeight);
      while heightWalk > height
        invariant height <= heightWalk <= nHeight && pindexWalk == Walk(heightWalk)
        invariant SkipsOk()
      {
        WalkIsAncestor(this, heightWalk);
        assert pindexWalk.SkipOk();
        var heightSkip := GetSkipHeight(heightWalk);
        var heightSkipPrev := GetSkipHeight(heightWalk - 1);
        if pindexWalk.pskip != null
           && (heightSkip == height
               || (heightSkip > height && !(heightSkipPrev < heightSkip - 2 && heightSkipPrev >= height)))
        {
          WalkWalk(this, heightWalk, heightSkip);
          pindexWalk := pindexWalk.pskip;
          heightWalk := heightSkip;
        } else {
          assert pindexWalk.pprev != null;
          WalkWalk(this, heightWalk, heightWalk - 1);
          pindexWalk := pindexWalk.pprev;
          heightWalk := heightWalk - 1;
        }
      }
      return pindexWalk;
    }

    /** After `BuildSkip`, this block's skip pointer is right as well. */
    method BuildSkip()
      requires Linked() && (pprev != null ==> pprev.SkipsOk()) && SkipOk()
      modifies this`pskip
      ensures SkipsOk() && (pprev != null ==> pskip == Walk(GetSkipHeight(nHeight)))
    {
      AncestorsBelow(this);
      if pprev != null {
        pskip := pprev.GetAncestor(GetSkipHeight(nHeight));
      }
    }
  }

  lemma {:induction false} WalkWalk(b: BlockIndex, h: nat, k: nat)
    requires b.Linked() && k <= h <= b.nHeight
    ensures b.Walk(h).Walk(k) == b.Walk(k)
    decreases b.nHeight
  {
    if h < b.nHeight { WalkWalk(b.pprev, h, k); }
  }

  lemma {:induction false} WalkIsAncestor(b: BlockIndex, h: nat)
    requires b.Linked() && h <= b.nHeight
    ensures b.Walk(h) in b.Ancestors()
    decreases b.nHeight
  {
    if h < b.nHeight { WalkIsAncestor(b.pprev, h); }
  }

  /** The ancestors are the blocks the walk meets, one per height. */
  lemma {:induction false} AncestorsBelow(b: BlockIndex)
    requires b.Linked()
    ensures forall a :: a in b.Ancestors() ==> a.Linked() && b.IsAncestor(a) && a.Ancestors() <= b.Ancestors()
    ensures b.pprev != null ==> b !in b.pprev.Ancestors()
    decreases b.nHeight
  {
    if b.pprev != null { AncestorsBelow(b.pprev); }
  }

  /** All known blocks; the tree only grows, and each block's skip pointer is built when it is added. */
  class BlockTree {
    var blocks: set<BlockIndex>

    constructor ()
      ensures blocks == {} && Valid()
    {
      blocks := {};
    }

    ghost predicate Valid()
      reads this, blocks
    {
      forall b :: b in blocks ==> b.Linked() && b.Ancestors() <= blocks && b.SkipOk()
    }

    /** A new block on top of a known one, or a new root. */
    method AddBlock(hash: nat, pprev: BlockIndex?) returns (b: BlockIndex)
      requires Valid() && (pprev != null ==> pprev in blocks)
      modifies this
      ensures Valid() && fresh(b) && blocks == old(blocks) + {b} && b.pprev == pprev
      ensures pprev != null ==> b.pskip == b.Walk(GetSkipHeight(b.nHeight))
    {
      b := new BlockIndex(hash, pprev);
      b.BuildSkip();
      blocks := blocks + {b};
    }

    /** In such a tree the fast lookup can be asked about every block and every height. */
    method Lookup(b: BlockIndex, height: int) returns (a: BlockIndex?)
      requires Valid() && b in blocks
      ensures a == if 0 <= height <= b.nHeight then b.Walk(height) else null
    {
      AncestorsBelow(b);
      a := b.GetAncestor(height);
    }
  }

  // ---------------------------------------------------------------------------------------------------------------
  // The active chain
  // ---------------------------------------------------------------------------------------------------------------

  /** The vector is the ancestor path of its last entry, indexed by height. */
  ghost predicate IsPath(v: seq<BlockIndex?>) {
    v != [] ==>
      var tip := v[|v| - 1];
      && tip != null && tip.Linked() && tip.nHeight == |v| - 1
      && forall i :: 0 <= i < |v| ==> v[i] == tip.Walk(i)
  }

  /** A block found in a path vector has all its ancestors there. */
  lemma PathBelow(v: seq<BlockIndex?>, b: BlockIndex)
    requires IsPath(v) && b.nHeight < |v| && v[b.nHeight] == b
    ensures b.Linked() && forall i :: 0 <= i <= b.nHeight ==> v[i] == b.Walk(i)
  {
    var tip := v[|v| - 1];
    forall i | 0 <= i <= b.nHeight ensures v[i] == b.Walk(i) {
      WalkWalk(tip, b.nHeight, i);
    }
  }

  /** Entries kept from a vector that has been cut or padded with null. */
  ghost predicate Resized(was: seq<BlockIndex?>, v: seq<BlockIndex?>, n: int) {
    n <= |v| && forall i :: 0 <= i < n ==> v[i] == if i < |was| then was[i] else null
  }

  /** Where the walk of `SetTip` meets a block already in place, everything below it is in place too. */
  lemma PathReached(was: seq<BlockIndex?>, v: seq<BlockIndex?>, tip: BlockIndex, p: BlockIndex)
    requires IsPath(was) && Resized(was, v, p.nHeight + 1) && tip.Linked()
    requires v[p.nHeight] == p && tip.IsAncestor(p)
    ensures forall i :: 0 <= i <= p.nHeight ==> v[i] == tip.Walk(i)
  {
    PathBelow(was, p);
    forall i | 0 <= i <= p.nHeight ensures v[i] == tip.Walk(i) {
      WalkWalk(tip, p.nHeight, i);
    }
  }

  /** The locator's blocks from `b` on: steps of one at first, then doubling, and the root last. */
  ghost function Locator(b: BlockIndex, nStep: nat, have: nat): seq<BlockIndex>
    requires b.Linked() && nStep > 0
    decreases b.nHeight
  {
    if b.nHeight == 0 then [b] else
    [b] + Locator(b.Walk(Max(b.nHeight - nStep, 0)), if have + 1 > 10 then nStep * 2 else nStep, have + 1)
  }

  function Hashes(s: seq<BlockIndex>): seq<nat> {
    if s == [] then [] else [s[0].hash] + Hashes(s[1..])
  }

  ghost function LocatorRest(b: BlockIndex, nStep: nat, have: nat): seq<BlockIndex>
    requires b.Linked() && nStep > 0
  {
    if b.nHeight == 0 then []
    else Locator(b.Walk(Max(b.nHeight - nStep, 0)), if have + 1 > 10 then nStep * 2 else nStep, have + 1)
  }

  lemma LocatorUnfolds(b: BlockIndex, nStep: nat, have: nat)
    requires b.Linked() && nStep > 0
    ensures Hashes(Locator(b, nStep, have)) == [b.hash] + Hashes(LocatorRest(b, nStep, have))
  {
    var rest := LocatorRest(b, nStep, have);
    assert Locator(b, nStep, have) == [b] + rest;
    assert ([b] + rest)[1..] == rest;
  }

  lemma LocatorTurn(all: seq<nat>, had: seq<nat>, b: BlockIndex, nStep: nat, have: nat)
    requires b.Linked() && nStep > 0 && all == had + Hashes(Locator(b, nStep, have))
    ensures all == (had + [b.hash]) + Hashes(LocatorRest(b, nStep, have))
    ensures b.nHeight == 0 ==> all == had + [b.hash]
  {
    LocatorUnfolds(b, nStep, have);
  }

  /** A locator lists strictly lower and lower ancestors of its start, from the start itself down to the root. */
  lemma {:induction false} LocatorDescends(b: BlockIndex, nStep: nat, have: nat)
    requires b.Linked() && nStep > 0
    ensures var l := Locator(b, nStep, have);
            && l != [] && l[0] == b && l[|l| - 1].nHeight == 0
            && (forall i :: 0 <= i < |l| ==> b.IsAncestor(l[i]))
            && (forall i, j :: 0 <= i < j < |l| ==> l[j].nHeight < l[i].nHeight)
    decreases b.nHeight
  {
    if b.nHeight > 0 {
      var next := b.Walk(Max(b.nHeight - nStep, 0));
      var rest := Locator(next, if have + 1 > 10 then nStep * 2 else nStep, have + 1);
      LocatorDescends(next, if have + 1 > 10 then nStep * 2 else nStep, have + 1);
      var l := Locator(b, nStep, have);
      forall i | 0 <= i < |l| ensures b.IsAncestor(l[i]) && (i > 0 ==> l[i].nHeight < b.nHeight) {
        if i > 0 {
          assert l[i] == rest[i - 1] && next.IsAncestor(rest[i - 1]);
          WalkWalk(b, next.nHeight, l[i].nHeight);
        }
      }
    }
  }

  /** Once the steps double, the locator's length is logarithmic in the height. */
  lemma {:induction false} LocatorIsShort(b: BlockIndex, nStep: nat, have: nat, k: nat)
    requires b.Linked() && nStep > 0 && have >= 10 && b.nHeight < nStep * Pow2(k)
    ensures |Locator(b, nStep, have)| <= k + 2
    decreases b.nHeight
  {
    if b.nHeight > 0 {
      var next := b.Walk(Max(b.nHeight - nStep, 0));
      if k > 0 {
        assert nStep * Pow2(k) == nStep * 2 * Pow2(k - 1) by {
          assert Pow2(k) == 2 * Pow2(k - 1);
        }
        if next.nHeight > 0 {
          LocatorIsShort(next, nStep * 2, have + 1, k - 1);
        }
      }
    }
  }

  /** From the start: ten single steps, then at most one entry for each doubling. */
  lemma {:induction false} LocatorLength(b: BlockIndex, have: nat, k: nat)
    requires b.Linked() && have <= 10 && b.nHeight < Pow2(k)
    ensures |Locator(b, 1, have)| <= (10 - have) + k + 2
    decreases b.nHeight
  {
    if have == 10 {
      LocatorIsShort(b, 1, have, k);
    } else if b.nHeight > 0 {
      LocatorLength(b.Walk(Max(b.nHeight - 1, 0)), have + 1, k);
    }
  }

  class ActiveChain {
    var vChain: seq<BlockIndex?>

    constructor ()
      ensures vChain == [] && IsPath(vChain)
    {
      vChain := [];
    }

    function Height(): int
      reads this
    {
      |vChain| - 1
    }

    function Tip(): BlockIndex?
      reads this
    {
      At(Height())
    }

    function At(height: int): BlockIndex?
      reads this
    {
      if height < 0 || height >= |vChain| then null else vChain[height]
    }

    predicate Contains(b: BlockIndex)
      reads this
    {
      At(b.nHeight) == b
    }

    method Resize(size: nat)
      modifies this
      ensures |vChain| == size && Resized(old(vChain), vChain, size)
    {
      vChain := if size <= |vChain| then vChain[..size] else vChain + seq(size - |vChain|, _ => null);
    }

    /** Although its walk stops at the first block in place, the vector becomes the tip's whole ancestor path. */
    method SetTip(pindex: BlockIndex?)
      requires IsPath(vChain) && (pindex != null ==> pindex.Linked())
      modifies this
      ensures IsPath(vChain) && Tip() == pindex
    {
      if pindex == null {
        vChain := [];
        return;
      }
      ghost var was := vChain;
      var size := pindex.nHeight + 1;
      Resize(size);
      var p: BlockIndex? := pindex;
      while p != null && vChain[p.nHeight] != p
        invariant |vChain| == size
        invariant p != null ==> p.nHeight < size && p == pindex.Walk(p.nHeight)
        invariant p != null ==> Resized(was, vChain, p.nHeight + 1)
        invariant forall i :: (if p == null then 0 else p.nHeight + 1) <= i < size ==> vChain[i] == pindex.Walk(i)
        decreases if p == null then 0 else p.nHeight + 1
      {
        if p.pprev != null { WalkWalk(pindex, p.nHeight, p.nHeight - 1); }
        vChain := vChain[p.nHeight := p];
        p := p.pprev;
      }
      if p != null {
        PathReached(was, vChain, pindex, p);
      }
    }

    /** The hashes of the locator, the same whether a step goes through the vector or through the skip list. */
    method GetLocator(start: BlockIndex?) returns (vHave: seq<nat>)
      requires IsPath(vChain) && (Tip() != null ==> Tip().SkipsOk())
      requires start != null ==> start.Linked() && start.SkipsOk()
      ensures var from := if start == null then Tip() else start;
              if from == null then vHave == [] else vHave == Hashes(Locator(from, 1, 0))
    {
      var nStep := 1;
      vHave := [];
      var pindex := if start == null then Tip() else start;
      if pindex == null {
        return;
      }
      ghost var all := Hashes(Locator(pindex, 1, 0));
      ghost var have: nat := 0;
      assert all == vHave + all;
      while true
        invariant nStep > 0 && |vHave| == have
        invariant pindex != null && pindex.Linked() && pindex.SkipsOk()
        invariant all == vHave + Hashes(Locator(pindex, nStep, have))
        decreases pindex.nHeight
      {
        LocatorTurn(all, vHave, pindex, nStep, have);
        vHave := vHave + [pindex.hash];
        if pindex.nHeight == 0 {
          break;
        }
        pindex := StepDown(pindex, Max(pindex.nHeight - nStep, 0));
        if |vHave| > 10 {
          nStep := nStep * 2;
        }
        have := have + 1;
      }
    }

    /** An ancestor, by index for a block in the chain and through the skip list for any other. */
    method StepDown(b: BlockIndex, height: nat) returns (a: BlockIndex)
      requires IsPath(vChain) && b.Linked() && b.SkipsOk() && height <= b.nHeight
      ensures a == b.Walk(height) && a.Linked() && a.SkipsOk()
    {
      if Contains(b) {
        PathBelow(vChain, b);
        a := At(height);
      } else {
        a := b.GetAncestor(height);
      }
      WalkIsAncestor(b, height);
      SkipsOkBelow(b, a);
    }

    /** The highest block that is both in the chain and an ancestor of the given block, or null if there is none. */
    method FindFork(from: BlockIndex?) returns (fork: BlockIndex?)
      requires IsPath(vChain) && (from != null ==> from.Linked() && from.SkipsOk())
      ensures from == null ==> fork == null
      ensures fork != null ==> fork.Linked() && Contains(fork) && from.IsAncestor(fork)
      ensures from != null ==> forall h: nat :: h <= from.nHeight && Contains(from.Walk(h)) ==>
                fork != null && h <= fork.nHeight
    {
      if from == null {
        return null;
      }
      fork := from;
      if from.nHeight > Height() {
        fork := from.GetAncestor(Height());
      }
      while fork != null && !Contains(fork)
        invariant fork != null ==> fork.Linked() && from.IsAncestor(fork)
        invariant forall h: nat :: h <= from.nHeight && Contains(from.Walk(h)) ==> fork != null && h <= fork.nHeight
        decreases if fork == null then 0 else fork.nHeight + 1
      {
        if fork.pprev != null { WalkWalk(from, fork.nHeight, fork.nHeight - 1); }
        fork := fork.pprev;
      }
    }
  }

  lemma SkipsOkBelow(b: BlockIndex, a: BlockIndex)
    requires b.Linked() && b.SkipsOk() && b.IsAncestor(a)
    ensures a.Linked() && a.SkipsOk()
  {
    WalkIsAncestor(b, a.nHeight);
    AncestorsBelow(b);
  }

  /** The highest block that is an ancestor of both, or null if the two blocks have different roots. */
  method LastCommonAncestor(a: BlockIndex, b: BlockIndex) returns (c: BlockIndex?)
    requires a.Linked() && a.SkipsOk() && b.Linked() && b.SkipsOk()
    ensures c != null ==> a.IsAncestor(c) && b.IsAncestor(c)
    ensures forall h: nat :: h <= a.nHeight && h <= b.nHeight && a.Walk(h) == b.Walk(h) ==> c != null && h <= c.nHeight
  {
    var pa: BlockIndex?, pb: BlockIndex? := a, b;
    if a.nHeight > b.nHeight {
      pa := a.GetAncestor(b.nHeight);
    } else if b.nHeight > a.nHeight {
      pb := b.GetAncestor(a.nHeight);
    }
    while pa != pb && pa != null && pb != null
      invariant (pa == null) == (pb == null)
      invariant pa != null && pb != null ==>
        pa.Linked() && pb.Linked() && pa.nHeight == pb.nHeight && a.IsAncestor(pa) && b.IsAncestor(pb)
      invariant forall h: nat :: h <= a.nHeight && h <= b.nHeight && a.Walk(h) == b.Walk(h) ==>
                  pa != null && h <= pa.nHeight
      decreases if pa == null then 0 else pa.nHeight + 1
    {
      if pa.pprev != null {
        WalkWalk(a, pa.nHeight, pa.nHeight - 1);
        WalkWalk(b, pb.nHeight, pb.nHeight - 1);
      }
      pa, pb := pa.pprev, pb.pprev;
    }
    assert pa == pb;
    return pa;
  }
}
