/**
 The block tree and the active chain.  Every block knows its parent and, for walking back quickly, one ancestor further
 away; the chain is an array of the tip's ancestors by height.  The fast walks are compared with following parents.
 */
module Chain {
  import opened Numbers

  // ---------------------------------------------------------------- skip heights

  /** Bitwise and. */
  function And(x: nat, y: nat): (r: nat)
    ensures r <= x && r <= y
  {
    if x == 0 || y == 0 then 0
    else 2 * And(x / 2, y / 2) + if x % 2 == 1 && y % 2 == 1 then 1 else 0
  }

  function InvertLowestOne(n: nat): (r: nat)
    ensures r <= n && (n > 0 ==> r < n)
  {
    if n == 0 then 0 else And(n, n - 1)
  }

  /** Any height strictly below is acceptable. */
  function GetSkipHeight(height: nat): (r: nat)
    ensures r == 0 || r < height
  {
    if height < 2 then 0
    else if height % 2 == 1 then InvertLowestOne(InvertLowestOne(height - 1)) + 1
    else InvertLowestOne(height)
  }

  /** The height after one round of GetAncestor's loop. */
  function NextHeight(w: nat, t: nat): (r: nat)
    requires t < w
    ensures t <= r < w
  {
    var s := GetSkipHeight(w);
    var p := GetSkipHeight(w - 1);
    if s == t || (s > t && !(p < s - 2 && p >= t)) then s else w - 1
  }

  /** The rounds it takes from one height down to another. */
  function Steps(w: nat, t: nat): nat
    requires t <= w
    decreases w
  {
    if w == t then 0 else 1 + Steps(NextHeight(w, t), t)
  }

  // ---------------------------------------------------------------- blocks

  class BlockIndex {
    const pprev: BlockIndex?
    const pskip: BlockIndex?
    const nHeight: nat

    /** Heights count the parents, and the skip pointer is where BuildSkip has put it. */
    ghost predicate Linked()
      decreases nHeight, 0
    {
      if pprev == null then nHeight == 0 && pskip == null
      else nHeight == pprev.nHeight + 1 && pprev.Linked() && pskip == pprev.Ancestor(GetSkipHeight(nHeight))
    }

    /** Parents followed down to a height. */
    ghost function Ancestor(h: nat): BlockIndex
      requires Linked() && h <= nHeight
      decreases nHeight, 1
    {
      if h == nHeight then this else pprev.Ancestor(h)
    }

    lemma {:induction false} AncestorFacts(h: nat)
      requires Linked() && h <= nHeight
      ensures Ancestor(h).Linked() && Ancestor(h).nHeight == h
      decreases nHeight
    {
      if h < nHeight { pprev.AncestorFacts(h); }
    }

    lemma {:induction false} AncestorOfAncestor(h: nat, k: nat)
      requires Linked() && k <= h <= nHeight
      ensures Ancestor(h).Linked() && Ancestor(h).nHeight == h && Ancestor(h).Ancestor(k) == Ancestor(k)
      decreases nHeight
    {
      if h < nHeight { pprev.AncestorOfAncestor(h, k); }
    }

    lemma SkipIsAncestor(h: nat)
      requires Linked() && pskip != null && h <= GetSkipHeight(nHeight)
      ensures pskip.Linked() && pskip.nHeight == GetSkipHeight(nHeight) < nHeight && pskip.Ancestor(h) == Ancestor(h)
    {
      pprev.AncestorOfAncestor(GetSkipHeight(nHeight), h);
    }

    constructor Genesis()
      ensures Linked() && pprev == null && nHeight == 0
    {
      pprev, pskip, nHeight := null, null, 0;
    }

    /** A new block on top of another, with its skip pointer built. */
    constructor On(parent: BlockIndex)
      requires parent.Linked()
      ensures Linked() && pprev == parent
    {
      var skip, _ := parent.GetAncestor(GetSkipHeight(parent.nHeight + 1));
      pprev, pskip, nHeight := parent, skip, parent.nHeight + 1;
    }

    /** The skip pointers lead to the same block as the parents do; `rounds` counts the rounds of the loop. */
    method GetAncestor(height: int) returns (r: BlockIndex?, ghost rounds: nat)
      requires Linked()
      ensures if 0 <= height <= nHeight then r == Ancestor(height) && rounds == Steps(nHeight, height) else r == null
    {
      hide GetSkipHeight;
      rounds := 0;
      if height > nHeight || height < 0 { return null, 0; }
      var walk: BlockIndex, heightWalk := this, nHeight;
      while heightWalk > height
        invariant height <= heightWalk <= nHeight && walk.Linked() && walk.nHeight == heightWalk
        invariant walk.Ancestor(height) == Ancestor(height) &&
          rounds + Steps(heightWalk, height) == Steps(nHeight, height)
        decreases heightWalk
      {
        var heightSkip := GetSkipHeight(heightWalk);
        var heightSkipPrev := GetSkipHeight(heightWalk - 1);
        if walk.pskip != null &&
           (heightSkip == height ||
             (heightSkip > height && !(heightSkipPrev < heightSkip - 2 && heightSkipPrev >= height)))
        {
          walk.SkipIsAncestor(height);
          walk := walk.pskip;
          heightWalk := heightSkip;
        } else {
          walk := walk.pprev;
          heightWalk := heightWalk - 1;
        }
        rounds := rounds + 1;
      }
      r := walk;
    }
  }

  /** One block lies on the way from another to the genesis block. */
  ghost predicate IsAncestor(a: BlockIndex, b: BlockIndex)
    requires b.Linked()
  {
    a.nHeight <= b.nHeight && b.Ancestor(a.nHeight) == a
  }

  // ---------------------------------------------------------------- the active chain

  class Chain {
    var vChain: seq<BlockIndex?>

    /** Slot h holds the tip's ancestor at height h. */
    ghost predicate Valid()
      reads this
    {
      vChain == [] || (vChain[|vChain| - 1] != null && Holds(vChain, vChain[|vChain| - 1]))
    }

    constructor ()
      ensures Valid() && vChain == []
    {
      vChain := [];
    }

    function Height(): int
      reads this
    {
      |vChain| - 1
    }

    function Tip(): BlockIndex?
      reads this
    {
      if vChain == [] then null else vChain[|vChain| - 1]
    }

    function At(nHeight: int): BlockIndex?
      reads this
    {
      if 0 <= nHeight < |vChain| then vChain[nHeight] else null
    }

    predicate Contains(b: BlockIndex)
      reads this
    {
      At(b.nHeight) == b
    }

    lemma HeightIsTip()
      requires Valid()
      ensures Height() == if Tip() == null then -1 else Tip().nHeight
    {
    }

    lemma ContainsMeans(b: BlockIndex)
      requires Valid() && b.Linked()
      ensures Contains(b) <==> vChain != [] && IsAncestor(b, Tip())
    {
      if vChain != [] && b.nHeight <= Tip().nHeight { assert vChain[b.nHeight] == Tip().Ancestor(b.nHeight); }
    }

    lemma ContainsBelow(b: BlockIndex, h: nat)
      requires Valid() && b.Linked() && Contains(b) && h <= b.nHeight
      ensures At(h) == b.Ancestor(h) && Contains(b.Ancestor(h))
    {
      ContainsMeans(b);
      assert vChain[h] == Tip().Ancestor(h);
      Tip().AncestorOfAncestor(b.nHeight, h);
      b.AncestorFacts(h);
    }

    method SetTip(tip: BlockIndex?)
      requires Valid() && (tip != null ==> tip.Linked())
      modifies this
      ensures Valid() && Tip() == tip
      ensures tip != null ==> Holds(vChain, tip)
    {
      if tip == null {
        vChain := [];
        return;
      }
      ghost var was := vChain;
      var n := tip.nHeight + 1;
      vChain := if n <= |vChain| then vChain[..n] else vChain + seq(n - |vChain|, i => null);
      var pindex: BlockIndex? := tip;
      while pindex != null && vChain[pindex.nHeight] != pindex
        invariant |vChain| == n
        invariant pindex != null ==> pindex.Linked() && pindex.nHeight < n && tip.Ancestor(pindex.nHeight) == pindex
        invariant forall h :: 0 <= h < n && (pindex == null || h > pindex.nHeight) ==> vChain[h] == tip.Ancestor(h)
        invariant forall h :: 0 <= h < n && (pindex != null && h <= pindex.nHeight) ==>
          vChain[h] == if h < |was| then was[h] else null
        decreases if pindex == null then 0 else pindex.nHeight + 1
      {
        if pindex.pprev != null { tip.AncestorOfAncestor(pindex.nHeight, pindex.nHeight - 1); }
        vChain := vChain[pindex.nHeight := pindex];
        pindex := pindex.pprev;
      }
      if pindex != null { Meets(was, pindex); }
      forall h | 0 <= h < n ensures vChain[h] == tip.Ancestor(h) {
        if pindex != null && h <= pindex.nHeight { tip.AncestorOfAncestor(pindex.nHeight, h); }
      }
    }

    /** No ancestor of b above height k is on this chain. */
    ghost predicate NoneAbove(b: BlockIndex, k: int)
      requires b.Linked()
      reads this
    {
      forall h: nat :: k < h <= b.nHeight ==> !Contains(b.Ancestor(h))
    }

    lemma NoneBeyondTip(b: BlockIndex)
      requires b.Linked()
      ensures NoneAbove(b, Height())
    {
      forall h: nat | Height() < h <= b.nHeight ensures !Contains(b.Ancestor(h)) { b.AncestorFacts(h); }
    }

    lemma NoneAboveNext(b: BlockIndex, r: BlockIndex)
      requires b.Linked() && IsAncestor(r, b) && NoneAbove(b, r.nHeight) && !Contains(r)
      ensures NoneAbove(b, r.nHeight - 1) && r.Linked() && (r.pprev != null <==> r.nHeight > 0)
      ensures r.pprev != null ==> r.pprev.Linked() && IsAncestor(r.pprev, b)
    {
      b.AncestorOfAncestor(r.nHeight, if r.nHeight > 0 then r.nHeight - 1 else 0);
    }

    /** The highest block that is on both this chain and the way from `b` to the genesis block. */
    method FindFork(b: BlockIndex?) returns (r: BlockIndex?)
      requires Valid() && (b != null ==> b.Linked())
      ensures if b == null then r == null else if r == null then NoneAbove(b, -1)
              else IsAncestor(r, b) && Contains(r) && NoneAbove(b, r.nHeight)
    {
      if b == null { return null; }
      hide BlockIndex.Linked, BlockIndex.Ancestor, NoneAbove, Valid;
      r := b;
      NoneBeyondTip(b);
      if b.nHeight > Height() {
        ghost var rounds;
        r, rounds := b.GetAncestor(Height());
        if Height() >= 0 { b.AncestorFacts(Height()); }
      } else {
        NothingHigher(b);
      }
      while r != null && !Contains(r)
        invariant r != null ==> IsAncestor(r, b)
        invariant NoneAbove(b, if r == null then -1 else r.nHeight)
        decreases if r == null then 0 else r.nHeight + 1
      {
        NoneAboveNext(b, r);
        r := r.pprev;
      }
    }

    lemma NothingHigher(b: BlockIndex)
      requires b.Linked()
      ensures NoneAbove(b, b.nHeight) && IsAncestor(b, b)
    {
    }

    /** Whichever lookup is used, it is the ancestor that is found. */
    method LookBack(b: BlockIndex, nHeight: nat) returns (r: BlockIndex?)
      requires Valid() && b.Linked() && nHeight <= b.nHeight
      ensures r == b.Ancestor(nHeight)
    {
      if Contains(b) {
        ContainsBelow(b, nHeight);
        r := At(nHeight);
      } else {
        ghost var rounds;
        r, rounds := b.GetAncestor(nHeight);
      }
    }

    /** The blocks whose hashes make up a locator. */
    method GetLocator(b: BlockIndex?) returns (have: seq<BlockIndex>)
      requires Valid() && (b != null ==> b.Linked())
      ensures var start := if b == null then Tip() else b;
              if start == null then have == [] else Located(have, start)
    {
      hide BlockIndex.Linked, BlockIndex.Ancestor, LocatorHeights;
      var nStep: nat := 1;
      have := [];
      var pindex := if b == null then Tip() else b;
      if pindex == null { return; }
      ghost var start: BlockIndex := pindex;
      NothingHigher(start);
      while pindex != null
        invariant start.Linked() && nStep > 0 && pindex != null && pindex.Linked() && IsAncestor(pindex, start)
        invariant Heights(have) + LocatorHeights(pindex.nHeight, nStep, |have|) == LocatorHeights(start.nHeight, 1, 0)
        invariant forall i :: 0 <= i < |have| ==> IsAncestor(have[i], start)
        decreases pindex.nHeight
      {
        LocatorNext(pindex.nHeight, nStep, |have|);
        HeightsNext(have, pindex);
        have := have + [pindex];
        if pindex.nHeight == 0 { break; }
        var nHeight := if pindex.nHeight > nStep then pindex.nHeight - nStep else 0;
        start.AncestorOfAncestor(pindex.nHeight, nHeight);
        pindex.AncestorFacts(nHeight);
        pindex := LookBack(pindex, nHeight);
        if |have| > 10 { nStep := nStep * 2; }
      }
    }
  }

  lemma LocatorNext(h: nat, step: nat, n: nat)
    requires step > 0
    ensures LocatorHeights(h, step, n) ==
            if h == 0 then [0]
            else [h] + LocatorHeights(if h > step then h - step else 0, if n + 1 > 10 then step * 2 else step, n + 1)
  {
  }

  lemma HeightsNext(have: seq<BlockIndex>, b: BlockIndex)
    ensures Heights(have + [b]) == Heights(have) + [b.nHeight]
  {
  }

  function LocatorHeights(h: nat, step: nat, n: nat): (q: seq<nat>)
    requires step > 0
    decreases h
  {
    [h] + if h == 0 then []
          else LocatorHeights(if h > step then h - step else 0, if n + 1 > 10 then step * 2 else step, n + 1)
  }

  ghost function Heights(have: seq<BlockIndex>): seq<nat> {
    seq(|have|, i requires 0 <= i < |have| => have[i].nHeight)
  }

  /** The start and then ancestors of it, at the heights of a locator. */
  ghost predicate Located(have: seq<BlockIndex>, start: BlockIndex) {
    && start.Linked() && Heights(have) == LocatorHeights(start.nHeight, 1, 0)
    && forall i :: 0 <= i < |have| ==> IsAncestor(have[i], start)
  }

  ghost predicate Holds(v: seq<BlockIndex?>, tip: BlockIndex) {
    tip.Linked() && |v| == tip.nHeight + 1 && forall h :: 0 <= h < |v| ==> v[h] == tip.Ancestor(h)
  }

  /** Below a block that both chains share they agree already. */
  lemma Meets(was: seq<BlockIndex?>, b: BlockIndex)
    requires was != [] && was[|was| - 1] != null && Holds(was, was[|was| - 1])
    requires b.Linked() && b.nHeight < |was| && was[b.nHeight] == b
    ensures forall h :: 0 <= h <= b.nHeight ==> was[h] == b.Ancestor(h)
  {
    var tip := was[|was| - 1];
    forall h | 0 <= h <= b.nHeight ensures was[h] == b.Ancestor(h) { tip.AncestorOfAncestor(b.nHeight, h); }
  }

  // ---------------------------------------------------------------- locators

  /** The heights fall strictly from the start to the genesis block. */
  lemma {:induction false} LocatorDescends(h: nat, step: nat, n: nat)
    requires step > 0
    ensures var q := LocatorHeights(h, step, n);
            && |q| > 0 && q[0] == h && q[|q| - 1] == 0
            && forall i :: 0 <= i < |q| - 1 ==> q[i] > q[i + 1]
    decreases h
  {
    if h > 0 { LocatorDescends(if h > step then h - step else 0, if n + 1 > 10 then step * 2 else step, n + 1); }
  }

  /** How often the step has doubled between entry `n` and entry `n + i`. */
  function Doublings(n: nat, i: nat): nat {
    (if n + i > 10 then n + i - 10 else 0) - if n > 10 then n - 10 else 0
  }

  /** The distances between the heights: those after the first eleven entries are one, and then each is twice the one
      before it, except that the last one ends at the genesis block. */
  lemma {:induction false} LocatorGaps(h: nat, step: nat, n: nat, i: nat)
    requires step > 0 && i + 1 < |LocatorHeights(h, step, n)|
    ensures var q, gap := LocatorHeights(h, step, n), step * Pow(2, Doublings(n, i));
            q[i + 1] == if q[i] > gap then q[i] - gap else 0
    decreases h
  {
    var rest, next := if h > step then h - step else 0, if n + 1 > 10 then step * 2 else step;
    assert LocatorHeights(h, step, n) == [h] + LocatorHeights(rest, next, n + 1);
    PowZero(2);
    hide LocatorHeights, Pow;
    if i == 0 {
      LocatorStarts(rest, next, n + 1);
    } else {
      LocatorGaps(rest, next, n + 1, i - 1);
      if n + 1 > 10 {
        PowNext(2, Doublings(n + 1, i - 1));
        MulAssoc(step, 2, Pow(2, Doublings(n + 1, i - 1)));
      }
    }
  }

  lemma LocatorStarts(h: nat, step: nat, n: nat)
    requires step > 0
    ensures |LocatorHeights(h, step, n)| > 0 && LocatorHeights(h, step, n)[0] == h
  {
  }

  /** Once the steps double, a start below step * 2^k needs no more than k steps. */
  lemma {:induction false} DoublingLength(h: nat, step: nat, n: nat, k: nat)
    requires step > 0 && n >= 10 && h <= step * (Pow(2, k) - 1)
    ensures |LocatorHeights(h, step, n)| <= k + 1
    decreases k
  {
    LocatorNext(h, step, n);
    hide LocatorHeights;
    if h > 0 && k > 0 {
      var rest := if h > step then h - step else 0;
      Doubled(step, Pow(2, k - 1));
      DoublingLength(rest, step * 2, n + 1, k - 1);
    }
  }

  lemma Doubled(step: nat, p: nat)
    requires p > 0
    ensures step * (2 * p - 1) - step == (step * 2) * (p - 1)
  {
    MulAssoc(step, 2, p - 1);
    Distribute(2 * p - 2, 1, step);
  }

  lemma {:induction false} WalkingLength(h: nat, n: nat, k: nat)
    requires n <= 10 && h < Pow(2, k)
    ensures |LocatorHeights(h, 1, n)| <= (10 - n) + k + 1
    decreases 10 - n
  {
    if n == 10 {
      DoublingLength(h, 1, 10, k);
    } else if h > 0 {
      WalkingLength(h - 1, n + 1, k);
    }
  }

  /** A locator from a height below 2^k has at most k + 11 entries. */
  lemma LocatorLength(h: nat, k: nat)
    requires h < Pow(2, k)
    ensures |LocatorHeights(h, 1, 0)| <= k + 11
  {
    WalkingLength(h, 0, k);
  }

  /** The largest step a locator computes. */
  function LargestStep(h: nat, step: nat, n: nat): nat
    requires step > 0
    decreases h
  {
    if h == 0 then step
    else LargestStep(if h > step then h - step else 0, if n + 1 > 10 then step * 2 else step, n + 1)
  }

  lemma {:induction false} StepBound(h: nat, step: nat, n: nat)
    requires step > 0
    ensures LargestStep(h, step, n) <= 2 * (h + step)
    decreases h
  {
    if h > 0 { StepBound(if h > step then h - step else 0, if n + 1 > 10 then step * 2 else step, n + 1); }
  }

  /** From heights below 2^30 the steps stay within a signed 32-bit integer. */
  lemma StepFits(h: nat)
    requires h < 0x4000_0000
    ensures LargestStep(h, 1, 0) <= 0x7FFF_FFFF
  {
    if h > 0 { StepBound(h - 1, 1, 1); }
  }
}
