/** The block index tree with its skip pointers, and the active chain as a vector. */
module Chain {

  // ---------------------------------------------------------------------------------
  // How far a skip pointer goes
  // ---------------------------------------------------------------------------------

  /** a & b, bit by bit. */
  function And(a: nat, b: nat): (r: nat)
    ensures r <= a
  {
    if a == 0 then 0 else 2 * And(a / 2, b / 2) + (a % 2) * (b % 2)
  }

  /** x << k. */
  function Shl(x: nat, k: nat): nat
    decreases k
  {
    if k == 0 then x else 2 * Shl(x, k - 1)
  }

  function InvertLowestOne(n: nat): nat { if n == 0 then 0 else And(n, n - 1) }

  lemma {:induction false} AndSelf(n: nat)
    ensures And(n, n) == n
  {
    if n == 0 {
    } else {
      AndSelf(n / 2);
    }
  }

  /** It turns the lowest '1' bit of a number into a '0' and leaves the rest alone. */
  lemma {:induction false} InvertLowestOneClears(n: nat, m: nat, k: nat)
    requires n == Shl(2 * m + 1, k)
    ensures n > 0 && InvertLowestOne(n) == Shl(2 * m, k) < n
    decreases k
  {
    if k == 0 {
      AndSelf(m);
    } else {
      InvertLowestOneClears(n / 2, m, k - 1);
    }
  }

  /** Every positive number has a lowest '1' bit. */
  lemma {:induction false} HasLowestOne(n: nat) returns (m: nat, k: nat)
    requires n > 0
    ensures n == Shl(2 * m + 1, k)
  {
    if n % 2 == 1 {
      m, k := n / 2, 0;
    } else {
      m, k := HasLowestOne(n / 2);
      k := k + 1;
    }
  }

  function GetSkipHeight(height: int): int {
    if height < 2 then 0
    else if height % 2 == 1 then InvertLowestOne(InvertLowestOne(height - 1)) + 1
    else InvertLowestOne(height)
  }

  lemma SkipsBack(height: int)
    requires height > 0
    ensures 0 <= GetSkipHeight(height) < height
  {
    if height >= 2 {
      var even := if height % 2 == 1 then height - 1 else height;
      var m, k := HasLowestOne(even);
      InvertLowestOneClears(even, m, k);
      var once := InvertLowestOne(even);
      if once > 0 {
        m, k := HasLowestOne(once);
        InvertLowestOneClears(once, m, k);
      }
    }
  }

  // ---------------------------------------------------------------------------------
  // How long a search by skip pointers takes
  // ---------------------------------------------------------------------------------

  /** The number of binary digits. */
  function Bits(n: nat): nat { if n == 0 then 0 else 1 + Bits(n / 2) }

  /** The number of '1' bits. */
  function Ones(n: nat): nat { if n == 0 then 0 else n % 2 + Ones(n / 2) }

  /** How many of the lowest bits there are up to the highest one in which two numbers differ. */
  function Apart(w: nat, h: nat): nat
    decreases w + h
  {
    if w == h then 0 else 1 + Apart(w / 2, h / 2)
  }

  /** What every step lowers, unless it brings the two heights closer together. */
  function Rest(w: nat): nat { Ones(w / 8) + w % 8 }

  /** The branch GetAncestor takes. */
  predicate Skips(w: int, h: int) {
    var (skip, skipPrev) := (GetSkipHeight(w), GetSkipHeight(w - 1));
    skip == h || (skip > h && !(skipPrev < skip - 2 && skipPrev >= h))
  }

  lemma InvertEven(v: nat)
    ensures InvertLowestOne(2 * v) == 2 * InvertLowestOne(v)
  {}

  lemma InvertOdd(n: nat)
    requires n % 2 == 1
    ensures InvertLowestOne(n) == n - 1
  {
    AndSelf(n / 2);
  }

  lemma {:induction false} InvertOnes(n: nat)
    ensures Ones(InvertLowestOne(n)) == if n == 0 then 0 else Ones(n) - 1
  {
    if n == 0 {
    } else if n % 2 == 1 {
      InvertOdd(n);
    } else {
      InvertEven(n / 2);
      InvertOnes(n / 2);
    }
  }

  /** The lowest bit of an even number, from its lowest three. */
  lemma InvertLow(a: nat, r: nat)
    requires r in {0, 2, 4, 6}
    ensures InvertLowestOne(8 * a + r) == if r == 0 then 8 * InvertLowestOne(a) else if r == 6 then 8 * a + 4 else 8 * a
  {
    hide And;
    var v := 4 * a + r / 2;
    InvertEven(v);
    assert 2 * v == 8 * a + r;
    if r == 2 || r == 6 {
      InvertOdd(v);
    } else {
      InvertEven(v / 2);
      if r == 4 {
        InvertOdd(v / 2);
      } else {
        InvertEven(a);
      }
    }
  }

  /** Where a skip pointer leads to, from the lowest three bits. */
  lemma SkipLow(w: nat)
    requires w >= 2
    ensures var (a, r, skip) := (w / 8, w % 8, GetSkipHeight(w));
            && (r % 2 == 0 ==> skip == if r == 0 then 8 * InvertLowestOne(a) else if r == 6 then 8 * a + 4 else 8 * a)
            && (r == 1 ==> skip == 8 * InvertLowestOne(InvertLowestOne(a)) + 1)
            && (r == 3 || r == 5 ==> skip == 8 * InvertLowestOne(a) + 1)
            && (r == 7 ==> skip == 8 * a + 1)
  {
    hide InvertLowestOne;
    var (a, r) := (w / 8, w % 8);
    assert w == 8 * a + r;
    if r % 2 == 0 {
      InvertLow(a, r);
    } else {
      InvertLow(a, r - 1);
      InvertLow(a, 0);
      InvertLow(a, 4);
      InvertLow(InvertLowestOne(a), 0);
    }
  }

  /** A skip always lowers the rest, and so does a step back, unless it borrows. */
  lemma StepLowers(w: nat)
    requires w > 0
    ensures 0 <= GetSkipHeight(w) < w && Rest(GetSkipHeight(w)) < Rest(w)
    ensures w % 8 != 0 ==> Rest(w - 1) < Rest(w)
  {
    hide InvertLowestOne, Ones;
    SkipsBack(w);
    if w == 1 {
      assert Rest(1) == Ones(0) + 1 && Rest(0) == Ones(0);
    } else {
      hide GetSkipHeight;
      SkipLow(w);
      InvertOnes(w / 8);
      InvertOnes(InvertLowestOne(w / 8));
    }
  }

  lemma {:induction false} ApartMono(h: nat, less: nat, w: nat)
    requires h <= less <= w
    ensures Apart(less, h) <= Apart(w, h)
    decreases w
  {
    if less == h || w == 0 {
    } else {
      ApartMono(h / 2, less / 2, w / 2);
    }
  }

  /** Clearing the lowest bit would go too far: one step back brings the heights closer. */
  lemma {:induction false} BorrowNears(w: nat, h: nat)
    requires InvertLowestOne(w) <= h < w
    ensures Apart(w - 1, h) < Apart(w, h)
  {
    if w % 2 == 1 {
      InvertOdd(w);
    } else {
      InvertEven(w / 2);
      BorrowNears(w / 2, h / 2);
    }
  }

  /** When the lowest three bits are clear, the pointer is followed if it does not go too far. */
  lemma FollowsIfNotTooFar(w: nat, h: nat)
    requires w > 0 && w % 8 == 0 && h <= GetSkipHeight(w)
    ensures Skips(w, h)
  {
    SkipLow(w);
    SkipLow(w - 1);
    StepLowers(w);
  }

  /** Every step of the search brings the heights closer, or lowers the rest. */
  lemma StepNears(w: nat, h: nat)
    requires h < w
    ensures var next := if Skips(w, h) then GetSkipHeight(w) else w - 1;
            h <= next < w && (Apart(next, h) < Apart(w, h) || (Apart(next, h) == Apart(w, h) && Rest(next) < Rest(w)))
  {
    StepLowers(w);
    var next := if Skips(w, h) then GetSkipHeight(w) else w - 1;
    if h == next || w % 8 != 0 || Skips(w, h) {
      ApartMono(h, next, w);
    } else {
      if h <= GetSkipHeight(w) {
        FollowsIfNotTooFar(w, h);
      }
      BorrowNears(w, h);
    }
  }

  lemma {:induction false} OnesAtMost(n: nat)
    ensures Ones(n) <= Bits(n)
  {
    if n == 0 {
    } else {
      OnesAtMost(n / 2);
    }
  }

  lemma {:induction false} BitsMono(n: nat, m: nat)
    requires n <= m
    ensures Bits(n) <= Bits(m)
  {
    if n == 0 {
    } else {
      BitsMono(n / 2, m / 2);
    }
  }

  lemma RestAtMost(w: nat, n: nat)
    requires w <= n
    ensures Rest(w) <= Bits(n) + 4
  {
    OnesAtMost(w / 8);
    BitsMono(w, n);
    if w >= 8 {
      assert Bits(w) == 1 + Bits(w / 2) == 2 + Bits(w / 4) == 3 + Bits(w / 8);
    } else if w >= 4 {
      assert Bits(w) == 1 + Bits(w / 2) == 2 + Bits(w / 4);
    }
  }

  lemma {:induction false} ApartAtMost(w: nat, h: nat)
    requires h <= w
    ensures Apart(w, h) <= Bits(w)
  {
    if w == h {
    } else {
      ApartAtMost(w / 2, h / 2);
    }
  }

  /** An upper bound on the steps from height w back to height h, all below n. */
  function StepsLeft(n: nat, w: nat, h: nat): nat { Apart(w, h) * (Bits(n) + 5) + Rest(w) }

  lemma StepsRunDown(n: nat, w: nat, h: nat)
    requires h < w <= n
    ensures var next := if Skips(w, h) then GetSkipHeight(w) else w - 1;
            h <= next < w && StepsLeft(n, next, h) < StepsLeft(n, w, h)
  {
    StepNears(w, h);
    var next := if Skips(w, h) then GetSkipHeight(w) else w - 1;
    RestAtMost(next, n);
    Multiples(Apart(next, h), Apart(w, h), Bits(n) + 5);
  }

  lemma Multiples(a: nat, b: nat, c: nat)
    ensures a < b ==> a * c + c <= b * c
  {
    if a < b {
      var more: nat := b - a - 1;
      assert b * c == (a + 1 + more) * c == a * c + c + more * c;
    }
  }

  lemma StepsAtMost(n: nat, h: nat)
    requires h <= n
    ensures StepsLeft(n, n, h) <= (Bits(n) + 1) * (Bits(n) + 5)
  {
    ApartAtMost(n, h);
    RestAtMost(n, n);
    Multiples(Apart(n, h), Bits(n) + 1, Bits(n) + 5);
  }

  // ---------------------------------------------------------------------------------
  // The tree of blocks
  // ---------------------------------------------------------------------------------

  class BlockIndex {
    var pprev: BlockIndex?
    var pskip: BlockIndex?
    var nHeight: int

    /** As AddToBlockIndex fills in a new entry, before BuildSkip. */
    constructor (prev: BlockIndex?)
      ensures pprev == prev && pskip == null
      ensures nHeight == if prev == null then 0 else prev.nHeight + 1
    {
      pprev, pskip := prev, null;
      nHeight := if prev == null then 0 else prev.nHeight + 1;
    }

    /** The ancestor at a height, by the skip list: in a number of steps that grows with the square of
        the logarithm of the height. */
    method GetAncestor(height: int, ghost tree: set<BlockIndex>) returns (r: BlockIndex?, ghost steps: nat)
      requires Tree(tree) && this in tree
      ensures r == if 0 <= height <= nHeight then Branch(tree, this)[height] else null
      ensures nHeight >= 0 && (Skipping(tree) ==> steps <= (Bits(nHeight) + 1) * (Bits(nHeight) + 5))
    {
      hide Apart, Rest, GetSkipHeight, Bits, StepsLeft;
      assert LinkOk(tree, this);
      steps := 0;
      if height > nHeight || height < 0 {
        return null, 0;
      }
      StepsAtMost(nHeight, height);
      var walk: BlockIndex := this;
      var heightWalk := nHeight;
      ghost var branch := Branch(tree, this);
      while heightWalk > height
        invariant height <= heightWalk <= nHeight && walk == branch[heightWalk]
        invariant Skipping(tree) ==>
                    steps + StepsLeft(nHeight, heightWalk, height) <= StepsLeft(nHeight, nHeight, height)
        decreases heightWalk
      {
        SkipsBack(heightWalk);
        StepsRunDown(nHeight, heightWalk, height);
        steps := steps + 1;
        BranchPrefix(tree, this, heightWalk);
        var heightSkip := GetSkipHeight(heightWalk);
        var heightSkipPrev := GetSkipHeight(heightWalk - 1);
        if walk.pskip != null &&
           (heightSkip == height ||
            (heightSkip > height && !(heightSkipPrev < heightSkip - 2 && heightSkipPrev >= height)))
        {
          assert SkipOk(tree, walk);
          walk := walk.pskip;
          heightWalk := heightSkip;
        } else {
          walk := walk.pprev;
          heightWalk := heightWalk - 1;
        }
      }
      r := walk;
    }

    method BuildSkip(ghost tree: set<BlockIndex>)
      requires Tree(tree) && this in tree
      modifies this`pskip
      ensures Tree(tree)
      ensures if pprev == null then pskip == old(pskip) else pskip != null && SkipOk(tree, this)
    {
      assert LinkOk(tree, this);
      if pprev != null {
        SkipsBack(nHeight);
        ghost var steps;
        pskip, steps := pprev.GetAncestor(GetSkipHeight(nHeight), tree);
        forall b | b in tree && b != this && b.pskip != null ensures SkipOk(tree, b) {
          assert old(SkipOk(tree, b));
        }
      }
    }
  }

  /** Parents are in the tree, one below. */
  ghost predicate Linked(tree: set<BlockIndex>)
    reads tree`pprev, tree`nHeight
  {
    forall b {:trigger LinkOk(tree, b)} :: b in tree ==> LinkOk(tree, b)
  }

  ghost predicate LinkOk(tree: set<BlockIndex>, b: BlockIndex)
    reads tree`pprev, tree`nHeight
  {
    b in tree && if b.pprev == null then b.nHeight == 0
                 else b.pprev in tree && b.nHeight == b.pprev.nHeight + 1 > 0
  }

  /** The branch that ends in a block, by following pprev: its entry at a height is the
      block's ancestor at that height. */
  ghost function Branch(tree: set<BlockIndex>, b: BlockIndex): (s: seq<BlockIndex>)
    requires Linked(tree) && b in tree
    reads tree`pprev, tree`nHeight
    ensures |s| > 0 && |s| == b.nHeight + 1 && s[b.nHeight] == b
    ensures forall i :: 0 <= i < |s| ==> s[i] in tree && s[i].nHeight == i
    decreases b.nHeight
  {
    assert LinkOk(tree, b);
    (if b.pprev == null then [] else Branch(tree, b.pprev)) + [b]
  }

  /** The branch of an ancestor is a prefix of the branch. */
  lemma {:induction false} BranchPrefix(tree: set<BlockIndex>, b: BlockIndex, height: int)
    requires Linked(tree) && b in tree && 0 <= height <= b.nHeight
    ensures Branch(tree, Branch(tree, b)[height]) == Branch(tree, b)[..height + 1]
    ensures Branch(tree, b)[height].pprev == if height == 0 then null else Branch(tree, b)[height - 1]
    decreases b.nHeight
  {
    assert LinkOk(tree, b);
    if height < b.nHeight {
      BranchPrefix(tree, b.pprev, height);
    }
  }

  ghost predicate ParentAt(s: seq<BlockIndex>, i: int)
    reads s
  {
    0 <= i < |s| ==> s[i].pprev == if i == 0 then null else s[i - 1]
  }

  lemma BranchLinks(tree: set<BlockIndex>, b: BlockIndex)
    requires Linked(tree) && b in tree
    ensures forall i :: ParentAt(Branch(tree, b), i)
  {
    forall i ensures ParentAt(Branch(tree, b), i) {
      if 0 <= i <= b.nHeight {
        BranchPrefix(tree, b, i);
      }
    }
  }

  lemma SharedPrefix(tree: set<BlockIndex>, b: BlockIndex, c: BlockIndex, height: int)
    requires Linked(tree) && b in tree && c in tree && 0 <= height <= b.nHeight && height <= c.nHeight
    requires Branch(tree, b)[height] == Branch(tree, c)[height]
    ensures forall i :: 0 <= i <= height ==> Branch(tree, b)[i] == Branch(tree, c)[i]
  {
    BranchPrefix(tree, b, height);
    BranchPrefix(tree, c, height);
    forall i | 0 <= i <= height ensures Branch(tree, b)[i] == Branch(tree, c)[i] {
      assert Branch(tree, b)[..height + 1][i] == Branch(tree, c)[..height + 1][i];
    }
  }

  /** ... and every skip pointer there is came from BuildSkip. */
  ghost predicate Tree(tree: set<BlockIndex>)
    reads tree
  {
    && Linked(tree)
    && forall b {:trigger SkipOk(tree, b)} :: b in tree && b.pskip != null ==> SkipOk(tree, b)
  }

  ghost predicate SkipOk(tree: set<BlockIndex>, b: BlockIndex)
    requires Linked(tree) && b in tree
    reads tree
  {
    && b.pprev != null && 0 <= GetSkipHeight(b.nHeight) < b.nHeight
    && b.pskip == Branch(tree, b)[GetSkipHeight(b.nHeight)]
  }

  /** Everybody but the first block has a skip pointer. */
  ghost predicate Skipping(tree: set<BlockIndex>)
    reads tree
  {
    forall b :: b in tree && b.pprev != null ==> b.pskip != null
  }

  /** A tree grows by one block: entry, links, skip pointer. */
  method AddToBlockIndex(prev: BlockIndex?, ghost tree: set<BlockIndex>) returns (b: BlockIndex)
    requires Tree(tree) && (prev != null ==> prev in tree)
    ensures fresh(b) && b.pprev == prev && Tree(tree + {b}) && (prev != null ==> b.pskip != null)
    ensures Skipping(tree) ==> Skipping(tree + {b})
  {
    b := new BlockIndex(prev);
    GrownTree(tree, b);
    b.BuildSkip(tree + {b});
  }

  lemma {:induction false} BranchInLarger(tree: set<BlockIndex>, larger: set<BlockIndex>, b: BlockIndex)
    requires tree <= larger && Linked(tree) && Linked(larger) && b in tree
    ensures Branch(larger, b) == Branch(tree, b)
    decreases b.nHeight
  {
    assert LinkOk(tree, b);
    if b.pprev != null {
      BranchInLarger(tree, larger, b.pprev);
    }
  }

  lemma GrownTree(tree: set<BlockIndex>, b: BlockIndex)
    requires Tree(tree) && b.pskip == null && (b.pprev != null ==> b.pprev in tree)
    requires b.nHeight == if b.pprev == null then 0 else b.pprev.nHeight + 1
    ensures Tree(tree + {b})
  {
    forall c | c in tree + {b} ensures LinkOk(tree + {b}, c) {
      assert c in tree ==> LinkOk(tree, c);
      assert b.pprev != null ==> LinkOk(tree, b.pprev);
    }
    forall c | c in tree && c.pskip != null ensures SkipOk(tree + {b}, c) {
      assert SkipOk(tree, c);
      BranchInLarger(tree, tree + {b}, c);
    }
  }

  /** How far two branches agree: the number of blocks they share. */
  ghost predicate AgreeUpTo(a: seq<BlockIndex>, b: seq<BlockIndex>, n: nat) {
    && n <= |a| && n <= |b| && (forall i :: 0 <= i < n ==> a[i] == b[i])
    && forall i :: n <= i < |a| && i < |b| ==> a[i] != b[i]
  }

  /** Two blocks at the same height of their branches step back together until they meet. */
  method StepBackTogether(a: BlockIndex, b: BlockIndex, ghost first: BlockIndex, ghost second: BlockIndex,
                          ghost tree: set<BlockIndex>) returns (r: BlockIndex?)
    requires Linked(tree) && first in tree && second in tree
    requires 0 <= a.nHeight == b.nHeight <= first.nHeight && b.nHeight <= second.nHeight
    requires a.nHeight == first.nHeight || b.nHeight == second.nHeight
    requires a == Branch(tree, first)[a.nHeight] && b == Branch(tree, second)[b.nHeight]
    ensures if r == null then AgreeUpTo(Branch(tree, first), Branch(tree, second), 0)
            else r in tree && 0 <= r.nHeight <= first.nHeight && Branch(tree, first)[r.nHeight] == r
                 && AgreeUpTo(Branch(tree, first), Branch(tree, second), r.nHeight + 1)
  {
    ghost var sa, sb := Branch(tree, first), Branch(tree, second);
    var pa: BlockIndex?, pb: BlockIndex? := a, b;
    ghost var level := a.nHeight;
    BranchLinks(tree, first);
    BranchLinks(tree, second);
    while pa != pb && pa != null && pb != null
      invariant -1 <= level < |sa| && level < |sb|
      invariant if level < 0 then pa == null && pb == null else pa == sa[level] && pb == sb[level]
      invariant forall i :: level < i < |sa| && i < |sb| ==> sa[i] != sb[i]
      decreases level
    {
      assert ParentAt(sa, level) && ParentAt(sb, level);
      pa, pb := pa.pprev, pb.pprev;
      level := level - 1;
    }
    assert pa == pb;
    if level >= 0 {
      SharedPrefix(tree, first, second, level);
    }
    r := pa;
  }

  /** The last block two branches share, or null if they share none.  The code's assertion
      that the walk ends on equal pointers holds either way. */
  method LastCommonAncestor(first: BlockIndex, second: BlockIndex, ghost tree: set<BlockIndex>) returns (r: BlockIndex?)
    requires Tree(tree) && first in tree && second in tree
    ensures if r == null then AgreeUpTo(Branch(tree, first), Branch(tree, second), 0)
            else r in tree && 0 <= r.nHeight <= first.nHeight && Branch(tree, first)[r.nHeight] == r
                 && AgreeUpTo(Branch(tree, first), Branch(tree, second), r.nHeight + 1)
  {
    assert LinkOk(tree, first) && LinkOk(tree, second);
    var pa: BlockIndex?, pb: BlockIndex? := first, second;
    ghost var steps;
    if pa.nHeight > pb.nHeight {
      pa, steps := pa.GetAncestor(pb.nHeight, tree);
    } else if pb.nHeight > pa.nHeight {
      pb, steps := pb.GetAncestor(pa.nHeight, tree);
    }
    r := StepBackTogether(pa, pb, first, second, tree);
  }

  // ---------------------------------------------------------------------------------
  // The active chain
  // ---------------------------------------------------------------------------------

  class ActiveChain {
    var vChain: seq<BlockIndex?>

    /** The vector is the branch of its last entry. */
    ghost predicate Valid(tree: set<BlockIndex>)
      reads this, tree
    {
      && Tree(tree)
      && (|vChain| > 0 ==> Tip() != null && Tip() in tree && vChain == Branch(tree, Tip()))
    }

    constructor ()
      ensures vChain == []
    {
      vChain := [];
    }

    function Tip(): BlockIndex?
      reads this
    {
      if |vChain| > 0 then vChain[|vChain| - 1] else null
    }

    function Height(): int
      reads this
    {
      |vChain| - 1
    }

    function At(nHeight: int): BlockIndex?
      reads this
    {
      if nHeight < 0 || nHeight >= |vChain| then null else vChain[nHeight]
    }

    predicate Contains(pindex: BlockIndex)
      reads this, pindex
    {
      At(pindex.nHeight) == pindex
    }

    /** The loop of SetTip: from the tip down, stopping at the first height that is right. */
    method Overwrite(resized: seq<BlockIndex?>, tip: BlockIndex, ghost tree: set<BlockIndex>)
      returns (chain: seq<BlockIndex?>, ghost level: int)
      requires Linked(tree) && tip in tree && |resized| == tip.nHeight + 1
      ensures |chain| == |resized| && -1 <= level <= tip.nHeight
      ensures level >= 0 ==> resized[level] == Branch(tree, tip)[level]
      ensures forall i :: level < i < |chain| ==> chain[i] == Branch(tree, tip)[i]
      ensures forall i :: 0 <= i <= level ==> chain[i] == resized[i]
    {
      ghost var branch := Branch(tree, tip);
      BranchLinks(tree, tip);
      chain := resized;
      var pindex: BlockIndex? := tip;
      level := tip.nHeight;
      while pindex != null && chain[pindex.nHeight] != pindex
        invariant |chain| == |resized| && -1 <= level <= tip.nHeight
        invariant if level < 0 then pindex == null else pindex == branch[level]
        invariant forall i :: level < i < |chain| ==> chain[i] == branch[i]
        invariant forall i :: 0 <= i <= level ==> chain[i] == resized[i]
        decreases level
      {
        assert ParentAt(branch, level);
        chain := chain[pindex.nHeight := pindex];
        pindex := pindex.pprev;
        level := level - 1;
      }
    }

    /** The vector resized and rewritten: everything below the height where the rewriting
        stopped is right already. */
    method Rewritten(tip: BlockIndex, ghost tree: set<BlockIndex>) returns (chain: seq<BlockIndex?>)
      requires Valid(tree) && tip in tree
      ensures chain == Branch(tree, tip)
    {
      assert LinkOk(tree, tip);
      ghost var level;
      chain, level := Overwrite(Resized(vChain, tip.nHeight + 1), tip, tree);
      if level >= 0 {
        assert level < |vChain|;
        MeetOldChain(tree, tip, Tip(), chain, level);
      }
    }

    method SetTip(tip: BlockIndex?, ghost tree: set<BlockIndex>)
      requires Valid(tree) && (tip != null ==> tip in tree)
      modifies this
      ensures Valid(tree)
      ensures vChain == if tip == null then [] else Branch(tree, tip)
      ensures if tip == null then Tip() == null && Height() == -1 else Tip() == tip && Height() == tip.nHeight
    {
      if tip == null {
        vChain := [];
      } else {
        vChain := Rewritten(tip, tree);
      }
    }

    /** Where the new branch meets the old chain, the rest of the old chain is right. */
    lemma MeetOldChain(tree: set<BlockIndex>, tip: BlockIndex, oldTip: BlockIndex, chain: seq<BlockIndex?>, level: int)
      requires Linked(tree) && tip in tree && oldTip in tree && |chain| == tip.nHeight + 1
      requires 0 <= level <= tip.nHeight && level <= oldTip.nHeight
      requires forall i :: 0 <= i <= level ==> chain[i] == Branch(tree, oldTip)[i]
      requires forall i :: level < i < |chain| ==> chain[i] == Branch(tree, tip)[i]
      requires Branch(tree, tip)[level] == chain[level]
      ensures chain == Branch(tree, tip)
    {
      SharedPrefix(tree, tip, oldTip, level);
    }

    /** The last common block of this chain and a block. */
    method FindFork(from: BlockIndex?, ghost tree: set<BlockIndex>) returns (r: BlockIndex?)
      requires Valid(tree) && (from != null ==> from in tree)
      ensures from == null ==> r == null
      ensures r != null ==>
                r in tree && Contains(r) && 0 <= r.nHeight <= from.nHeight && Branch(tree, from)[r.nHeight] == r
      ensures from != null ==> forall h :: (if r == null then 0 else r.nHeight + 1) <= h <= from.nHeight
                                           ==> !Contains(Branch(tree, from)[h])
    {
      if from == null {
        return null;
      }
      ghost var branch := Branch(tree, from);
      var pindex: BlockIndex? := from;
      if pindex.nHeight > Height() {
        ghost var steps;
        pindex, steps := pindex.GetAncestor(Height(), tree);
      }
      ghost var level := if from.nHeight > Height() then Height() else from.nHeight;
      BranchLinks(tree, from);
      while pindex != null && !Contains(pindex)
        invariant -1 <= level < |branch|
        invariant if level < 0 then pindex == null else pindex == branch[level]
        invariant forall h :: level < h < |branch| ==> !Contains(branch[h])
        decreases level
      {
        assert ParentAt(branch, level);
        pindex := pindex.pprev;
        level := level - 1;
      }
      r := pindex;
    }

    /** The ancestor of a block, by the vector if the chain contains the block and by the skip
        list otherwise: the same either way. */
    method StepBack(pindex: BlockIndex, nHeight: int, ghost tree: set<BlockIndex>) returns (r: BlockIndex)
      requires Valid(tree) && pindex in tree && 0 <= nHeight <= pindex.nHeight
      ensures r == Branch(tree, pindex)[nHeight]
    {
      if Contains(pindex) {
        SharedPrefix(tree, Tip(), pindex, pindex.nHeight);
        r := At(nHeight);
      } else {
        ghost var steps;
        r, steps := pindex.GetAncestor(nHeight, tree);
      }
    }

    /** Steps back one at a time for ten blocks, then in doubling steps down to the genesis
        block. */
    method GetLocator(from: BlockIndex?, ghost tree: set<BlockIndex>) returns (have: seq<BlockIndex>)
      requires Valid(tree) && (from != null ==> from in tree)
      ensures var start := if from != null then from else Tip();
              if start == null then have == [] else Locates(Branch(tree, start), have)
    {
      var pindex: BlockIndex? := from;
      if pindex == null {
        pindex := Tip();
      }
      if pindex == null {
        return [];
      }
      have := LocatorFrom(pindex, tree);
    }

    method LocatorFrom(start: BlockIndex, ghost tree: set<BlockIndex>) returns (have: seq<BlockIndex>)
      requires Valid(tree) && start in tree
      ensures Locates(Branch(tree, start), have)
    {
      have := [];
      var pindex := start;
      var nStep := 1;
      while true
        invariant Valid(tree) && pindex in tree && 0 <= pindex.nHeight <= start.nHeight
        invariant pindex == Branch(tree, start)[pindex.nHeight]
        invariant nStep == StepAt(|have|)
        invariant Locating(Branch(tree, start), have, pindex.nHeight)
        decreases pindex.nHeight
      {
        have := have + [pindex];
        if pindex.nHeight == 0 {
          assert have[..|have| - 1] + [pindex] == have;
          return;
        }
        var nHeight := Max(pindex.nHeight - nStep, 0);
        LocatingStep(Branch(tree, start), have[..|have| - 1], pindex, nHeight);
        assert have[..|have| - 1] + [pindex] == have;
        SharedPrefix(tree, start, pindex, pindex.nHeight);
        pindex := StepBack(pindex, nHeight, tree);
        if |have| > 10 {
          nStep := nStep * 2;
        }
      }
    }
  }

  /** std::vector::resize. */
  function Resized(xs: seq<BlockIndex?>, n: nat): (r: seq<BlockIndex?>)
    ensures |r| == n
    ensures forall i :: 0 <= i < n ==> r[i] == if i < |xs| then xs[i] else null
  {
    if n <= |xs| then xs[..n] else xs + seq(n - |xs|, _ => null)
  }

  function Max(a: int, b: int): int { if a < b then b else a }

  /** The step back from the i-th block of a locator to the next. */
  function StepAt(i: nat): (n: nat)
    ensures n >= 1
  {
    if i <= 10 then 1 else 2 * StepAt(i - 1)
  }

  /** The height of the i-th block of a locator. */
  function LocatorHeight(tip: nat, i: nat): nat {
    if i == 0 then tip else Max(LocatorHeight(tip, i - 1) - StepAt(i - 1), 0)
  }

  /** A locator so far: blocks of the branch at the prescribed heights, the next at `height`. */
  ghost predicate Locating(branch: seq<BlockIndex>, have: seq<BlockIndex>, height: int) {
    && |branch| > 0 && height == LocatorHeight(|branch| - 1, |have|)
    && forall i :: 0 <= i < |have| ==> LocatedAt(branch, have, i)
  }

  ghost predicate LocatedAt(branch: seq<BlockIndex>, have: seq<BlockIndex>, i: int)
    requires |branch| > 0 && 0 <= i < |have|
  {
    0 < LocatorHeight(|branch| - 1, i) < |branch| && have[i] == branch[LocatorHeight(|branch| - 1, i)]
  }

  lemma LocatingStep(branch: seq<BlockIndex>, have: seq<BlockIndex>, b: BlockIndex, height: int)
    requires b.nHeight > 0 && Locating(branch, have, b.nHeight)
    requires b.nHeight < |branch| && b == branch[b.nHeight] && height == Max(b.nHeight - StepAt(|have|), 0)
    ensures Locating(branch, have + [b], height)
  {
    forall i | 0 <= i < |have| ensures LocatedAt(branch, have + [b], i) {
      assert LocatedAt(branch, have, i);
    }
    assert LocatedAt(branch, have + [b], |have|);
  }

  /** A whole locator ends with the genesis block. */
  ghost predicate Locates(branch: seq<BlockIndex>, have: seq<BlockIndex>) {
    |have| > 0 && |branch| > 0 && have[|have| - 1] == branch[0] && Locating(branch, have[..|have| - 1], 0)
  }
}
