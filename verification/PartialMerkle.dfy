/** The partial merkle tree: a prover that encodes which transactions of a block are of
    interest, and a verifier that decodes the encoding and recomputes the merkle root
    (the "Partial Merkle branch format" section of BIP 37).

    A uint256 is an integer and Hash(left, right) is a parameter `pair`.  Results that rest
    on collision resistance require `pair` to be injective. */
module PartialMerkle {

  type Uint256 = int

  /** uint256(), also the answer on failure. */
  const NULL: Uint256 := 0

  type Pair = (Uint256, Uint256) -> Uint256

  ghost predicate Injective(pair: Pair) {
    forall a, b, c, d :: pair(a, b) == pair(c, d) ==> a == c && b == d
  }

  // ---------------------------------------------------------------------------------
  // The shape of the tree
  // ---------------------------------------------------------------------------------

  /** x << h and x >> h. */
  function Shl(x: nat, h: nat): nat
    decreases h
  {
    if h == 0 then x else Shl(2 * x, h - 1)
  }

  function Shr(x: nat, h: nat): nat
    decreases h
  {
    if h == 0 then x else Shr(x / 2, h - 1)
  }

  lemma {:induction false} ShlAdd(x: nat, y: nat, h: nat)
    ensures Shl(x + y, h) == Shl(x, h) + Shl(y, h) && Shl(x, h) >= x
    decreases h
  {
    if h == 0 {
    } else {
      ShlAdd(2 * x, 2 * y, h - 1);
    }
  }

  lemma {:induction false} ShrIff(x: nat, h: nat, k: nat)
    ensures k <= Shr(x, h) <==> Shl(k, h) <= x
    decreases h
  {
    if h == 0 {
    } else {
      ShrIff(x / 2, h - 1, k);
      ShlAdd(k, k, h - 1);
    }
  }

  /** CalcTreeWidth: the number of nodes at a height of a tree over `n` leaves. */
  function Width(n: nat, h: nat): nat {
    ShlAdd(1, 0, h);
    Shr(n + Shl(1, h) - 1, h)
  }

  /** A node exists exactly when its leftmost leaf does. */
  lemma WidthIff(n: nat, h: nat, pos: nat)
    ensures pos < Width(n, h) <==> Shl(pos, h) < n
  {
    ShlAdd(pos, 1, h);
    ShlAdd(1, 0, h);
    ShrIff(n + Shl(1, h) - 1, h, pos + 1);
  }

  function Min(a: nat, b: nat): nat { if a < b then a else b }

  /** The leaves below a node are those from First up to End. */
  function First(h: nat, pos: nat): nat { Shl(pos, h) }
  function End(n: nat, h: nat, pos: nat): nat { Min(Shl(pos + 1, h), n) }

  predicate Node(n: nat, h: nat, pos: nat) { First(h, pos) < n }

  lemma Span(n: nat, h: nat, pos: nat)
    requires Node(n, h, pos)
    ensures pos <= First(h, pos) < End(n, h, pos) <= n
  {
    ShlAdd(pos, 1, h);
    ShlAdd(1, 0, h);
  }

  /** Whether an inner node has a right child. */
  predicate HasRight(n: nat, h: nat, pos: nat)
    requires h > 0
  {
    Node(n, h - 1, pos * 2 + 1)
  }

  /** The children of a node split its leaves. */
  lemma Children(n: nat, h: nat, pos: nat)
    requires h > 0 && Node(n, h, pos)
    ensures Node(n, h - 1, pos * 2) && First(h - 1, pos * 2) == First(h, pos)
    ensures HasRight(n, h, pos) <==> pos * 2 + 1 < Width(n, h - 1)
    ensures if HasRight(n, h, pos)
            then End(n, h - 1, pos * 2) == First(h - 1, pos * 2 + 1) && End(n, h - 1, pos * 2 + 1) == End(n, h, pos)
            else End(n, h - 1, pos * 2) == End(n, h, pos)
    ensures First(h, pos) < End(n, h - 1, pos * 2) <= End(n, h, pos)
  {
    WidthIff(n, h - 1, pos * 2 + 1);
    Span(n, h - 1, pos * 2);
    ShlAdd(pos * 2 + 1, 1, h - 1);
  }

  /** The height of the root: the loop `while (CalcTreeWidth(nHeight) > 1) nHeight++`. */
  method CalcHeight(n: nat) returns (h: nat)
    ensures Width(n, h) <= 1 && (h == 0 || Width(n, h - 1) > 1)
    ensures h == Height(n)
  {
    h := 0;
    while Width(n, h) > 1
      invariant h == 0 || Width(n, h - 1) > 1
      invariant h + HeightFrom(n, h) == Height(n)
      decreases Width(n, h)
    {
      WidthShrinks(n, h);
      h := h + 1;
    }
  }

  lemma WidthShrinks(n: nat, h: nat)
    requires Width(n, h) > 1
    ensures Width(n, h + 1) < Width(n, h)
  {
    var w := Width(n, h);
    WidthIff(n, h, w);
    WidthIff(n, h + 1, w - 1);
    ShlAdd(w, w - 2, h);
  }

  function HeightFrom(n: nat, h: nat): nat
    decreases Width(n, h)
  {
    if Width(n, h) > 1 then WidthShrinks(n, h); 1 + HeightFrom(n, h + 1) else 0
  }

  function Height(n: nat): nat { HeightFrom(n, 0) }

  lemma {:induction false} RootFrom(n: nat, h: nat)
    ensures Width(n, h + HeightFrom(n, h)) <= 1
    decreases Width(n, h)
  {
    if Width(n, h) > 1 {
      WidthShrinks(n, h);
      RootFrom(n, h + 1);
    }
  }

  /** The root covers every leaf. */
  lemma RootCovers(n: nat)
    requires n > 0
    ensures Node(n, Height(n), 0) && First(Height(n), 0) == 0 && End(n, Height(n), 0) == n
  {
    RootFrom(n, 0);
    WidthIff(n, Height(n), 1);
    ShlAdd(0, 0, Height(n));
  }

  // ---------------------------------------------------------------------------------
  // Hashes, encoding, decoding
  // ---------------------------------------------------------------------------------

  function CalcHash(pair: Pair, txids: seq<Uint256>, h: nat, pos: nat): Uint256
    requires Node(|txids|, h, pos)
    decreases h
  {
    if h == 0 then txids[pos]
    else
      Children(|txids|, h, pos);
      var left := CalcHash(pair, txids, h - 1, pos * 2);
      var right := if HasRight(|txids|, h, pos) then CalcHash(pair, txids, h - 1, pos * 2 + 1) else left;
      pair(left, right)
  }

  function MerkleRoot(pair: Pair, txids: seq<Uint256>): Uint256
    requires |txids| > 0
  {
    RootCovers(|txids|);
    CalcHash(pair, txids, Height(|txids|), 0)
  }

  // ---------------------------------------------------------------------------------
  // The merkle root of a block, level by level
  // ---------------------------------------------------------------------------------

  /** The level above some hashes: neighbours are combined, and a last one without a neighbour is
      combined with itself. */
  function Above(pair: Pair, hashes: seq<Uint256>): (up: seq<Uint256>)
    ensures |up| == (|hashes| + 1) / 2
  {
    seq((|hashes| + 1) / 2, i requires 0 <= i < (|hashes| + 1) / 2 => pair(hashes[2 * i], Neighbour(hashes, i)))
  }

  function Neighbour(hashes: seq<Uint256>, i: nat): Uint256
    requires 2 * i < |hashes|
  {
    if 2 * i + 1 < |hashes| then hashes[2 * i + 1] else hashes[2 * i]
  }

  lemma AboveAt(pair: Pair, hashes: seq<Uint256>, i: nat)
    requires 2 * i < |hashes|
    ensures i < |Above(pair, hashes)| && Above(pair, hashes)[i] == pair(hashes[2 * i], Neighbour(hashes, i))
  {}

  /** The root of a list: what remains when levels are stacked until one hash is left. */
  function BlockRoot(pair: Pair, hashes: seq<Uint256>): Uint256
    decreases |hashes|
  {
    if hashes == [] then NULL else if |hashes| == 1 then hashes[0] else BlockRoot(pair, Above(pair, hashes))
  }

  function Level(pair: Pair, txids: seq<Uint256>, h: nat): seq<Uint256> {
    if h == 0 then txids else Above(pair, Level(pair, txids, h - 1))
  }

  lemma {:induction false} LevelWidth(pair: Pair, txids: seq<Uint256>, h: nat)
    ensures |Level(pair, txids, h)| == Width(|txids|, h)
  {
    if h == 0 {
    } else {
      LevelWidth(pair, txids, h - 1);
      HalfWidth(|txids|, h - 1);
    }
  }

  lemma HalfWidth(n: nat, h: nat)
    ensures Width(n, h + 1) == (Width(n, h) + 1) / 2
  {
    hide Width;
    var half := (Width(n, h) + 1) / 2;
    HalfNode(n, h, half);
    if half > 0 {
      HalfNode(n, h, half - 1);
    }
  }

  lemma HalfNode(n: nat, h: nat, pos: nat)
    ensures pos < Width(n, h + 1) <==> 2 * pos < Width(n, h)
  {
    hide Width;
    WidthIff(n, h + 1, pos);
    WidthIff(n, h, 2 * pos);
    ShlNext(pos, h);
  }

  lemma ShlNext(x: nat, h: nat)
    ensures Shl(x, h + 1) == Shl(2 * x, h)
  {}

  /** The recursion finds at every node what the levels hold there. */
  lemma {:induction false} CalcHashIsLevel(pair: Pair, txids: seq<Uint256>, h: nat, pos: nat)
    requires Node(|txids|, h, pos)
    ensures pos < |Level(pair, txids, h)| && CalcHash(pair, txids, h, pos) == Level(pair, txids, h)[pos]
  {
    hide Shl, Width, Above;
    if h == 0 {
      ShlZero(pos);
    } else {
      var below := Level(pair, txids, h - 1);
      Children(|txids|, h, pos);
      LevelWidth(pair, txids, h - 1);
      CalcHashIsLevel(pair, txids, h - 1, pos * 2);
      if HasRight(|txids|, h, pos) {
        CalcHashIsLevel(pair, txids, h - 1, pos * 2 + 1);
      }
      AboveAt(pair, below, pos);
    }
  }

  lemma ShlZero(x: nat)
    ensures Shl(x, 0) == x
  {}

  lemma {:induction false} RootOfLevel(pair: Pair, txids: seq<Uint256>, h: nat)
    requires |txids| > 0
    ensures BlockRoot(pair, Level(pair, txids, h)) ==
            BlockRoot(pair, Level(pair, txids, h + HeightFrom(|txids|, h)))
    decreases Width(|txids|, h)
  {
    hide Width, Above, Level;
    LevelWidth(pair, txids, h);
    if Width(|txids|, h) > 1 {
      WidthShrinks(|txids|, h);
      RootOfLevel(pair, txids, h + 1);
      LevelNext(pair, txids, h);
    }
  }

  lemma LevelNext(pair: Pair, txids: seq<Uint256>, h: nat)
    ensures Level(pair, txids, h + 1) == Above(pair, Level(pair, txids, h)) && Level(pair, txids, 0) == txids
  {}

  /** The root that partial trees lead to is the merkle root of the block. */
  lemma RootIsBlockRoot(pair: Pair, txids: seq<Uint256>)
    requires |txids| > 0
    ensures MerkleRoot(pair, txids) == BlockRoot(pair, txids)
  {
    hide Width, Above, Level, HeightFrom, CalcHash;
    var h := Height(|txids|);
    LevelNext(pair, txids, 0);
    RootCovers(|txids|);
    RootFrom(|txids|, 0);
    LevelWidth(pair, txids, h);
    CalcHashIsLevel(pair, txids, h, 0);
    RootOfLevel(pair, txids, 0);
  }

  /** Whether two hashes that are combined are equal, on this level, or on any level. */
  predicate Mutated(hashes: seq<Uint256>) {
    exists i :: 0 <= i < |hashes| / 2 && hashes[2 * i] == hashes[2 * i + 1]
  }

  predicate SomeMutated(pair: Pair, hashes: seq<Uint256>)
    decreases |hashes|
  {
    |hashes| > 1 && (Mutated(hashes) || SomeMutated(pair, Above(pair, hashes)))
  }

  lemma NoneMutated(hashes: seq<Uint256>)
    ensures !Mutated(hashes[..0])
  {}

  lemma MutatedMore(hashes: seq<Uint256>, pos: nat)
    requires pos % 2 == 0 && pos + 1 < |hashes|
    ensures Mutated(hashes[..pos + 2]) <==> Mutated(hashes[..pos]) || hashes[pos] == hashes[pos + 1]
  {
    var (short, long) := (hashes[..pos], hashes[..pos + 2]);
    assert long[2 * (pos / 2)] == hashes[pos] && long[2 * (pos / 2) + 1] == hashes[pos + 1];
    forall i | 0 <= i < pos / 2 ensures short[2 * i] == long[2 * i] && short[2 * i + 1] == long[2 * i + 1] {}
    if Mutated(long) && hashes[pos] != hashes[pos + 1] {
      var i :| 0 <= i < |long| / 2 && long[2 * i] == long[2 * i + 1];
      assert i < pos / 2 && short[2 * i] == short[2 * i + 1];
    }
    if Mutated(short) {
      var i :| 0 <= i < |short| / 2 && short[2 * i] == short[2 * i + 1];
      assert long[2 * i] == long[2 * i + 1];
    }
  }

  lemma MutatedAll(hashes: seq<Uint256>, pos: nat)
    requires pos % 2 == 0 && pos + 1 >= |hashes|
    ensures Mutated(hashes[..Min(pos, |hashes|)]) <==> Mutated(hashes)
  {
    var short := hashes[..Min(pos, |hashes|)];
    assert forall k :: 0 <= k < |short| ==> short[k] == hashes[k];
    assert |short| / 2 == |hashes| / 2;
    if Mutated(hashes) {
      var i :| 0 <= i < |hashes| / 2 && hashes[2 * i] == hashes[2 * i + 1];
      assert short[2 * i] == short[2 * i + 1];
    }
    if Mutated(short) {
      var i :| 0 <= i < |short| / 2 && short[2 * i] == short[2 * i + 1];
      assert hashes[2 * i] == hashes[2 * i + 1];
    }
  }

  /** Works in place on a vector that halves with every level. */
  method ComputeMerkleRoot(pair: Pair, leaves: seq<Uint256>) returns (root: Uint256, mutation: bool)
    ensures root == BlockRoot(pair, leaves) && mutation == SomeMutated(pair, leaves)
  {
    hide Above, Mutated;
    var hashes := leaves;
    mutation := false;
    NoneMutated(hashes);
    while |hashes| > 1
      invariant BlockRoot(pair, leaves) == BlockRoot(pair, hashes)
      invariant SomeMutated(pair, leaves) == (mutation || SomeMutated(pair, hashes))
      decreases |hashes|
    {
      var pos := 0;
      ghost var before := mutation;
      NoneMutated(hashes);
      while pos + 1 < |hashes|
        invariant 0 <= pos && pos % 2 == 0
        invariant mutation <==> before || Mutated(hashes[..Min(pos, |hashes|)])
      {
        MutatedMore(hashes, pos);
        if hashes[pos] == hashes[pos + 1] {
          mutation := true;
        }
        pos := pos + 2;
      }
      MutatedAll(hashes, pos);
      ghost var level := hashes;
      if |hashes| % 2 == 1 {
        hashes := hashes + [hashes[|hashes| - 1]];
      }
      var half := [];
      for i := 0 to |hashes| / 2
        invariant half == Above(pair, level)[..i]
      {
        AboveAt(pair, level, i);
        half := half + [pair(hashes[2 * i], hashes[2 * i + 1])];
      }
      assert half == Above(pair, level);
      hashes := half;
    }
    if |hashes| == 0 {
      return NULL, mutation;
    }
    root := hashes[0];
  }

  lemma AboveInjective(pair: Pair, a: seq<Uint256>, b: seq<Uint256>)
    requires Injective(pair) && Above(pair, a) == Above(pair, b) && !Mutated(a) && !Mutated(b)
    ensures a == b
  {
    hide Above;
    forall i: nat | 2 * i < |a|
      ensures 2 * i < |b| && a[2 * i] == b[2 * i] && (2 * i + 1 < |a| <==> 2 * i + 1 < |b|)
      ensures 2 * i + 1 < |a| ==> a[2 * i + 1] == b[2 * i + 1]
    {
      AboveAt(pair, a, i);
      AboveAt(pair, b, i);
    }
    assert |a| == |b| by {
      if |a| > 0 {
        var i := (|a| - 1) / 2;
        assert 2 * i < |a| && (2 * i + 1 < |a| <==> 2 * i + 1 < |b|);
      }
    }
    forall k | 0 <= k < |a| ensures a[k] == b[k] {
      assert 2 * (k / 2) < |a|;
    }
  }

  /** How many levels lie above a list of n hashes. */
  function Depth(n: nat): nat { if n <= 1 then 0 else 1 + Depth((n + 1) / 2) }

  /** Two lists with equally many levels and the same root, on no level of which two equal hashes are
      combined, are the same: only a list that the flag reports can stand in for another. */
  lemma {:induction false} RootDetermines(pair: Pair, a: seq<Uint256>, b: seq<Uint256>)
    requires Injective(pair) && !SomeMutated(pair, a) && !SomeMutated(pair, b)
    requires a != [] && b != [] && Depth(|a|) == Depth(|b|) && BlockRoot(pair, a) == BlockRoot(pair, b)
    ensures a == b
    decreases |a|
  {
    hide Injective, Mutated, Above;
    if |a| == 1 {
    } else {
      RootDetermines(pair, Above(pair, a), Above(pair, b));
      AboveInjective(pair, a, b);
    }
  }

  /** Neither condition can go.  Repeating the last of an odd number of hashes does not change the root, and
      the flag reports it; a list with one level less can have the same root, which the flag does not
      report. */
  lemma RepeatedLast(pair: Pair, t: seq<Uint256>)
    requires |t| > 1 && |t| % 2 == 1
    ensures var longer := t + [t[|t| - 1]];
            && BlockRoot(pair, longer) == BlockRoot(pair, t) && SomeMutated(pair, longer)
            && Depth(|longer|) == Depth(|t|)
    ensures BlockRoot(pair, Above(pair, t)) == BlockRoot(pair, t) && Depth(|Above(pair, t)|) == Depth(|t|) - 1
  {
    hide Above;
    var longer := t + [t[|t| - 1]];
    forall i | 0 <= i < |Above(pair, t)| ensures Above(pair, longer)[i] == Above(pair, t)[i] {
      AboveAt(pair, t, i);
      AboveAt(pair, longer, i);
    }
    assert Above(pair, longer) == Above(pair, t);
    var last := |t| / 2;
    assert longer[2 * last] == longer[2 * last + 1];
  }

  /** Whether a node is the parent of a matched transaction, or is one. */
  predicate AnyMatch(mask: seq<bool>, lo: nat, hi: nat)
    requires hi <= |mask|
  {
    exists p :: lo <= p < hi && mask[p]
  }

  datatype Encoding = Encoding(bits: seq<bool>, hashes: seq<Uint256>)

  /** What TraverseAndBuild pushes for the subtree of one node. */
  function Build(pair: Pair, txids: seq<Uint256>, mask: seq<bool>, h: nat, pos: nat): Encoding
    requires |mask| == |txids| && Node(|txids|, h, pos)
    decreases h
  {
    var any := AnyMatch(mask, First(h, pos), End(|txids|, h, pos));
    if h == 0 || !any then Encoding([any], [CalcHash(pair, txids, h, pos)])
    else
      Children(|txids|, h, pos);
      var left := Build(pair, txids, mask, h - 1, pos * 2);
      if HasRight(|txids|, h, pos) then
        var right := Build(pair, txids, mask, h - 1, pos * 2 + 1);
        Encoding([true] + left.bits + right.bits, left.hashes + right.hashes)
      else Encoding([true] + left.bits, left.hashes)
  }

  /** A matched transaction and its index in the block. */
  datatype Found = Found(hash: Uint256, index: nat)

  /** The matched transactions among the leaves from `lo` up to `hi`, in order. */
  function Matched(txids: seq<Uint256>, mask: seq<bool>, lo: nat, hi: nat): seq<Found>
    requires |mask| == |txids| && hi <= |mask|
  {
    if hi <= lo then []
    else Matched(txids, mask, lo, hi - 1) + (if mask[hi - 1] then [Found(txids[hi - 1], hi - 1)] else [])
  }

  lemma {:induction false} MatchedSplit(txids: seq<Uint256>, mask: seq<bool>, lo: nat, mid: nat, hi: nat)
    requires |mask| == |txids| && lo <= mid <= hi <= |mask|
    ensures Matched(txids, mask, lo, hi) == Matched(txids, mask, lo, mid) + Matched(txids, mask, mid, hi)
  {
    if mid < hi {
      MatchedSplit(txids, mask, lo, mid, hi - 1);
    }
  }

  lemma {:induction false} MatchedNone(txids: seq<Uint256>, mask: seq<bool>, lo: nat, hi: nat)
    requires |mask| == |txids| && lo <= hi <= |mask|
    ensures Matched(txids, mask, lo, hi) == [] <==> !AnyMatch(mask, lo, hi)
  {
    if lo < hi {
      MatchedNone(txids, mask, lo, hi - 1);
      if AnyMatch(mask, lo, hi) && !mask[hi - 1] {
        var p :| lo <= p < hi && mask[p];
        assert AnyMatch(mask, lo, hi - 1);
      }
    }
  }

  /** What TraverseAndExtract yields for one node: the hash of the node, the new positions in
      the two inputs, the matches found, and whether invalid data was met. */
  datatype Out = Out(hash: Uint256, bitsUsed: nat, hashUsed: nat, found: seq<Found>, bad: bool)

  function Extract(pair: Pair, n: nat, e: Encoding, h: nat, pos: nat, bitsUsed: nat, hashUsed: nat): Out
    decreases h
  {
    if bitsUsed >= |e.bits| then Out(NULL, bitsUsed, hashUsed, [], true)
    else if h == 0 || !e.bits[bitsUsed] then
      if hashUsed >= |e.hashes| then Out(NULL, bitsUsed + 1, hashUsed, [], true)
      else
        var hash := e.hashes[hashUsed];
        Out(hash, bitsUsed + 1, hashUsed + 1, if e.bits[bitsUsed] then [Found(hash, pos)] else [], false)
    else
      var left := Extract(pair, n, e, h - 1, pos * 2, bitsUsed + 1, hashUsed);
      if HasRight(n, h, pos) then
        var right := Extract(pair, n, e, h - 1, pos * 2 + 1, left.bitsUsed, left.hashUsed);
        Out(pair(left.hash, right.hash), right.bitsUsed, right.hashUsed, left.found + right.found,
            left.bad || right.bad || right.hash == left.hash)
      else
        Out(pair(left.hash, left.hash), left.bitsUsed, left.hashUsed, left.found, left.bad)
  }

  lemma ExtractStops(pair: Pair, n: nat, e: Encoding, h: nat, pos: nat, bu: nat, hu: nat)
    requires bu >= |e.bits| || h == 0 || !e.bits[bu]
    ensures Extract(pair, n, e, h, pos, bu, hu) ==
            if bu >= |e.bits| then Out(NULL, bu, hu, [], true)
            else if hu >= |e.hashes| then Out(NULL, bu + 1, hu, [], true)
            else Out(e.hashes[hu], bu + 1, hu + 1, if e.bits[bu] then [Found(e.hashes[hu], pos)] else [], false)
  {}

  lemma ExtractGoesOn(pair: Pair, n: nat, e: Encoding, h: nat, pos: nat, bu: nat, hu: nat)
    requires bu < |e.bits| && h > 0 && e.bits[bu]
    ensures var left := Extract(pair, n, e, h - 1, pos * 2, bu + 1, hu);
            var right := Extract(pair, n, e, h - 1, pos * 2 + 1, left.bitsUsed, left.hashUsed);
            Extract(pair, n, e, h, pos, bu, hu) ==
            if HasRight(n, h, pos) then
              Out(pair(left.hash, right.hash), right.bitsUsed, right.hashUsed, left.found + right.found,
                  left.bad || right.bad || right.hash == left.hash)
            else Out(pair(left.hash, left.hash), left.bitsUsed, left.hashUsed, left.found, left.bad)
  {}

  // ---------------------------------------------------------------------------------
  // Soundness
  // ---------------------------------------------------------------------------------

  /** Everything reported is true of the block, in increasing order of index. */
  ghost predicate TrueFacts(txids: seq<Uint256>, found: seq<Found>, lo: nat, hi: nat) {
    && (forall i :: 0 <= i < |found| ==>
          lo <= found[i].index < hi && found[i].index < |txids| && found[i].hash == txids[found[i].index])
    && (forall i, j :: 0 <= i < j < |found| ==> found[i].index < found[j].index)
  }

  lemma FactsConcat(txids: seq<Uint256>, left: seq<Found>, right: seq<Found>, lo: nat, mid: nat, hi: nat)
    requires lo <= mid <= hi && TrueFacts(txids, left, lo, mid) && TrueFacts(txids, right, mid, hi)
    ensures TrueFacts(txids, left + right, lo, hi)
  {
  }

  lemma {:induction false} NodeSound(pair: Pair, txids: seq<Uint256>, e: Encoding, h: nat, pos: nat, bu: nat, hu: nat)
    requires Injective(pair) && Node(|txids|, h, pos)
    requires var o := Extract(pair, |txids|, e, h, pos, bu, hu);
             !o.bad && o.hash == CalcHash(pair, txids, h, pos)
    ensures TrueFacts(txids, Extract(pair, |txids|, e, h, pos, bu, hu).found, First(h, pos), End(|txids|, h, pos))
    decreases h
  {
    if h > 0 && e.bits[bu] {
      Children(|txids|, h, pos);
      var left := Extract(pair, |txids|, e, h - 1, pos * 2, bu + 1, hu);
      if HasRight(|txids|, h, pos) {
        var right := Extract(pair, |txids|, e, h - 1, pos * 2 + 1, left.bitsUsed, left.hashUsed);
        assert pair(left.hash, right.hash) ==
               pair(CalcHash(pair, txids, h - 1, pos * 2), CalcHash(pair, txids, h - 1, pos * 2 + 1));
        NodeSound(pair, txids, e, h - 1, pos * 2, bu + 1, hu);
        NodeSound(pair, txids, e, h - 1, pos * 2 + 1, left.bitsUsed, left.hashUsed);
        FactsConcat(txids, left.found, right.found,
                    First(h, pos), First(h - 1, pos * 2 + 1), End(|txids|, h, pos));
      } else {
        NodeSound(pair, txids, e, h - 1, pos * 2, bu + 1, hu);
      }
    }
  }

  // ---------------------------------------------------------------------------------
  // Completeness
  // ---------------------------------------------------------------------------------

  ghost predicate Distinct(txids: seq<Uint256>) {
    forall i, j :: 0 <= i < j < |txids| ==> txids[i] != txids[j]
  }

  /** Nodes of equal height and hash have the same first transaction. */
  lemma {:induction false} SameHashSameFirst(pair: Pair, txids: seq<Uint256>, h: nat, p: nat, q: nat)
    requires Injective(pair) && Node(|txids|, h, p) && Node(|txids|, h, q)
    requires CalcHash(pair, txids, h, p) == CalcHash(pair, txids, h, q)
    ensures txids[First(h, p)] == txids[First(h, q)]
    decreases h
  {
    if h == 0 {
    } else {
      Children(|txids|, h, p);
      Children(|txids|, h, q);
      SameHashSameFirst(pair, txids, h - 1, p * 2, q * 2);
    }
  }

  lemma SiblingsDiffer(pair: Pair, txids: seq<Uint256>, h: nat, pos: nat)
    requires Injective(pair) && Distinct(txids) && h > 0 && Node(|txids|, h, pos) && HasRight(|txids|, h, pos)
    ensures Node(|txids|, h - 1, pos * 2) && Node(|txids|, h - 1, pos * 2 + 1)
    ensures CalcHash(pair, txids, h - 1, pos * 2) != CalcHash(pair, txids, h - 1, pos * 2 + 1)
  {
    Children(|txids|, h, pos);
    if CalcHash(pair, txids, h - 1, pos * 2) == CalcHash(pair, txids, h - 1, pos * 2 + 1) {
      SameHashSameFirst(pair, txids, h - 1, pos * 2, pos * 2 + 1);
    }
  }

  /** The encoding of a subtree sits in `e` at the given positions. */
  predicate At(e: Encoding, sub: Encoding, bu: nat, hu: nat) {
    && bu + |sub.bits| <= |e.bits| && e.bits[bu..bu + |sub.bits|] == sub.bits
    && hu + |sub.hashes| <= |e.hashes| && e.hashes[hu..hu + |sub.hashes|] == sub.hashes
  }

  /** Decoding at these positions gives back the node's hash and its matches. */
  predicate Decodes(pair: Pair, txids: seq<Uint256>, mask: seq<bool>, e: Encoding, h: nat, pos: nat, bu: nat, hu: nat)
    requires |mask| == |txids| && Node(|txids|, h, pos)
  {
    var sub := Build(pair, txids, mask, h, pos);
    Extract(pair, |txids|, e, h, pos, bu, hu) ==
    Out(CalcHash(pair, txids, h, pos), bu + |sub.bits|, hu + |sub.hashes|,
        Matched(txids, mask, First(h, pos), End(|txids|, h, pos)), false)
  }

  lemma LeafDecodes(pair: Pair, txids: seq<Uint256>, mask: seq<bool>, e: Encoding, pos: nat, bu: nat, hu: nat)
    requires |mask| == |txids| && Node(|txids|, 0, pos) && At(e, Build(pair, txids, mask, 0, pos), bu, hu)
    ensures Decodes(pair, txids, mask, e, 0, pos, bu, hu)
  {
    var sub := Build(pair, txids, mask, 0, pos);
    assert e.bits[bu] == e.bits[bu..bu + |sub.bits|][0] && e.hashes[hu] == e.hashes[hu..hu + |sub.hashes|][0];
    Span(|txids|, 0, pos);
    assert Matched(txids, mask, pos, pos) == [];
  }

  lemma PrunedDecodes(pair: Pair, txids: seq<Uint256>, mask: seq<bool>, e: Encoding, h: nat, pos: nat, bu: nat, hu: nat)
    requires |mask| == |txids| && h > 0 && Node(|txids|, h, pos)
    requires var sub := Build(pair, txids, mask, h, pos); At(e, sub, bu, hu) && !sub.bits[0]
    ensures Decodes(pair, txids, mask, e, h, pos, bu, hu)
  {
    hide Matched, CalcHash;
    var sub := Build(pair, txids, mask, h, pos);
    assert e.bits[bu] == e.bits[bu..bu + |sub.bits|][0] && e.hashes[hu] == e.hashes[hu..hu + |sub.hashes|][0];
    Span(|txids|, h, pos);
    MatchedNone(txids, mask, First(h, pos), End(|txids|, h, pos));
  }

  lemma InnerDecodes(pair: Pair, txids: seq<Uint256>, mask: seq<bool>, e: Encoding, h: nat, pos: nat,
                     bu: nat, hu: nat, left: Encoding)
    requires Injective(pair) && Distinct(txids) && |mask| == |txids| && h > 0 && Node(|txids|, h, pos)
    requires Build(pair, txids, mask, h, pos).bits[0] && bu < |e.bits| && e.bits[bu]
    requires Node(|txids|, h - 1, pos * 2) && left == Build(pair, txids, mask, h - 1, pos * 2)
    requires Decodes(pair, txids, mask, e, h - 1, pos * 2, bu + 1, hu)
    requires HasRight(|txids|, h, pos) ==>
               && Node(|txids|, h - 1, pos * 2 + 1)
               && Decodes(pair, txids, mask, e, h - 1, pos * 2 + 1, bu + 1 + |left.bits|, hu + |left.hashes|)
    ensures Decodes(pair, txids, mask, e, h, pos, bu, hu)
  {
    Children(|txids|, h, pos);
    var _ := Parts(pair, txids, mask, h, pos);
    if HasRight(|txids|, h, pos) {
      SiblingsDiffer(pair, txids, h, pos);
      MatchedSplit(txids, mask, First(h, pos), End(|txids|, h - 1, pos * 2), End(|txids|, h, pos));
    }
  }

  /** Decoding what was encoded for a node gives back its hash and its matches. */
  lemma {:induction false} NodeComplete(pair: Pair, txids: seq<Uint256>, mask: seq<bool>,
                                        e: Encoding, h: nat, pos: nat, bu: nat, hu: nat)
    requires Injective(pair) && Distinct(txids) && |mask| == |txids| && Node(|txids|, h, pos)
    requires At(e, Build(pair, txids, mask, h, pos), bu, hu)
    ensures Decodes(pair, txids, mask, e, h, pos, bu, hu)
    decreases h
  {
    hide Extract, CalcHash, Matched, Decodes, At, Injective, Distinct;
    if h == 0 {
      LeafDecodes(pair, txids, mask, e, pos, bu, hu);
    } else if !Build(pair, txids, mask, h, pos).bits[0] {
      PrunedDecodes(pair, txids, mask, e, h, pos, bu, hu);
    } else {
      var left := PartsAt(pair, txids, mask, e, h, pos, bu, hu);
      NodeComplete(pair, txids, mask, e, h - 1, pos * 2, bu + 1, hu);
      if HasRight(|txids|, h, pos) {
        NodeComplete(pair, txids, mask, e, h - 1, pos * 2 + 1, bu + 1 + |left.bits|, hu + |left.hashes|);
      }
      InnerDecodes(pair, txids, mask, e, h, pos, bu, hu, left);
    }
  }

  lemma PartsAt(pair: Pair, txids: seq<Uint256>, mask: seq<bool>, e: Encoding, h: nat, pos: nat, bu: nat, hu: nat)
    returns (left: Encoding)
    requires |mask| == |txids| && h > 0 && Node(|txids|, h, pos)
    requires var sub := Build(pair, txids, mask, h, pos); sub.bits[0] && At(e, sub, bu, hu)
    ensures bu < |e.bits| && e.bits[bu]
    ensures Node(|txids|, h - 1, pos * 2) && left == Build(pair, txids, mask, h - 1, pos * 2) && At(e, left, bu + 1, hu)
    ensures HasRight(|txids|, h, pos) ==>
              && Node(|txids|, h - 1, pos * 2 + 1)
              && At(e, Build(pair, txids, mask, h - 1, pos * 2 + 1), bu + 1 + |left.bits|, hu + |left.hashes|)
  {
    hide At;
    var sub := Build(pair, txids, mask, h, pos);
    left := Parts(pair, txids, mask, h, pos);
    AtPart(e, sub, bu, hu, 1, 0, left);
    if HasRight(|txids|, h, pos) {
      AtPart(e, sub, bu, hu, 1 + |left.bits|, |left.hashes|, Build(pair, txids, mask, h - 1, pos * 2 + 1));
    }
  }

  /** How the encodings of the children sit in the encoding of a node that descends. */
  lemma Parts(pair: Pair, txids: seq<Uint256>, mask: seq<bool>, h: nat, pos: nat) returns (left: Encoding)
    requires |mask| == |txids| && h > 0 && Node(|txids|, h, pos) && Build(pair, txids, mask, h, pos).bits[0]
    ensures Node(|txids|, h - 1, pos * 2) && left == Build(pair, txids, mask, h - 1, pos * 2)
    ensures At(Build(pair, txids, mask, h, pos), left, 1, 0)
    ensures HasRight(|txids|, h, pos) ==>
              && Node(|txids|, h - 1, pos * 2 + 1)
              && var sub, right := Build(pair, txids, mask, h, pos), Build(pair, txids, mask, h - 1, pos * 2 + 1);
              && At(sub, right, 1 + |left.bits|, |left.hashes|)
              && |sub.bits| == 1 + |left.bits| + |right.bits| && |sub.hashes| == |left.hashes| + |right.hashes|
    ensures !HasRight(|txids|, h, pos) ==>
              var sub := Build(pair, txids, mask, h, pos);
              |sub.bits| == 1 + |left.bits| && |sub.hashes| == |left.hashes|
  {
    Children(|txids|, h, pos);
    left := Build(pair, txids, mask, h - 1, pos * 2);
  }

  lemma AtPart(e: Encoding, sub: Encoding, bu: nat, hu: nat, b: nat, g: nat, part: Encoding)
    requires At(e, sub, bu, hu) && At(sub, part, b, g)
    ensures At(e, part, bu + b, hu + g) && (sub.bits != [] ==> bu < |e.bits| && e.bits[bu] == sub.bits[0])
  {
    assert sub.bits != [] ==> e.bits[bu] == e.bits[bu..bu + |sub.bits|][0];
    SliceOfSlice(e.bits, bu, |sub.bits|, b, |part.bits|);
    SliceOfSlice(e.hashes, hu, |sub.hashes|, g, |part.hashes|);
  }

  lemma SliceOfSlice<T>(s: seq<T>, a: nat, n: nat, b: nat, m: nat)
    requires a + n <= |s| && b + m <= n
    ensures s[a + b..a + b + m] == s[a..a + n][b..b + m]
  {
    var (x, outer) := (s[a + b..a + b + m], s[a..a + n]);
    var y := outer[b..b + m];
    forall i | 0 <= i < m ensures x[i] == y[i] {
      assert x[i] == s[a + b + i] && y[i] == outer[b + i] == s[a + (b + i)];
    }
    assert x == y;
  }

  // ---------------------------------------------------------------------------------
  // Size of the encoding
  // ---------------------------------------------------------------------------------

  /** How many nodes with a single child the encoder descends through. */
  function LoneNodes(n: nat, mask: seq<bool>, h: nat, pos: nat): nat
    requires |mask| == n && Node(n, h, pos)
    decreases h
  {
    if h == 0 || !AnyMatch(mask, First(h, pos), End(n, h, pos)) then 0
    else
      Children(n, h, pos);
      if HasRight(n, h, pos) then LoneNodes(n, mask, h - 1, pos * 2) + LoneNodes(n, mask, h - 1, pos * 2 + 1)
      else 1 + LoneNodes(n, mask, h - 1, pos * 2)
  }

  /** There are 2N - 1 flag bits for N hashes, plus one for every single-child node on the way,
      so the documented bound of 2N - 1 holds exactly when there is no such node. */
  lemma {:induction false} FlagBitCount(pair: Pair, txids: seq<Uint256>, mask: seq<bool>, h: nat, pos: nat)
    requires |mask| == |txids| && Node(|txids|, h, pos)
    ensures var e := Build(pair, txids, mask, h, pos);
            |e.bits| == 2 * |e.hashes| - 1 + LoneNodes(|txids|, mask, h, pos)
    decreases h
  {
    if h > 0 && AnyMatch(mask, First(h, pos), End(|txids|, h, pos)) {
      Children(|txids|, h, pos);
      FlagBitCount(pair, txids, mask, h - 1, pos * 2);
      if HasRight(|txids|, h, pos) {
        FlagBitCount(pair, txids, mask, h - 1, pos * 2 + 1);
      }
    }
  }

  lemma HeightOfFive()
    ensures Height(5) == 3
  {
    WidthIff(5, 0, 1);
    WidthIff(5, 1, 1);
    WidthIff(5, 2, 1);
    WidthIff(5, 3, 1);
    assert Shl(1, 1) == 2 && Shl(1, 2) == 4 && Shl(1, 3) == 8;
  }

  /** Five transactions, the last one matched: more than 2N - 1 bits. */
  lemma FlagBitBoundFails(pair: Pair, txids: seq<Uint256>)
    requires |txids| == 5
    ensures Node(5, Height(5), 0)
    ensures var e := Build(pair, txids, [false, false, false, false, true], Height(5), 0);
            |e.bits| > 2 * |e.hashes| - 1
  {
    HeightOfFive();
    RootCovers(5);
    var mask := [false, false, false, false, true];
    assert mask[4] && AnyMatch(mask, 4, 5) && AnyMatch(mask, 0, 5);
    Children(5, 3, 0);
    Shifts();
    WidthIff(5, 1, 3);
    assert LoneNodes(5, mask, 2, 1) >= 1;
    FlagBitCount(pair, txids, mask, 3, 0);
  }

  lemma Shifts()
    ensures Shl(1, 2) == 4 && Shl(2, 2) == 8 && Shl(3, 1) == 6
  {
    assert Shl(2, 1) == 4 && Shl(4, 1) == 8;
  }

  /** Stored hashes number at most the leaves below the node ... */
  lemma {:induction false} HashesPerLeaf(pair: Pair, txids: seq<Uint256>, mask: seq<bool>, h: nat, pos: nat)
    requires |mask| == |txids| && Node(|txids|, h, pos)
    ensures 1 <= |Build(pair, txids, mask, h, pos).hashes| <= End(|txids|, h, pos) - First(h, pos)
    decreases h
  {
    Span(|txids|, h, pos);
    if h > 0 && AnyMatch(mask, First(h, pos), End(|txids|, h, pos)) {
      Children(|txids|, h, pos);
      HashesPerLeaf(pair, txids, mask, h - 1, pos * 2);
      if HasRight(|txids|, h, pos) {
        HashesPerLeaf(pair, txids, mask, h - 1, pos * 2 + 1);
      }
    }
  }

  lemma OneLevelUp(left: nat, right: nat, ml: nat, mr: nat, h: nat)
    requires h > 0 && ml + mr >= 1 && left <= 1 + ml * (h - 1) && right <= 1 + mr * (h - 1)
    ensures left + right <= 1 + (ml + mr) * h && (mr == 0 ==> left <= 1 + ml * h)
  {
    assert ml * (h - 1) + mr * (h - 1) + (ml + mr) == (ml + mr) * h;
    assert ml * (h - 1) + ml == ml * h;
  }

  /** ... and at most one more than the matches times the height. */
  lemma {:induction false} HashesPerMatch(pair: Pair, txids: seq<Uint256>, mask: seq<bool>, h: nat, pos: nat)
    requires |mask| == |txids| && Node(|txids|, h, pos)
    ensures |Build(pair, txids, mask, h, pos).hashes|
            <= 1 + |Matched(txids, mask, First(h, pos), End(|txids|, h, pos))| * h
    decreases h
  {
    var n := |txids|;
    Span(n, h, pos);
    MatchedNone(txids, mask, First(h, pos), End(n, h, pos));
    if h > 0 && AnyMatch(mask, First(h, pos), End(n, h, pos)) {
      Children(n, h, pos);
      HashesPerMatch(pair, txids, mask, h - 1, pos * 2);
      var left := |Build(pair, txids, mask, h - 1, pos * 2).hashes|;
      var ml := |Matched(txids, mask, First(h - 1, pos * 2), End(n, h - 1, pos * 2))|;
      if HasRight(n, h, pos) {
        HashesPerMatch(pair, txids, mask, h - 1, pos * 2 + 1);
        MatchedSplit(txids, mask, First(h, pos), End(n, h - 1, pos * 2), End(n, h, pos));
        OneLevelUp(left, |Build(pair, txids, mask, h - 1, pos * 2 + 1).hashes|, ml,
                   |Matched(txids, mask, First(h - 1, pos * 2 + 1), End(n, h - 1, pos * 2 + 1))|, h);
      } else {
        OneLevelUp(left, 0, ml, 0, h);
      }
    }
  }

  // ---------------------------------------------------------------------------------
  // The whole tree
  // ---------------------------------------------------------------------------------

  /** What ExtractMatches returns and leaves in vMatch and vnIndex, given how many
      transactions a block may have and the state of fBad. */
  function Verified(pair: Pair, maxTransactions: nat, n: nat, e: Encoding, fBad: bool): (Uint256, seq<Found>) {
    if n == 0 || n > maxTransactions || |e.hashes| > n || |e.bits| < |e.hashes| then (NULL, [])
    else
      var o := Extract(pair, n, e, Height(n), 0, 0, 0);
      if fBad || o.bad || (o.bitsUsed + 7) / 8 != (|e.bits| + 7) / 8 || o.hashUsed != |e.hashes|
      then (NULL, o.found)
      else (o.hash, o.found)
  }

  function Encoded(pair: Pair, txids: seq<Uint256>, mask: seq<bool>): Encoding
    requires 0 < |txids| == |mask|
  {
    RootCovers(|txids|);
    Build(pair, txids, mask, Height(|txids|), 0)
  }

  /** Any partial tree whatsoever that verifies to the root of a block with as many
      transactions reports only transactions of that block, at their true indices. */
  lemma ExtractIsSound(pair: Pair, maxTransactions: nat, txids: seq<Uint256>, e: Encoding, fBad: bool)
    requires Injective(pair) && 0 < |txids|
    requires MerkleRoot(pair, txids) != NULL
    requires Verified(pair, maxTransactions, |txids|, e, fBad).0 == MerkleRoot(pair, txids)
    ensures TrueFacts(txids, Verified(pair, maxTransactions, |txids|, e, fBad).1, 0, |txids|)
  {
    RootCovers(|txids|);
    NodeSound(pair, txids, e, Height(|txids|), 0, 0, 0);
  }

  /** What is built verifies, also with the flag bits padded out to whole bytes: the root, and
      exactly the matched transactions with their indices, in order. */
  lemma ExtractIsComplete(pair: Pair, maxTransactions: nat, txids: seq<Uint256>, mask: seq<bool>, padding: seq<bool>)
    requires Injective(pair) && Distinct(txids) && 0 < |txids| == |mask| && |txids| <= maxTransactions
    requires var e := Encoded(pair, txids, mask); (|e.bits| + |padding| + 7) / 8 == (|e.bits| + 7) / 8
    ensures var e := Encoded(pair, txids, mask);
            Verified(pair, maxTransactions, |txids|, e.(bits := e.bits + padding), false)
            == (MerkleRoot(pair, txids), Matched(txids, mask, 0, |txids|))
  {
    var n, e := |txids|, Encoded(pair, txids, mask);
    var padded := e.(bits := e.bits + padding);
    RootCovers(n);
    HashesPerLeaf(pair, txids, mask, Height(n), 0);
    FlagBitCount(pair, txids, mask, Height(n), 0);
    assert At(padded, e, 0, 0);
    NodeComplete(pair, txids, mask, padded, Height(n), 0, 0, 0);
  }

  /** The documented bounds on the number of hashes. */
  lemma HashBounds(pair: Pair, txids: seq<Uint256>, mask: seq<bool>)
    requires 0 < |txids| == |mask|
    ensures |Encoded(pair, txids, mask).hashes| <= |txids|
    ensures |Encoded(pair, txids, mask).hashes| <= 1 + |Matched(txids, mask, 0, |txids|)| * Height(|txids|)
  {
    RootCovers(|txids|);
    HashesPerLeaf(pair, txids, mask, Height(|txids|), 0);
    HashesPerMatch(pair, txids, mask, Height(|txids|), 0);
  }

  // ---------------------------------------------------------------------------------
  // Flag bits as bytes
  // ---------------------------------------------------------------------------------

  /** 1 << i, for a bit position in a byte. */
  function BitMask(i: nat): bv8
    requires i < 8
  {
    if i == 0 then 1 else if i == 1 then 2 else if i == 2 then 4 else if i == 3 then 8
    else if i == 4 then 16 else if i == 5 then 32 else if i == 6 then 64 else 128
  }

  predicate BitSet(b: bv8, i: nat)
    requires i < 8
  {
    b & BitMask(i) != 0
  }

  lemma OrBit(b: bv8, i: nat, j: nat)
    requires i < 8 && j < 8
    ensures BitSet(b | BitMask(i), j) <==> BitSet(b, j) || i == j
  {
  }

  /** The bytes hold the bits, least significant bit first, and zeros after the last one. */
  predicate Packs(bytes: seq<bv8>, bits: seq<bool>) {
    && |bytes| == (|bits| + 7) / 8
    && forall p :: 0 <= p < 8 * |bytes| ==> (BitSet(bytes[p / 8], p % 8) <==> p < |bits| && bits[p])
  }

  /** The write half of SerializationOp. */
  method PackBits(vBits: seq<bool>) returns (vBytes: array<bv8>)
    ensures fresh(vBytes) && Packs(vBytes[..], vBits)
  {
    vBytes := new bv8[(|vBits| + 7) / 8](_ => 0);
    for p := 0 to |vBits|
      invariant forall q :: 0 <= q < 8 * vBytes.Length ==> (BitSet(vBytes[q / 8], q % 8) <==> q < p && vBits[q])
    {
      var k, i := p / 8, p % 8;
      ghost var before := vBytes[k];
      if vBits[p] {
        vBytes[k] := vBytes[k] | BitMask(i);
      }
      forall q | 0 <= q < 8 * vBytes.Length && q / 8 == k
        ensures BitSet(vBytes[q / 8], q % 8) <==> BitSet(before, q % 8) || (q == p && vBits[p])
      {
        OrBit(before, i, q % 8);
      }
    }
  }

  /** The read half: every byte yields eight bits. */
  method UnpackBits(vBytes: seq<bv8>) returns (vBits: seq<bool>)
    ensures |vBits| == 8 * |vBytes|
    ensures forall p :: 0 <= p < |vBits| ==> vBits[p] == BitSet(vBytes[p / 8], p % 8)
  {
    vBits := [];
    for p := 0 to 8 * |vBytes|
      invariant |vBits| == p
      invariant forall q :: 0 <= q < p ==> vBits[q] == BitSet(vBytes[q / 8], q % 8)
    {
      vBits := vBits + [vBytes[p / 8] & BitMask(p % 8) != 0];
    }
  }

  // ---------------------------------------------------------------------------------
  // The object
  // ---------------------------------------------------------------------------------

  class PartialMerkleTree {
    var nTransactions: nat
    var vBits: seq<bool>
    var vHash: seq<Uint256>
    var fBad: bool

    ghost function Stored(): Encoding
      reads this
    {
      Encoding(vBits, vHash)
    }

    /** From the transactions of a block and the mask that selects some of them. */
    constructor (pair: Pair, txids: seq<Uint256>, mask: seq<bool>)
      requires 0 < |txids| == |mask|
      ensures nTransactions == |txids| && !fBad && Stored() == Encoded(pair, txids, mask)
    {
      nTransactions, fBad, vBits, vHash := |txids|, false, [], [];
      new;
      hide Build, CalcHash, Shl;
      var nHeight := CalcHeight(|txids|);
      RootCovers(|txids|);
      TraverseAndBuild(pair, nHeight, 0, txids, mask);
    }

    /** As read from the network. */
    constructor Unserialize(nTransactions: nat, vHash: seq<Uint256>, vBytes: seq<bv8>)
      ensures this.nTransactions == nTransactions && this.vHash == vHash && !fBad
      ensures |vBits| == 8 * |vBytes|
      ensures forall p :: 0 <= p < |vBits| ==> vBits[p] == BitSet(vBytes[p / 8], p % 8)
    {
      var bits := UnpackBits(vBytes);
      this.nTransactions, this.vHash, this.vBits, this.fBad := nTransactions, vHash, bits, false;
    }

    method ParentOfMatch(height: nat, pos: nat, mask: seq<bool>) returns (fParentOfMatch: bool)
      requires |mask| == nTransactions && Node(nTransactions, height, pos)
      ensures fParentOfMatch <==> AnyMatch(mask, First(height, pos), End(nTransactions, height, pos))
    {
      Span(nTransactions, height, pos);
      var p := Shl(pos, height);
      fParentOfMatch := false;
      while p < Shl(pos + 1, height) && p < nTransactions
        invariant First(height, pos) <= p <= End(nTransactions, height, pos)
        invariant fParentOfMatch <==> AnyMatch(mask, First(height, pos), p)
      {
        AnyMatchStep(mask, First(height, pos), p);
        fParentOfMatch := fParentOfMatch || mask[p];
        p := p + 1;
      }
    }

    method TraverseAndBuild(pair: Pair, height: nat, pos: nat, txids: seq<Uint256>, mask: seq<bool>)
      requires |mask| == |txids| == nTransactions && Node(|txids|, height, pos)
      modifies this`vBits, this`vHash
      ensures vBits == old(vBits) + Build(pair, txids, mask, height, pos).bits
      ensures vHash == old(vHash) + Build(pair, txids, mask, height, pos).hashes
      decreases height
    {
      var fParentOfMatch := ParentOfMatch(height, pos, mask);
      vBits := vBits + [fParentOfMatch];
      if height == 0 || !fParentOfMatch {
        vHash := vHash + [CalcHash(pair, txids, height, pos)];
      } else {
        Children(nTransactions, height, pos);
        ghost var left := Build(pair, txids, mask, height - 1, pos * 2);
        TraverseAndBuild(pair, height - 1, pos * 2, txids, mask);
        Append3(old(vBits), [true], left.bits, []);
        WidthIff(nTransactions, height - 1, pos * 2 + 1);
        if pos * 2 + 1 < Width(nTransactions, height - 1) {
          ghost var right := Build(pair, txids, mask, height - 1, pos * 2 + 1);
          TraverseAndBuild(pair, height - 1, pos * 2 + 1, txids, mask);
          Append3(old(vBits), [true], left.bits, right.bits);
          Append3(old(vHash), left.hashes, right.hashes, []);
        }
      }
    }

    /** vMatch and vnIndex are pushed to together, so one sequence of pairs stands for both. */
    method TraverseAndExtract(pair: Pair, height: nat, pos: nat, bitsUsed: nat, hashUsed: nat, found: seq<Found>)
      returns (hash: Uint256, bitsUsed': nat, hashUsed': nat, found': seq<Found>)
      modifies this`fBad
      ensures var o := Extract(pair, nTransactions, Stored(), height, pos, bitsUsed, hashUsed);
              && hash == o.hash && bitsUsed' == o.bitsUsed && hashUsed' == o.hashUsed
              && found' == found + o.found && fBad == (old(fBad) || o.bad)
      decreases height
    {
      hide Extract, Width, Shl;
      ghost var e := Stored();
      if bitsUsed >= |vBits| || height == 0 || !vBits[bitsUsed] {
        ExtractStops(pair, nTransactions, e, height, pos, bitsUsed, hashUsed);
      } else {
        ExtractGoesOn(pair, nTransactions, e, height, pos, bitsUsed, hashUsed);
      }
      bitsUsed', hashUsed', found' := bitsUsed, hashUsed, found;
      if bitsUsed' >= |vBits| {
        fBad := true;
        return NULL, bitsUsed', hashUsed', found';
      }
      var fParentOfMatch := vBits[bitsUsed'];
      bitsUsed' := bitsUsed' + 1;
      if height == 0 || !fParentOfMatch {
        if hashUsed' >= |vHash| {
          fBad := true;
          return NULL, bitsUsed', hashUsed', found';
        }
        hash := vHash[hashUsed'];
        hashUsed' := hashUsed' + 1;
        if height == 0 && fParentOfMatch {
          found' := found' + [Found(hash, pos)];
        }
        return;
      }
      var left, right;
      left, bitsUsed', hashUsed', found' :=
        TraverseAndExtract(pair, height - 1, pos * 2, bitsUsed', hashUsed', found');
      assert Stored() == e;
      WidthIff(nTransactions, height - 1, pos * 2 + 1);
      if pos * 2 + 1 < Width(nTransactions, height - 1) {
        right, bitsUsed', hashUsed', found' :=
          TraverseAndExtract(pair, height - 1, pos * 2 + 1, bitsUsed', hashUsed', found');
        assert Stored() == e;
        if right == left {
          fBad := true;
        }
      } else {
        right := left;
      }
      hash := pair(left, right);
    }

    /** vMatch starts empty; vnIndex is appended to and never cleared. */
    method ExtractMatches(pair: Pair, maxTransactions: nat, vnIndex: seq<nat>)
      returns (root: Uint256, vMatch: seq<Uint256>, vnIndex': seq<nat>)
      modifies this`fBad
      ensures var v := Verified(pair, maxTransactions, nTransactions, Stored(), old(fBad));
              root == v.0 && vMatch == Hashes(v.1) && vnIndex' == vnIndex + Indices(v.1)
    {
      vMatch, vnIndex' := [], vnIndex;
      if nTransactions == 0 || nTransactions > maxTransactions || |vHash| > nTransactions || |vBits| < |vHash| {
        return NULL, vMatch, vnIndex';
      }
      var nHeight := CalcHeight(nTransactions);
      var bitsUsed, hashUsed;
      var found;
      root, bitsUsed, hashUsed, found := TraverseAndExtract(pair, nHeight, 0, 0, 0, []);
      assert found == Extract(pair, nTransactions, Stored(), nHeight, 0, 0, 0).found;
      vMatch, vnIndex' := Hashes(found), vnIndex + Indices(found);
      if fBad || (bitsUsed + 7) / 8 != (|vBits| + 7) / 8 || hashUsed != |vHash| {
        root := NULL;
      }
    }
  }

  lemma AnyMatchStep(mask: seq<bool>, lo: nat, p: nat)
    requires lo <= p < |mask|
    ensures AnyMatch(mask, lo, p + 1) <==> AnyMatch(mask, lo, p) || mask[p]
  {
  }

  function Hashes(found: seq<Found>): seq<Uint256>
  {
    if found == [] then [] else [found[0].hash] + Hashes(found[1..])
  }

  function Indices(found: seq<Found>): seq<nat>
  {
    if found == [] then [] else [found[0].index] + Indices(found[1..])
  }

  lemma Append3<T>(xs: seq<T>, ys: seq<T>, zs: seq<T>, ws: seq<T>)
    ensures xs + ys + zs + ws == xs + (ys + zs + ws) && xs + ys + zs == xs + (ys + zs)
  {
  }

  /** The whole trip of a filtered block: build, send as bytes, receive, extract. */
  method Relay(pair: Pair, maxTransactions: nat, txids: seq<Uint256>, mask: seq<bool>)
    returns (root: Uint256, vMatch: seq<Uint256>, vnIndex: seq<nat>)
    requires Injective(pair) && Distinct(txids) && 0 < |txids| == |mask| && |txids| <= maxTransactions
    ensures root == BlockRoot(pair, txids)
    ensures vMatch == Hashes(Matched(txids, mask, 0, |txids|))
    ensures vnIndex == Indices(Matched(txids, mask, 0, |txids|))
  {
    var sent := new PartialMerkleTree(pair, txids, mask);
    var bytes := PackBits(sent.vBits);
    var received := new PartialMerkleTree.Unserialize(sent.nTransactions, sent.vHash, bytes[..]);
    ghost var padding := received.vBits[|sent.vBits|..];
    assert received.vBits == sent.vBits + padding;
    ExtractIsComplete(pair, maxTransactions, txids, mask, padding);
    RootIsBlockRoot(pair, txids);
    root, vMatch, vnIndex := received.ExtractMatches(pair, maxTransactions, []);
  }
}
