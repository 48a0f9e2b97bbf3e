/** Filling a block from the mempool: transactions are taken in packages, each with the
    ancestors it still lacks, by totals over ancestors that are corrected lazily.

    The mempool is a directed acyclic graph.  The clock, the fees, the finality and balance checks
    and the outcome of running a contract are what an arbitrary World answers; which package looks
    best is left open. */
module PackageSelection {

  const WITNESS_SCALE_FACTOR: nat := 4
  const MAX_CONSECUTIVE_FAILURES: nat := 1000
  const MAX_PACKAGES: nat := 65000

  // ---------------------------------------------------------------------------------
  // The mempool
  // ---------------------------------------------------------------------------------

  function Max(a: nat, b: nat): nat { if a < b then b else a }

  datatype Tx = Tx(id: nat)

  datatype TxData = TxData(weight: nat, sigOps: nat, hasContract: bool, ancestors: set<Tx>)

  /** `order` lists the entries by score. */
  datatype Pool = Pool(order: seq<Tx>, data: map<Tx, TxData>, bytesPerSigOp: nat)

  function Anc(pool: Pool, t: Tx): set<Tx>
    requires t in pool.data
  {
    pool.data[t].ancestors
  }

  ghost predicate IsMempool(pool: Pool) {
    && (forall t :: t in pool.order <==> t in pool.data)
    && (forall i, j :: 0 <= i < j < |pool.order| ==> pool.order[i] != pool.order[j])
    && (forall t :: t in pool.data ==> t !in Anc(pool, t))
    && (forall t, a :: t in pool.data && a in Anc(pool, t) ==> a in pool.data && Anc(pool, a) <= Anc(pool, t))
  }

  /** The virtual size: a quarter of the weight, or of what the signature operations count for. */
  function Size(pool: Pool, d: TxData): (n: nat)
    ensures var most := Max(d.weight, d.sigOps * pool.bytesPerSigOp);
            most <= WITNESS_SCALE_FACTOR * n < most + WITNESS_SCALE_FACTOR
  {
    var w := d.sigOps * pool.bytesPerSigOp;
    ((if d.weight < w then w else d.weight) + WITNESS_SCALE_FACTOR - 1) / WITNESS_SCALE_FACTOR
  }

  datatype Measure = InSize | InSigOps | InWeight

  function Amount(pool: Pool, m: Measure, t: Tx): nat {
    if t !in pool.data then 0
    else match m
         case InSize => Size(pool, pool.data[t])
         case InSigOps => pool.data[t].sigOps
         case InWeight => pool.data[t].weight
  }

  /** A total over the transactions of `s` among the first `n` entries. */
  function TotalTo(pool: Pool, m: Measure, s: set<Tx>, n: nat): nat
    requires n <= |pool.order|
  {
    if n == 0 then 0
    else TotalTo(pool, m, s, n - 1) + if pool.order[n - 1] in s then Amount(pool, m, pool.order[n - 1]) else 0
  }

  function Total(pool: Pool, m: Measure, s: set<Tx>): nat { TotalTo(pool, m, s, |pool.order|) }

  lemma {:induction false} TotalToUnion(pool: Pool, m: Measure, a: set<Tx>, b: set<Tx>, n: nat)
    requires n <= |pool.order| && a !! b
    ensures TotalTo(pool, m, a + b, n) == TotalTo(pool, m, a, n) + TotalTo(pool, m, b, n)
  {
    if n == 0 {
    } else {
      TotalToUnion(pool, m, a, b, n - 1);
    }
  }

  lemma {:induction false} TotalToMono(pool: Pool, m: Measure, a: set<Tx>, b: set<Tx>, n: nat)
    requires n <= |pool.order| && a <= b
    ensures TotalTo(pool, m, a, n) <= TotalTo(pool, m, b, n)
  {
    if n == 0 {
    } else {
      TotalToMono(pool, m, a, b, n - 1);
    }
  }

  lemma {:induction false} TotalToOne(pool: Pool, m: Measure, t: Tx, n: nat)
    requires IsMempool(pool) && n <= |pool.order|
    ensures TotalTo(pool, m, {t}, n) == if t in pool.order[..n] then Amount(pool, m, t) else 0
  {
    if n == 0 {
    } else {
      TotalToOne(pool, m, t, n - 1);
      assert pool.order[..n] == pool.order[..n - 1] + [pool.order[n - 1]];
    }
  }

  lemma {:induction false} WeightToSize(pool: Pool, s: set<Tx>, n: nat)
    requires n <= |pool.order|
    ensures TotalTo(pool, InWeight, s, n) <= WITNESS_SCALE_FACTOR * TotalTo(pool, InSize, s, n)
  {
    if n == 0 {
    } else {
      WeightToSize(pool, s, n - 1);
    }
  }

  lemma TotalUnion(pool: Pool, m: Measure, a: set<Tx>, b: set<Tx>)
    requires a !! b
    ensures Total(pool, m, a + b) == Total(pool, m, a) + Total(pool, m, b)
  {
    TotalToUnion(pool, m, a, b, |pool.order|);
  }

  lemma TotalMono(pool: Pool, m: Measure, a: set<Tx>, b: set<Tx>)
    requires a <= b
    ensures Total(pool, m, a) <= Total(pool, m, b)
  {
    TotalToMono(pool, m, a, b, |pool.order|);
  }

  lemma TotalAdd(pool: Pool, m: Measure, a: set<Tx>, t: Tx)
    requires IsMempool(pool) && t !in a && t in pool.data
    ensures Total(pool, m, a + {t}) == Total(pool, m, a) + Amount(pool, m, t)
  {
    TotalUnion(pool, m, a, {t});
    TotalToOne(pool, m, t, |pool.order|);
    assert pool.order[..|pool.order|] == pool.order;
  }

  // ---------------------------------------------------------------------------------
  // Cached totals
  // ---------------------------------------------------------------------------------

  /** The totals over an entry and its ancestors, as the selection knows them. */
  datatype Cached = Cached(size: int, sigOps: int)

  type Modified = map<Tx, Cached>

  function WithAnc(pool: Pool, t: Tx): set<Tx>
    requires t in pool.data
  {
    Anc(pool, t) + {t}
  }

  function Totals(pool: Pool, s: set<Tx>): Cached { Cached(Total(pool, InSize, s), Total(pool, InSigOps, s)) }

  /** The totals the mempool keeps. */
  function MempoolTotals(pool: Pool, t: Tx): Cached
    requires t in pool.data
  {
    Totals(pool, WithAnc(pool, t))
  }

  /** What is known about `t`: the cached totals, or else those of the mempool. */
  function Known(pool: Pool, mod: Modified, t: Tx): Cached
    requires t in pool.data
  {
    if t in mod then mod[t] else MempoolTotals(pool, t)
  }

  function Minus(a: Cached, b: Cached): Cached { Cached(a.size - b.size, a.sigOps - b.sigOps) }

  ghost predicate AtLeast(a: Cached, b: Cached) { a.size >= b.size && a.sigOps >= b.sigOps }

  /** A block contains the ancestors of what it contains. */
  ghost predicate Closed(pool: Pool, block: set<Tx>) {
    forall t :: t in block ==> t in pool.data && Anc(pool, t) <= block
  }

  /** Cached totals are about entries outside the block, and never below the true totals over
      the entry and its ancestors that are not in `counted`. */
  ghost predicate Covers(pool: Pool, mod: Modified, block: set<Tx>, counted: set<Tx>) {
    forall t :: t in mod ==> t in pool.data && t !in block && AtLeast(mod[t], Totals(pool, WithAnc(pool, t) - counted))
  }

  /** The cached totals of `t` once its ancestors among `done` are taken off. */
  function After(pool: Pool, mod: Modified, t: Tx, done: set<Tx>): Cached
    requires t in pool.data
  {
    Minus(Known(pool, mod, t), Totals(pool, Anc(pool, t) * done))
  }

  /** Every descendant outside `added` of something in `done` is corrected for it, and nobody else. */
  ghost predicate Accounted(pool: Pool, mod: Modified, after: Modified, added: set<Tx>, done: set<Tx>) {
    && (forall t :: t in after <==> t in mod || (t in pool.data && t !in added && Anc(pool, t) * done != {}))
    && (forall t :: t in after && t in pool.data ==> after[t] == After(pool, mod, t, done))
  }

  /** Taking off an ancestor that was counted never goes below zero. */
  lemma NoUnderflow(pool: Pool, mod: Modified, block: set<Tx>, added: set<Tx>, t: Tx, done: set<Tx>, it: Tx)
    requires IsMempool(pool) && Covers(pool, mod, block, block - added) && added <= block && t in pool.data
             && t !in added
    requires done <= added && it in added && it !in done && it in Anc(pool, t)
    ensures After(pool, mod, t, done).size >= Amount(pool, InSize, it)
    ensures After(pool, mod, t, done).sigOps >= Amount(pool, InSigOps, it)
    ensures After(pool, mod, t, done + {it}) == Minus(After(pool, mod, t, done),
            Cached(Amount(pool, InSize, it), Amount(pool, InSigOps, it)))
  {
    hide IsMempool, Total;
    var (anc, all) := (Anc(pool, t), WithAnc(pool, t));
    InData(pool, t, it);
    assert anc * (done + {it}) == anc * done + {it};
    forall m: Measure ensures Total(pool, m, anc * (done + {it})) == Total(pool, m, anc * done) + Amount(pool, m, it)
                              && Total(pool, m, anc * (done + {it})) <= Total(pool, m,
                                 all - (block - added)) <= Total(pool, m, all)
    {
      TotalAdd(pool, m, anc * done, it);
      TotalMono(pool, m, anc * (done + {it}), all - (block - added));
      TotalMono(pool, m, all - (block - added), all);
    }
  }

  lemma InData(pool: Pool, t: Tx, a: Tx)
    requires IsMempool(pool) && t in pool.data && a in Anc(pool, t)
    ensures a in pool.data && Anc(pool, a) <= Anc(pool, t) && a !in Anc(pool, a)
  {}

  /** Once everything added is accounted for, the totals cover what is still missing. */
  lemma AccountedCovers(pool: Pool, mod: Modified, after: Modified, block: set<Tx>, added: set<Tx>)
    requires IsMempool(pool) && Covers(pool, mod, block, block - added) && added <= block && Closed(pool, block - added)
    requires Accounted(pool, mod, after, added, added)
    ensures Covers(pool, after, block, block)
  {
    hide IsMempool, Total;
    forall t | t in after
      ensures t in pool.data && t !in block && AtLeast(after[t], Totals(pool, WithAnc(pool, t) - block))
    {
      var (anc, all) := (Anc(pool, t), WithAnc(pool, t));
      assert t !in block;
      assert all - (block - added) == (all - block) + anc * added;
      forall m: Measure ensures Total(pool, m, all - (block - added)) ==
          Total(pool, m, all - block) + Total(pool, m, anc * added)
                                && Total(pool, m, all - (block - added)) <= Total(pool, m, all)
      {
        TotalUnion(pool, m, all - block, anc * added);
        TotalMono(pool, m, all - (block - added), all);
      }
    }
  }

  /** A larger block only makes the totals more generous. */
  lemma CoversMore(pool: Pool, mod: Modified, block: set<Tx>, counted: set<Tx>, more: set<Tx>)
    requires Covers(pool, mod, block, counted) && counted <= more
    ensures Covers(pool, mod, block, more)
  {
    hide Total;
    forall t | t in mod ensures AtLeast(mod[t], Totals(pool, WithAnc(pool, t) - more)) {
      forall m: Measure ensures Total(pool, m, WithAnc(pool, t) - more) <= Total(pool, m, WithAnc(pool, t) - counted) {
        TotalMono(pool, m, WithAnc(pool, t) - more, WithAnc(pool, t) - counted);
      }
    }
  }

  method UpdatePackagesForAdded(pool: Pool, ghost block: set<Tx>, alreadyAdded: set<Tx>, mod: Modified)
                                returns (after: Modified)
    requires IsMempool(pool) && alreadyAdded <= block && Closed(pool, block) && Closed(pool, block - alreadyAdded)
    requires Covers(pool, mod, block, block - alreadyAdded)
    ensures Accounted(pool, mod, after, alreadyAdded, alreadyAdded)
    ensures Covers(pool, after, block, block)
  {
    hide IsMempool, After, Covers;
    after := mod;
    ghost var done: set<Tx> := {};
    var left := alreadyAdded;
    StartAccounting(pool, mod, alreadyAdded);
    while left != {}
      invariant left <= alreadyAdded && done == alreadyAdded - left && Accounted(pool, mod, after, alreadyAdded, done)
    {
      var it :| it in left;
      after := UpdateDescendants(pool, block, alreadyAdded, mod, after, done, it);
      left := left - {it};
      done := done + {it};
    }
    assert done == alreadyAdded;
    AccountedCovers(pool, mod, after, block, alreadyAdded);
  }

  lemma StartAccounting(pool: Pool, mod: Modified, added: set<Tx>)
    ensures Accounted(pool, mod, mod, added, {})
  {
    hide Total;
    TotalNone(pool, InSize, |pool.order|);
    TotalNone(pool, InSigOps, |pool.order|);
    forall t | t in pool.data ensures Anc(pool, t) * {} == {} && After(pool, mod, t, {}) == Known(pool, mod, t) {
      assert Anc(pool, t) * {} == {};
    }
  }

  lemma {:induction false} TotalNone(pool: Pool, m: Measure, n: nat)
    requires n <= |pool.order|
    ensures TotalTo(pool, m, {}, n) == 0 && Total(pool, m, {}) == TotalTo(pool, m, {}, |pool.order|)
  {
    if n == 0 {
    } else {
      TotalNone(pool, m, n - 1);
    }
  }

  /** An entry and everything that spends from it, directly or not. */
  function Descendants(pool: Pool, it: Tx): set<Tx> { set d | d in pool.data && (d == it || it in Anc(pool, d)) }

  /** The correction for one transaction added, on the descendants `seen` so far. */
  ghost predicate Passing(pool: Pool, mod: Modified, after: Modified, added: set<Tx>, done: set<Tx>, it: Tx,
                          seen: set<Tx>) {
    && (forall t :: t in after <==>
                    || t in mod
                    || (&& t in pool.data && t !in added
                        && (Anc(pool, t) * done != {} || (t in seen && it in Anc(pool, t)))))
    && (forall t :: t in after && t in pool.data ==>
                      after[t] == After(pool, mod, t, if t in seen && it in Anc(pool, t) then done + {it} else done))
  }

  lemma EntryIs(pool: Pool, mod: Modified, after: Modified, added: set<Tx>, done: set<Tx>, it: Tx, seen: set<Tx>, t: Tx)
    requires Passing(pool, mod, after, added, done, it, seen) && t in pool.data && t !in added && t !in seen
    ensures (if t in after then after[t] else MempoolTotals(pool, t)) == After(pool, mod, t, done)
  {
    hide Total;
    if t !in after {
      TotalNone(pool, InSize, |pool.order|);
      TotalNone(pool, InSigOps, |pool.order|);
    }
  }

  lemma NotCached(pool: Pool, mod: Modified, block: set<Tx>, added: set<Tx>)
    requires Covers(pool, mod, block, block - added) && added <= block
    ensures mod.Keys !! added
  {
    hide Total;
  }

  lemma PassingStart(pool: Pool, mod: Modified, after: Modified, added: set<Tx>, done: set<Tx>, it: Tx)
    requires Accounted(pool, mod, after, added, done)
    ensures Passing(pool, mod, after, added, done, it, {})
  {
    hide After;
  }

  lemma PassingStep(pool: Pool, mod: Modified, after: Modified, added: set<Tx>, done: set<Tx>, it: Tx, seen: set<Tx>,
                    t: Tx)
    requires Passing(pool, mod, after, added, done, it, seen) && t in pool.data && t !in added && it in Anc(pool, t)
    ensures Passing(pool, mod, after[t := After(pool, mod, t, done + {it})], added, done, it, seen + {t})
  {
    hide After;
  }

  lemma PassingSkip(pool: Pool, mod: Modified, after: Modified, added: set<Tx>, done: set<Tx>, it: Tx, seen: set<Tx>,
                    t: Tx)
    requires Passing(pool, mod, after, added, done, it, seen) && t in added && mod.Keys !! added
    ensures Passing(pool, mod, after, added, done, it, seen + {t})
  {
    hide After;
    assert t !in mod.Keys;
  }

  lemma Passed(pool: Pool, mod: Modified, after: Modified, added: set<Tx>, done: set<Tx>, it: Tx)
    requires Passing(pool, mod, after, added, done, it, Descendants(pool, it))
    ensures Accounted(pool, mod, after, added, done + {it})
  {
    hide Total;
    forall t | t in pool.data
      ensures Anc(pool, t) * (done + {it}) != {} <==> Anc(pool, t) * done != {} || it in Anc(pool, t)
      ensures it !in Anc(pool, t) ==> Anc(pool, t) * (done + {it}) == Anc(pool, t) * done
    {
      if it in Anc(pool, t) {
        assert it in Anc(pool, t) * (done + {it});
      } else {
        assert Anc(pool, t) * (done + {it}) == Anc(pool, t) * done;
      }
    }
  }

  method UpdateDescendants(pool: Pool, ghost block: set<Tx>, alreadyAdded: set<Tx>, ghost mod: Modified,
                           start: Modified,
                           ghost done: set<Tx>, it: Tx) returns (after: Modified)
    requires IsMempool(pool) && alreadyAdded <= block && Closed(pool, block)
             && Covers(pool, mod, block, block - alreadyAdded)
    requires done <= alreadyAdded && it in alreadyAdded && it !in done
             && Accounted(pool, mod, start, alreadyAdded, done)
    ensures Accounted(pool, mod, after, alreadyAdded, done + {it})
  {
    hide IsMempool, After, Total, Covers, Passing;
    after := start;
    PassingStart(pool, mod, after, alreadyAdded, done, it);
    assert mod.Keys !! alreadyAdded by { NotCached(pool, mod, block, alreadyAdded); }
    var descendants := Descendants(pool, it);
    var left := descendants;
    assert descendants - left == {};
    while left != {}
      invariant left <= descendants && Passing(pool, mod, after, alreadyAdded, done, it, descendants - left)
    {
      var desc :| desc in left;
      if desc !in alreadyAdded {
        NoUnderflow(pool, mod, block, alreadyAdded, desc, done, it);
        var entry := if desc in after then after[desc] else MempoolTotals(pool, desc);
        EntryIs(pool, mod, after, alreadyAdded, done, it, descendants - left, desc);
        assert entry.size >= Amount(pool, InSize, it) && entry.sigOps >= Amount(pool, InSigOps, it);
        PassingStep(pool, mod, after, alreadyAdded, done, it, descendants - left, desc);
        after := after[desc := Cached(entry.size - Amount(pool, InSize, it),
          entry.sigOps - Amount(pool, InSigOps, it))];
      } else {
        PassingSkip(pool, mod, after, alreadyAdded, done, it, descendants - left, desc);
      }
      assert descendants - (left - {desc}) == descendants - left + {desc};
      left := left - {desc};
    }
    assert descendants - left == descendants;
    Passed(pool, mod, after, alreadyAdded, done, it);
  }

  // ---------------------------------------------------------------------------------
  // Ordering a package
  // ---------------------------------------------------------------------------------

  function Count(pool: Pool, t: Tx): nat
    requires t in pool.data
  {
    |Anc(pool, t)| + 1
  }

  ghost function Elems(list: seq<Tx>): set<Tx> { set t | t in list }

  lemma ElemsSnoc(list: seq<Tx>, t: Tx)
    ensures Elems(list + [t]) == Elems(list) + {t}
  {}

  ghost predicate Distinct(list: seq<Tx>) { forall i, j :: 0 <= i < j < |list| ==> list[i] != list[j] }

  ghost predicate ByCount(pool: Pool, list: seq<Tx>) {
    forall i, j :: 0 <= i < j < |list| && list[i] in pool.data && list[j] in pool.data ==>
        Count(pool, list[i]) <= Count(pool, list[j])
  }

  lemma {:induction false} SubsetCount<T>(a: set<T>, b: set<T>)
    requires a <= b
    ensures |a| <= |b|
  {
    if a == {} {
    } else {
      var i :| i in a;
      SubsetCount(a - {i}, b - {i});
    }
  }

  /** An ancestor has fewer ancestors. */
  lemma CountLess(pool: Pool, t: Tx, a: Tx)
    requires IsMempool(pool) && t in pool.data && a in Anc(pool, t)
    ensures a in pool.data && Count(pool, a) < Count(pool, t)
  {
    SubsetCount(Anc(pool, a), Anc(pool, t) - {a});
  }

  predicate IsFirst(pool: Pool, rest: set<Tx>, t: Tx) {
    t in rest && forall u :: u in rest && u in pool.data && t in pool.data ==> Count(pool, t) <= Count(pool, u)
  }

  lemma {:induction false} FirstExists(pool: Pool, rest: set<Tx>)
    requires rest != {} && rest <= pool.data.Keys
    ensures exists t :: IsFirst(pool, rest, t)
    decreases |rest|
  {
    var a :| a in rest;
    if rest == {a} {
      assert IsFirst(pool, rest, a);
    } else {
      var less := rest - {a};
      assert less != {};
      FirstExists(pool, less);
      var b :| IsFirst(pool, less, b);
      assert b in pool.data && a in pool.data;
      assert IsFirst(pool, rest, if Count(pool, a) < Count(pool, b) then a else b);
    }
  }

  /** Sorted, and nobody of the rest belongs before. */
  ghost predicate Sorting(pool: Pool, sorted: seq<Tx>, rest: set<Tx>) {
    && Distinct(sorted) && ByCount(pool, sorted) && Elems(sorted) !! rest
    && (forall t, u :: t in sorted && u in rest && t in pool.data && u in pool.data ==>
                         Count(pool, t) <= Count(pool, u))
  }

  lemma SortNext(pool: Pool, sorted: seq<Tx>, rest: set<Tx>, t: Tx)
    requires Sorting(pool, sorted, rest) && IsFirst(pool, rest, t)
    ensures Sorting(pool, sorted + [t], rest - {t})
  {
    ElemsSnoc(sorted, t);
    assert t !in sorted by { assert t !in Elems(sorted); }
  }

  /** Sorts by the number of ancestors; ties in any order. */
  method SortForBlock(pool: Pool, package: set<Tx>) returns (sorted: seq<Tx>)
    requires IsMempool(pool) && package <= pool.data.Keys
    ensures Elems(sorted) == package && Distinct(sorted) && ByCount(pool, sorted)
  {
    hide IsMempool;
    sorted := [];
    var rest := package;
    while rest != {}
      invariant rest <= package && Elems(sorted) == package - rest && Sorting(pool, sorted, rest)
    {
      hide Sorting;
      FirstExists(pool, rest);
      var t :| IsFirst(pool, rest, t);
      SortNext(pool, sorted, rest, t);
      ElemsSnoc(sorted, t);
      sorted := sorted + [t];
      rest := rest - {t};
    }
  }

  /** In that order, ancestors come first. */
  lemma AncestorsFirst(pool: Pool, sorted: seq<Tx>, i: nat, a: Tx)
    requires IsMempool(pool) && ByCount(pool, sorted) && i < |sorted| && sorted[i] in pool.data
             && a in Anc(pool, sorted[i]) && a in sorted
    ensures a in sorted[..i]
  {
    CountLess(pool, sorted[i], a);
    var k :| 0 <= k < |sorted| && sorted[k] == a;
    assert k < i;
    assert sorted[..i][k] == a;
  }

  /** And the transaction that the package is for comes last. */
  lemma OwnerLast(pool: Pool, sorted: seq<Tx>, iter: Tx)
    requires IsMempool(pool) && ByCount(pool, sorted) && iter in pool.data && iter in sorted && Distinct(sorted)
    requires forall t :: t in sorted ==> t == iter || t in Anc(pool, iter)
    ensures sorted[|sorted| - 1] == iter
  {
    var k :| 0 <= k < |sorted| && sorted[k] == iter;
    var last := sorted[|sorted| - 1];
    assert last in sorted;
    if last != iter {
      CountLess(pool, iter, last);
    }
  }

  // ---------------------------------------------------------------------------------
  // The block
  // ---------------------------------------------------------------------------------

  /** Every transaction comes after all its ancestors in the mempool. */
  ghost predicate InOrder(pool: Pool, vtx: seq<Tx>) {
    forall i :: 0 <= i < |vtx| ==> vtx[i] in pool.data && Anc(pool, vtx[i]) <= Elems(vtx[..i])
  }

  lemma InOrderSnoc(pool: Pool, vtx: seq<Tx>, t: Tx)
    requires InOrder(pool, vtx) && t in pool.data && Anc(pool, t) <= Elems(vtx)
    ensures InOrder(pool, vtx + [t])
  {
    forall i | 0 <= i <= |vtx|
      ensures (vtx + [t])[i] in pool.data && Anc(pool, (vtx + [t])[i]) <= Elems((vtx + [t])[..i])
    {
      if i < |vtx| {
        assert (vtx + [t])[..i] == vtx[..i];
      } else {
        assert (vtx + [t])[..i] == vtx;
      }
    }
  }

  lemma InOrderClosed(pool: Pool, vtx: seq<Tx>)
    requires InOrder(pool, vtx)
    ensures Closed(pool, Elems(vtx))
  {
    forall t | t in Elems(vtx) ensures t in pool.data && Anc(pool, t) <= Elems(vtx) {
      var i :| 0 <= i < |vtx| && vtx[i] == t;
      forall a | a in Anc(pool, t) ensures a in vtx {
        assert a in Elems(vtx[..i]);
      }
    }
  }

  // ---------------------------------------------------------------------------------
  // Why something is left out
  // ---------------------------------------------------------------------------------

  datatype Transfers = Transfers(weight: nat, sigOps: nat, count: nat)

  /** What the selection asks for, the n-th time it asks. */
  datatype World = World(
    timeUp: nat -> bool, feeTooLow: (nat, Tx) -> bool, isFinal: (nat, set<Tx>) -> bool,
    maySpend: (nat, set<Tx>) -> bool, contractFails: (nat, Tx) -> bool, transfers: (nat, Tx) -> Transfers)

  /** The test that refused a package. */
  datatype Why =
    | TooLarge(known: Cached)
    | NotFinal(at: nat, package: set<Tx>)
    | MayNotSpend(at: nat, package: set<Tx>)
    | ContractFailed(at: nat, t: Tx)
    | RanOutOfTime(at: nat)

  /** Why the selection ended. */
  datatype Ending = ListsRanOut | OutOfTime(at: nat) | FeeTooLow(at: nat, t: Tx) | EnoughPackages | TooManyFailures

  /** In the package of one of these entries. */
  ghost predicate Spanned(pool: Pool, rs: set<Tx>, t: Tx) {
    exists r :: r in rs && r in pool.data && t in WithAnc(pool, r)
  }

  /** What the walk over the mempool has passed is in the block, still cached, or in a package refused. */
  ghost predicate Walked(pool: Pool, mi: nat, block: set<Tx>, mod: Modified, refused: set<Tx>)
    requires mi <= |pool.order|
  {
    forall i :: 0 <= i < mi ==> pool.order[i] in block || pool.order[i] in mod || Spanned(pool, refused, pool.order[i])
  }

  lemma WalkedOn(pool: Pool, mi: nat, block: set<Tx>, mod: Modified, refused: set<Tx>, mi': nat, block': set<Tx>,
                 mod': Modified, refused': set<Tx>)
    requires mi <= mi' <= |pool.order| && mi' <= mi + 1 && Walked(pool, mi, block, mod, refused)
    requires block <= block' && refused <= refused'
    requires forall t :: t in mod && t !in mod' ==> t in block' || Spanned(pool, refused', t)
    requires mi' > mi ==> pool.order[mi] in block' || pool.order[mi] in mod' || Spanned(pool, refused', pool.order[mi])
    ensures Walked(pool, mi', block', mod', refused')
  {
    forall i | 0 <= i < mi ensures Spanned(pool, refused, pool.order[i]) ==> Spanned(pool, refused', pool.order[i]) {
      if Spanned(pool, refused, pool.order[i]) {
        var r :| r in refused && r in pool.data && pool.order[i] in WithAnc(pool, r);
        assert r in refused';
      }
    }
  }

  lemma IsSpanned(pool: Pool, rs: set<Tx>, r: Tx)
    requires r in rs && r in pool.data
    ensures forall t :: t in WithAnc(pool, r) ==> Spanned(pool, rs, t)
  {}

  /** The whole walk done and nothing cached: everybody is accounted for. */
  lemma WalkedAll(pool: Pool, block: set<Tx>, refused: set<Tx>)
    requires IsMempool(pool) && Walked(pool, |pool.order|, block, map[], refused)
    ensures forall t :: t in pool.data ==> t in block || Spanned(pool, refused, t)
  {
    forall t | t in pool.data ensures t in block || Spanned(pool, refused, t) {
      var i :| 0 <= i < |pool.order| && pool.order[i] == t;
    }
  }

  /** Cached totals are never above those of the mempool. */
  ghost predicate Bounded(pool: Pool, mod: Modified) {
    forall t :: t in mod ==> t in pool.data && AtLeast(MempoolTotals(pool, t), mod[t])
  }

  lemma AccountedBounded(pool: Pool, mod: Modified, after: Modified, added: set<Tx>)
    requires Bounded(pool, mod) && Accounted(pool, mod, after, added, added)
    ensures Bounded(pool, after)
  {
    hide Total;
  }

  /** As long as nothing was refused, the cached totals are those of what is missing, and everybody with
      an ancestor in the block is cached. */
  ghost predicate Exact(pool: Pool, mod: Modified, block: set<Tx>) {
    && (forall t :: t in mod ==> t in pool.data && mod[t] == Totals(pool, WithAnc(pool, t) - block))
    && (forall t :: t in pool.data && t !in block && Anc(pool, t) * block != {} ==> t in mod)
  }

  lemma AccountedExact(pool: Pool, mod: Modified, left: Modified, after: Modified, before: set<Tx>, added: set<Tx>)
    requires Exact(pool, mod, before) && before !! added && Covers(pool, mod, before, before) && Closed(pool, before)
    requires left.Keys == mod.Keys - added && (forall t :: t in left ==> left[t] == mod[t])
    requires Accounted(pool, left, after, added, added)
    ensures Exact(pool, after, before + added)
  {
    hide Total;
    var block := before + added;
    forall t | t in after ensures t in pool.data && after[t] == Totals(pool, WithAnc(pool, t) - block) {
      assert t !in left.Keys ==> t in pool.data && Anc(pool, t) * added != {};
      OneExact(pool, mod, left, before, added, t);
    }
    forall t | t in pool.data && t !in block && Anc(pool, t) * block != {} ensures t in after {
      if Anc(pool, t) * added == {} {
        assert Anc(pool, t) * block == Anc(pool, t) * before + Anc(pool, t) * added;
        assert t in mod.Keys && t in left.Keys;
      }
    }
  }

  lemma OneExact(pool: Pool, mod: Modified, left: Modified, before: set<Tx>, added: set<Tx>, t: Tx)
    requires Exact(pool, mod, before) && before !! added
    requires left.Keys == mod.Keys - added && (forall t :: t in left ==> left[t] == mod[t])
    requires t in left || (t in pool.data && t !in added && Anc(pool, t) * added != {})
    ensures t in pool.data
    ensures t !in before ==>
              After(pool, left, t, added) == Totals(pool, WithAnc(pool, t) - (before + added))
  {
    hide Total;
    assert t in left.Keys ==> t in mod.Keys;
    var (anc, all) := (Anc(pool, t), WithAnc(pool, t));
    if t !in before {
      if t !in left {
        assert t !in mod.Keys;
        var touched := Anc(pool, t) * before;
        assert touched == {};
        forall a | a in all ensures a !in before {
          assert a !in touched;
        }
        assert all - before == all;
      }
      assert Known(pool, left, t) == Totals(pool, all - before);
      assert all - before == (all - (before + added)) + anc * added;
      TotalUnion(pool, InSize, all - (before + added), anc * added);
      TotalUnion(pool, InSigOps, all - (before + added), anc * added);
    }
  }

  lemma StartExact(pool: Pool, after: Modified, block: set<Tx>)
    requires IsMempool(pool) && Accounted(pool, map[], after, block, block) && Closed(pool, block)
    ensures Exact(pool, after, block)
  {
    hide Total, IsMempool;
    forall t | t in after ensures t in pool.data && after[t] == Totals(pool, WithAnc(pool, t) - block) {
      var (anc, all) := (Anc(pool, t), WithAnc(pool, t));
      assert all == (all - block) + anc * block;
      TotalUnion(pool, InSize, all - block, anc * block);
      TotalUnion(pool, InSigOps, all - block, anc * block);
    }
  }

  /** The last refusals in a row: each of another entry, which is not looked at again. */
  ghost predicate Streak(pool: Pool, streak: set<Tx>, n: nat, mi: nat, mod: Modified, failedTx: set<Tx>)
    requires mi <= |pool.order|
  {
    n == |streak| && forall t :: t in streak ==> t !in mod && (t in failedTx || t in pool.order[..mi])
  }

  /** What the selection keeps up while it goes through both lists. */
  ghost predicate Selecting(pool: Pool, block: set<Tx>, mi: nat, mod: Modified, failedTx: set<Tx>, n: nat,
                            refused: set<Tx>, streak: set<Tx>) {
    && mi <= |pool.order| && Covers(pool, mod, block, block) && Bounded(pool, mod)
    && Walked(pool, mi, block, mod, refused) && failedTx <= refused && streak <= refused
    && Streak(pool, streak, n, mi, mod, failedTx) && (refused == {} ==> Exact(pool, mod, block))
  }

  /** An entry to look at: the next of the mempool, or one with cached totals. */
  ghost predicate Chosen(pool: Pool, block: set<Tx>, mi: nat, mod: Modified, failedTx: set<Tx>, iter: Tx,
                         usingModified: bool, next: nat) {
    if usingModified then iter in mod && next == mi
    else
      && mi < |pool.order| && iter == pool.order[mi] && next == mi + 1
      && iter !in mod && iter !in block && iter !in failedTx
  }

  lemma SkipSelecting(pool: Pool, block: set<Tx>, mi: nat, mod: Modified, failedTx: set<Tx>, n: nat, refused: set<Tx>,
                      streak: set<Tx>)
    requires IsMempool(pool) && Selecting(pool, block, mi, mod, failedTx, n, refused, streak)
    requires mi < |pool.order| && (pool.order[mi] in mod || pool.order[mi] in block || pool.order[mi] in failedTx)
    ensures Selecting(pool, block, mi + 1, mod, failedTx, n, refused, streak)
  {
    hide Covers, Bounded, Walked, Exact;
    var t := pool.order[mi];
    if t in failedTx {
      IsSpanned(pool, refused, t);
    }
    WalkedOn(pool, mi, block, mod, refused, mi + 1, block, mod, refused);
  }

  /** A package that is refused: its entry is forgotten. */
  lemma RefuseSelecting(pool: Pool, block: set<Tx>, mi: nat, mod: Modified, failedTx: set<Tx>, n: nat,
                        refused: set<Tx>, streak: set<Tx>, iter: Tx, usingModified: bool, next: nat, failed: set<Tx>)
    requires IsMempool(pool) && Selecting(pool, block, mi, mod, failedTx, n, refused, streak) && iter in pool.data
    requires Chosen(pool, block, mi, mod, failedTx, iter, usingModified, next)
    requires failed == if usingModified then failedTx + {iter} else failedTx
    ensures Selecting(pool, block, next, mod - {iter}, failed, n, refused + {iter}, streak)
    ensures Selecting(pool, block, next, mod - {iter}, failed, n + 1, refused + {iter}, streak + {iter})
  {
    hide IsMempool, Covers, Bounded, Walked, Exact, Streak;
    IsSpanned(pool, refused + {iter}, iter);
    assert iter in WithAnc(pool, iter);
    WalkedOn(pool, mi, block, mod, refused, next, block, mod - {iter}, refused + {iter});
    CoversFewer(pool, mod, block, iter);
    BoundedFewer(pool, mod, mod - {iter});
    StreakGoesOn(pool, block, mi, mod, failedTx, n, streak, iter, usingModified, next, failed);
  }

  lemma StreakGoesOn(pool: Pool, block: set<Tx>, mi: nat, mod: Modified, failedTx: set<Tx>, n: nat, streak: set<Tx>,
                     iter: Tx, usingModified: bool, next: nat, failed: set<Tx>)
    requires IsMempool(pool) && mi <= |pool.order| && Streak(pool, streak, n, mi, mod, failedTx)
    requires Chosen(pool, block, mi, mod, failedTx, iter, usingModified, next)
    requires failed == if usingModified then failedTx + {iter} else failedTx
    ensures Streak(pool, streak, n, next, mod - {iter}, failed)
    ensures Streak(pool, streak + {iter}, n + 1, next, mod - {iter}, failed)
  {
    assert next > mi ==> pool.order[..next] == pool.order[..mi] + [iter];
    assert iter !in streak;
  }

  /** A package that was added whole, with its descendants corrected. */
  lemma AddedSelecting(pool: Pool, block: set<Tx>, mi: nat, mod: Modified, failedTx: set<Tx>, n: nat,
                       refused: set<Tx>, streak: set<Tx>, iter: Tx, usingModified: bool, next: nat, left: Modified,
                       after: Modified, p: set<Tx>)
    requires Selecting(pool, block, mi, mod, failedTx, n, refused, streak) && Closed(pool, block)
    requires Chosen(pool, block, mi, mod, failedTx, iter, usingModified, next) && p !! block && iter in p
    requires left.Keys == mod.Keys - p && (forall t :: t in left ==> left[t] == mod[t])
    requires Accounted(pool, left, after, p, p) && Covers(pool, after, block + p, block + p)
    ensures Selecting(pool, block + p, next, after, failedTx, 0, refused, {})
  {
    hide Covers, Bounded, Walked, Exact, After;
    BoundedFewer(pool, mod, left);
    AccountedBounded(pool, left, after, p);
    forall t | t in mod && t !in after ensures t in block + p {
      assert t in mod.Keys && t !in left.Keys;
    }
    WalkedOn(pool, mi, block, mod, refused, next, block + p, after, refused);
    if refused == {} {
      AccountedExact(pool, mod, left, after, block, p);
    }
  }

  /** A package of which only a part, or nothing, was added. */
  lemma BrokenSelecting(pool: Pool, block: set<Tx>, mi: nat, mod: Modified, failedTx: set<Tx>, n: nat,
                        refused: set<Tx>, streak: set<Tx>, iter: Tx, usingModified: bool, next: nat, left: Modified,
                        p: set<Tx>, failed: set<Tx>, block': set<Tx>)
    requires Selecting(pool, block, mi, mod, failedTx, n, refused, streak) && iter in pool.data
    requires Chosen(pool, block, mi, mod, failedTx, iter, usingModified, next) && block <= block'
    requires iter in p && p <= WithAnc(pool, iter) && (failed == failedTx || failed == failedTx + {iter})
    requires left.Keys == mod.Keys - p && (forall t :: t in left ==> left[t] == mod[t])
    requires Covers(pool, left, block', block)
    ensures Selecting(pool, block', next, left, failed, 0, refused + {iter}, {})
  {
    hide Covers, Bounded, Walked, Exact;
    BoundedFewer(pool, mod, left);
    CoversMore(pool, left, block', block, block');
    IsSpanned(pool, refused + {iter}, iter);
    assert iter in WithAnc(pool, iter);
    forall t | t in mod && t !in left ensures Spanned(pool, refused + {iter}, t) {
      assert t in mod.Keys && t !in left.Keys;
    }
    WalkedOn(pool, mi, block, mod, refused, next, block', left, refused + {iter});
  }

  lemma SelectingIs(pool: Pool, block: set<Tx>, mi: nat, mod: Modified, failedTx: set<Tx>, n: nat, refused: set<Tx>,
                    streak: set<Tx>)
    requires Selecting(pool, block, mi, mod, failedTx, n, refused, streak)
    ensures mi <= |pool.order| && Covers(pool, mod, block, block)
  {}

  lemma StartSelecting(pool: Pool, block: set<Tx>, mod: Modified)
    requires IsMempool(pool) && Covers(pool, mod, block, block) && Accounted(pool, map[], mod, block, block)
    requires Closed(pool, block)
    ensures Selecting(pool, block, 0, mod, {}, 0, {}, {})
  {
    hide Total, Covers, IsMempool;
    AccountedBounded(pool, map[], mod, block);
    StartExact(pool, mod, block);
  }

  /** What is known about an entry to look at covers the package it needs, and is not above the totals of the
      mempool; as long as nothing was refused, it is what the package takes. */
  lemma LookAt(pool: Pool, block: set<Tx>, mi: nat, mod: Modified, failedTx: set<Tx>, n: nat, refused: set<Tx>,
               streak: set<Tx>, iter: Tx, usingModified: bool, next: nat)
    requires IsMempool(pool) && Selecting(pool, block, mi, mod, failedTx, n, refused, streak)
    requires Chosen(pool, block, mi, mod, failedTx, iter, usingModified, next)
    ensures iter in pool.data && iter !in block && next <= |pool.order|
    ensures var known := Known(pool, if usingModified then mod else map[], iter);
            && AtLeast(MempoolTotals(pool, iter), known) && AtLeast(known, Totals(pool, WithAnc(pool, iter) - block))
            && (refused == {} ==> known == Totals(pool, WithAnc(pool, iter) - block))
  {
    hide Total, Walked, Streak;
    EnoughKnown(pool, mod, block, iter, usingModified);
    if refused == {} && !usingModified {
      var all := WithAnc(pool, iter);
      assert Anc(pool, iter) * block == {};
      forall t | t in all ensures t !in block {
        assert t !in Anc(pool, iter) * block;
      }
      assert all - block == all;
    }
  }

  ghost predicate NoContracts(pool: Pool) { forall t :: t in pool.data ==> !pool.data[t].hasContract }

  /** A world that never objects. */
  ghost predicate Kind(world: World) {
    && (forall n :: !world.timeUp(n)) && (forall n, t :: !world.feeTooLow(n, t))
    && (forall n, p :: world.isFinal(n, p)) && (forall n, p :: world.maySpend(n, p))
  }

  class BlockAssembler {
    const world: World
    const pool: Pool
    const nBlockMaxWeight: nat
    const maxBlockSigOps: nat
    var inBlock: set<Tx>
    var vtx: seq<Tx>
    var nBlockWeight: nat
    var nBlockSigOpsCost: nat
    var nBlockTx: nat
    /** How often the world was asked. */
    var clock: nat
    /** Whether the block has a transaction that runs a contract. */
    ghost var contractAdded: bool

    ghost predicate Valid()
      reads this
    {
      && IsMempool(pool) && inBlock == Elems(vtx) && InOrder(pool, vtx) && Distinct(vtx)
    }

    /** Nothing was added. */
    twostate predicate Same()
      reads this
    {
      && inBlock == old(inBlock) && vtx == old(vtx) && contractAdded == old(contractAdded)
      && nBlockWeight == old(nBlockWeight) && nBlockSigOpsCost == old(nBlockSigOpsCost)
    }

    twostate predicate Grows()
      reads this
    {
      && old(inBlock) <= inBlock && old(vtx) <= vtx && nBlockWeight >= old(nBlockWeight)
      && nBlockSigOpsCost >= old(nBlockSigOpsCost) && clock >= old(clock) && (old(contractAdded) ==> contractAdded)
    }

    ghost predicate WithinLimits()
      reads this
    {
      nBlockWeight < nBlockMaxWeight && nBlockSigOpsCost < maxBlockSigOps
    }

    /** There is room for everything that is not in the block. */
    ghost predicate Roomy()
      reads this
    {
      TestPackage(Total(pool, InSize, pool.data.Keys - inBlock), Total(pool, InSigOps, pool.data.Keys - inBlock))
    }

    /** The test that refused the package of `r` had a reason to. */
    ghost predicate Blame(r: Tx, why: Why)
      reads this
    {
      && r in pool.data
      && match why
         case TooLarge(known) =>
           && !TestPackage(known.size, known.sigOps) && AtLeast(MempoolTotals(pool, r), known)
           && AtLeast(known, Totals(pool, WithAnc(pool, r) - inBlock))
         case NotFinal(at, package) => at < clock && package <= WithAnc(pool, r) && !world.isFinal(at, package)
         case MayNotSpend(at, package) => at < clock && package <= WithAnc(pool, r) && !world.maySpend(at, package)
         case ContractFailed(at, t) =>
           at < clock && t in WithAnc(pool, r) && t in pool.data && pool.data[t].hasContract
           && world.contractFails(at, t)
         case RanOutOfTime(at) => at < clock && world.timeUp(at)
    }

    ghost predicate AllBlamed(refused: map<Tx, Why>)
      reads this
    {
      forall r :: r in refused ==> Blame(r, refused[r])
    }

    /** The selection had a reason to end. */
    ghost predicate Ends(ending: Ending)
      reads this
    {
      match ending
      case ListsRanOut => true
      case OutOfTime(at) => at < clock && world.timeUp(at)
      case FeeTooLow(at, t) => at < clock && t in pool.data && t !in inBlock && world.feeTooLow(at, t)
      case EnoughPackages => true
      case TooManyFailures => nBlockWeight > nBlockMaxWeight - 4000
    }

    twostate lemma BlameStays(refused: map<Tx, Why>)
      requires old(AllBlamed(refused)) && Grows()
      ensures AllBlamed(refused)
    {
      hide Total;
      forall r | r in refused ensures Blame(r, refused[r]) {
        assert old(Blame(r, refused[r]));
        forall m: Measure
          ensures Total(pool, m, WithAnc(pool, r) - inBlock) <= Total(pool, m, WithAnc(pool, r) - old(inBlock))
        {
          TotalMono(pool, m, WithAnc(pool, r) - inBlock, WithAnc(pool, r) - old(inBlock));
        }
      }
    }

    /** A block with space kept for the coinbase. */
    constructor (world: World, pool: Pool, nBlockMaxWeight: nat, maxBlockSigOps: nat)
      requires IsMempool(pool)
      ensures Valid() && inBlock == {} && vtx == [] && !contractAdded && nBlockWeight == 4000 && nBlockSigOpsCost == 400
      ensures this.world == world && this.pool == pool
      ensures this.nBlockMaxWeight == nBlockMaxWeight && this.maxBlockSigOps == maxBlockSigOps
    {
      this.world, this.pool, this.nBlockMaxWeight, this.maxBlockSigOps := world, pool, nBlockMaxWeight, maxBlockSigOps;
      inBlock, vtx, contractAdded, clock := {}, [], false, 0;
      nBlockWeight, nBlockSigOpsCost, nBlockTx := 4000, 400, 0;
    }

    method AddToBlock(t: Tx)
      requires Valid() && t in pool.data && t !in inBlock && Anc(pool, t) <= inBlock
      modifies this
      ensures Valid() && inBlock == old(inBlock) + {t} && vtx == old(vtx) + [t] && contractAdded == old(contractAdded)
      ensures nBlockWeight == old(nBlockWeight) + Amount(pool, InWeight, t) && clock == old(clock)
      ensures nBlockSigOpsCost == old(nBlockSigOpsCost) + Amount(pool, InSigOps, t) && nBlockTx == old(nBlockTx) + 1
    {
      hide IsMempool;
      InOrderSnoc(pool, vtx, t);
      ElemsSnoc(vtx, t);
      assert t !in vtx by { assert t !in Elems(vtx); }
      vtx := vtx + [t];
      nBlockWeight := nBlockWeight + Amount(pool, InWeight, t);
      nBlockTx := nBlockTx + 1;
      nBlockSigOpsCost := nBlockSigOpsCost + Amount(pool, InSigOps, t);
      inBlock := inBlock + {t};
    }

    /** Runs the contracts of a transaction; it may fail, and it may add transfers of its own. */
    method AttemptToAddContractToBlock(t: Tx) returns (added: bool)
      requires Valid() && t in pool.data && t !in inBlock && Anc(pool, t) <= inBlock
      modifies this
      ensures Valid() && added == !world.contractFails(old(clock), t) && clock == old(clock) + 1
      ensures added ==>
                var more := world.transfers(old(clock), t);
                && inBlock == old(inBlock) + {t} && vtx == old(vtx) + [t] && contractAdded
                && nBlockWeight == old(nBlockWeight) + Amount(pool, InWeight, t) + more.weight
                && nBlockSigOpsCost == old(nBlockSigOpsCost) + Amount(pool, InSigOps, t) + more.sigOps
                && nBlockTx == old(nBlockTx) + 1 + more.count
      ensures !added ==> Same() && nBlockTx == old(nBlockTx)
    {
      var (fails, more) := (world.contractFails(clock, t), world.transfers(clock, t));
      clock := clock + 1;
      if fails {
        return false;
      }
      AddToBlock(t);
      nBlockWeight := nBlockWeight + more.weight;
      nBlockSigOpsCost := nBlockSigOpsCost + more.sigOps;
      nBlockTx := nBlockTx + more.count;
      contractAdded := true;
      added := true;
    }

    predicate TestPackage(packageSize: int, packageSigOpsCost: int)
      reads this
    {
      nBlockWeight + WITNESS_SCALE_FACTOR * packageSize < nBlockMaxWeight
      && nBlockSigOpsCost + packageSigOpsCost < maxBlockSigOps
    }

    predicate SkipMapTxEntry(t: Tx, mod: Modified, failedTx: set<Tx>)
      reads this
    {
      t in mod || t in inBlock || t in failedTx
    }

    /** Drops what is in the block already. */
    method OnlyUnconfirmed(testSet: set<Tx>) returns (left: set<Tx>)
      ensures left == testSet - inBlock
    {
      left := testSet;
      var todo := testSet;
      while todo != {}
        invariant todo <= testSet && left == testSet - ((testSet - todo) * inBlock)
      {
        var t :| t in todo;
        if t in inBlock {
          left := left - {t};
        }
        todo := todo - {t};
      }
    }

    /** Adds a sorted package.  A contract that fails, or running out of time, stops it
        part-way; what was added stays, and the rest of the package is forgotten. */
    method AddPackage(sorted: seq<Tx>, iter: Tx, usingModified: bool, modIn: Modified, failedIn: set<Tx>)
      returns (mod: Modified, failedTx: set<Tx>, wasAdded: bool, ghost why: Why)
      requires Valid() && iter in pool.data && iter !in inBlock && Elems(sorted) == WithAnc(pool, iter) - inBlock
      requires Distinct(sorted) && ByCount(pool, sorted) && Covers(pool, modIn, inBlock, inBlock)
               && (usingModified ==> iter in modIn)
      requires TestPackage(Total(pool, InSize, Elems(sorted)), Total(pool, InSigOps, Elems(sorted)))
      modifies this
      ensures Valid() && Grows() && old(inBlock) <= inBlock <= old(inBlock) + Elems(sorted)
      ensures wasAdded ==> inBlock == old(inBlock) + Elems(sorted) && failedTx == failedIn
      ensures why.ContractFailed? || why.RanOutOfTime?
      ensures !wasAdded ==> Blame(iter, why)
      ensures failedTx == if !wasAdded && why.ContractFailed? && usingModified then failedIn + {iter} else failedIn
      ensures Covers(pool, mod, inBlock, old(inBlock))
      ensures mod.Keys == modIn.Keys - Elems(sorted) && forall t :: t in mod ==> mod[t] == modIn[t]
      ensures contractAdded || WithinLimits()
      ensures if vtx == old(vtx) then Same() else old(inBlock) < inBlock
      ensures NoContracts(pool) ==> contractAdded == old(contractAdded)
      ensures NoContracts(pool) && wasAdded ==>
                && nBlockWeight == old(nBlockWeight) + Total(pool, InWeight, Elems(sorted))
                && nBlockSigOpsCost == old(nBlockSigOpsCost) + Total(pool, InSigOps, Elems(sorted))
      ensures world.timeUp(old(clock)) ==> !wasAdded && Same()
    {
      hide IsMempool, Total, Covers, InOrder, ByCount, Distinct, Amount, Blame;
      mod, failedTx, wasAdded, why := modIn, failedIn, true, RanOutOfTime(clock);
      PackageStart(this, sorted, iter);
      ghost var (k: nat, gone: set<Tx>) := (0, {});
      for i := 0 to |sorted|
        invariant Valid() && Grows() && 0 <= k <= i && (wasAdded ==> k == i) && (i == 0 ==> clock == old(clock))
        invariant inBlock == old(inBlock) + Elems(sorted[..k]) && |vtx| == |old(vtx)| + k && (k == 0 ==> Same())
        invariant mod.Keys == modIn.Keys - Elems(sorted[..i]) - gone && gone <= {iter}
        invariant forall t :: t in mod ==> mod[t] == modIn[t]
        invariant failedTx == if !wasAdded && why.ContractFailed? && usingModified then failedIn + {iter} else failedIn
        invariant (!wasAdded ==> Blame(iter, why)) && (why.ContractFailed? || why.RanOutOfTime?)
        invariant NoContracts(pool) ==> contractAdded == old(contractAdded)
        invariant !contractAdded || NoContracts(pool) ==>
                    && nBlockWeight == old(nBlockWeight) + Total(pool, InWeight, Elems(sorted[..k]))
                    && nBlockSigOpsCost == old(nBlockSigOpsCost) + Total(pool, InSigOps, Elems(sorted[..k]))
        invariant world.timeUp(old(clock)) && i > 0 ==> !wasAdded && k == 0
      {
        if wasAdded {
          PackageNext(this, sorted, iter, old(inBlock), i);
          assert sorted[i] in Elems(sorted);
          var timeout;
          wasAdded, timeout, why := AddTransaction(sorted[i], iter);
          if wasAdded {
            k := k + 1;
          } else if !timeout && usingModified {
            mod, failedTx, gone := mod - {iter}, failedTx + {iter}, {iter};
          }
        }
        mod := mod - {sorted[i]};
        ElemsNext(sorted, i);
      }
      PackageDone(sorted, k, iter);
      CoversRest(pool, modIn, mod, old(inBlock), inBlock);
      PackageLimits(pool, Elems(sorted[..k]), Elems(sorted));
    }

    /** Unless time is up, or its contract fails. */
    method AddTransaction(t: Tx, ghost iter: Tx) returns (added: bool, timeout: bool, ghost why: Why)
      requires Valid() && t in pool.data && t !in inBlock && Anc(pool, t) <= inBlock
      requires iter in pool.data && t in WithAnc(pool, iter)
      modifies this
      ensures Valid() && Grows() && clock > old(clock) && timeout == world.timeUp(old(clock))
      ensures added == !(timeout || (pool.data[t].hasContract && world.contractFails(old(clock) + 1, t)))
      ensures if added then inBlock == old(inBlock) + {t} && vtx == old(vtx) + [t] else Same() && Blame(iter, why)
      ensures why.ContractFailed? || why.RanOutOfTime?
      ensures !added ==> timeout == why.RanOutOfTime?
      ensures !pool.data[t].hasContract ==> contractAdded == old(contractAdded)
      ensures (!contractAdded || !pool.data[t].hasContract) && added ==>
                && nBlockWeight == old(nBlockWeight) + Amount(pool, InWeight, t)
                && nBlockSigOpsCost == old(nBlockSigOpsCost) + Amount(pool, InSigOps, t)
    {
      hide IsMempool, InOrder, Distinct, Amount;
      why := RanOutOfTime(clock);
      timeout := world.timeUp(clock);
      clock := clock + 1;
      if timeout {
        return false, true, why;
      }
      if pool.data[t].hasContract {
        why := ContractFailed(clock, t);
        added := AttemptToAddContractToBlock(t);
      } else {
        AddToBlock(t);
        added := true;
      }
    }

    /** What takes no more than all that is missing fits. */
    lemma RoomFor(iter: Tx)
      requires Valid() && iter in pool.data && Roomy()
      ensures var known := Totals(pool, WithAnc(pool, iter) - inBlock); TestPackage(known.size, known.sigOps)
    {
      hide Total, InOrder, Distinct;
      var missing := WithAnc(pool, iter) - inBlock;
      TotalMono(pool, InSize, missing, pool.data.Keys - inBlock);
      TotalMono(pool, InSigOps, missing, pool.data.Keys - inBlock);
    }

    twostate lemma StillRoomy(p: set<Tx>)
      requires old(Roomy()) && inBlock == old(inBlock) + p && p !! old(inBlock) && p <= pool.data.Keys
      requires nBlockWeight == old(nBlockWeight) + Total(pool, InWeight, p)
      requires nBlockSigOpsCost == old(nBlockSigOpsCost) + Total(pool, InSigOps, p)
      ensures Roomy()
    {
      hide Total;
      assert pool.data.Keys - old(inBlock) == (pool.data.Keys - inBlock) + p;
      TotalUnion(pool, InSize, pool.data.Keys - inBlock, p);
      TotalUnion(pool, InSigOps, pool.data.Keys - inBlock, p);
      PackageLimits(pool, p, p);
    }

    /** The selection loop.  Whatever the world answers, ancestors come first, cached totals cover what
        is still missing, and the loop ends.  If it ends because there is nothing left to consider,
        whatever is not in the block is in a package that was refused, for a reason.  If there is room for
        all and nobody objects, all get in. */
    method AddPackageTxs(nPackagesBefore: nat)
      returns (nPackagesSelected: nat, ghost ending: Ending, ghost refused: map<Tx, Why>)
      requires Valid()
      modifies this
      ensures Valid() && old(vtx) <= vtx
      ensures nPackagesBefore <= nPackagesSelected <= nPackagesBefore + |vtx| - |old(vtx)|
      ensures nPackagesSelected <= Max(nPackagesBefore, MAX_PACKAGES)
      ensures vtx == old(vtx) || contractAdded || WithinLimits()
      ensures vtx == old(vtx) ==> nBlockWeight == old(nBlockWeight) && nBlockSigOpsCost == old(nBlockSigOpsCost)
      ensures Ends(ending) && AllBlamed(refused)
      ensures ending.EnoughPackages? ==> nPackagesSelected >= MAX_PACKAGES
      ensures ending.TooManyFailures? ==> |refused| > MAX_CONSECUTIVE_FAILURES
      ensures ending.ListsRanOut? ==> forall t :: t in pool.data ==> t in inBlock || Spanned(pool, refused.Keys, t)
      ensures ending.ListsRanOut? && refused == map[] ==> inBlock == pool.data.Keys
      ensures Kind(world) && NoContracts(pool) && old(Roomy()) && nPackagesBefore + |pool.data| < MAX_PACKAGES ==>
                inBlock == pool.data.Keys
    {
      hide IsMempool, Total, Covers, InOrder, Distinct, Selecting, AllBlamed, Ends, Kind, Roomy, NoContracts, Accounted;
      nPackagesSelected, ending, refused := nPackagesBefore, ListsRanOut, map[];
      var failedTx: set<Tx> := {};
      InOrderClosed(pool, vtx);
      assert Covers(pool, map[], inBlock, inBlock - inBlock) by { NothingCached(pool, inBlock, inBlock - inBlock); }
      assert Closed(pool, inBlock - inBlock);
      var mod := UpdatePackagesForAdded(pool, inBlock, inBlock, map[]);
      StartSelecting(pool, inBlock, mod);
      NobodyBlamed();
      assert refused.Keys == {};
      var mi: nat, nConsecutiveFailed: nat, stop := 0, 0, false;
      ghost var streak: set<Tx> := {};
      while (mi < |pool.order| || mod != map[]) && nPackagesSelected < MAX_PACKAGES && !stop
        invariant Valid() && old(vtx) <= vtx && mi <= |pool.order|
        invariant nPackagesBefore <= nPackagesSelected <= nPackagesBefore + |vtx| - |old(vtx)|
        invariant nPackagesSelected <= Max(nPackagesBefore, MAX_PACKAGES)
        invariant if vtx == old(vtx) then Same() else contractAdded || WithinLimits()
        invariant Selecting(pool, inBlock, mi, mod, failedTx, nConsecutiveFailed, refused.Keys, streak)
                  && AllBlamed(refused)
        invariant Kind(world) && NoContracts(pool) && old(Roomy()) ==> refused == map[] && !stop && Roomy()
        invariant if stop then Ends(ending) && ending != ListsRanOut && ending != EnoughPackages
                  else ending == ListsRanOut
        invariant ending.TooManyFailures? ==> nConsecutiveFailed > MAX_CONSECUTIVE_FAILURES
        decreases pool.data.Keys - inBlock, |pool.order| - mi, |mod|, !stop
      {
        var selected;
        mi, nConsecutiveFailed, mod, failedTx, selected, stop, refused, streak, ending :=
          ConsiderNext(mi, nConsecutiveFailed, mod, failedTx, refused, streak);
        InOrderClosed(pool, vtx);
        if selected {
          nPackagesSelected := nPackagesSelected + 1;
        }
      }
      ghost var ranOut := mi == |pool.order| && mod == map[];
      if !stop && !ranOut {
        ending := EnoughPackages;
      }
      Finished(mi, mod, failedTx, nConsecutiveFailed, refused, streak, ending);
    }

    lemma NobodyBlamed()
      ensures AllBlamed(map[])
    {}

    /** The end of the selection. */
    lemma Finished(mi: nat, mod: Modified, failedTx: set<Tx>, n: nat, refused: map<Tx, Why>, streak: set<Tx>,
                   ending: Ending)
      requires Valid() && Selecting(pool, inBlock, mi, mod, failedTx, n, refused.Keys, streak)
      requires ending.ListsRanOut? ==> mi == |pool.order| && mod == map[]
      ensures Ends(ListsRanOut) && Ends(EnoughPackages) && n <= |refused| && |vtx| <= |pool.data|
      ensures ending.ListsRanOut? ==> forall t :: t in pool.data ==> t in inBlock || Spanned(pool, refused.Keys, t)
      ensures ending.ListsRanOut? && refused == map[] ==> inBlock == pool.data.Keys
    {
      hide IsMempool, Total, Covers, Walked, Bounded, Exact;
      SubsetCount(streak, refused.Keys);
      InOrderClosed(pool, vtx);
      DistinctCount(vtx);
      SubsetCount(Elems(vtx), pool.data.Keys);
      if ending.ListsRanOut? {
        WalkedAll(pool, inBlock, refused.Keys);
      }
    }

    /** One round: the block grows, or the mempool entries run out, or the cached totals do. */
    method ConsiderNext(start: nat, failures: nat, modIn: Modified, failedIn: set<Tx>, ghost refusedIn: map<Tx, Why>,
                        ghost streakIn: set<Tx>)
      returns (mi: nat, nConsecutiveFailed: nat, mod: Modified, failedTx: set<Tx>, selected: bool, stop: bool,
               ghost refused: map<Tx, Why>, ghost streak: set<Tx>, ghost ending: Ending)
      requires Valid() && Selecting(pool, inBlock, start, modIn, failedIn, failures, refusedIn.Keys, streakIn)
      requires AllBlamed(refusedIn)
      requires start < |pool.order| || modIn != map[]
      modifies this
      ensures Valid() && Grows() && mi <= |pool.order|
      ensures Selecting(pool, inBlock, mi, mod, failedTx, nConsecutiveFailed, refused.Keys, streak)
              && AllBlamed(refused)
      ensures selected ==> vtx != old(vtx)
      ensures if vtx == old(vtx) then Same() && (stop || mi > start || (mi == start && |mod| < |modIn|))
              else old(inBlock) < inBlock && (contractAdded || WithinLimits())
      ensures stop ==> Same() && mi >= start && |mod| <= |modIn|
      ensures if stop then Ends(ending) && ending != ListsRanOut && ending != EnoughPackages else ending == ListsRanOut
      ensures ending.TooManyFailures? ==> nConsecutiveFailed > MAX_CONSECUTIVE_FAILURES
      ensures Kind(world) && NoContracts(pool) && old(Roomy()) && refusedIn == map[] ==>
                refused == map[] && !stop && Roomy()
      ensures world.timeUp(old(clock)) ==> stop && ending == OutOfTime(old(clock))
      ensures nConsecutiveFailed > Max(failures, MAX_CONSECUTIVE_FAILURES) && nBlockWeight > nBlockMaxWeight - 4000 ==>
              stop
    {
      hide IsMempool, Total, Covers, InOrder, Distinct, Selecting, Blame, AllBlamed, NoContracts, Roomy;
      mi, nConsecutiveFailed, mod, failedTx, selected, stop := start, failures, modIn, failedIn, false, true;
      refused, streak, ending := refusedIn, streakIn, OutOfTime(clock);
      var outOfTime := world.timeUp(clock);
      clock := clock + 1;
      BlameStays(refusedIn);
      RoomySame();
      SelectingIs(pool, inBlock, mi, mod, failedTx, failures, refused.Keys, streak);
      if outOfTime {
        return;
      }
      if mi < |pool.order| && SkipMapTxEntry(pool.order[mi], mod, failedTx) {
        SkipSelecting(pool, inBlock, mi, mod, failedTx, failures, refused.Keys, streak);
        mi, stop, ending := mi + 1, false, ListsRanOut;
        return;
      }
      var iter, usingModified;
      var next;
      iter, usingModified, next := Choose(mod, mi, failedTx);
      LookAt(pool, inBlock, start, modIn, failedIn, failures, refused.Keys, streakIn, iter, usingModified, next);
      assert iter !in inBlock;
      var known := Known(pool, if usingModified then mod else map[], iter);
      var feeTooLow := world.feeTooLow(clock, iter);
      ending := FeeTooLow(clock, iter);
      clock := clock + 1;
      BlameStays(refusedIn);
      RoomySame();
      if feeTooLow {
        return;
      }
      mi := next;
      if Roomy() {
        RoomFor(iter);
      }
      if !TestPackage(known.size, known.sigOps) {
        LargeBlame(iter, known);
        mod, failedTx, refused :=
          Refuse(iter, usingModified, modIn, failedIn, failures, start, next, refusedIn, streakIn, TooLarge(known));
        nConsecutiveFailed, streak := nConsecutiveFailed + 1, streak + {iter};
        stop := nConsecutiveFailed > MAX_CONSECUTIVE_FAILURES && nBlockWeight > nBlockMaxWeight - 4000;
        ending := if stop then TooManyFailures else ListsRanOut;
        return;
      }
      nConsecutiveFailed, mod, failedTx, selected, refused, streak :=
        Consider(iter, usingModified, mod, failedTx, nConsecutiveFailed, start, next, refused, streak);
      stop, ending := false, ListsRanOut;
    }

    twostate lemma RoomySame()
      requires Same()
      ensures old(Roomy()) == Roomy()
    {}

    lemma LargeBlame(iter: Tx, known: Cached)
      requires iter in pool.data && !TestPackage(known.size, known.sigOps)
      requires AtLeast(MempoolTotals(pool, iter), known) && AtLeast(known, Totals(pool, WithAnc(pool, iter) - inBlock))
      ensures Blame(iter, TooLarge(known))
    {}

    /** An entry that is refused is not looked at again unless another package changes its totals. */
    method Refuse(iter: Tx, usingModified: bool, modIn: Modified, failedIn: set<Tx>, ghost n: nat, ghost start: nat,
                  ghost next: nat, ghost refusedIn: map<Tx, Why>, ghost streakIn: set<Tx>, ghost why: Why)
      returns (mod: Modified, failedTx: set<Tx>, ghost refused: map<Tx, Why>)
      requires Valid() && Selecting(pool, inBlock, start, modIn, failedIn, n, refusedIn.Keys, streakIn)
      requires Chosen(pool, inBlock, start, modIn, failedIn, iter, usingModified, next) && AllBlamed(refusedIn)
      requires iter in pool.data && Blame(iter, why)
      ensures AllBlamed(refused) && refused == refusedIn[iter := why]
      ensures Selecting(pool, inBlock, next, mod, failedTx, n, refused.Keys, streakIn)
      ensures Selecting(pool, inBlock, next, mod, failedTx, n + 1, refused.Keys, streakIn + {iter})
      ensures iter !in mod && |mod| <= |modIn| && (usingModified ==> |mod| < |modIn| && iter in failedTx)
    {
      hide IsMempool, InOrder, Distinct, Selecting, Blame, AllBlamed;
      mod, failedTx := modIn, failedIn;
      RefuseSelecting(pool, inBlock, start, modIn, failedIn, n, refusedIn.Keys, streakIn, iter, usingModified, next,
                      if usingModified then failedTx + {iter} else failedTx);
      FewerCached(mod, mod - {iter}, iter);
      if usingModified {
        mod, failedTx := mod - {iter}, failedTx + {iter};
      }
      assert mod == modIn - {iter} by { NotThere(modIn, iter); }
      RecordBlame(refusedIn, iter, why);
      refused := refusedIn[iter := why];
    }

    lemma RecordBlame(refused: map<Tx, Why>, r: Tx, why: Why)
      requires AllBlamed(refused) && Blame(r, why)
      ensures AllBlamed(refused[r := why]) && refused[r := why].Keys == refused.Keys + {r}
    {
      hide Blame;
    }

    /** A package that fits: checked, sorted, added, and its descendants corrected. */
    method Consider(iter: Tx, usingModified: bool, modIn: Modified, failedIn: set<Tx>, failures: nat, ghost start: nat,
                    ghost next: nat, ghost refusedIn: map<Tx, Why>, ghost streakIn: set<Tx>)
      returns (nConsecutiveFailed: nat, mod: Modified, failedTx: set<Tx>, selected: bool, ghost refused: map<Tx, Why>,
               ghost streak: set<Tx>)
      requires Valid() && Selecting(pool, inBlock, start, modIn, failedIn, failures, refusedIn.Keys, streakIn)
      requires Chosen(pool, inBlock, start, modIn, failedIn, iter, usingModified, next) && AllBlamed(refusedIn)
      requires iter in pool.data && iter !in inBlock
      requires TestPackage(Total(pool, InSize, WithAnc(pool, iter) - inBlock),
               Total(pool, InSigOps, WithAnc(pool, iter) - inBlock))
      modifies this
      ensures Valid() && Grows() && AllBlamed(refused)
      ensures Selecting(pool, inBlock, next, mod, failedTx, nConsecutiveFailed, refused.Keys, streak)
      ensures if vtx == old(vtx) then Same() && |mod| <= |modIn| && (usingModified ==> |mod| < |modIn|)
              else old(inBlock) < inBlock && (contractAdded || WithinLimits())
      ensures nConsecutiveFailed <= failures && (selected ==> vtx != old(vtx))
      ensures selected ==> inBlock == old(inBlock) + WithAnc(pool, iter) && refused == refusedIn
      ensures Kind(world) && NoContracts(pool) ==> selected && (old(Roomy()) ==> Roomy())
    {
      hide IsMempool, Total, Covers, InOrder, Distinct, Selecting, Blame, AllBlamed, Roomy, NoContracts;
      nConsecutiveFailed, mod, failedTx, selected := failures, modIn, failedIn, false;
      refused, streak := refusedIn, streakIn;
      var ancestors := OnlyUnconfirmed(Anc(pool, iter));
      ancestors := ancestors + {iter};
      assert ancestors == WithAnc(pool, iter) - inBlock;
      var isFinal, maySpend := world.isFinal(clock, ancestors), true;
      ghost var why := NotFinal(clock, ancestors);
      clock := clock + 1;
      if isFinal {
        maySpend, why := world.maySpend(clock, ancestors), MayNotSpend(clock, ancestors);
        clock := clock + 1;
      }
      BlameStays(refusedIn);
      RoomySame();
      if !isFinal || !maySpend {
        AskedBlame(iter, why);
        mod, failedTx, refused :=
          Refuse(iter, usingModified, modIn, failedIn, failures, start, next, refusedIn, streakIn, why);
        return;
      }
      nConsecutiveFailed, streak := 0, {};
      mod, failedTx, selected, refused :=
        Take(iter, usingModified, ancestors, modIn, failedIn, failures, start, next, refusedIn, streakIn);
    }

    /** A package that passed: sorted, added, and its descendants corrected. */
    method Take(iter: Tx, usingModified: bool, ancestors: set<Tx>, modIn: Modified, failedIn: set<Tx>,
                ghost failures: nat,
                ghost start: nat, ghost next: nat, ghost refusedIn: map<Tx, Why>, ghost streakIn: set<Tx>)
      returns (mod: Modified, failedTx: set<Tx>, selected: bool, ghost refused: map<Tx, Why>)
      requires Valid() && Selecting(pool, inBlock, start, modIn, failedIn, failures, refusedIn.Keys, streakIn)
      requires Chosen(pool, inBlock, start, modIn, failedIn, iter, usingModified, next) && AllBlamed(refusedIn)
      requires iter in pool.data && iter !in inBlock && ancestors == WithAnc(pool, iter) - inBlock
      requires TestPackage(Total(pool, InSize, ancestors), Total(pool, InSigOps, ancestors))
      modifies this
      ensures Valid() && Grows() && AllBlamed(refused)
      ensures Selecting(pool, inBlock, next, mod, failedTx, 0, refused.Keys, {})
      ensures if vtx == old(vtx) then Same() && |mod| <= |modIn| && (usingModified ==> |mod| < |modIn|)
              else old(inBlock) < inBlock && (contractAdded || WithinLimits())
      ensures selected ==> inBlock == old(inBlock) + WithAnc(pool, iter) && vtx != old(vtx) && refused == refusedIn
      ensures Kind(world) && NoContracts(pool) ==> selected && (old(Roomy()) ==> Roomy())
    {
      hide IsMempool, Total, Covers, InOrder, ByCount, Distinct, Selecting, AllBlamed, Roomy, Accounted, Blame, Kind,
           NoContracts;
      refused := refusedIn;
      AncestorsInPool(pool, iter);
      var sorted := SortForBlock(pool, ancestors);
      SelectingIs(pool, inBlock, start, modIn, failedIn, failures, refusedIn.Keys, streakIn);
      InOrderClosed(pool, vtx);
      ghost var before := inBlock;
      var left;
      ghost var why;
      left, failedTx, selected, why := AddPackage(sorted, iter, usingModified, modIn, failedIn);
      BlameStays(refusedIn);
      FewerCached(modIn, left, iter);
      NoneToBlame(iter, why);
      if !selected {
        BrokenSelecting(pool, before, start, modIn, failedIn, failures, refusedIn.Keys, streakIn, iter, usingModified,
                        next, left, ancestors, failedTx, inBlock);
        RecordBlame(refusedIn, iter, why);
        mod, refused := left, refusedIn[iter := why];
        return;
      }
      InOrderClosed(pool, vtx);
      WholePackage(before, WithAnc(pool, iter), ancestors);
      mod := UpdatePackagesForAdded(pool, inBlock, ancestors, left);
      AddedSelecting(pool, before, start, modIn, failedIn, failures, refusedIn.Keys, streakIn, iter, usingModified,
                     next, left, mod, ancestors);
      if NoContracts(pool) && old(Roomy()) {
        StillRoomy(ancestors);
      }
    }

    lemma NoneToBlame(iter: Tx, why: Why)
      requires why.ContractFailed? || why.RanOutOfTime?
      ensures Kind(world) && NoContracts(pool) ==> !Blame(iter, why)
    {}

    lemma AskedBlame(iter: Tx, why: Why)
      requires iter in pool.data && (why.NotFinal? || why.MayNotSpend?) && why.at < clock
      requires why.package <= WithAnc(pool, iter)
      requires if why.NotFinal? then !world.isFinal(why.at, why.package) else !world.maySpend(why.at, why.package)
      ensures Blame(iter, why)
    {}

    /** The next entry of the mempool, or one with cached totals. */
    method Choose(mod: Modified, mi: nat, failedTx: set<Tx>) returns (iter: Tx, usingModified: bool, next: nat)
      requires Valid() && mi <= |pool.order| && (mi < |pool.order| || mod != map[])
      requires mi < |pool.order| ==> !SkipMapTxEntry(pool.order[mi], mod, failedTx)
      ensures Chosen(pool, inBlock, mi, mod, failedTx, iter, usingModified, next)
      ensures mi == |pool.order| ==> usingModified
      ensures mod == map[] ==> !usingModified
    {
      next := mi;
      var better: bool := *;
      if mi == |pool.order| || (mod != map[] && better) {
        assert mod.Keys != {} by { assert mod != map[]; }
        iter :| iter in mod.Keys;
        usingModified := true;
      } else {
        iter, usingModified, next := pool.order[mi], false, mi + 1;
      }
    }
  }

  lemma WholePackage(before: set<Tx>, all: set<Tx>, p: set<Tx>)
    requires p == all - before
    ensures before + p - p == before && before + p == before + all
  {}

  lemma NotThere(mod: Modified, t: Tx)
    ensures t !in mod ==> mod - {t} == mod
  {}

  lemma BoundedFewer(pool: Pool, mod: Modified, less: Modified)
    requires Bounded(pool, mod) && less.Keys <= mod.Keys && forall t :: t in less ==> t in mod && less[t] == mod[t]
    ensures Bounded(pool, less)
  {
    hide Total;
  }

  lemma {:induction false} DistinctCount(list: seq<Tx>)
    requires Distinct(list)
    ensures |Elems(list)| == |list|
  {
    if list == [] {
    } else {
      var (front, last) := (list[..|list| - 1], list[|list| - 1]);
      DistinctCount(front);
      assert list == front + [last];
      ElemsSnoc(front, last);
      assert last !in front;
    }
  }

  lemma FewerCached(mod: Modified, less: Modified, t: Tx)
    requires less.Keys <= mod.Keys - {t}
    ensures |less| <= |mod| && (t in mod ==> |less| < |mod|)
  {
    SubsetCount(less.Keys, mod.Keys - {t});
  }

  lemma NothingCached(pool: Pool, block: set<Tx>, counted: set<Tx>)
    ensures Covers(pool, map[], block, counted)
  {}

  lemma CachedOutside(pool: Pool, mod: Modified, block: set<Tx>, t: Tx)
    requires Covers(pool, mod, block, block)
    ensures t in mod ==> t in pool.data && t !in block
  {}

  lemma CoversFewer(pool: Pool, mod: Modified, block: set<Tx>, t: Tx)
    requires Covers(pool, mod, block, block)
    ensures Covers(pool, mod - {t}, block, block)
  {}

  lemma AncestorsInPool(pool: Pool, t: Tx)
    requires IsMempool(pool) && t in pool.data
    ensures WithAnc(pool, t) <= pool.data.Keys
  {}

  /** What is known about an entry covers the package it needs. */
  lemma EnoughKnown(pool: Pool, mod: Modified, block: set<Tx>, t: Tx, usingModified: bool)
    requires Covers(pool, mod, block, block) && t in pool.data && (usingModified ==> t in mod)
    ensures AtLeast(Known(pool, if usingModified then mod else map[], t), Totals(pool, WithAnc(pool, t) - block))
  {
    hide Total;
    forall m: Measure ensures Total(pool, m, WithAnc(pool, t) - block) <= Total(pool, m, WithAnc(pool, t)) {
      TotalMono(pool, m, WithAnc(pool, t) - block, WithAnc(pool, t));
    }
  }

  lemma CoversRest(pool: Pool, mod: Modified, less: Modified, counted: set<Tx>, block: set<Tx>)
    requires Covers(pool, mod, counted, counted)
    requires forall t :: t in less ==> t in mod && less[t] == mod[t] && (t in block ==> t in counted)
    ensures Covers(pool, less, block, counted)
  {}

  lemma PackageLimits(pool: Pool, part: set<Tx>, all: set<Tx>)
    requires part <= all
    ensures Total(pool, InWeight, part) <= WITNESS_SCALE_FACTOR * Total(pool, InSize, all)
    ensures Total(pool, InSigOps, part) <= Total(pool, InSigOps, all)
  {
    TotalMono(pool, InWeight, part, all);
    TotalMono(pool, InSigOps, part, all);
    WeightToSize(pool, all, |pool.order|);
  }

  lemma PackageStart(b: BlockAssembler, sorted: seq<Tx>, iter: Tx)
    requires b.Valid() && iter in b.pool.data && iter !in b.inBlock
             && Elems(sorted) == WithAnc(b.pool, iter) - b.inBlock
    requires Distinct(sorted) && ByCount(b.pool, sorted)
    ensures sorted != [] && sorted[|sorted| - 1] == iter && Elems(sorted[..0]) == {}
    ensures Total(b.pool, InWeight, {}) == 0 == Total(b.pool, InSigOps, {})
  {
    assert iter in Elems(sorted);
    forall t | t in sorted ensures t == iter || t in Anc(b.pool, iter) {
      assert t in Elems(sorted);
    }
    OwnerLast(b.pool, sorted, iter);
    TotalNone(b.pool, InWeight, |b.pool.order|);
    TotalNone(b.pool, InSigOps, |b.pool.order|);
  }

  lemma ElemsNext(list: seq<Tx>, i: nat)
    requires i < |list|
    ensures Elems(list[..i + 1]) == Elems(list[..i]) + {list[i]}
  {
    assert list[..i + 1] == list[..i] + [list[i]];
    ElemsSnoc(list[..i], list[i]);
  }

  lemma PackageDone(list: seq<Tx>, k: nat, last: Tx)
    requires k <= |list| && list != [] && list[|list| - 1] == last
    ensures list[..|list|] == list && Elems(list[..k]) <= Elems(list) && last in Elems(list)
    ensures k > 0 ==> list[0] in Elems(list[..k])
  {
    assert k > 0 ==> list[..k][0] == list[0];
  }

  /** The next transaction of a package can be added once those before it are. */
  lemma PackageNext(b: BlockAssembler, sorted: seq<Tx>, iter: Tx, before: set<Tx>, i: nat)
    requires b.Valid() && iter in b.pool.data && Elems(sorted) == WithAnc(b.pool, iter) - before && i < |sorted|
    requires Distinct(sorted) && ByCount(b.pool, sorted) && b.inBlock == before + Elems(sorted[..i])
    ensures sorted[i] in b.pool.data && sorted[i] !in b.inBlock && Anc(b.pool, sorted[i]) <= b.inBlock
    ensures Elems(sorted[..i + 1]) == Elems(sorted[..i]) + {sorted[i]}
    ensures i < |sorted| - 1 ==> sorted[i] != sorted[|sorted| - 1]
    ensures forall m: Measure ::
              Total(b.pool, m, Elems(sorted[..i + 1])) ==
              Total(b.pool, m, Elems(sorted[..i])) + Amount(b.pool, m, sorted[i])
  {
    var t := sorted[i];
    assert t in Elems(sorted);
    assert t in b.pool.data;
    assert sorted[..i + 1] == sorted[..i] + [t];
    ElemsSnoc(sorted[..i], t);
    forall a | a in Anc(b.pool, t) ensures a in b.inBlock {
      assert a in WithAnc(b.pool, iter);
      if a !in before {
        assert a in Elems(sorted);
        AncestorsFirst(b.pool, sorted, i, a);
      }
    }
    forall m: Measure
      ensures Total(b.pool, m, Elems(sorted[..i + 1])) == Total(b.pool, m, Elems(sorted[..i])) + Amount(b.pool, m, t)
    {
      TotalAdd(b.pool, m, Elems(sorted[..i]), t);
    }
  }
}
