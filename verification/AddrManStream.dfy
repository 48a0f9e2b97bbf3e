/** Writing the address manager to a stream and reading it back.  A stream is a sequence of
    items; how an item is laid out in bytes is not modelled, and reading an item of another
    kind, or past the end, fails. */
module AddrManStream {
  import opened AddrManState
  import opened AddrMan

  const FORMAT_BIT := 0x4000_0000
  const MAX_NEW := NEW_BUCKETS * BUCKET_SIZE
  const MAX_TRIED := TRIED_BUCKETS * BUCKET_SIZE

  /** What an entry keeps on disk. */
  datatype Entry = Entry(address: Address, source: NetAddr, lastSuccess: int, attempts: int)

  datatype Token = Byte(b: nat) | KeyIs(key: HashKey) | Int(n: int) | Peer(entry: Entry)

  function ToEntry(i: AddrInfo): Entry { Entry(i.address, i.source, i.lastSuccess, i.attempts) }

  function FromEntry(e: Entry): AddrInfo {
    NewInfo(e.address, e.source).(lastSuccess := e.lastSuccess, attempts := e.attempts)
  }

  /** Exclusive or with bit 30 of a two's complement number. */
  function FlipFormatBit(n: int): int { if n / FORMAT_BIT % 2 == 0 then n + FORMAT_BIT else n - FORMAT_BIT }

  // ---------------------------------------------------------------------------------
  // Writing
  // ---------------------------------------------------------------------------------

  /** A set of ids in increasing order. */
  ghost function Sorted(ids: set<int>): seq<int>
    decreases |ids|
  {
    if ids == {} then [] else [Least(ids)] + Sorted(ids - {Least(ids)})
  }

  /** How many of the ids come before `id`. */
  function Rank(ids: set<int>, id: int): nat { |set i | i in ids && i < id| }

  ghost function Peers(info: Infos, ids: seq<int>): (ts: seq<Token>)
    requires forall k :: 0 <= k < |ids| ==> Nth(ids, k) in info
    ensures |ts| == |ids| && forall k :: 0 <= k < |ids| ==> ts[k] == Peer(ToEntry(info[Nth(ids, k)]))
  {
    seq(|ids|, k requires 0 <= k < |ids| => Peer(ToEntry(info[Nth(ids, k)])))
  }

  /** The entries of a bucket of the new table below position `p`, by rank. */
  ghost function Indices(s: State, b: nat, p: nat): seq<Token> {
    if p == 0 then []
    else if Slot(b, p - 1) in s.newAt then
      Indices(s, b, p - 1) + [Int(Rank(NewIds(s.info), IdAt(s.newAt, Slot(b, p - 1))))]
    else Indices(s, b, p - 1)
  }

  ghost function BucketTokens(s: State, b: nat): seq<Token> {
    var list := Indices(s, b, BUCKET_SIZE);
    [Int(|list|)] + list
  }

  /** The buckets from `b` on. */
  ghost function BucketsFrom(s: State, b: nat): seq<Token>
    decreases NEW_BUCKETS - b
  {
    if b >= NEW_BUCKETS then [] else BucketTokens(s, b) + BucketsFrom(s, b + 1)
  }

  function Header(key: HashKey, nNew: int, nTried: int): seq<Token> {
    [Byte(1), Byte(32), KeyIs(key), Int(nNew), Int(nTried), Int(FlipFormatBit(NEW_BUCKETS))]
  }

  ghost function Tokens(s: State): seq<Token> {
    SortedIs(NewIds(s.info));
    SortedIs(TriedIds(s.info));
    Header(s.site.key, s.nNew, s.nTried) + Peers(s.info, Sorted(NewIds(s.info)))
      + Peers(s.info, Sorted(TriedIds(s.info)))
    + BucketsFrom(s, 0)
  }

  lemma {:induction false} SortedIs(ids: set<int>)
    ensures |Sorted(ids)| == |ids| && (forall id :: id in ids <==> id in Sorted(ids))
    ensures forall k :: 0 <= k < |ids| ==> Nth(Sorted(ids), k) in ids && Rank(ids, Nth(Sorted(ids), k)) == k
    decreases |ids|
  {
    if ids == {} {
    } else {
      var m := Least(ids);
      var rest := ids - {m};
      SortedIs(rest);
      forall k | 0 <= k < |ids| ensures Nth(Sorted(ids), k) in ids && Rank(ids, Nth(Sorted(ids), k)) == k {
        if k == 0 {
          assert (set i | i in ids && i < m) == {};
        } else {
          var id := Nth(Sorted(rest), k - 1);
          assert Nth(Sorted(ids), k) == id;
          assert (set i | i in ids && i < id) == (set i | i in rest && i < id) + {m};
        }
      }
      forall id | id in ids ensures id in Sorted(ids) {
        if id != m {
          assert id in Sorted(rest);
        }
      }
      forall id | id in Sorted(ids) ensures id in ids {
        assert id == m || id in Sorted(rest);
      }
    }
  }

  // ---------------------------------------------------------------------------------
  // Reading
  // ---------------------------------------------------------------------------------

  /** Appends an entry under a new id. */
  function Appended(s: State, id: int, i: AddrInfo): State {
    s.(info := s.info[id := i.(randomPos := |s.random|)], addr := s.addr[Net(i) := id], random := s.random + [id])
  }

  /** Reads an entry of the new table.  If the positions in the stream cannot be used, it gets
      the slot its source leads to, when that is free. */
  function WithNew(s: State, id: int, e: Entry, usable: bool): State {
    var t := Appended(s, id, FromEntry(e));
    var x := SlotFrom(t.site, t.info[id], e.source);
    if usable || x in t.newAt then t else Linked(t, x, id)
  }

  /** Reads an entry of the tried table; it is lost if its slot is taken. */
  function WithTried(s: State, e: Entry): State {
    var i := FromEntry(e);
    var x := TriedSlot(s.site, i);
    if x in s.triedAt then s.(nTried := s.nTried - 1)
    else
      var t := Appended(s, s.idCount, i.(inTried := true));
      // -1 marks a free slot, whatever is meant by it
      t.(triedAt := if s.idCount == -1 then t.triedAt else t.triedAt[x := s.idCount], idCount := s.idCount + 1)
  }

  /** Reads a position of the new table. */
  function WithIndex(s: State, b: nat, index: int, usable: bool): State {
    if 0 <= index < s.nNew && index in s.info then
      var x := NewSlot(s.site, s.info[index], b);
      if usable && x !in s.newAt && s.info[index].refCount < NEW_BUCKETS_PER_ADDRESS then Linked(s, x, index) else s
    else s
  }

  function ReadNew(s: State, ts: seq<Token>, usable: bool): State
    requires forall k :: 0 <= k < |ts| ==> ts[k].Peer?
  {
    if ts == [] then s
    else var n := |ts| - 1;
         WithNew(ReadNew(s, ts[..n], usable), n, ts[n].entry, usable)
  }

  function ReadTried(s: State, ts: seq<Token>): State
    requires forall k :: 0 <= k < |ts| ==> ts[k].Peer?
  {
    if ts == [] then s else WithTried(ReadTried(s, ts[..|ts| - 1]), ts[|ts| - 1].entry)
  }

  function ReadIndices(s: State, b: nat, ts: seq<Token>, usable: bool): State
    requires forall k :: 0 <= k < |ts| ==> ts[k].Int?
  {
    if ts == [] then s else WithIndex(ReadIndices(s, b, ts[..|ts| - 1], usable), b, ts[|ts| - 1].n, usable)
  }

  /** Reads buckets `b` to `n` of the new table. */
  function ReadBuckets(s: State, b: nat, n: int, ts: seq<Token>, usable: bool): Option<State>
    decreases |ts|
  {
    if b >= n then Some(s)
    else if ts == [] || !ts[0].Int? then None
    else
      var size := Max(ts[0].n, 0);
      if |ts| <= size || exists k :: 1 <= k <= size && !ts[k].Int? then None
      else ReadBuckets(ReadIndices(s, b, ts[1..1 + size], usable), b + 1, n, ts[1 + size..], usable)
  }

  // ---------------------------------------------------------------------------------
  // The image of a state under new ids
  // ---------------------------------------------------------------------------------

  /** The slots among `done` that are occupied. */
  function Restricted(newAt: map<Slot, int>, done: set<Slot>): map<Slot, int> {
    map x | x in newAt && x in done :: IdAt(newAt, x)
  }

  /** An entry read back: what is kept in memory only is lost, the place is as given. */
  function Revived(i: AddrInfo, refs: nat, pos: int): AddrInfo {
    i.(lastTry := 0, lastCountAttempt := 0, refCount := refs, randomPos := pos)
  }

  /** The entries under their new ids. */
  ghost predicate InfoImage(info: Infos, newAt: map<Slot, int>, done: set<Slot>, ids: seq<int>, infoT: Infos) {
    && Distinct(ids)
    && (forall k :: k in infoT <==> 0 <= k < |ids|)
    && (forall k :: 0 <= k < |ids| ==>
                      && Nth(ids, k) in info
                      && infoT[k] == Revived(info[Nth(ids, k)], |SlotsOf(Restricted(newAt, done), Nth(ids, k))|, k))
  }

  ghost predicate AddrImage(info: Infos, ids: seq<int>, addrT: map<NetAddr, int>) {
    && (forall k :: 0 <= k < |ids| && Nth(ids, k) in info ==>
                      Net(info[Nth(ids, k)]) in addrT && IdOf(addrT, Net(info[Nth(ids, k)])) == k)
    && (forall a :: a in addrT ==>
                      && 0 <= IdOf(addrT, a) < |ids| && Nth(ids, IdOf(addrT, a)) in info
                      && Net(info[Nth(ids, IdOf(addrT, a))]) == a)
  }

  ghost predicate NewImage(newAt: map<Slot, int>, done: set<Slot>, ids: seq<int>, newT: map<Slot, int>) {
    && (forall x :: x in newT <==> x in newAt && x in done)
    && (forall x :: x in newT ==> 0 <= IdAt(newT, x) < |ids| && x in newAt && Nth(ids, IdAt(newT, x)) == IdAt(newAt, x))
  }

  ghost predicate TriedImage(site: Site, info: Infos, ids: seq<int>, triedT: map<Slot, int>) {
    && (forall x :: x in triedT ==>
                      && 0 <= IdAt(triedT, x) < |ids| && Nth(ids, IdAt(triedT, x)) in info
                      && info[Nth(ids, IdAt(triedT, x))].inTried
                      && x == TriedSlot(site, info[Nth(ids, IdAt(triedT, x))]))
    && (forall k :: 0 <= k < |ids| && Nth(ids, k) in info && info[Nth(ids, k)].inTried ==>
                      TriedSlot(site, info[Nth(ids, k)]) in triedT
                      && IdAt(triedT, TriedSlot(site, info[Nth(ids, k)])) == k)
  }

  ghost predicate InOrder(random: seq<int>, n: nat) { |random| == n && forall k :: 0 <= k < n ==> Nth(random, k) == k }

  /** `t` holds the entries `ids` of `s`, the k-th under id k, in tried if they were, and in
      those of their slots of the new table that are in `done`. */
  ghost predicate Image(s: State, ids: seq<int>, t: State, done: set<Slot>) {
    && t.site == s.site && InfoImage(s.info, s.newAt, done, ids, t.info) && AddrImage(s.info, ids, t.addr)
    && NewImage(s.newAt, done, ids, t.newAt) && TriedImage(s.site, s.info, ids, t.triedAt) && InOrder(t.random, |ids|)
  }

  lemma NoneDone(newAt: map<Slot, int>, id: int)
    ensures SlotsOf(Restricted(newAt, {}), id) == {}
  {}

  /** Another entry under the next id. */
  lemma AppendedImage(s: State, ids: seq<int>, t: State, id: int, i: AddrInfo)
    requires Index(s.info, s.addr) && Image(s, ids, t, {}) && id in s.info
             && (forall k :: 0 <= k < |ids| ==> Nth(ids, k) != id)
    requires i.(randomPos := |ids|) == Revived(s.info[id], 0, |ids|)
    ensures var u := Appended(t, |ids|, i);
            && InfoImage(s.info, s.newAt, {}, ids + [id], u.info) && AddrImage(s.info, ids + [id], u.addr)
            && NewImage(s.newAt, {}, ids + [id], u.newAt) && InOrder(u.random, |ids| + 1)
  {
    hide TriedImage, AddrImage, InfoImage;
    var u := Appended(t, |ids|, i);
    assert forall k :: 0 <= k < |ids| ==> Nth(u.random, k) == Nth(t.random, k);
    assert Nth(u.random, |ids|) == |ids|;
    AppendedInfo(s.info, s.newAt, ids, t.info, id);
    AppendedAddr(s, ids, t, id);
  }

  lemma AppendedInfo(info: Infos, newAt: map<Slot, int>, ids: seq<int>, infoT: Infos, id: int)
    requires InfoImage(info, newAt, {}, ids, infoT) && id in info && (forall k :: 0 <= k < |ids| ==> Nth(ids, k) != id)
    ensures InfoImage(info, newAt, {}, ids + [id], infoT[|ids| := Revived(info[id], 0, |ids|)])
    ensures forall k :: 0 <= k < |ids| ==> Nth(ids, k) in info
  {
    hide SlotsOf, Restricted;
    NoneDone(newAt, id);
    var more := ids + [id];
    assert forall k :: 0 <= k < |ids| ==> Nth(more, k) == Nth(ids, k) == more[k] == ids[k];
    assert Nth(more, |ids|) == id == more[|ids|];
  }

  lemma AppendedAddr(s: State, ids: seq<int>, t: State, id: int)
    requires Index(s.info, s.addr) && AddrImage(s.info, ids, t.addr)
    requires id in s.info && (forall k :: 0 <= k < |ids| ==> Nth(ids, k) != id && Nth(ids, k) in s.info)
    ensures AddrImage(s.info, ids + [id], t.addr[Net(s.info[id]) := |ids|])
  {
    var (more, addr) := (ids + [id], t.addr[Net(s.info[id]) := |ids|]);
    assert forall k :: 0 <= k < |ids| ==> Nth(more, k) == Nth(ids, k);
    assert Nth(more, |ids|) == id;
    forall k | 0 <= k < |ids| ensures Net(s.info[Nth(ids, k)]) != Net(s.info[id]) {
      assert IdOf(s.addr, Net(s.info[Nth(ids, k)])) == Nth(ids, k);
    }
  }

  lemma NewStep(s: State, ids: seq<int>, t: State, id: int)
    requires Check(s) && Image(s, ids, t, {}) && id in s.info && !s.info[id].inTried
    requires forall k :: 0 <= k < |ids| ==> Nth(ids, k) != id
    ensures Image(s, ids + [id], WithNew(t, |ids|, ToEntry(s.info[id]), true), {})
  {
    hide Index, Random, NewTable, TriedTable, RefCounts, InfoImage, AddrImage, NewImage, TriedSlot;
    AppendedImage(s, ids, t, id, FromEntry(ToEntry(s.info[id])));
    var more := ids + [id];
    assert forall k :: 0 <= k < |ids| ==> Nth(more, k) == Nth(ids, k);
    assert Nth(more, |ids|) == id;
  }

  lemma TriedStep(s: State, ids: seq<int>, t: State, id: int)
    requires Check(s) && Image(s, ids, t, {}) && id in s.info && s.info[id].inTried && t.idCount == |ids|
    requires forall k :: 0 <= k < |ids| ==> Nth(ids, k) != id
    ensures var u := WithTried(t, ToEntry(s.info[id]));
            Image(s, ids + [id], u, {}) && u == t.(info := u.info, addr := u.addr, random := u.random,
              triedAt := u.triedAt, idCount := |ids| + 1)
  {
    hide Index, Random, NewTable, RefCounts, InfoImage, AddrImage, NewImage, TriedSlot;
    var i := FromEntry(ToEntry(s.info[id]));
    AppendedImage(s, ids, t, id, i.(inTried := true));
    SlotsFixed(s.site, i, s.info[id], 0);
    var more := ids + [id];
    assert forall k :: 0 <= k < |ids| ==> Nth(more, k) == Nth(ids, k);
    assert Nth(more, |ids|) == id;
    var x := TriedSlot(s.site, s.info[id]);
    assert x !in t.triedAt;
    assert forall y :: y in t.triedAt ==> IdAt(t.triedAt[x := |ids|], y) == IdAt(t.triedAt, y);
  }

  lemma IndexStep(s: State, ids: seq<int>, t: State, done: set<Slot>, x: Slot, k: nat)
    requires Check(s) && Image(s, ids, t, done) && x in s.newAt && x !in done && k < |ids| && k < t.nNew
    requires Nth(ids, k) == IdAt(s.newAt, x)
    ensures var u := WithIndex(t, x.bucket, k, true);
            Image(s, ids, u, done + {x}) && u == t.(info := u.info, newAt := u.newAt)
  {
    hide Index, Random, TriedTable, AddrImage, TriedSlot, TriedImage, InOrder, NewSlot, SlotsOf, Restricted;
    var id := IdAt(s.newAt, x);
    SlotsFixed(s.site, s.info[id], t.info[k], x.bucket);
    assert x == NewSlot(t.site, t.info[k], x.bucket);
    assert x !in t.newAt;
    MoreDone(s.newAt, done, x);
    assert t.info[k].refCount < NEW_BUCKETS_PER_ADDRESS;
    var u := WithIndex(t, x.bucket, k, true);
    assert u == Linked(t, x, k);
    IndexedInfo(s.info, s.newAt, done, ids, t.info, x, k);
    IndexedNew(s.newAt, done, ids, t.newAt, x, k);
  }

  lemma IndexedInfo(info: Infos, newAt: map<Slot, int>, done: set<Slot>, ids: seq<int>, infoT: Infos, x: Slot, k: nat)
    requires InfoImage(info, newAt, done, ids, infoT) && k < |ids| && x in newAt && x !in done
             && Nth(ids, k) == IdAt(newAt, x)
    ensures InfoImage(info, newAt, done + {x}, ids, infoT[k := infoT[k].(refCount := infoT[k].refCount + 1)])
  {
    hide SlotsOf, Restricted;
    MoreDone(newAt, done, x);
    assert forall j :: 0 <= j < |ids| && j != k ==> Nth(ids, j) != Nth(ids, k) by {
      assert forall j :: 0 <= j < |ids| ==> Nth(ids, j) == ids[j];
    }
  }

  lemma IndexedNew(newAt: map<Slot, int>, done: set<Slot>, ids: seq<int>, newT: map<Slot, int>, x: Slot, k: nat)
    requires NewImage(newAt, done, ids, newT) && k < |ids| && x in newAt && Nth(ids, k) == IdAt(newAt, x)
    ensures NewImage(newAt, done + {x}, ids, newT[x := k])
  {
    assert forall y :: y in newT && y != x ==> IdAt(newT[x := k], y) == IdAt(newT, y);
  }

  lemma MoreDone(newAt: map<Slot, int>, done: set<Slot>, x: Slot)
    requires x in newAt && x !in done
    ensures var (a, b, id) := (Restricted(newAt, done), Restricted(newAt, done + {x}), IdAt(newAt, x));
            && |SlotsOf(b, id)| == |SlotsOf(a, id)| + 1 <= |SlotsOf(newAt, id)|
            && (forall j :: j != id ==> SlotsOf(b, j) == SlotsOf(a, j))
  {
    var (a, b, id) := (Restricted(newAt, done), Restricted(newAt, done + {x}), IdAt(newAt, x));
    assert b == a[x := id];
    SlotsWith(a, x, id);
    assert forall y :: y in b ==> IdAt(b, y) == IdAt(newAt, y);
    SubsetCount(SlotsOf(b, id), SlotsOf(newAt, id));
  }

  // ---------------------------------------------------------------------------------
  // Reading a whole stream
  // ---------------------------------------------------------------------------------

  /** Entries sit where the random order says, and ids are below `bound`. */
  ghost predicate Loading(s: State, bound: int) {
    Random(s.info, s.random) && forall id :: id in s.info ==> id < bound
  }

  lemma AppendedLoading(s: State, id: int, i: AddrInfo)
    requires Loading(s, id)
    ensures Loading(Appended(s, id, i), id + 1)
  {
    AppendRandom(s.info, s.random, id, i.(randomPos := |s.random|));
  }

  lemma LinkedLoading(s: State, x: Slot, id: int, bound: int)
    requires Loading(s, bound) && id in s.info
    ensures Loading(Linked(s, x, id), bound)
  {}

  lemma {:induction false} ReadNewLoading(s: State, ts: seq<Token>, usable: bool)
    requires Loading(s, 0) && forall k :: 0 <= k < |ts| ==> ts[k].Peer?
    ensures Loading(ReadNew(s, ts, usable), |ts|)
  {
    hide Random, SlotFrom;
    if ts == [] {
    } else {
      var n := |ts| - 1;
      ReadNewLoading(s, ts[..n], usable);
      var (u, i) := (ReadNew(s, ts[..n], usable), FromEntry(ts[n].entry));
      AppendedLoading(u, n, i);
      var (t, x) := (Appended(u, n, i), AppendedSlot(u, n, i));
      if !(usable || x in t.newAt) {
        LinkedLoading(t, x, n, n + 1);
      }
    }
  }

  ghost function AppendedSlot(s: State, id: int, i: AddrInfo): Slot {
    SlotFrom(s.site, Appended(s, id, i).info[id], i.source)
  }

  lemma {:induction false} ReadTriedLoading(s: State, ts: seq<Token>)
    requires Loading(s, s.idCount) && forall k :: 0 <= k < |ts| ==> ts[k].Peer?
    ensures Loading(ReadTried(s, ts), ReadTried(s, ts).idCount)
  {
    hide Random, TriedSlot, Appended;
    if ts == [] {
    } else {
      ReadTriedLoading(s, ts[..|ts| - 1]);
      var (u, i) := (ReadTried(s, ts[..|ts| - 1]), FromEntry(ts[|ts| - 1].entry));
      AppendedLoading(u, u.idCount, i.(inTried := true));
    }
  }

  lemma {:induction false} ReadIndicesLoading(s: State, b: nat, ts: seq<Token>, usable: bool)
    requires Loading(s, s.idCount) && forall k :: 0 <= k < |ts| ==> ts[k].Int?
    ensures Loading(ReadIndices(s, b, ts, usable), s.idCount) && ReadIndices(s, b, ts, usable).idCount == s.idCount
  {
    hide Random, NewSlot;
    if ts == [] {
    } else {
      ReadIndicesLoading(s, b, ts[..|ts| - 1], usable);
      var (u, index) := (ReadIndices(s, b, ts[..|ts| - 1], usable), ts[|ts| - 1].n);
      if index in u.info {
        LinkedLoading(u, NewSlot(u.site, u.info[index], b), index, s.idCount);
      }
    }
  }

  lemma {:induction false} ReadBucketsLoading(s: State, b: nat, n: int, ts: seq<Token>, usable: bool)
    requires Loading(s, s.idCount)
    ensures ReadBuckets(s, b, n, ts, usable).Some? ==>
            Random(ReadBuckets(s, b, n, ts, usable).value.info, ReadBuckets(s, b, n, ts, usable).value.random)
    decreases |ts|
  {
    hide ReadIndices;
    if ReadBuckets(s, b, n, ts, usable).Some? && b < n {
      var size := Max(ts[0].n, 0);
      ReadIndicesLoading(s, b, ts[1..1 + size], usable);
      ReadBucketsLoading(ReadIndices(s, b, ts[1..1 + size], usable), b + 1, n, ts[1 + size..], usable);
    }
  }

  /** Drops the entries without a place, in increasing order of id. */
  ghost function Pruned(s: State, ids: set<int>): State
    requires Random(s.info, s.random)
    decreases |ids|
  {
    if ids == {} then s
    else
      var id := Least(ids);
      if Limbo(s, id) then
        DeletedRandom(s, id);
        Pruned(Deleted(s, id), ids - {id})
      else Pruned(s, ids - {id})
  }

  lemma DeletedRandom(s: State, id: int)
    requires Random(s.info, s.random) && id in s.info
    ensures Random(Deleted(s, id).info, Deleted(s, id).random)
  {
    var (i, j) := (s.info[id].randomPos, |s.random| - 1);
    var (u, t) := (Swapped(s, i, j), Deleted(s, id));
    if i != j {
      SwapRandom(s.info, s.random, i, j, u.info, u.random);
    }
    assert Nth(u.random, j) == id;
    assert forall k :: 0 <= k < j ==> Nth(t.random, k) == Nth(u.random, k);
  }

  predicate HeaderReads(ts: seq<Token>) {
    && |ts| >= 6 && ts[0].Byte? && ts[1] == Byte(32) && ts[2].KeyIs? && ts[3].Int? && ts[4].Int? && ts[5].Int?
    && ts[3].n <= MAX_NEW && ts[4].n <= MAX_TRIED
  }

  predicate PeersFollow(ts: seq<Token>, n: int) { |ts| >= n && forall k :: 0 <= k < n ==> ts[k].Peer? }

  /** What follows the header, before entries without a place are dropped. */
  ghost function Unpruned(start: State, ts: seq<Token>, buckets: int, usable: bool): (r: Option<State>)
    requires start.info == map[] && start.random == []
    ensures r.Some? ==> Random(r.value.info, r.value.random)
  {
    var n := Max(start.nNew, 0);
    var m := n + Max(start.nTried, 0);
    if !PeersFollow(ts, n) || !PeersFollow(ts[n..], m - n) then None
    else
      ReadNewLoading(start, ts[..n], usable);
      ReadNewCounts(start, ts[..n], usable);
      var t := ReadNew(start, ts[..n], usable).(idCount := start.nNew);
      ReadTriedLoading(t, ts[n..][..m - n]);
      var u := ReadTried(t, ts[n..][..m - n]);
      ReadBucketsLoading(u, 0, buckets, ts[m..], usable);
      ReadBuckets(u, 0, buckets, ts[m..], usable)
  }

  /** What follows the header. */
  ghost function LoadBody(start: State, ts: seq<Token>, buckets: int, usable: bool): Option<State>
    requires start.info == map[] && start.random == []
  {
    match Unpruned(start, ts, buckets, usable)
    case None => None
    case Some(v) => Some(Pruned(v, v.info.Keys))
  }

  lemma {:induction false} ReadNewCounts(s: State, ts: seq<Token>, usable: bool)
    requires forall k :: 0 <= k < |ts| ==> ts[k].Peer?
    ensures var t := ReadNew(s, ts, usable); t.nNew == s.nNew && t.nTried == s.nTried
  {
    if ts == [] {
    } else {
      ReadNewCounts(s, ts[..|ts| - 1], usable);
    }
  }

  function Blank(h: Network, key: HashKey, nNew: int, nTried: int, collisions: set<int>): State {
    State(Site(h, key), 0, map[], map[], [], map[], map[], nNew, nTried, 1, collisions)
  }

  /** What a stream reads as; a failure part-way leaves something unspecified behind.  Pending
      collisions are kept. */
  ghost function Load(h: Network, collisions: set<int>, ts: seq<Token>): Option<State> {
    if !HeaderReads(ts) then None
    else
      var buckets := if ts[0].b != 0 then FlipFormatBit(ts[5].n) else ts[5].n;
      var start := Blank(h, ts[2].key, ts[3].n, ts[4].n, collisions);
      LoadBody(start, ts[6..], buckets, ts[0].b == 1 && buckets == NEW_BUCKETS)
  }

  // ---------------------------------------------------------------------------------
  // The round trip
  // ---------------------------------------------------------------------------------

  /** The order in which entries are written. */
  ghost function WriteOrder(s: State): seq<int> { Sorted(NewIds(s.info)) + Sorted(TriedIds(s.info)) }

  lemma {:induction false} NewImageRead(s: State, start: State, n: nat)
    requires Check(s) && n <= |NewIds(s.info)| && Image(s, [], start, {})
    ensures var ids := Sorted(NewIds(s.info));
            && |ids| == |NewIds(s.info)| && (forall k :: 0 <= k < |ids| ==> Nth(ids, k) in s.info)
            && var t := ReadNew(start, Peers(s.info, ids)[..n], true);
            Image(s, ids[..n], t, {}) && t == start.(info := t.info, addr := t.addr, random := t.random)
  {
    hide Index, Random, NewTable, TriedTable, RefCounts, Sorted, Image, Rank, Counted, Pending;
    var ids := Sorted(NewIds(s.info));
    SortedIs(NewIds(s.info));
    if n == 0 {
    } else {
      NewImageRead(s, start, n - 1);
      var ts := Peers(s.info, ids)[..n];
      assert ts[..n - 1] == Peers(s.info, ids)[..n - 1];
      var id := Nth(ids, n - 1);
      NewNotTried(s, id);
      RanksDiffer(NewIds(s.info), n - 1);
      NewStep(s, ids[..n - 1], ReadNew(start, ts[..n - 1], true), id);
      assert ids[..n] == ids[..n - 1] + [id];
    }
  }

  lemma NewNotTried(s: State, id: int)
    requires Check(s) && id in NewIds(s.info)
    ensures id in s.info && !s.info[id].inTried
  {
    hide NewSlot, TriedSlot, Index, Random;
    var x: Slot := Pick(SlotsOf(s.newAt, id));
    assert IdAt(s.newAt, x) == id;
  }

  /** An id occurs only once in a sorted list. */
  lemma RanksDiffer(ids: set<int>, n: nat)
    requires n < |ids|
    ensures |Sorted(ids)| == |ids| && forall k :: 0 <= k < n ==> Nth(Sorted(ids)[..n], k) != Nth(Sorted(ids), n)
  {
    hide Sorted, Rank;
    SortedIs(ids);
    forall k | 0 <= k < n ensures Nth(Sorted(ids)[..n], k) != Nth(Sorted(ids), n) {
      assert Nth(Sorted(ids)[..n], k) == Nth(Sorted(ids), k);
    }
  }

  lemma {:induction false} TriedImageRead(s: State, start: State, n: nat)
    requires Check(s) && n <= |TriedIds(s.info)| && start.idCount == |Sorted(NewIds(s.info))|
    requires Image(s, Sorted(NewIds(s.info)), start, {})
    ensures var (ids, more) := (Sorted(NewIds(s.info)), Sorted(TriedIds(s.info)));
            && |more| == |TriedIds(s.info)| && (forall k :: 0 <= k < |more| ==> Nth(more, k) in s.info)
            && var t := ReadTried(start, Peers(s.info, more)[..n]);
            && Image(s, ids + more[..n], t, {}) && t.idCount == |ids| + n
            && t == start.(info := t.info, addr := t.addr, random := t.random, triedAt := t.triedAt,
               idCount := t.idCount)
  {
    hide Core, Sorted, Image, Rank, Counted, Placed, Pending, WithTried;
    var (ids, more) := (Sorted(NewIds(s.info)), Sorted(TriedIds(s.info)));
    SortedIs(TriedIds(s.info));
    if n == 0 {
      assert ids + more[..0] == ids;
    } else {
      TriedImageRead(s, start, n - 1);
      var ts := Peers(s.info, more)[..n];
      assert ts[..n - 1] == Peers(s.info, more)[..n - 1];
      var id := Nth(more, n - 1);
      NotYetWritten(s, n - 1);
      TriedStep(s, ids + more[..n - 1], ReadTried(start, ts[..n - 1]), id);
      assert ids + more[..n] == ids + more[..n - 1] + [id];
    }
  }

  lemma NotYetWritten(s: State, n: nat)
    requires Check(s) && n < |TriedIds(s.info)|
    ensures var (ids, more) := (Sorted(NewIds(s.info)), Sorted(TriedIds(s.info)));
            |more| == |TriedIds(s.info)| && forall k :: 0 <= k < |ids| + n ==> Nth(ids + more[..n], k) != Nth(more, n)
  {
    hide Core, Counted, Placed, Pending, Sorted, Rank;
    var (ids, more) := (Sorted(NewIds(s.info)), Sorted(TriedIds(s.info)));
    SortedIs(NewIds(s.info));
    SortedIs(TriedIds(s.info));
    RanksDiffer(TriedIds(s.info), n);
    forall k | 0 <= k < |ids| + n ensures Nth(ids + more[..n], k) != Nth(more, n) {
      if k < |ids| {
        assert Nth(ids + more[..n], k) == Nth(ids, k);
        NewNotTried(s, Nth(ids, k));
      } else {
        assert Nth(ids + more[..n], k) == Nth(more[..n], k - |ids|);
      }
    }
  }

  /** The occupied slots of the buckets before `b`, and of `b` below position `p`. */
  function SlotsUpTo(newAt: map<Slot, int>, b: nat, p: nat): set<Slot> {
    set x | x in newAt && (x.bucket < b || (x.bucket == b && x.pos < p))
  }

  lemma {:induction false} IndicesRead(s: State, start: State, b: nat, p: nat)
    requires Check(s) && start.nNew == s.nNew && Image(s, WriteOrder(s), start, SlotsUpTo(s.newAt, b, 0))
    ensures forall k :: 0 <= k < |Indices(s, b, p)| ==> Indices(s, b, p)[k].Int?
    ensures var t := ReadIndices(start, b, Indices(s, b, p), true);
            Image(s, WriteOrder(s), t, SlotsUpTo(s.newAt, b, p)) && t == start.(info := t.info, newAt := t.newAt)
  {
    hide Core, Counted, Placed, Pending, Image, Rank, WriteOrder, WithIndex, SlotsUpTo;
    if p == 0 {
    } else {
      IndicesRead(s, start, b, p - 1);
      var (x, done) := (Slot(b, p - 1), SlotsUpTo(s.newAt, b, p - 1));
      var ts := Indices(s, b, p);
      NextSlot(s.newAt, x);
      if x in s.newAt {
        var k := Rank(NewIds(s.info), IdAt(s.newAt, x));
        assert ts[..|ts| - 1] == Indices(s, b, p - 1);
        RankInOrder(s, x);
        IndexStep(s, WriteOrder(s), ReadIndices(start, b, ts[..|ts| - 1], true), done, x, k);
      }
    }
  }

  lemma NextSlot(newAt: map<Slot, int>, x: Slot)
    ensures var done := SlotsUpTo(newAt, x.bucket, x.pos);
            && x !in done
            && SlotsUpTo(newAt, x.bucket, x.pos + 1) == if x in newAt then done + {x} else done
  {}

  lemma RankInOrder(s: State, x: Slot)
    requires Check(s) && x in s.newAt
    ensures var k := Rank(NewIds(s.info), IdAt(s.newAt, x));
            k < s.nNew && k < |WriteOrder(s)| && Nth(WriteOrder(s), k) == IdAt(s.newAt, x)
  {
    hide Index, Random, NewTable, TriedTable, RefCounts, Rank, Pending, Sorted;
    var (id, ids) := (IdAt(s.newAt, x), Sorted(NewIds(s.info)));
    HolderCounts(s, x);
    SortedIs(NewIds(s.info));
    assert id in ids;
    var j :| 0 <= j < |ids| && ids[j] == id;
    assert Nth(ids, j) == id && Nth(WriteOrder(s), j) == id;
  }

  lemma {:induction false} BucketsRead(s: State, start: State, b: nat)
    requires Check(s) && b <= NEW_BUCKETS && start.nNew == s.nNew
             && Image(s, WriteOrder(s), start, SlotsUpTo(s.newAt, b, 0))
    ensures var r := ReadBuckets(start, b, NEW_BUCKETS, BucketsFrom(s, b), true);
            && r.Some? && Image(s, WriteOrder(s), r.value, SlotsUpTo(s.newAt, NEW_BUCKETS, 0))
            && r.value == start.(info := r.value.info, newAt := r.value.newAt)
    decreases NEW_BUCKETS - b
  {
    hide Index, Random, NewTable, TriedTable, RefCounts, Image, Rank, WriteOrder, Pending, Indices, ReadIndices;
    if b < NEW_BUCKETS {
      var (list, ts) := (Indices(s, b, BUCKET_SIZE), BucketsFrom(s, b));
      IndicesRead(s, start, b, BUCKET_SIZE);
      assert ts[1..1 + |list|] == list && ts[1 + |list|..] == BucketsFrom(s, b + 1);
      WholeBucket(s, b);
      BucketsRead(s, ReadIndices(start, b, list, true), b + 1);
    }
  }

  lemma WholeBucket(s: State, b: nat)
    requires NewTable(s.site, s.info, s.newAt)
    ensures SlotsUpTo(s.newAt, b, BUCKET_SIZE) == SlotsUpTo(s.newAt, b + 1, 0)
    ensures SlotsUpTo(s.newAt, NEW_BUCKETS, 0) == s.newAt.Keys
  {
    hide NewSlot;
  }

  // The tables cannot hold more than the reader accepts.

  function Row(b: nat, w: nat): set<Slot> { if w == 0 then {} else Row(b, w - 1) + {Slot(b, w - 1)} }

  function Grid(n: nat, w: nat): set<Slot> { if n == 0 then {} else Grid(n - 1, w) + Row(n - 1, w) }

  lemma {:induction false} RowIs(b: nat, w: nat)
    ensures |Row(b, w)| <= w && forall p: nat :: p < w ==> Slot(b, p) in Row(b, w)
  {
    if w == 0 {
    } else {
      RowIs(b, w - 1);
      forall p: nat | p < w ensures Slot(b, p) in Row(b, w) {
        assert p == w - 1 || Slot(b, p) in Row(b, w - 1);
      }
    }
  }

  lemma {:induction false} GridIs(n: nat, w: nat)
    ensures |Grid(n, w)| <= n * w && forall b: nat, p: nat :: b < n && p < w ==> Slot(b, p) in Grid(n, w)
  {
    if n == 0 {
    } else {
      GridIs(n - 1, w);
      RowIs(n - 1, w);
      assert (n - 1) * w + w == n * w;
      forall b: nat, p: nat | b < n && p < w ensures Slot(b, p) in Grid(n, w) {
        assert b == n - 1 || Slot(b, p) in Grid(n - 1, w);
      }
    }
  }

  /** Ids that each hold a slot are no more than the slots. */
  lemma {:induction false} HoldersFit(ids: set<int>, table: map<Slot, int>)
    requires forall id :: id in ids ==> SlotsOf(table, id) != {}
    ensures |ids| <= |table|
    decreases |ids|
  {
    if ids == {} {
    } else {
      var id: int := Pick(ids);
      var x: Slot := Pick(SlotsOf(table, id));
      SlotsWithout(table, x);
      assert table.Keys == (table - {x}).Keys + {x};
      HoldersFit(ids - {id}, table - {x});
    }
  }

  lemma TableFits(table: map<Slot, int>, n: nat, w: nat)
    requires forall x :: x in table ==> x.bucket < n && x.pos < w
    ensures |table| <= n * w
  {
    hide Grid;
    GridIs(n, w);
    forall x | x in table.Keys ensures x in Grid(n, w) {
      assert x == Slot(x.bucket, x.pos);
    }
    SubsetCount(table.Keys, Grid(n, w));
  }

  lemma TablesFit(s: State)
    requires Check(s)
    ensures s.nNew <= MAX_NEW && s.nTried <= MAX_TRIED
  {
    hide Index, Random, NewSlot, TriedSlot, SlotsOf;
    forall id | id in NewIds(s.info) ensures SlotsOf(s.newAt, id) != {} {}
    forall id | id in TriedIds(s.info) ensures SlotsOf(s.triedAt, id) != {} {
      SlotsHave(s.triedAt, TriedSlot(s.site, s.info[id]));
    }
    HoldersFit(NewIds(s.info), s.newAt);
    HoldersFit(TriedIds(s.info), s.triedAt);
    TableFits(s.newAt, NEW_BUCKETS, BUCKET_SIZE);
    TableFits(s.triedAt, TRIED_BUCKETS, BUCKET_SIZE);
  }

  lemma SlotsHave(table: map<Slot, int>, x: Slot)
    requires x in table
    ensures SlotsOf(table, IdAt(table, x)) != {}
  {
    assert x in SlotsOf(table, IdAt(table, x));
  }

  /** The same state but for the ids, the random order and what is kept in memory only: entry
      `ids[k]` is now entry k. */
  ghost predicate SameUpToIds(s: State, t: State, ids: seq<int>) {
    && t.site == s.site && t.nNew == s.nNew && t.nTried == s.nTried && t.idCount == |ids|
    && Distinct(ids) && (forall id :: id in s.info <==> id in ids) && (forall k :: k in t.info <==> 0 <= k < |ids|)
    && (forall k :: 0 <= k < |ids| ==>
                      && Nth(ids, k) in s.info
                      && t.info[k] == s.info[Nth(ids, k)].(lastTry := 0, lastCountAttempt := 0, randomPos := k))
    && AddrImage(s.info, ids, t.addr) && SameTable(s.newAt, ids, t.newAt) && SameTable(s.triedAt, ids, t.triedAt)
    && InOrder(t.random, |ids|)
  }

  ghost predicate SameTable(table: map<Slot, int>, ids: seq<int>, tableT: map<Slot, int>) {
    && (forall x :: x in table <==> x in tableT)
    && (forall x :: x in tableT ==> 0 <= IdAt(tableT, x) < |ids| && Nth(ids, IdAt(tableT, x)) == IdAt(table, x))
  }

  lemma FullImage(s: State, t: State)
    requires Check(s) && Image(s, WriteOrder(s), t, s.newAt.Keys) && t.nNew == s.nNew && t.nTried == s.nTried
    requires t.idCount == |WriteOrder(s)|
    ensures SameUpToIds(s, t, WriteOrder(s)) && forall k :: !Limbo(t, k)
  {
    hide Index, Random, NewTable, TriedTable, SlotsOf, Restricted, WriteOrder, AddrImage, TriedImage, InOrder, NewSlot,
         Counted, Pending;
    hide NewImage, SameTable;
    var ids := WriteOrder(s);
    RestrictedToAll(s.newAt);
    EverybodyWritten(s);
    TriedSame(s.site, s.info, s.triedAt, ids, t.triedAt);
    NewSame(s.newAt, ids, t.newAt);
    forall k | k in t.info ensures !Limbo(t, k) {
      assert Nth(ids, k) in s.info;
    }
  }

  lemma NewSame(newAt: map<Slot, int>, ids: seq<int>, newT: map<Slot, int>)
    requires NewImage(newAt, newAt.Keys, ids, newT)
    ensures SameTable(newAt, ids, newT)
  {}

  lemma RestrictedToAll(newAt: map<Slot, int>)
    ensures Restricted(newAt, newAt.Keys) == newAt
  {}

  lemma TriedSame(site: Site, info: Infos, triedAt: map<Slot, int>, ids: seq<int>, triedT: map<Slot, int>)
    requires TriedTable(site, info, triedAt) && TriedImage(site, info, ids, triedT)
    requires forall id :: id in info <==> id in ids
    ensures SameTable(triedAt, ids, triedT)
  {
    hide TriedSlot;
    forall x | x in triedAt ensures x in triedT {
      var k :| 0 <= k < |ids| && ids[k] == IdAt(triedAt, x);
      assert Nth(ids, k) == IdAt(triedAt, x);
    }
  }

  lemma EverybodyWritten(s: State)
    requires Check(s)
    ensures forall id :: id in s.info <==> id in WriteOrder(s)
  {
    hide Index, Random, NewTable, TriedTable, RefCounts, Pending, Sorted, Rank;
    SortedIs(NewIds(s.info));
    SortedIs(TriedIds(s.info));
    forall id | id in s.info ensures id in WriteOrder(s) {
      assert id in NewIds(s.info) || id in TriedIds(s.info);
    }
  }

  lemma {:induction false} NothingPruned(t: State, ids: set<int>)
    requires Random(t.info, t.random) && forall k :: !Limbo(t, k)
    ensures Pruned(t, ids) == t
    decreases |ids|
  {
    hide Random;
    if ids == {} {
    } else {
      NothingPruned(t, ids - {Least(ids)});
    }
  }

  lemma ImageRandom(s: State, ids: seq<int>, t: State, done: set<Slot>)
    requires Image(s, ids, t, done)
    ensures Random(t.info, t.random)
  {
    hide AddrImage, NewImage, TriedImage, SlotsOf, Restricted;
  }

  lemma TokensLayout(s: State)
    requires Check(s)
    ensures forall k :: 0 <= k < |Sorted(NewIds(s.info))| ==> Nth(Sorted(NewIds(s.info)), k) in s.info
    ensures forall k :: 0 <= k < |Sorted(TriedIds(s.info))| ==> Nth(Sorted(TriedIds(s.info)), k) in s.info
    ensures s.nNew == |Sorted(NewIds(s.info))| && s.nTried == |Sorted(TriedIds(s.info))|
    ensures HeaderReads(Tokens(s)) && Tokens(s)[..6] == Header(s.site.key, s.nNew, s.nTried)
    ensures Tokens(s)[6..] == Peers(s.info, Sorted(NewIds(s.info))) + Peers(s.info, Sorted(TriedIds(s.info)))
            + BucketsFrom(s, 0)
  {
    hide Core, Pending, Placed, Sorted, Rank, BucketsFrom, MAX_NEW, MAX_TRIED, Peers;
    TablesFit(s);
    SortedIs(NewIds(s.info));
    SortedIs(TriedIds(s.info));
    var (ts, a) := (Tokens(s), Header(s.site.key, s.nNew, s.nTried));
    var rest := Peers(s.info, Sorted(NewIds(s.info))) + Peers(s.info, Sorted(TriedIds(s.info))) + BucketsFrom(s, 0);
    assert ts == a + rest;
    assert ts[..6] == a && ts[6..] == rest;
    assert ts[0] == a[0] && ts[1] == a[1] && ts[2] == a[2] && ts[3] == a[3] && ts[4] == a[4] && ts[5] == a[5];
  }

  lemma BodySplits(a: seq<Token>, b: seq<Token>, c: seq<Token>)
    requires (forall k :: 0 <= k < |a| ==> a[k].Peer?) && (forall k :: 0 <= k < |b| ==> b[k].Peer?)
    ensures var ts := a + b + c;
            && PeersFollow(ts, |a|) && PeersFollow(ts[|a|..], |b|)
            && ts[..|a|] == a && ts[|a|..][..|b|] == b && ts[|a| + |b|..] == c
  {}

  lemma FlipTwice(n: int)
    ensures FlipFormatBit(FlipFormatBit(n)) == n
  {
    var q, r := n / FORMAT_BIT, n % FORMAT_BIT;
    assert (n + FORMAT_BIT) / FORMAT_BIT == q + 1 && (n - FORMAT_BIT) / FORMAT_BIT == q - 1;
  }

  /** Reading back what was written gives the same tables up to ids, and loses nobody. */
  lemma RoundTrip(s: State, collisions: set<int>)
    requires Check(s)
    ensures var r := Load(s.site.h, collisions, Tokens(s));
            r.Some? && SameUpToIds(s, r.value, WriteOrder(s)) && r.value.collisions == collisions
  {
    hide Check, Sorted, Rank, BucketsFrom, MAX_NEW, MAX_TRIED, Tokens, SameUpToIds, Image;
    hide LoadBody, Peers, WriteOrder;
    TokensLayout(s);
    FlipTwice(NEW_BUCKETS);
    var (ts, a) := (Tokens(s), Header(s.site.key, s.nNew, s.nTried));
    assert |ts| >= 6 && ts[..6] == a;
    assert ts[0] == ts[..6][0] && ts[2] == ts[..6][2] && ts[3] == ts[..6][3] && ts[4] == ts[..6][4]
           && ts[5] == ts[..6][5];
    BodyReads(s, Blank(s.site.h, s.site.key, s.nNew, s.nTried, collisions));
  }

  lemma BodyReads(s: State, start: State)
    requires Check(s) && start == Blank(s.site.h, s.site.key, s.nNew, s.nTried, start.collisions)
    ensures forall k :: 0 <= k < |Sorted(NewIds(s.info))| ==> Nth(Sorted(NewIds(s.info)), k) in s.info
    ensures forall k :: 0 <= k < |Sorted(TriedIds(s.info))| ==> Nth(Sorted(TriedIds(s.info)), k) in s.info
    ensures var ts := Peers(s.info, Sorted(NewIds(s.info))) + Peers(s.info, Sorted(TriedIds(s.info)))
            + BucketsFrom(s, 0);
            var r := LoadBody(start, ts, NEW_BUCKETS, true);
            r.Some? && SameUpToIds(s, r.value, WriteOrder(s)) && r.value.collisions == start.collisions
  {
    hide Check, Sorted, Rank, BucketsFrom, SameUpToIds, Image, ReadNew, ReadTried, ReadBuckets, Peers, Pruned,
         WriteOrder, Tokens;
    hide PeersFollow;
    TokensLayout(s);
    EmptyImage(s, start);
    PeersRead(s, start);
    var (a, b, c) := (Peers(s.info, Sorted(NewIds(s.info))), Peers(s.info, Sorted(TriedIds(s.info))),
        BucketsFrom(s, 0));
    BodySplits(a, b, c);
    var t := ReadTried(ReadNew(start, a, true).(idCount := s.nNew), b);
    BucketsRead(s, t, 0);
    var u := ReadBuckets(t, 0, NEW_BUCKETS, c, true).value;
    FinishedImage(s, u);
    NothingPruned(u, u.info.Keys);
  }

  lemma PeersRead(s: State, start: State)
    requires Check(s) && Image(s, [], start, {})
    ensures forall k :: 0 <= k < |Sorted(NewIds(s.info))| ==> Nth(Sorted(NewIds(s.info)), k) in s.info
    ensures forall k :: 0 <= k < |Sorted(TriedIds(s.info))| ==> Nth(Sorted(TriedIds(s.info)), k) in s.info
    ensures var t := ReadNew(start, Peers(s.info, Sorted(NewIds(s.info))), true).(idCount := s.nNew);
            var u := ReadTried(t, Peers(s.info, Sorted(TriedIds(s.info))));
            && Image(s, WriteOrder(s), u, SlotsUpTo(s.newAt, 0, 0)) && u.idCount == |WriteOrder(s)|
            && u == start.(info := u.info, addr := u.addr, random := u.random, triedAt := u.triedAt,
               idCount := u.idCount)
  {
    hide Core, Pending, Placed, Sorted, Rank, Image, ReadNew, ReadTried, Peers;
    var (a, b) := (Sorted(NewIds(s.info)), Sorted(TriedIds(s.info)));
    NewImageRead(s, start, s.nNew);
    assert Peers(s.info, a)[..s.nNew] == Peers(s.info, a) && a[..s.nNew] == a;
    var t := ReadNew(start, Peers(s.info, a), true);
    ImageIgnores(s, a, t, s.nNew);
    TriedImageRead(s, t.(idCount := s.nNew), s.nTried);
    assert Peers(s.info, b)[..s.nTried] == Peers(s.info, b) && a + b[..s.nTried] == WriteOrder(s);
    assert SlotsUpTo(s.newAt, 0, 0) == {};
  }

  lemma EmptyImage(s: State, start: State)
    requires start.site == s.site && start.info == map[] && start.addr == map[] && start.random == []
    requires start.newAt == map[] && start.triedAt == map[]
    ensures Image(s, [], start, {})
  {}

  lemma ImageIgnores(s: State, ids: seq<int>, t: State, n: int)
    requires Image(s, ids, t, {})
    ensures Image(s, ids, t.(idCount := n), {})
  {}

  lemma FinishedImage(s: State, t: State)
    requires Check(s) && Image(s, WriteOrder(s), t, SlotsUpTo(s.newAt, NEW_BUCKETS, 0)) && t.nNew == s.nNew
             && t.nTried == s.nTried
    requires t.idCount == |WriteOrder(s)|
    ensures Random(t.info, t.random) && SameUpToIds(s, t, WriteOrder(s)) && forall k :: !Limbo(t, k)
  {
    hide Index, Random, TriedTable, RefCounts, Image, SameUpToIds, Pending, Counted, NewTable;
    WholeBucket(s, 0);
    ImageRandom(s, WriteOrder(s), t, s.newAt.Keys);
    FullImage(s, t);
  }

  /** Positions of a list that hold one of `good`. */
  ghost function Positions(ids: seq<int>, good: set<int>): set<int> { set k | 0 <= k < |ids| && Nth(ids, k) in good }

  lemma {:induction false} PositionsCount(ids: seq<int>, good: set<int>)
    requires Distinct(ids) && forall id :: id in good ==> id in ids
    ensures |Positions(ids, good)| == |good|
  {
    if ids == [] {
      assert good == {} && Positions(ids, good) == {};
    } else {
      hide Positions;
      var last := ids[|ids| - 1];
      var (rest, less) := (ids[..|ids| - 1], good - {last});
      forall id | id in less ensures id in rest {
        var k :| 0 <= k < |ids| && ids[k] == id;
        assert rest[k] == id;
      }
      PositionsCount(rest, less);
      PositionsSnoc(ids, good);
    }
  }

  lemma PositionsSnoc(ids: seq<int>, good: set<int>)
    requires Distinct(ids) && ids != []
    ensures var (n, last) := (|ids| - 1, ids[|ids| - 1]);
            var before := Positions(ids[..n], good - {last});
            n !in before && Positions(ids, good) == if last in good then before + {n} else before
  {
    var (n, last) := (|ids| - 1, ids[|ids| - 1]);
    var rest := ids[..n];
    assert forall k :: 0 <= k < n ==> Nth(ids, k) == Nth(rest, k) == ids[k] && Nth(ids, k) != last;
    assert Nth(ids, n) == last;
  }

  lemma LoadedIndex(s: State, t: State, ids: seq<int>)
    requires Check(s) && SameUpToIds(s, t, ids)
    ensures Index(t.info, t.addr) && Random(t.info, t.random)
  {
    hide NewTable, TriedTable, RefCounts, SameTable, Counted, Pending;
  }

  lemma LoadedNew(s: State, t: State, ids: seq<int>)
    requires Check(s) && SameUpToIds(s, t, ids)
    ensures NewTable(t.site, t.info, t.newAt) && RefCounts(t.info, t.newAt)
  {
    hide NewSlot, TriedTable, Index, Random, AddrImage, InOrder, Counted, Pending;
    forall x | x in t.newAt
      ensures NewSlot(t.site, t.info[IdAt(t.newAt, x)], x.bucket) == NewSlot(s.site, s.info[IdAt(s.newAt, x)], x.bucket)
    {
      SlotsFixed(s.site, t.info[IdAt(t.newAt, x)], s.info[IdAt(s.newAt, x)], x.bucket);
    }
    forall k | 0 <= k < |ids| ensures SlotsOf(t.newAt, k) == SlotsOf(s.newAt, Nth(ids, k)) {
      SlotsOfImage(s.newAt, ids, t.newAt, k);
    }
  }

  lemma SlotsOfImage(table: map<Slot, int>, ids: seq<int>, tableT: map<Slot, int>, k: nat)
    requires SameTable(table, ids, tableT) && Distinct(ids) && k < |ids|
    ensures SlotsOf(tableT, k) == SlotsOf(table, Nth(ids, k))
  {
    assert forall j :: 0 <= j < |ids| ==> Nth(ids, j) == ids[j];
  }

  lemma LoadedTried(s: State, t: State, ids: seq<int>)
    requires Check(s) && SameUpToIds(s, t, ids)
    ensures TriedTable(t.site, t.info, t.triedAt)
  {
    hide TriedSlot, NewTable, RefCounts, Index, Random, AddrImage, InOrder, Counted, Pending;
    assert forall j :: 0 <= j < |ids| ==> Nth(ids, j) == ids[j];
    forall k | 0 <= k < |ids| ensures TriedSlot(t.site, t.info[k]) == TriedSlot(s.site, s.info[Nth(ids, k)]) {
      SlotsFixed(s.site, t.info[k], s.info[Nth(ids, k)], 0);
    }
  }

  lemma LoadedCounts(s: State, t: State, ids: seq<int>)
    requires Check(s) && SameUpToIds(s, t, ids)
    ensures Counted(t, 0) && Placed(t, {}) && IdsUsed(t)
  {
    hide NewTable, TriedTable, RefCounts, Index, Random, AddrImage, InOrder, SameTable, Pending;
    PositionsCount(ids, NewIds(s.info));
    PositionsCount(ids, TriedIds(s.info));
    assert forall k :: k in Positions(ids, NewIds(s.info)) <==> k in NewIds(t.info);
    assert forall k :: k in Positions(ids, TriedIds(s.info)) <==> k in TriedIds(t.info);
    assert Positions(ids, NewIds(s.info)) == NewIds(t.info) && Positions(ids, TriedIds(s.info)) == TriedIds(t.info);
  }

  /** What is read back passes the check, when no collisions were pending. */
  lemma LoadedChecks(s: State, t: State, ids: seq<int>)
    requires Check(s) && SameUpToIds(s, t, ids) && t.collisions == {}
    ensures Check(t)
  {
    hide NewSlot, TriedSlot, SlotsOf, Random, Index, NewTable, TriedTable, RefCounts;
    LoadedIndex(s, t, ids);
    LoadedNew(s, t, ids);
    LoadedTried(s, t, ids);
    LoadedCounts(s, t, ids);
  }

  // ---------------------------------------------------------------------------------
  // The code
  // ---------------------------------------------------------------------------------

  lemma {:induction false} SortedSnoc(ids: set<int>, m: int)
    requires forall i :: i in ids ==> i < m
    ensures Sorted(ids + {m}) == Sorted(ids) + [m]
    decreases |ids|
  {
    if ids == {} {
      assert ids + {m} == {m} && {m} - {m} == {};
      assert Least({m}) == m;
      assert Sorted({m} - {m}) == [];
    } else {
      var l := Least(ids);
      assert Least(ids + {m}) == l;
      assert ids + {m} - {l} == (ids - {l}) + {m};
      SortedSnoc(ids - {l}, m);
    }
  }

  /** Going through ids in order: what is left is above what is done. */
  ghost predicate Ascending(all: set<int>, left: set<int>) {
    left <= all && forall i, j :: i in left && j in all && j !in left ==> j < i
  }

  lemma NextId(all: set<int>, left: set<int>, some: set<int>, id: int)
    requires Ascending(all, left) && IsLeast(left, id) && some <= all
    ensures Ascending(all, left - {id}) && id in all
    ensures forall i :: i in some - (left - {id}) ==> i == id || i in some - left
    ensures id !in some ==> some - (left - {id}) == some - left
    ensures id in some ==> some - (left - {id}) == (some - left) + {id}
    ensures id in some ==> Sorted((some - left) + {id}) == Sorted(some - left) + [id]
    ensures id in some ==> Rank(some, id) == |some - left| < |some|
  {
    hide Sorted;
    if id in some {
      SortedSnoc(some - left, id);
      assert (set i | i in some && i < id) == some - left;
      assert some - left < some by { assert id !in some - left; }
      SubsetCount((some - left) + {id}, some);
    }
  }

  /** The entries of the new table in order, and their ranks. */
  method WriteNew(m: AddrManager) returns (ts: seq<Token>, ranks: map<int, int>)
    requires m.Valid()
    ensures forall k :: 0 <= k < |Sorted(NewIds(m.mapInfo))| ==> Nth(Sorted(NewIds(m.mapInfo)), k) in m.mapInfo
    ensures ts == Peers(m.mapInfo, Sorted(NewIds(m.mapInfo)))
    ensures forall id :: id in NewIds(m.mapInfo) ==> id in ranks && ranks[id] == Rank(NewIds(m.mapInfo), id)
  {
    hide Core, Placed, Pending, Sorted, Rank, Peers, Ascending, Writes;
    ghost var ids := NewIds(m.mapInfo);
    var left, n := m.mapInfo.Keys, 0;
    ts, ranks := [], map[];
    AscendingStart(left);
    assert ids - left == {};
    WritesNone(m.mapInfo);
    while left != {}
      invariant Ascending(m.mapInfo.Keys, left) && n == |ids - left|
      invariant Writes(ts, m.mapInfo, Sorted(ids - left))
      invariant forall i :: i in ids - left ==> i in ranks && ranks[i] == Rank(ids, i)
      decreases |left|
    {
      LeastExists(left);
      var id :| IsLeast(left, id);
      NextId(m.mapInfo.Keys, left, ids, id);
      ranks := ranks[id := n];
      if m.mapInfo[id].refCount != 0 {
        assert n != m.nNew;
        WritesSnoc(ts, m.mapInfo, Sorted(ids - left), id);
        ts := ts + [Peer(ToEntry(m.mapInfo[id]))];
        n := n + 1;
      }
      left := left - {id};
    }
    assert ids - left == ids;
    WritesPeers(ts, m.mapInfo, Sorted(ids));
  }

  /** `ts` are the entries of `ids`. */
  ghost predicate Writes(ts: seq<Token>, info: Infos, ids: seq<int>) {
    && |ts| == |ids|
    && forall k :: 0 <= k < |ids| ==> Nth(ids, k) in info && ts[k] == Peer(ToEntry(info[Nth(ids, k)]))
  }

  lemma WritesNone(info: Infos)
    ensures Sorted({}) == [] && Writes([], info, Sorted({}))
  {}

  lemma WritesSnoc(ts: seq<Token>, info: Infos, ids: seq<int>, id: int)
    requires Writes(ts, info, ids) && id in info
    ensures Writes(ts + [Peer(ToEntry(info[id]))], info, ids + [id])
  {
    assert forall k :: 0 <= k < |ids| ==> Nth(ids + [id], k) == Nth(ids, k);
    assert Nth(ids + [id], |ids|) == id;
  }

  lemma WritesPeers(ts: seq<Token>, info: Infos, ids: seq<int>)
    requires Writes(ts, info, ids)
    ensures (forall k :: 0 <= k < |ids| ==> Nth(ids, k) in info) && ts == Peers(info, ids)
  {}

  lemma AscendingStart(all: set<int>)
    ensures Ascending(all, all)
  {}

  method WriteTried(m: AddrManager) returns (ts: seq<Token>)
    requires m.Valid()
    ensures forall k :: 0 <= k < |Sorted(TriedIds(m.mapInfo))| ==> Nth(Sorted(TriedIds(m.mapInfo)), k) in m.mapInfo
    ensures ts == Peers(m.mapInfo, Sorted(TriedIds(m.mapInfo)))
  {
    hide Core, Placed, Pending, Sorted, Rank, Peers, Ascending, Writes;
    ghost var ids := TriedIds(m.mapInfo);
    var left, n := m.mapInfo.Keys, 0;
    ts := [];
    AscendingStart(left);
    assert ids - left == {};
    WritesNone(m.mapInfo);
    while left != {}
      invariant Ascending(m.mapInfo.Keys, left) && n == |ids - left|
      invariant Writes(ts, m.mapInfo, Sorted(ids - left))
      decreases |left|
    {
      LeastExists(left);
      var id :| IsLeast(left, id);
      NextId(m.mapInfo.Keys, left, ids, id);
      if m.mapInfo[id].inTried {
        assert n != m.nTried;
        WritesSnoc(ts, m.mapInfo, Sorted(ids - left), id);
        ts := ts + [Peer(ToEntry(m.mapInfo[id]))];
        n := n + 1;
      }
      left := left - {id};
    }
    assert ids - left == ids;
    WritesPeers(ts, m.mapInfo, Sorted(ids));
  }

  /** A bucket: how many entries it has, and which. */
  method WriteBucket(m: AddrManager, b: nat, ranks: map<int, int>) returns (ts: seq<Token>)
    requires m.Valid() && b < NEW_BUCKETS
    requires forall id :: id in NewIds(m.mapInfo) ==> id in ranks && ranks[id] == Rank(NewIds(m.mapInfo), id)
    ensures ts == BucketTokens(m.Value(), b)
  {
    hide Core, Placed, Pending, Rank, Table, NewIds;
    ghost var s := m.Value();
    var size := 0;
    for i := 0 to BUCKET_SIZE
      invariant size == |Indices(s, b, i)|
    {
      TableAt(m.vvNew, Slot(b, i));
      if m.vvNew[b, i] != -1 {
        size := size + 1;
      }
    }
    ts := [Int(size)];
    for i := 0 to BUCKET_SIZE
      invariant ts == [Int(size)] + Indices(s, b, i)
    {
      TableAt(m.vvNew, Slot(b, i));
      if m.vvNew[b, i] != -1 {
        HolderIsNew(s, Slot(b, i));
        ts := ts + [Int(ranks[m.vvNew[b, i]])];
      }
    }
  }

  lemma HolderIsNew(s: State, x: Slot)
    requires Check(s) && x in s.newAt
    ensures IdAt(s.newAt, x) in NewIds(s.info)
  {
    hide Core;
    HolderCounts(s, x);
  }

  method Serialize(m: AddrManager) returns (ts: seq<Token>)
    requires m.Valid()
    ensures ts == Tokens(m.Value())
  {
    hide Check, Rank, Table, NewIds, TriedIds, BucketTokens, Sorted, Peers;
    ghost var s := m.Value();
    ts := Header(m.key, m.nNew, m.nTried);
    var peers, ranks := WriteNew(m);
    var tried := WriteTried(m);
    ts := ts + peers + tried;
    ghost var head := ts;
    ghost var written: seq<Token> := [];
    for b := 0 to NEW_BUCKETS
      invariant written + BucketsFrom(s, b) == BucketsFrom(s, 0)
      invariant ts == head + written
    {
      var bucket := WriteBucket(m, b, ranks);
      assert BucketsFrom(s, b) == bucket + BucketsFrom(s, b + 1);
      ts := ts + bucket;
      written := written + bucket;
    }
  }

  method ReadNewEntry(m: AddrManager, id: int, e: Entry, usable: bool)
    requires m.Shape() && id >= 0
    modifies m, m.vvNew
    ensures m.Value() == WithNew(old(m.Value()), id, e, usable)
  {
    hide Table, SlotFrom;
    m.mapInfo := m.mapInfo[id := FromEntry(e)];
    m.mapAddr := m.mapAddr[Net(m.mapInfo[id]) := id];
    m.mapInfo := m.mapInfo[id := m.mapInfo[id].(randomPos := |m.vRandom|)];
    m.vRandom := m.vRandom + [id];
    assert m.mapInfo == old(m.mapInfo)[id := m.mapInfo[id]];
    if !usable {
      var x := SlotFrom(Site(m.h, m.key), m.mapInfo[id], m.mapInfo[id].source);
      TableAt(m.vvNew, x);
      if m.vvNew[x.bucket, x.pos] == -1 {
        Store(m.vvNew, x.bucket, x.pos, id);
        m.mapInfo := m.mapInfo[id := m.mapInfo[id].(refCount := m.mapInfo[id].refCount + 1)];
      }
    }
  }

  method ReadTriedEntry(m: AddrManager, e: Entry) returns (lost: nat)
    requires m.Shape()
    modifies m, m.vvTried
    ensures m.Value().(nTried := m.nTried - lost) == WithTried(old(m.Value()), e) && m.nTried == old(m.nTried)
  {
    hide Table, TriedSlot;
    var i := FromEntry(e);
    var x := TriedSlot(Site(m.h, m.key), i);
    TableAt(m.vvTried, x);
    if m.vvTried[x.bucket, x.pos] != -1 {
      return 1;
    }
    i := i.(randomPos := |m.vRandom|, inTried := true);
    m.vRandom := m.vRandom + [m.idCount];
    m.mapInfo := m.mapInfo[m.idCount := i];
    m.mapAddr := m.mapAddr[Net(i) := m.idCount];
    ghost var before := Table(m.vvTried);
    Store(m.vvTried, x.bucket, x.pos, m.idCount);
    assert before - {x} == before;
    m.idCount := m.idCount + 1;
    lost := 0;
  }

  method ReadIndex(m: AddrManager, b: nat, index: int, usable: bool)
    requires m.Shape() && (usable ==> b < NEW_BUCKETS) && (forall k :: 0 <= k < m.nNew ==> k in m.mapInfo)
    modifies m, m.vvNew
    ensures m.Value() == WithIndex(old(m.Value()), b, index, usable)
  {
    hide Table, NewSlot, GetBucketPosition;
    if 0 <= index < m.nNew {
      var pos := GetBucketPosition(m.h, m.key, true, b, m.mapInfo[index].address.service);
      PositionIs(Site(m.h, m.key), m.mapInfo[index], m.mapInfo[index], b);
      TableAt(m.vvNew, Slot(b, pos));
      if usable && m.vvNew[b, pos] == -1 && m.mapInfo[index].refCount < NEW_BUCKETS_PER_ADDRESS {
        m.mapInfo := m.mapInfo[index := m.mapInfo[index].(refCount := m.mapInfo[index].refCount + 1)];
        Store(m.vvNew, b, pos, index);
      }
    }
  }

  method Prune(m: AddrManager)
    requires Random(m.mapInfo, m.vRandom)
    modifies m
    ensures Random(old(m.mapInfo), old(m.vRandom)) && m.Value() == Pruned(old(m.Value()), old(m.mapInfo).Keys)
  {
    hide Table, Random, Deleted;
    ghost var s := m.Value();
    var left := m.mapInfo.Keys;
    while left != {}
      invariant Random(m.mapInfo, m.vRandom) && Pruned(s, s.info.Keys) == Pruned(m.Value(), left)
      decreases |left|
    {
      LeastExists(left);
      var id :| IsLeast(left, id);
      assert id == Least(left);
      if id in m.mapInfo && !m.mapInfo[id].inTried && m.mapInfo[id].refCount == 0 {
        DeletedRandom(m.Value(), id);
        m.Delete(id);
      }
      left := left - {id};
    }
  }

  method ReadNewEntries(m: AddrManager, ts: seq<Token>, count: int, usable: bool) returns (ok: bool)
    requires m.Shape()
    modifies m, m.vvNew
    ensures ok <==> PeersFollow(ts, count)
    ensures ok ==> m.Value() == ReadNew(old(m.Value()), ts[..Max(count, 0)], usable)
    ensures ok ==> forall k :: 0 <= k < count ==> k in m.mapInfo
    ensures m.nNew == old(m.nNew) && m.nTried == old(m.nTried)
  {
    hide Table, WithNew, ReadNew;
    ghost var s := m.Value();
    var n := 0;
    ReadNewNone(s, usable);
    assert ts[..0] == [];
    while n < count
      invariant 0 <= n <= Max(count, 0) && PeersFollow(ts, n) && m.Value() == ReadNew(s, ts[..n], usable)
      invariant m.nNew == s.nNew && m.nTried == s.nTried && forall k :: 0 <= k < n ==> k in m.mapInfo
    {
      if |ts| <= n || !ts[n].Peer? {
        return false;
      }
      ReadNewSnoc(s, ts, n, usable);
      ReadNewEntry(m, n, ts[n].entry, usable);
      n := n + 1;
    }
    ok := true;
  }

  lemma ReadNewNone(s: State, usable: bool)
    ensures ReadNew(s, [], usable) == s
  {}

  lemma ReadNewSnoc(s: State, ts: seq<Token>, n: nat, usable: bool)
    requires n < |ts| && forall k :: 0 <= k <= n ==> ts[k].Peer?
    ensures var (t, u) := (ReadNew(s, ts[..n], usable), ReadNew(s, ts[..n + 1], usable));
            && u == WithNew(t, n, ts[n].entry, usable) && u.nNew == t.nNew && u.nTried == t.nTried
            && n in u.info && forall k :: k in t.info ==> k in u.info
  {
    hide SlotFrom;
    assert ts[..n + 1][..n] == ts[..n] && ts[..n + 1][n] == ts[n];
  }

  method ReadTriedEntries(m: AddrManager, ts: seq<Token>) returns (ok: bool)
    requires m.Shape() && forall k :: 0 <= k < m.nNew ==> k in m.mapInfo
    modifies m, m.vvTried
    ensures ok <==> PeersFollow(ts, old(m.nTried))
    ensures ok ==> m.Value() == ReadTried(old(m.Value()), ts[..Max(old(m.nTried), 0)])
    ensures ok ==> forall k :: 0 <= k < m.nNew ==> k in m.mapInfo
  {
    hide Table, WithTried;
    ghost var s := m.Value();
    var n, lost := 0, 0;
    while n < m.nTried
      invariant 0 <= n <= Max(s.nTried, 0) && PeersFollow(ts, n) && m.nTried == s.nTried && m.nNew == s.nNew
      invariant m.Value().(nTried := m.nTried - lost) == ReadTried(s, ts[..n])
      invariant forall k :: 0 <= k < m.nNew ==> k in m.mapInfo
    {
      if |ts| <= n || !ts[n].Peer? {
        return false;
      }
      ghost var t := m.Value();
      TriedCommutes(t, ts[n].entry, t.nTried - lost);
      var more := ReadTriedEntry(m, ts[n].entry);
      lost := lost + more;
      assert ts[..n + 1][..n] == ts[..n];
      n := n + 1;
    }
    m.nTried := m.nTried - lost;
    ok := true;
  }

  /** The count of tried entries does not influence what is read. */
  lemma TriedCommutes(s: State, e: Entry, n: int)
    ensures var (t, u) := (WithTried(s, e), WithTried(s.(nTried := n), e));
            u == t.(nTried := n + (t.nTried - s.nTried)) && t.nNew == s.nNew && forall k :: k in s.info ==> k in t.info
  {}

  method ReadPositions(m: AddrManager, ts: seq<Token>, buckets: int, usable: bool) returns (ok: bool)
    requires m.Shape() && (usable ==> buckets == NEW_BUCKETS) && forall k :: 0 <= k < m.nNew ==> k in m.mapInfo
    modifies m, m.vvNew
    ensures ok <==> ReadBuckets(old(m.Value()), 0, buckets, ts, usable).Some?
    ensures ok ==> m.Value() == ReadBuckets(old(m.Value()), 0, buckets, ts, usable).value
  {
    hide Table, NewSlot, ReadIndices;
    ghost var s := m.Value();
    var b, rest := 0, ts;
    while b < buckets
      invariant 0 <= b && ReadBuckets(s, 0, buckets, ts, usable) == ReadBuckets(m.Value(), b, buckets, rest, usable)
      invariant forall k :: 0 <= k < m.nNew ==> k in m.mapInfo
    {
      if rest == [] || !rest[0].Int? {
        return false;
      }
      var size := rest[0].n;
      BucketStep(m.Value(), b, buckets, rest, usable);
      ok := ReadBucket(m, b, rest[1..], size, usable);
      if !ok {
        return;
      }
      rest := rest[1 + Max(size, 0)..];
      b := b + 1;
    }
    ok := true;
  }

  predicate IntsFollow(ts: seq<Token>, n: int) { |ts| >= n && forall k :: 0 <= k < n ==> ts[k].Int? }

  lemma BucketStep(s: State, b: nat, n: int, ts: seq<Token>, usable: bool)
    requires b < n && ts != [] && ts[0].Int?
    ensures var size := ts[0].n;
            ReadBuckets(s, b, n, ts, usable) ==
            if IntsFollow(ts[1..], size)
            then ReadBuckets(ReadIndices(s, b, ts[1..][..Max(size, 0)], usable), b + 1, n, ts[1 + Max(size, 0)..],
                usable)
            else None
  {
    hide ReadIndices;
    var size := Max(ts[0].n, 0);
    if |ts| > size {
      assert forall k :: 1 <= k <= size ==> ts[k] == ts[1..][k - 1];
      assert ts[1..][..size] == ts[1..1 + size];
    }
  }

  method ReadBucket(m: AddrManager, b: nat, ts: seq<Token>, size: int, usable: bool) returns (ok: bool)
    requires m.Shape() && (usable ==> b < NEW_BUCKETS) && forall k :: 0 <= k < m.nNew ==> k in m.mapInfo
    modifies m, m.vvNew
    ensures ok <==> IntsFollow(ts, size)
    ensures ok ==> m.Value() == ReadIndices(old(m.Value()), b, ts[..Max(size, 0)], usable)
    ensures ok ==> forall k :: 0 <= k < m.nNew ==> k in m.mapInfo
  {
    hide Table, NewSlot;
    ghost var s := m.Value();
    var n := 0;
    while n < size
      invariant 0 <= n <= Max(size, 0) && IntsFollow(ts, n) && m.Value() == ReadIndices(s, b, ts[..n], usable)
      invariant forall k :: 0 <= k < m.nNew ==> k in m.mapInfo
    {
      if |ts| <= n || !ts[n].Int? {
        return false;
      }
      assert ts[..n + 1][..n] == ts[..n] && ts[..n + 1][n] == ts[n];
      ReadIndex(m, b, ts[n].n, usable);
      assert m.Value() == WithIndex(ReadIndices(s, b, ts[..n], usable), b, ts[n].n, usable);
      n := n + 1;
    }
    ok := true;
  }

  method ReadBody(m: AddrManager, ts: seq<Token>, buckets: int, usable: bool) returns (ok: bool)
    requires m.Shape() && m.mapInfo == map[] && m.vRandom == [] && (usable ==> buckets == NEW_BUCKETS)
    modifies m, m.vvNew, m.vvTried
    ensures ok <==> LoadBody(old(m.Value()), ts, buckets, usable).Some?
    ensures ok ==> m.Value() == LoadBody(old(m.Value()), ts, buckets, usable).value
  {
    hide Table, ReadNew, ReadTried, ReadBuckets, Pruned, Random;
    ghost var start := m.Value();
    var n, k := Max(m.nNew, 0), Max(m.nNew, 0) + Max(m.nTried, 0);
    ok := ReadNewEntries(m, ts, n, usable);
    if !ok {
      return;
    }
    m.idCount := m.nNew;
    EmptyLoading(start);
    ReadNewLoading(start, ts[..n], usable);
    ReadNewNone(start, usable);
    assert n == 0 ==> ts[..n] == [];
    ghost var t := m.Value();
    ok := ReadTriedEntries(m, ts[n..]);
    if !ok {
      return;
    }
    ReadTriedLoading(t, ts[n..][..k - n]);
    ghost var u := m.Value();
    ok := ReadPositions(m, ts[k..], buckets, usable);
    if !ok {
      return;
    }
    ReadBucketsLoading(u, 0, buckets, ts[k..], usable);
    Prune(m);
  }

  method Unserialize(m: AddrManager, ts: seq<Token>, randomKey: HashKey) returns (ok: bool)
    requires m.Shape()
    modifies m, m.vvNew, m.vvTried
    ensures ok <==> Load(m.h, old(m.collisions), ts).Some?
    ensures ok ==> m.Value() == Load(m.h, old(m.collisions), ts).value
  {
    hide Table, LoadBody;
    m.Clear(randomKey);
    if |ts| < 6 || !ts[0].Byte? || ts[1] != Byte(32) || !ts[2].KeyIs? || !ts[3].Int? || !ts[4].Int? || !ts[5].Int? {
      return false;
    }
    m.key, m.nNew, m.nTried := ts[2].key, ts[3].n, ts[4].n;
    var buckets := if ts[0].b != 0 then FlipFormatBit(ts[5].n) else ts[5].n;
    if m.nNew > MAX_NEW || m.nTried > MAX_TRIED {
      return false;
    }
    ok := ReadBody(m, ts[6..], buckets, ts[0].b == 1 && buckets == NEW_BUCKETS);
  }

  lemma EmptyLoading(s: State)
    requires s.info == map[] && s.random == []
    ensures Loading(s, 0)
  {}
}
