/** What reading a stream guarantees when the stream was not written by the address manager. */
module AddrManLoad {
  import opened AddrManState
  import opened AddrManStream
  import AddrManCheck

  /** The entries that are not in the tried table. */
  function Untouched(info: Infos): set<int> { set id | id in info && !info[id].inTried }

  /** The network addresses of a piece of the stream. */
  function Nets(ts: seq<Token>): set<NetAddr> {
    set k | 0 <= k < |ts| && ts[k].Peer? :: ts[k].entry.address.service.net
  }

  /** No two entries have the same network address. */
  predicate Unrepeated(ts: seq<Token>) {
    forall j, k :: 0 <= j < k < |ts| && ts[j].Peer? && ts[k].Peer? ==>
                     ts[j].entry.address.service.net != ts[k].entry.address.service.net
  }

  lemma FreshNet(ts: seq<Token>, n: nat)
    requires n < |ts| && ts[n].Peer?
    ensures Nets(ts[..n + 1]) == Nets(ts[..n]) + {ts[n].entry.address.service.net}
    ensures Unrepeated(ts) ==> ts[n].entry.address.service.net !in Nets(ts[..n])
  {
    assert forall k :: 0 <= k < n ==> ts[..n][k] == ts[k] == ts[..n + 1][k];
    assert ts[..n + 1][n] == ts[n];
  }

  // ---------------------------------------------------------------------------------
  // Reading entries and positions
  // ---------------------------------------------------------------------------------

  /** The index knows the address of every entry and names an entry for every address it knows,
      but not necessarily the only one. */
  ghost predicate WeakIndex(info: Infos, addr: map<NetAddr, int>) {
    && (forall id :: id in info ==> Net(info[id]) in addr)
    && (forall a :: a in addr ==> IdOf(addr, a) in info && Net(info[IdOf(addr, a)]) == a)
  }

  /** Halfway through reading: the ids from nNew on are those of the tried entries. */
  ghost predicate Reading(s: State) {
    && Body(s) && WeakIndex(s.info, s.addr)
    && forall id :: id in s.info ==> (s.info[id].inTried <==> id >= s.nNew)
  }

  /** All entries have different addresses, taken from `nets`. */
  ghost predicate Apart(info: Infos, nets: set<NetAddr>) {
    && (forall id :: id in info ==> Net(info[id]) in nets)
    && (forall j, k :: j in info && k in info && j != k ==> Net(info[j]) != Net(info[k]))
  }

  /** An entry appended under the next id is in neither table. */
  lemma AppendedBody(s: State, id: int, i: AddrInfo)
    requires Body(s) && id == s.idCount && i.refCount == 0 && !i.inTried
    ensures var t := Appended(s, id, i).(idCount := id + 1);
            Body(t) && Limbo(t, id) && TriedIds(t.info) == TriedIds(s.info) && id !in s.info
  {
    hide Random, NewTable, TriedTable, RefCounts;
    var t := Appended(s, id, i).(idCount := id + 1);
    GrowTables(s.site, s.info, id, t.info[id], s.newAt, s.triedAt);
    AppendRandom(s.info, s.random, id, t.info[id]);
    forall j ensures j in TriedIds(t.info) <==> j in TriedIds(s.info) {}
  }

  lemma AppendedIndex(info: Infos, addr: map<NetAddr, int>, id: int, i: AddrInfo, nets: set<NetAddr>)
    requires WeakIndex(info, addr) && id !in info
    ensures WeakIndex(info[id := i], addr[Net(i) := id])
    ensures Apart(info, nets) && Net(i) !in nets ==> Apart(info[id := i], nets + {Net(i)})
  {
    var more := addr[Net(i) := id];
    forall a | a in more ensures IdOf(more, a) == if a == Net(i) then id else IdOf(addr, a) {}
  }

  /** A change of an entry that keeps its address. */
  lemma SameNets(info: Infos, addr: map<NetAddr, int>, id: int, i: AddrInfo)
    requires WeakIndex(info, addr) && id in info && Net(info[id]) == Net(i)
    ensures WeakIndex(info[id := i], addr)
    ensures forall nets :: Apart(info, nets) ==> Apart(info[id := i], nets)
  {}

  /** Reads an entry of the new table. */
  lemma NewEntryBody(s: State, id: int, e: Entry, usable: bool, nets: set<NetAddr>)
    requires Reading(s.(idCount := id)) && id < s.nNew
    ensures var t := WithNew(s, id, e, usable).(idCount := id + 1);
            && Reading(t) && t.triedAt == s.triedAt && t.nNew == s.nNew && t.nTried == s.nTried
            && id !in s.info && t.info.Keys == s.info.Keys + {id} && t.collisions == s.collisions
            && (Apart(s.info, nets) && e.address.service.net !in nets ==> Apart(t.info, nets + {e.address.service.net}))
  {
    hide Body, SlotFrom, TriedIds, NewIds, WeakIndex, Apart;
    var (u, i) := (s.(idCount := id), FromEntry(e));
    AppendedBody(u, id, i);
    var t := Appended(u, id, i).(idCount := id + 1);
    AppendedIndex(s.info, s.addr, id, t.info[id], nets);
    var x := SlotFrom(t.site, t.info[id], e.source);
    if !usable && x !in t.newAt {
      LinkedBody(t, x, id);
      SameNets(t.info, t.addr, id, Linked(t, x, id).info[id]);
    }
  }

  lemma {:induction false} NewEntriesBody(start: State, ts: seq<Token>, n: nat, usable: bool)
    requires start.info == map[] && start.random == [] && start.addr == map[] && start.newAt == map[]
             && start.triedAt == map[]
    requires n <= |ts| && n <= start.nNew && forall k :: 0 <= k < n ==> ts[k].Peer?
    ensures var t := ReadNew(start, ts[..n], usable);
            && Reading(t.(idCount := n)) && t.nNew == start.nNew && t.nTried == start.nTried
            && t.triedAt == map[] && |t.info| == n && t.collisions == start.collisions
            && (Unrepeated(ts) ==> Apart(t.info, Nets(ts[..n])))
  {
    hide Reading, Apart, WithNew, Nets, Unrepeated;
    if n == 0 {
      NobodyReading(start);
    } else {
      NewEntriesBody(start, ts, n - 1, usable);
      assert ts[..n][..n - 1] == ts[..n - 1];
      FreshNet(ts, n - 1);
      var u := ReadNew(start, ts[..n - 1], usable);
      NewEntryBody(u, n - 1, ts[n - 1].entry, usable, Nets(ts[..n - 1]));
    }
  }

  lemma NobodyReading(s: State)
    requires s.info == map[] && s.random == [] && s.addr == map[] && s.newAt == map[] && s.triedAt == map[]
    ensures Reading(s.(idCount := 0)) && forall nets :: Apart(s.info, nets)
  {
  }

  /** Reads an entry of the tried table, or loses it. */
  lemma TriedEntryBody(s: State, e: Entry, nets: set<NetAddr>)
    requires Reading(s) && s.nNew <= s.idCount
    ensures var t := WithTried(s, e);
            && Reading(t) && t.nNew == s.nNew && s.idCount <= t.idCount
            && Untouched(t.info) == Untouched(s.info) && t.collisions == s.collisions
            && |TriedIds(t.info)| - t.nTried == |TriedIds(s.info)| - s.nTried + 1
            && (Apart(s.info, nets) && e.address.service.net !in nets ==> Apart(t.info, nets + {e.address.service.net}))
  {
    hide Body, TriedSlot, NewIds, TriedIds, WeakIndex, Apart;
    var (i, t) := (FromEntry(e), WithTried(s, e));
    var x := TriedSlot(s.site, i);
    if x in s.triedAt {
      BodyIgnores(s, s.nTried - 1);
      ApartMore(s.info, nets, Net(i));
    } else {
      var id := s.idCount;
      AppendedBody(s, id, i);
      var u := Appended(s, id, i).(idCount := id + 1);
      SlotsFixed(s.site, i, u.info[id], 0);
      TriedBody(u, id);
      BodyIgnores(Tried(u, id), s.nTried);
      UsedIds(s);
      assert t.info == Tried(u, id).info;
      assert t == Tried(u, id).(nTried := s.nTried);
      SameUntouched(s.info, t.info);
      AppendedIndex(s.info, s.addr, id, t.info[id], nets);
    }
  }

  lemma BodyIgnores(s: State, n: int)
    requires Body(s)
    ensures Body(s.(nTried := n))
  {}

  lemma ApartMore(info: Infos, nets: set<NetAddr>, a: NetAddr)
    ensures Apart(info, nets) ==> Apart(info, nets + {a})
  {}

  lemma UsedIds(s: State)
    requires Body(s)
    ensures s.idCount >= 0 && forall id :: id in s.info ==> 0 <= id < s.idCount
  {}

  lemma SameUntouched(info: Infos, other: Infos)
    requires forall id :: id in info ==> id in other && other[id].inTried == info[id].inTried
    requires forall id :: id in other && id !in info ==> other[id].inTried
    ensures Untouched(other) == Untouched(info)
  {
    forall id ensures id in Untouched(other) <==> id in Untouched(info) {}
  }

  lemma {:induction false} TriedEntriesBody(s: State, ts: seq<Token>, lo: nat, n: nat)
    requires lo + n <= |ts| && Reading(s) && s.nNew <= s.idCount
    requires (forall k :: 0 <= k < lo + n ==> ts[k].Peer?) && (Unrepeated(ts) ==> Apart(s.info, Nets(ts[..lo])))
    ensures var t := ReadTried(s, ts[lo..][..n]);
            && Reading(t) && t.nNew == s.nNew && s.idCount <= t.idCount
            && Untouched(t.info) == Untouched(s.info) && t.collisions == s.collisions
            && |TriedIds(t.info)| - t.nTried == |TriedIds(s.info)| - s.nTried + n
            && (Unrepeated(ts) ==> Apart(t.info, Nets(ts[..lo + n])))
  {
    hide Reading, Apart, WithTried, Nets, Unrepeated;
    if n == 0 {
    } else {
      TriedEntriesBody(s, ts, lo, n - 1);
      assert ts[lo..][..n][..n - 1] == ts[lo..][..n - 1];
      FreshNet(ts, lo + n - 1);
      TriedEntryBody(ReadTried(s, ts[lo..][..n - 1]), ts[lo + n - 1].entry, Nets(ts[..lo + n - 1]));
    }
  }

  /** Reading positions moves entries into the new table. */
  ghost predicate Positioned(s: State, t: State) {
    && t == s.(info := t.info, newAt := t.newAt) && Untouched(t.info) == Untouched(s.info)
    && TriedIds(t.info) == TriedIds(s.info) && forall nets :: Apart(s.info, nets) ==> Apart(t.info, nets)
  }

  lemma IndexBody(s: State, b: nat, index: int, usable: bool)
    requires Reading(s) && (usable ==> b < NEW_BUCKETS)
    ensures var t := WithIndex(s, b, index, usable); Reading(t) && Positioned(s, t)
  {
    hide Body, NewSlot, NewIds, WeakIndex, Apart;
    if 0 <= index < s.nNew && index in s.info {
      var x := NewSlot(s.site, s.info[index], b);
      if usable && x !in s.newAt && s.info[index].refCount < NEW_BUCKETS_PER_ADDRESS {
        LinkedBody(s, x, index);
        SameNets(s.info, s.addr, index, Linked(s, x, index).info[index]);
      }
    }
  }

  lemma {:induction false} IndicesBody(s: State, b: nat, ts: seq<Token>, usable: bool)
    requires Reading(s) && (usable ==> b < NEW_BUCKETS) && forall k :: 0 <= k < |ts| ==> ts[k].Int?
    ensures var t := ReadIndices(s, b, ts, usable); Reading(t) && Positioned(s, t)
  {
    hide Reading, WithIndex, Apart;
    if ts == [] {
    } else {
      var n := |ts| - 1;
      IndicesBody(s, b, ts[..n], usable);
      IndexBody(ReadIndices(s, b, ts[..n], usable), b, ts[n].n, usable);
    }
  }

  lemma {:induction false} BucketsBody(s: State, b: nat, n: int, ts: seq<Token>, usable: bool)
    requires Reading(s) && (usable ==> n == NEW_BUCKETS)
    ensures var r := ReadBuckets(s, b, n, ts, usable); r.Some? ==> Reading(r.value) && Positioned(s, r.value)
    decreases |ts|
  {
    hide Reading, ReadIndices, Apart;
    if ReadBuckets(s, b, n, ts, usable).Some? && b < n {
      var size := Max(ts[0].n, 0);
      IndicesBody(s, b, ts[1..1 + size], usable);
      BucketsBody(ReadIndices(s, b, ts[1..1 + size], usable), b + 1, n, ts[1 + size..], usable);
    }
  }

  // ---------------------------------------------------------------------------------
  // Dropping the entries without a place
  // ---------------------------------------------------------------------------------

  /** An entry that shares its address with another is about to be dropped. */
  ghost predicate Clean(s: State) {
    forall j, k :: j in s.info && k in s.info && j != k && Net(s.info[j]) == Net(s.info[k]) ==> Limbo(s, j)
  }

  /** What a deletion does to the others and to the index. */
  lemma DeletedIs(s: State, id: int)
    requires Random(s.info, s.random) && id in s.info
    ensures 0 <= s.info[id].randomPos < |s.random| && Nth(s.random, s.info[id].randomPos) == id
    ensures Nth(s.random, |s.random| - 1) in s.info
    ensures var t := Deleted(s, id);
            && SameShape(s.info - {id}, t.info) && t.addr == s.addr - {Net(s.info[id])}
            && t == s.(info := t.info, addr := t.addr, random := t.random, nNew := s.nNew - 1)
  {}

  lemma DeletedBody(s: State, id: int)
    requires Body(s) && Random(s.info, s.random) && Limbo(s, id)
    ensures Body(Deleted(s, id)) && TriedIds(Deleted(s, id).info) == TriedIds(s.info)
  {
    hide Random, NewTable, TriedTable, RefCounts, Deleted;
    DeletedIs(s, id);
    var t := Deleted(s, id);
    DeletedRandom(s, id);
    CutTables(s.site, s.info, id, s.newAt, s.triedAt);
    ShapeNew(s.site, s.info - {id}, t.info, s.newAt);
    ShapeTried(s.site, s.info - {id}, t.info, s.triedAt);
    forall j ensures j in TriedIds(t.info) <==> j in TriedIds(s.info) {}
  }

  lemma DeletedPlaced(s: State, id: int, ids: set<int>)
    requires Random(s.info, s.random) && Limbo(s, id) && Placed(s, ids)
    ensures var t := Deleted(s, id); Placed(t, ids - {id}) && |Untouched(t.info)| == |Untouched(s.info)| - 1
  {
    hide Random, Deleted;
    DeletedIs(s, id);
    var t := Deleted(s, id);
    forall j ensures j in Untouched(t.info) <==> j in Untouched(s.info) && j != id {}
    AddrManCheck.Dropped(Untouched(t.info), Untouched(s.info), id);
  }

  lemma {:induction false} PrunedBody(s: State, ids: set<int>)
    requires Body(s) && Random(s.info, s.random) && Placed(s, ids) && |Untouched(s.info)| == s.nNew
    ensures var t := Pruned(s, ids);
            && Body(t) && Placed(t, {}) && |Untouched(t.info)| == t.nNew
            && TriedIds(t.info) == TriedIds(s.info) && t.nTried == s.nTried && t.collisions == s.collisions
    decreases |ids|
  {
    hide Body, Random, Deleted;
    if ids == {} {
    } else {
      var id := Least(ids);
      if Limbo(s, id) {
        DeletedIs(s, id);
        DeletedBody(s, id);
        DeletedRandom(s, id);
        DeletedPlaced(s, id, ids);
        PrunedBody(Deleted(s, id), ids - {id});
      } else {
        PrunedBody(s, ids - {id});
      }
    }
  }

  /** The index is right about whoever stays. */
  ghost predicate Survivors(s: State) {
    && Clean(s)
    && (forall id :: id in s.info && !Limbo(s, id) ==> Net(s.info[id]) in s.addr && IdOf(s.addr, Net(s.info[id])) == id)
    && (forall a :: a in s.addr ==> IdOf(s.addr, a) in s.info && Net(s.info[IdOf(s.addr, a)]) == a)
  }

  lemma DeletedSurvivors(s: State, id: int)
    requires Random(s.info, s.random) && Limbo(s, id) && Survivors(s)
    ensures Survivors(Deleted(s, id))
  {
    hide Random, Deleted;
    DeletedIs(s, id);
    var t := Deleted(s, id);
    forall a | a in t.addr ensures IdOf(t.addr, a) == IdOf(s.addr, a) {}
    forall j ensures Limbo(t, j) <==> Limbo(s, j) && j != id {}
  }

  lemma {:induction false} PrunedSurvivors(s: State, ids: set<int>)
    requires Random(s.info, s.random) && Survivors(s)
    ensures Survivors(Pruned(s, ids))
    decreases |ids|
  {
    hide Random, Survivors, Deleted;
    if ids == {} {
    } else {
      var id := Least(ids);
      if Limbo(s, id) {
        DeletedIs(s, id);
        DeletedSurvivors(s, id);
        DeletedRandom(s, id);
        PrunedSurvivors(Deleted(s, id), ids - {id});
      } else {
        PrunedSurvivors(s, ids - {id});
      }
    }
  }

  /** Whoever has a place stays with its address; the index only shrinks, and loses the address of
      everybody dropped. */
  lemma {:induction false} PrunedTrace(s: State, ids: set<int>)
    requires Random(s.info, s.random)
    ensures var t := Pruned(s, ids);
            && (forall j :: j in s.info && !Limbo(s, j) ==> j in t.info && Net(t.info[j]) == Net(s.info[j]))
            && (forall a :: a in t.addr ==> a in s.addr)
            && (forall k :: k in ids && Limbo(s, k) ==> Net(s.info[k]) !in t.addr)
    decreases |ids|
  {
    hide Random, Deleted;
    if ids == {} {
    } else {
      var id := Least(ids);
      if Limbo(s, id) {
        DeletedIs(s, id);
        DeletedRandom(s, id);
        var (u, t) := (Deleted(s, id), Pruned(s, ids));
        PrunedTrace(u, ids - {id});
        forall j | j in s.info && !Limbo(s, j) ensures j in t.info && Net(t.info[j]) == Net(s.info[j]) {
          assert j in u.info && !Limbo(u, j) && Net(u.info[j]) == Net(s.info[j]);
        }
        forall k | k in ids && Limbo(s, k) ensures Net(s.info[k]) !in t.addr {
          assert k != id ==> k in ids - {id} && Limbo(u, k) && Net(u.info[k]) == Net(s.info[k]);
        }
      } else {
        PrunedTrace(s, ids - {id});
      }
    }
  }

  /** After dropping, the index is right exactly when nobody who stays shared an address. */
  lemma PrunedIndexIff(v: State)
    requires Random(v.info, v.random) && WeakIndex(v.info, v.addr) && Placed(Pruned(v, v.info.Keys), {})
    ensures var t := Pruned(v, v.info.Keys); Index(t.info, t.addr) <==> Clean(v)
  {
    hide Random, Pruned;
    var t := Pruned(v, v.info.Keys);
    if Clean(v) {
      PrunedSurvivors(v, v.info.Keys);
      forall id | id in t.info ensures !Limbo(t, id) {}
    } else {
      PrunedTrace(v, v.info.Keys);
      var j, k :| j in v.info && k in v.info && j != k && Net(v.info[j]) == Net(v.info[k]) && !Limbo(v, j);
      assert j in t.info && (Limbo(v, k) ==> Net(v.info[k]) !in t.addr) && (!Limbo(v, k) ==> k in t.info);
    }
  }

  // ---------------------------------------------------------------------------------
  // A whole stream
  // ---------------------------------------------------------------------------------

  /** Everything but the pending collisions is in order. */
  ghost predicate Sound(s: State) { Core(s) && Counted(s, 0) && Placed(s, {}) }

  /** If everybody has a place, the new entries are those that are not tried. */
  lemma PlacedCount(s: State)
    requires Body(s) && Placed(s, {})
    ensures NewIds(s.info) == Untouched(s.info)
  {
    hide Random, TriedTable, NewSlot;
    forall id | id in s.info ensures s.info[id].refCount != 0 <==> !s.info[id].inTried {
      if s.info[id].inTried {
        assert SlotsOf(s.newAt, id) == {};
      }
    }
    forall id ensures id in NewIds(s.info) <==> id in Untouched(s.info) {}
  }

  lemma OnlyNewRead(s: State, n: nat)
    requires Reading(s.(idCount := n)) && s.nNew == n
    ensures TriedIds(s.info) == {} && Untouched(s.info) == s.info.Keys
  {
    hide Random, NewTable, TriedTable, RefCounts;
    UsedIds(s.(idCount := n));
    forall id ensures id !in TriedIds(s.info) {}
    forall id ensures id in Untouched(s.info) <==> id in s.info.Keys {}
  }

  lemma UnprunedReads(start: State, ts: seq<Token>, buckets: int, usable: bool)
    requires start.info == map[] && start.random == [] && start.addr == map[] && start.newAt == map[]
             && start.triedAt == map[]
    requires start.nNew >= 0 && start.nTried >= 0 && (usable ==> buckets == NEW_BUCKETS)
    requires Unpruned(start, ts, buckets, usable).Some? && |ts| >= start.nNew + start.nTried
    ensures var v := Unpruned(start, ts, buckets, usable).value;
            && Reading(v) && |Untouched(v.info)| == v.nNew && |TriedIds(v.info)| == v.nTried
            && v.collisions == start.collisions
            && (Unrepeated(ts[..start.nNew + start.nTried]) ==> Clean(v))
  {
    hide Reading, ReadNew, ReadTried, ReadBuckets, Random, Nets, TriedIds, Unrepeated, Apart;
    var (n, m) := (start.nNew, start.nNew + start.nTried);
    var es := ts[..m];
    assert es[..n] == ts[..n] && es[n..][..m - n] == ts[n..][..m - n];
    assert forall k :: n <= k < m ==> es[k] == ts[n..][k - n];
    NewEntriesBody(start, es, n, usable);
    var t := ReadNew(start, ts[..n], usable).(idCount := n);
    OnlyNewRead(t, n);
    TriedEntriesBody(t, es, n, m - n);
    var u := ReadTried(t, ts[n..][..m - n]);
    BucketsBody(u, 0, buckets, ts[m..], usable);
    ApartClean(Unpruned(start, ts, buckets, usable).value, Nets(es[..m]));
  }

  lemma ApartClean(s: State, nets: set<NetAddr>)
    ensures Apart(s.info, nets) ==> Clean(s)
  {}

  lemma BodySoundIff(start: State, ts: seq<Token>, buckets: int, usable: bool)
    requires start.info == map[] && start.random == [] && start.addr == map[] && start.newAt == map[]
             && start.triedAt == map[]
    requires start.nNew >= 0 && start.nTried >= 0 && (usable ==> buckets == NEW_BUCKETS)
    requires Unpruned(start, ts, buckets, usable).Some? && |ts| >= start.nNew + start.nTried
    ensures var t := LoadBody(start, ts, buckets, usable).value;
            && (Sound(t) <==> Clean(Unpruned(start, ts, buckets, usable).value)) && t.collisions == start.collisions
  {
    hide Unpruned, Body, Pruned, Random, TriedIds, Index, Clean;
    UnprunedReads(start, ts, buckets, usable);
    var v := Unpruned(start, ts, buckets, usable).value;
    PrunedBody(v, v.info.Keys);
    PrunedIndexIff(v);
    PlacedCount(Pruned(v, v.info.Keys));
    CoreIs(Pruned(v, v.info.Keys));
  }

  lemma CoreIs(s: State)
    ensures Core(s) <==> Body(s) && Index(s.info, s.addr)
  {}

  /** Reading never raises the counters of the header. */
  lemma BodyBounds(start: State, ts: seq<Token>, buckets: int, usable: bool)
    requires start.info == map[] && start.random == [] && LoadBody(start, ts, buckets, usable).Some?
    ensures var t := LoadBody(start, ts, buckets, usable).value; t.nNew <= start.nNew && t.nTried <= start.nTried
  {
    hide ReadNew, ReadTried, ReadBuckets, Pruned, Random;
    var (n, m) := (Max(start.nNew, 0), Max(start.nNew, 0) + Max(start.nTried, 0));
    EmptyLoading(start);
    ReadNewCounts(start, ts[..n], usable);
    ReadNewLoading(start, ts[..n], usable);
    ReadNewNone(start, usable);
    assert n == 0 ==> ts[..n] == [];
    var t := ReadNew(start, ts[..n], usable).(idCount := start.nNew);
    TriedBounds(t, ts[n..][..m - n]);
    ReadTriedLoading(t, ts[n..][..m - n]);
    var u := ReadTried(t, ts[n..][..m - n]);
    BucketsBounds(u, 0, buckets, ts[m..], usable);
    ReadBucketsLoading(u, 0, buckets, ts[m..], usable);
    var v := ReadBuckets(u, 0, buckets, ts[m..], usable).value;
    PrunedBounds(v, v.info.Keys);
  }

  lemma {:induction false} TriedBounds(s: State, ts: seq<Token>)
    requires forall k :: 0 <= k < |ts| ==> ts[k].Peer?
    ensures var t := ReadTried(s, ts); t.nNew == s.nNew && t.nTried <= s.nTried
  {
    if ts == [] {
    } else {
      TriedBounds(s, ts[..|ts| - 1]);
    }
  }

  lemma {:induction false} IndicesBounds(s: State, b: nat, ts: seq<Token>, usable: bool)
    requires forall k :: 0 <= k < |ts| ==> ts[k].Int?
    ensures var t := ReadIndices(s, b, ts, usable); t.nNew == s.nNew && t.nTried == s.nTried
  {
    if ts == [] {
    } else {
      IndicesBounds(s, b, ts[..|ts| - 1], usable);
    }
  }

  lemma {:induction false} BucketsBounds(s: State, b: nat, n: int, ts: seq<Token>, usable: bool)
    ensures var r := ReadBuckets(s, b, n, ts, usable); r.Some? ==> r.value.nNew == s.nNew && r.value.nTried == s.nTried
    decreases |ts|
  {
    hide ReadIndices;
    if ReadBuckets(s, b, n, ts, usable).Some? && b < n {
      var size := Max(ts[0].n, 0);
      IndicesBounds(s, b, ts[1..1 + size], usable);
      BucketsBounds(ReadIndices(s, b, ts[1..1 + size], usable), b + 1, n, ts[1 + size..], usable);
    }
  }

  lemma {:induction false} PrunedBounds(s: State, ids: set<int>)
    requires Random(s.info, s.random)
    ensures Pruned(s, ids).nNew <= s.nNew && Pruned(s, ids).nTried == s.nTried
    decreases |ids|
  {
    if ids == {} {
    } else {
      var id := Least(ids);
      if Limbo(s, id) {
        DeletedRandom(s, id);
        DeletedBounds(s, id);
        PrunedBounds(Deleted(s, id), ids - {id});
      } else {
        PrunedBounds(s, ids - {id});
      }
    }
  }

  lemma DeletedBounds(s: State, id: int)
    requires Random(s.info, s.random) && id in s.info
    ensures Deleted(s, id).nNew == s.nNew - 1 && Deleted(s, id).nTried == s.nTried
  {}

  /** The entries listed in a stream. */
  function Listed(ts: seq<Token>): seq<Token>
    requires HeaderReads(ts)
  {
    var m := Max(ts[3].n, 0) + Max(ts[4].n, 0);
    if |ts| < 6 + m then ts[6..] else ts[6..][..m]
  }

  /** What a stream reads as before entries without a place are dropped. */
  ghost function Before(h: Network, collisions: set<int>, ts: seq<Token>): Option<State>
    requires HeaderReads(ts)
  {
    var buckets := if ts[0].b != 0 then FlipFormatBit(ts[5].n) else ts[5].n;
    var start := Blank(h, ts[2].key, ts[3].n, ts[4].n, collisions);
    Unpruned(start, ts[6..], buckets, ts[0].b == 1 && buckets == NEW_BUCKETS)
  }

  /** A stream that can be read, whoever wrote it, reads as a consistent state exactly when its
      counters are not negative and every entry read that shares its address with another has no
      place and is dropped. */
  lemma LoadSoundIff(h: Network, collisions: set<int>, ts: seq<Token>)
    requires Load(h, collisions, ts).Some?
    ensures HeaderReads(ts) && Before(h, collisions, ts).Some?
    ensures var (t, v) := (Load(h, collisions, ts).value, Before(h, collisions, ts).value);
            && (Sound(t) <==> ts[3].n >= 0 && ts[4].n >= 0 && Clean(v))
            && (collisions == {} ==> (Check(t) <==> ts[3].n >= 0 && ts[4].n >= 0 && Clean(v)))
  {
    hide Unpruned, Pruned, Core, Placed, Clean;
    var start := Blank(h, ts[2].key, ts[3].n, ts[4].n, collisions);
    var buckets := if ts[0].b != 0 then FlipFormatBit(ts[5].n) else ts[5].n;
    var usable := ts[0].b == 1 && buckets == NEW_BUCKETS;
    BodyBounds(start, ts[6..], buckets, usable);
    if ts[3].n >= 0 && ts[4].n >= 0 {
      BodyLength(start, ts[6..], buckets, usable);
      BodySoundIff(start, ts[6..], buckets, usable);
    }
  }

  /** If it lists no address twice, only the counters matter. */
  lemma LoadSoundOnce(h: Network, collisions: set<int>, ts: seq<Token>)
    requires Load(h, collisions, ts).Some? && HeaderReads(ts) && Unrepeated(Listed(ts))
    ensures var t := Load(h, collisions, ts).value;
            && (Sound(t) <==> ts[3].n >= 0 && ts[4].n >= 0)
            && (collisions == {} ==> (Check(t) <==> ts[3].n >= 0 && ts[4].n >= 0))
  {
    hide Unpruned, LoadBody, Sound, Check, Unrepeated, Reading, Clean, FlipFormatBit;
    LoadSoundIff(h, collisions, ts);
    if ts[3].n >= 0 && ts[4].n >= 0 {
      var start := Blank(h, ts[2].key, ts[3].n, ts[4].n, collisions);
      var buckets := if ts[0].b != 0 then FlipFormatBit(ts[5].n) else ts[5].n;
      var usable := ts[0].b == 1 && buckets == NEW_BUCKETS;
      BodyLength(start, ts[6..], buckets, usable);
      UnprunedReads(start, ts[6..], buckets, usable);
    }
  }

  lemma BodyLength(start: State, ts: seq<Token>, buckets: int, usable: bool)
    requires start.info == map[] && start.random == [] && LoadBody(start, ts, buckets, usable).Some?
    ensures |ts| >= Max(start.nNew, 0) + Max(start.nTried, 0)
  {}

  /** A readable stream that lists an address twice: the second entry finds the slot taken and is
      dropped, and the index loses the address of the first. */
  function Twice(key: HashKey, e: Entry): seq<Token> {
    [Byte(0), Byte(32), KeyIs(key), Int(2), Int(0), Int(0), Peer(e), Peer(e)]
  }

  lemma RepeatedAddressBreaks(h: Network, key: HashKey, e: Entry)
    ensures var r := Load(h, {}, Twice(key, e));
            r.Some? && 0 in r.value.info && Net(r.value.info[0]) !in r.value.addr && !Sound(r.value)
  {
    hide WithNew, Pruned, Random;
    var (start, ts) := (Blank(h, key, 2, 0, {}), [Peer(e), Peer(e)]);
    assert Twice(key, e)[6..] == ts && ts[..2] == ts && ts[..2][..1] == [Peer(e)] && ts[2..] == []
           && [Peer(e)][..0] == [];
    var one := WithNew(start, 0, e, false);
    var two := WithNew(one, 1, e, false);
    assert ReadNew(start, [Peer(e)], false) == one;
    assert ReadNew(start, ts, false) == two;
    SecondIsLost(start, e);
    var v := two.(idCount := 2);
    LostIsPruned(v, e);
    assert LoadBody(start, ts, 0, false) == Some(Pruned(v, v.info.Keys));
  }

  lemma SecondIsLost(start: State, e: Entry)
    requires start.info == map[] && start.random == [] && start.addr == map[] && start.newAt == map[]
    ensures var v := WithNew(WithNew(start, 0, e, false), 1, e, false);
            && v.info.Keys == {0, 1} && v.random == [0, 1] && v.addr == map[e.address.service.net := 1]
            && v.info[0].refCount == 1 && v.info[1].refCount == 0 && v.info[0].randomPos == 0
            && v.info[1].randomPos == 1
            && Net(v.info[0]) == Net(v.info[1]) == e.address.service.net && !v.info[1].inTried
  {
    FromFixed(start.site, FromEntry(e), FromEntry(e).(randomPos := 0));
    FromFixed(start.site, FromEntry(e), FromEntry(e).(randomPos := 1));
  }

  lemma LostIsPruned(v: State, e: Entry)
    requires v.info.Keys == {0, 1} && v.random == [0, 1] && v.addr == map[e.address.service.net := 1]
    requires v.info[0].refCount == 1 && v.info[1].refCount == 0 && v.info[0].randomPos == 0 && v.info[1].randomPos == 1
    requires Net(v.info[0]) == Net(v.info[1]) == e.address.service.net && !v.info[1].inTried
    ensures Random(v.info, v.random)
    ensures var t := Pruned(v, v.info.Keys); 0 in t.info && Net(t.info[0]) !in t.addr && !Sound(t)
  {
    assert forall k :: 0 <= k < 2 ==> Nth(v.random, k) == k;
    assert Least({0, 1}) == 0 && {0, 1} - {0} == {1} && Least({1}) == 1 && {1} - {1} == {};
    DeletedRandom(v, 1);
    assert Pruned(v, {0, 1}) == Pruned(v, {1}) == Deleted(v, 1);
  }

  /** A stream that lists a tried address twice reads as a consistent state: the second entry finds
      the slot taken and is never appended. */
  lemma RepeatedTriedLoads(h: Network, key: HashKey, e: Entry)
    ensures var ts := [Byte(0), Byte(32), KeyIs(key), Int(0), Int(2), Int(0), Peer(e), Peer(e)];
            && HeaderReads(ts) && !Unrepeated(Listed(ts))
            && Load(h, {}, ts).Some? && Check(Load(h, {}, ts).value)
  {
    hide WithTried, Pruned, Random, Check, Sound;
    var ts := [Byte(0), Byte(32), KeyIs(key), Int(0), Int(2), Int(0), Peer(e), Peer(e)];
    var (start, es) := (Blank(h, key, 0, 2, {}), [Peer(e), Peer(e)]);
    assert ts[6..] == es && es[0..] == es && es[..2] == es && es[..2][..1] == [Peer(e)] && es[2..] == []
           && [Peer(e)][..0] == [] && es[..0] == [];
    assert Listed(ts)[0] == Listed(ts)[1] == Peer(e);
    var one := WithTried(start, e);
    assert ReadTried(start, [Peer(e)]) == one;
    assert ReadTried(start, es) == WithTried(one, e);
    SecondTriedIsLost(start, e);
    LoadSoundIff(h, {}, ts);
  }

  lemma SecondTriedIsLost(start: State, e: Entry)
    requires start.info == map[] && start.triedAt == map[] && start.idCount == 0
    ensures WithTried(WithTried(start, e), e).info.Keys == {0} && Clean(WithTried(WithTried(start, e), e))
  {
    hide TriedSlot;
  }
}
