/** The stochastic address manager: an id per known address, an index by network address, a
    random order, a "new" table in which an address may sit several times, and a "tried" table
    in which it sits at most once.

    The state is a value, every step of the code is a function on it, and the class of
    AddrMan performs those steps in place.  Hashing, address grouping and the routability tests
    are parameters; so are the clock and the random draws. */
module AddrManState {

  const NEW_BUCKETS: nat := 1024
  const TRIED_BUCKETS: nat := 256
  const BUCKET_SIZE: nat := 64
  const TRIED_BUCKETS_PER_GROUP: nat := 8
  const NEW_BUCKETS_PER_SOURCE_GROUP: nat := 64
  const NEW_BUCKETS_PER_ADDRESS: nat := 8
  const HORIZON_DAYS := 30
  const RETRIES := 3
  const MAX_FAILURES := 10
  const MIN_FAIL_DAYS := 7
  const REPLACEMENT_HOURS := 4
  const GETADDR_MAX_PCT: nat := 23
  const GETADDR_MAX: nat := 2500
  const TRIED_COLLISION_SIZE: nat := 10
  const TEST_WINDOW := 40 * 60

  // ---------------------------------------------------------------------------------
  // Addresses and hashing
  // ---------------------------------------------------------------------------------

  datatype Option<+T> = None | Some(value: T)

  type NetAddr = nat
  type HashKey = nat

  datatype Service = Service(net: NetAddr, port: nat)

  /** A peer address as announced; `services` is the set of service bits. */
  datatype Address = Address(service: Service, services: set<nat>, time: int)

  datatype AddrInfo = AddrInfo(address: Address, source: NetAddr, lastTry: int, lastCountAttempt: int,
                               lastSuccess: int, attempts: int, refCount: int, inTried: bool, randomPos: int)

  function NewInfo(address: Address, source: NetAddr): AddrInfo {
    AddrInfo(address, source, 0, 0, 0, 0, 0, false, -1)
  }

  /** What is fed to the hash. */
  datatype Item = Key(key: HashKey) | Bytes(bytes: seq<nat>) | Letter(c: char) | Number(n: nat)

  datatype Network = Network(cheapHash: seq<Item> -> nat, group: NetAddr -> seq<nat>, bytes: Service -> seq<nat>,
                             routable: NetAddr -> bool, valid: NetAddr -> bool)

  datatype Slot = Slot(bucket: nat, pos: nat)

  function GetTriedBucket(h: Network, key: HashKey, service: Service): (b: nat)
    ensures b < TRIED_BUCKETS
  {
    var hash1 := h.cheapHash([Key(key), Bytes(h.bytes(service))]);
    h.cheapHash([Key(key), Bytes(h.group(service.net)), Number(hash1 % TRIED_BUCKETS_PER_GROUP)]) % TRIED_BUCKETS
  }

  function GetNewBucket(h: Network, key: HashKey, service: Service, source: NetAddr): (b: nat)
    ensures b < NEW_BUCKETS
  {
    var from := Bytes(h.group(source));
    var hash1 := h.cheapHash([Key(key), Bytes(h.group(service.net)), from]);
    h.cheapHash([Key(key), from, Number(hash1 % NEW_BUCKETS_PER_SOURCE_GROUP)]) % NEW_BUCKETS
  }

  function GetBucketPosition(h: Network, key: HashKey, inNew: bool, bucket: nat, service: Service): (p: nat)
    ensures p < BUCKET_SIZE
  {
    h.cheapHash([Key(key), Letter(if inNew then 'N' else 'K'), Number(bucket), Bytes(h.bytes(service))]) % BUCKET_SIZE
  }

  predicate IsTerrible(i: AddrInfo, now: int) {
    !(i.lastTry != 0 && i.lastTry >= now - 60) &&
    (|| i.address.time > now + 10 * 60
     || i.address.time == 0 || now - i.address.time > HORIZON_DAYS * 24 * 60 * 60
     || (i.lastSuccess == 0 && i.attempts >= RETRIES)
     || (now - i.lastSuccess > MIN_FAIL_DAYS * 24 * 60 * 60 && i.attempts >= MAX_FAILURES))
  }

  // ---------------------------------------------------------------------------------
  // The state and its invariant
  // ---------------------------------------------------------------------------------

  /** What fixes the slots: the hashes and the secret key. */
  datatype Site = Site(h: Network, key: HashKey)

  type Infos = map<int, AddrInfo>

  datatype State = State(
    site: Site, idCount: int, info: Infos, addr: map<NetAddr, int>, random: seq<int>, newAt: map<Slot, int>,
    triedAt: map<Slot, int>, nNew: int, nTried: int, lastGood: int, collisions: set<int>)

  /** The only slot an address can take in a bucket of the new table. */
  function NewSlot(site: Site, i: AddrInfo, bucket: nat): (x: Slot)
    ensures x.bucket == bucket && x.pos < BUCKET_SIZE
  {
    Slot(bucket, GetBucketPosition(site.h, site.key, true, bucket, i.address.service))
  }

  /** The only slot an address can take in the tried table. */
  function TriedSlot(site: Site, i: AddrInfo): (x: Slot)
    ensures x.bucket < TRIED_BUCKETS && x.pos < BUCKET_SIZE
  {
    var b := GetTriedBucket(site.h, site.key, i.address.service);
    Slot(b, GetBucketPosition(site.h, site.key, false, b, i.address.service))
  }

  // Lookups of an id.
  function IdAt(table: map<Slot, int>, x: Slot): int requires x in table { table[x] }
  function IdOf(addr: map<NetAddr, int>, a: NetAddr): int requires a in addr { addr[a] }
  function Nth(random: seq<int>, k: int): int requires 0 <= k < |random| { random[k] }

  /** The slots of the new table that hold `id`. */
  function SlotsOf(table: map<Slot, int>, id: int): set<Slot> { set x | x in table && IdAt(table, x) == id }

  function NewIds(info: Infos): set<int> { set id | id in info && info[id].refCount != 0 }

  function TriedIds(info: Infos): set<int> { set id | id in info && info[id].inTried }

  function Net(i: AddrInfo): NetAddr { i.address.service.net }

  ghost predicate Index(info: Infos, addr: map<NetAddr, int>) {
    && (forall id :: id in info ==> Net(info[id]) in addr && IdOf(addr, Net(info[id])) == id)
    && (forall a :: a in addr ==> IdOf(addr, a) in info && Net(info[IdOf(addr, a)]) == a)
  }

  ghost predicate Random(info: Infos, random: seq<int>) {
    && (forall id :: id in info ==> 0 <= info[id].randomPos < |random| && Nth(random, info[id].randomPos) == id)
    && (forall k :: 0 <= k < |random| ==> Nth(random, k) in info && info[Nth(random, k)].randomPos == k)
  }

  ghost predicate NewTable(site: Site, info: Infos, newAt: map<Slot, int>) {
    forall x :: x in newAt ==>
                  && IdAt(newAt, x) in info && !info[IdAt(newAt, x)].inTried
                  && x.bucket < NEW_BUCKETS && x == NewSlot(site, info[IdAt(newAt, x)], x.bucket)
  }

  ghost predicate TriedTable(site: Site, info: Infos, triedAt: map<Slot, int>) {
    && (forall x :: x in triedAt ==>
                      && IdAt(triedAt, x) in info && info[IdAt(triedAt, x)].inTried
                      && x == TriedSlot(site, info[IdAt(triedAt, x)]))
    && (forall id :: id in info && info[id].inTried ==>
                       TriedSlot(site, info[id]) in triedAt && IdAt(triedAt, TriedSlot(site, info[id])) == id)
  }

  ghost predicate RefCounts(info: Infos, newAt: map<Slot, int>) {
    forall id :: id in info ==> info[id].refCount == |SlotsOf(newAt, id)| <= NEW_BUCKETS_PER_ADDRESS
  }

  ghost predicate IdsUsed(s: State) {
    && s.idCount >= 0
    && (forall id :: id in s.info ==> 0 <= id < s.idCount)
  }

  /** The clauses that hold at every step, also in the middle of an operation. */
  ghost predicate Core(s: State) {
    && Index(s.info, s.addr) && Random(s.info, s.random) && NewTable(s.site, s.info, s.newAt)
    && TriedTable(s.site, s.info, s.triedAt) && RefCounts(s.info, s.newAt) && IdsUsed(s)
  }

  /** Those of them that do not speak of the index. */
  ghost predicate Body(s: State) {
    && Random(s.info, s.random) && NewTable(s.site, s.info, s.newAt) && TriedTable(s.site, s.info, s.triedAt)
    && RefCounts(s.info, s.newAt) && IdsUsed(s)
  }

  /** The counters, `k` ids without a place being counted as new. */
  ghost predicate Counted(s: State, k: int) { s.nNew == |NewIds(s.info)| + k && s.nTried == |TriedIds(s.info)| }

  /** Only ids in `limbo` are in neither table. */
  ghost predicate Placed(s: State, limbo: set<int>) {
    forall id :: id in s.info && !s.info[id].inTried && s.info[id].refCount == 0 ==> id in limbo
  }

  /** An entry without a place in either table. */
  predicate Limbo(s: State, id: int) { id in s.info && !s.info[id].inTried && s.info[id].refCount == 0 }

  /** Every pending collision is an id given out, and if it still has an entry, that collides
      with somebody. */
  ghost predicate Pending(s: State) {
    && (forall id :: id in s.collisions ==> 0 <= id < s.idCount)
    && (forall id :: id in s.collisions && id in s.info ==> TriedSlot(s.site, s.info[id]) in s.triedAt)
  }

  ghost predicate Check(s: State) { Core(s) && Counted(s, 0) && Placed(s, {}) && Pending(s) }

  // ---------------------------------------------------------------------------------
  // The steps
  // ---------------------------------------------------------------------------------

  /** The same entries, but for bookkeeping and the random order. */
  ghost predicate SameShape(info: Infos, other: Infos) {
    && (forall id :: id in info ==>
                       && id in other && info[id].address.service == other[id].address.service
                       && info[id].refCount == other[id].refCount && info[id].inTried == other[id].inTried)
    && (forall id :: id in other ==> id in info)
  }

  predicate SamePlace(i: AddrInfo, j: AddrInfo) {
    i.address.service == j.address.service && i.refCount == j.refCount && i.inTried == j.inTried
  }

  lemma SlotsFixed(site: Site, i: AddrInfo, j: AddrInfo, bucket: nat)
    requires i.address.service == j.address.service
    ensures NewSlot(site, i, bucket) == NewSlot(site, j, bucket) && TriedSlot(site, i) == TriedSlot(site, j)
  {}

  lemma ShapeIndex(info: Infos, other: Infos, addr: map<NetAddr, int>)
    requires SameShape(info, other) && Index(info, addr)
    ensures Index(other, addr) && NewIds(other) == NewIds(info) && TriedIds(other) == TriedIds(info)
  {
    assert forall id :: id in NewIds(info) <==> id in NewIds(other);
    assert forall id :: id in TriedIds(info) <==> id in TriedIds(other);
  }

  lemma ShapeNew(site: Site, info: Infos, other: Infos, newAt: map<Slot, int>)
    requires SameShape(info, other) && NewTable(site, info, newAt) && RefCounts(info, newAt)
    ensures NewTable(site, other, newAt) && RefCounts(other, newAt)
  {
    hide NewSlot, SlotsOf;
    forall x | x in newAt
      ensures NewSlot(site, info[IdAt(newAt, x)], x.bucket) == NewSlot(site, other[IdAt(newAt, x)], x.bucket)
    {
      SlotsFixed(site, info[IdAt(newAt, x)], other[IdAt(newAt, x)], x.bucket);
    }
  }

  lemma ShapeTried(site: Site, info: Infos, other: Infos, triedAt: map<Slot, int>)
    requires SameShape(info, other) && TriedTable(site, info, triedAt)
    ensures TriedTable(site, other, triedAt)
  {
    hide TriedSlot;
    forall id | id in info ensures TriedSlot(site, info[id]) == TriedSlot(site, other[id]) {
      SlotsFixed(site, info[id], other[id], 0);
    }
  }

  lemma ShapeCore(s: State, other: Infos)
    requires Core(s) && SameShape(s.info, other)
    ensures Index(other, s.addr) && NewTable(s.site, other, s.newAt) && RefCounts(other, s.newAt)
    ensures TriedTable(s.site, other, s.triedAt) && IdsUsed(s.(info := other))
    ensures NewIds(other) == NewIds(s.info) && TriedIds(other) == TriedIds(s.info)
  {
    hide Index, NewTable, TriedTable, RefCounts;
    ShapeIndex(s.info, other, s.addr);
    ShapeNew(s.site, s.info, other, s.newAt);
    ShapeTried(s.site, s.info, other, s.triedAt);
  }

  function Updated(s: State, id: int, i: AddrInfo): State { s.(info := s.info[id := i]) }

  lemma UpdatedCore(s: State, id: int, i: AddrInfo)
    requires Core(s) && id in s.info && SamePlace(s.info[id], i) && s.info[id].randomPos == i.randomPos
    ensures Core(Updated(s, id, i)) && SameShape(s.info, Updated(s, id, i).info)
  {
    hide NewTable, TriedTable, RefCounts, Index;
    ShapeCore(s, s.info[id := i]);
  }

  function Created(s: State, address: Address, source: NetAddr): State {
    s.(idCount := s.idCount + 1, random := s.random + [s.idCount], addr := s.addr[address.service.net := s.idCount],
       info := s.info[s.idCount := NewInfo(address, source).(randomPos := |s.random|)])
  }

  lemma CreatedCore(s: State, address: Address, source: NetAddr)
    requires Core(s) && address.service.net !in s.addr
    ensures var t := Created(s, address, source);
            Core(t) && Limbo(t, s.idCount) && NewIds(t.info) == NewIds(s.info) && TriedIds(t.info) == TriedIds(s.info)
  {
    hide NewTable, RefCounts, TriedTable, Random;
    var t := Created(s, address, source);
    GrowTables(s.site, s.info, s.idCount, t.info[s.idCount], s.newAt, s.triedAt);
    AppendRandom(s.info, s.random, s.idCount, t.info[s.idCount]);
    assert forall id :: id in NewIds(s.info) <==> id in NewIds(t.info);
    assert forall id :: id in TriedIds(s.info) <==> id in TriedIds(t.info);
  }

  lemma GrowTables(site: Site, info: Infos, id: int, i: AddrInfo, newAt: map<Slot, int>, triedAt: map<Slot, int>)
    requires NewTable(site, info, newAt) && TriedTable(site, info, triedAt) && RefCounts(info, newAt)
    requires id !in info && !i.inTried && i.refCount == 0
    ensures NewTable(site, info[id := i], newAt) && TriedTable(site, info[id := i], triedAt)
            && RefCounts(info[id := i], newAt)
  {
    hide NewSlot, TriedSlot;
    assert SlotsOf(newAt, id) == {};
  }

  lemma AppendRandom(info: Infos, random: seq<int>, id: int, i: AddrInfo)
    requires Random(info, random) && id !in info && i.randomPos == |random|
    ensures Random(info[id := i], random + [id])
  {
    forall k | 0 <= k <= |random|
      ensures Nth(random + [id], k) in info[id := i] && info[id := i][Nth(random + [id], k)].randomPos == k
    {
      assert k < |random| ==> Nth(random + [id], k) == Nth(random, k);
    }
    assert forall k :: 0 <= k < |random| ==> Nth(random + [id], k) == Nth(random, k);
  }

  function Swapped(s: State, i: nat, j: nat): State
    requires i < |s.random| && j < |s.random| && Nth(s.random, i) in s.info && Nth(s.random, j) in s.info
  {
    var (x, y) := (Nth(s.random, i), Nth(s.random, j));
    var info := s.info[x := s.info[x].(randomPos := j)];
    if i == j then s
    else s.(info := info[y := info[y].(randomPos := i)], random := s.random[i := y][j := x])
  }

  lemma SwappedCore(s: State, i: nat, j: nat)
    requires Core(s) && i < |s.random| && j < |s.random|
    ensures Core(Swapped(s, i, j)) && SameShape(s.info, Swapped(s, i, j).info)
  {
    hide NewTable, TriedTable, RefCounts, Index;
    var t := Swapped(s, i, j);
    ShapeCore(s, t.info);
    if i != j {
      SwapRandom(s.info, s.random, i, j, t.info, t.random);
    }
  }

  lemma SwapRandom(info: Infos, random: seq<int>, i: nat, j: nat, info': Infos, random': seq<int>)
    requires Random(info, random) && i < |random| && j < |random| && i != j
    requires var x, y := Nth(random, i), Nth(random, j);
             && random' == random[i := y][j := x]
             && info' == info[x := info[x].(randomPos := j)][y := info[y].(randomPos := i)]
    ensures Random(info', random')
  {
    assert forall k :: 0 <= k < |random| ==>
                         Nth(random', k) == if k == i then Nth(random, j) else if k == j then Nth(random, i)
                           else Nth(random, k);
  }

  /** Removes an entry: it moves to the end of the random order and is cut off there. */
  function Deleted(s: State, id: int): State
    requires id in s.info && 0 <= s.info[id].randomPos < |s.random| && Nth(s.random, s.info[id].randomPos) == id
    requires Nth(s.random, |s.random| - 1) in s.info
  {
    var t := Swapped(s, s.info[id].randomPos, |s.random| - 1);
    t.(random := t.random[..|t.random| - 1], addr := t.addr - {Net(t.info[id])}, info := t.info - {id},
      nNew := t.nNew - 1)
  }

  lemma DeletedCore(s: State, id: int)
    requires Core(s) && Limbo(s, id)
    ensures 0 <= s.info[id].randomPos < |s.random| && Nth(s.random, s.info[id].randomPos) == id
    ensures Nth(s.random, |s.random| - 1) in s.info
    ensures var t := Deleted(s, id);
            Core(t) && NewIds(t.info) == NewIds(s.info) && TriedIds(t.info) == TriedIds(s.info)
    ensures SameShape(s.info - {id}, Deleted(s, id).info)
  {
    hide NewTable, TriedTable, RefCounts, Index, NewIds, TriedIds;
    var (i, j) := (s.info[id].randomPos, |s.random| - 1);
    var u := Swapped(s, i, j);
    SwappedCore(s, i, j);
    ShapeCore(s, u.info);
    assert i != j ==> Nth(u.random, j) == id;
    CutCore(u, id);
  }

  /** Cutting off the entry that is last in the random order. */
  lemma CutCore(s: State, id: int)
    requires Core(s) && Limbo(s, id) && s.info[id].randomPos == |s.random| - 1
    ensures var info := s.info - {id};
            && Index(info, s.addr - {Net(s.info[id])}) && Random(info, s.random[..|s.random| - 1])
            && NewTable(s.site, info, s.newAt) && TriedTable(s.site, info, s.triedAt) && RefCounts(info, s.newAt)
            && NewIds(info) == NewIds(s.info) && TriedIds(info) == TriedIds(s.info)
  {
    hide NewTable, RefCounts, TriedTable;
    var info := s.info - {id};
    CutTables(s.site, s.info, id, s.newAt, s.triedAt);
    var random := s.random[..|s.random| - 1];
    assert forall k :: 0 <= k < |random| ==> Nth(random, k) == Nth(s.random, k);
    assert forall i :: i in NewIds(s.info) <==> i in NewIds(info);
    assert forall i :: i in TriedIds(s.info) <==> i in TriedIds(info);
  }

  lemma CutTables(site: Site, info: Infos, id: int, newAt: map<Slot, int>, triedAt: map<Slot, int>)
    requires NewTable(site, info, newAt) && TriedTable(site, info, triedAt) && RefCounts(info, newAt)
    requires id in info && !info[id].inTried && info[id].refCount == 0
    ensures NewTable(site, info - {id}, newAt) && TriedTable(site, info - {id}, triedAt)
            && RefCounts(info - {id}, newAt)
  {
    hide NewSlot, TriedSlot;
    assert SlotsOf(newAt, id) == {};
    assert forall x :: x in newAt && IdAt(newAt, x) == id ==> x in SlotsOf(newAt, id);
  }

  /** Changes of an entry that touch neither its address nor its position in the random order. */
  lemma SameIndex(info: Infos, id: int, i: AddrInfo, addr: map<NetAddr, int>, random: seq<int>)
    requires Index(info, addr) && Random(info, random) && id in info
    requires info[id].address.service == i.address.service && info[id].randomPos == i.randomPos
    ensures Index(info[id := i], addr) && Random(info[id := i], random)
  {}

  lemma SameRandom(info: Infos, id: int, i: AddrInfo, random: seq<int>)
    requires Random(info, random) && id in info && info[id].randomPos == i.randomPos
    ensures Random(info[id := i], random)
  {}

  /** Changes of an entry that keep it out of the tried table. */
  lemma SameTables(site: Site, info: Infos, id: int, i: AddrInfo, newAt: map<Slot, int>, triedAt: map<Slot, int>)
    requires NewTable(site, info, newAt) && TriedTable(site, info, triedAt) && id in info
    requires info[id].address.service == i.address.service && !info[id].inTried && !i.inTried
    ensures NewTable(site, info[id := i], newAt) && TriedTable(site, info[id := i], triedAt)
  {
    hide TriedSlot, NewSlot;
    forall x | x in newAt && IdAt(newAt, x) == id
      ensures NewSlot(site, info[id], x.bucket) == NewSlot(site, i, x.bucket)
    {
      SlotsFixed(site, info[id], i, x.bucket);
    }
  }

  lemma SmallerTable(site: Site, info: Infos, newAt: map<Slot, int>, less: map<Slot, int>)
    requires NewTable(site, info, newAt) && forall x :: x in less ==> x in newAt && IdAt(less, x) == IdAt(newAt, x)
    ensures NewTable(site, info, less)
  {
    hide NewSlot;
  }

  /** A change of the slots of one entry only. */
  lemma CountsOfOne(info: Infos, id: int, i: AddrInfo, newAt: map<Slot, int>, after: map<Slot, int>)
    requires RefCounts(info, newAt) && forall j :: j != id ==> SlotsOf(after, j) == SlotsOf(newAt, j)
    requires i.refCount == |SlotsOf(after, id)| <= NEW_BUCKETS_PER_ADDRESS
    ensures RefCounts(info[id := i], after)
  {
    hide SlotsOf;
  }

  lemma IdsOfOne(info: Infos, id: int, i: AddrInfo)
    requires id in info
    ensures NewIds(info[id := i]) == if i.refCount == 0 then NewIds(info) - {id} else NewIds(info) + {id}
    ensures TriedIds(info[id := i]) == if i.inTried then TriedIds(info) + {id} else TriedIds(info) - {id}
  {}

  /** Empties a slot of the new table. */
  function Unlinked(s: State, x: Slot): State
    requires x in s.newAt && IdAt(s.newAt, x) in s.info
  {
    var id := IdAt(s.newAt, x);
    s.(newAt := s.newAt - {x}, info := s.info[id := s.info[id].(refCount := s.info[id].refCount - 1)])
  }

  lemma UnlinkedCore(s: State, x: Slot)
    requires Core(s) && x in s.newAt
    ensures IdAt(s.newAt, x) in s.info && s.info[IdAt(s.newAt, x)].refCount > 0 && !s.info[IdAt(s.newAt, x)].inTried
    ensures Core(Unlinked(s, x))
    ensures TriedIds(Unlinked(s, x).info) == TriedIds(s.info)
    ensures var id := IdAt(s.newAt, x);
            NewIds(Unlinked(s, x).info) == if s.info[id].refCount == 1 then NewIds(s.info) - {id} else NewIds(s.info)
  {
    hide SlotsOf, Index, Random, TriedTable, NewSlot;
    SlotsWithout(s.newAt, x);
    var (id, t) := (IdAt(s.newAt, x), Unlinked(s, x));
    SameIndex(s.info, id, t.info[id], s.addr, s.random);
    SameTables(s.site, s.info, id, t.info[id], s.newAt, s.triedAt);
    SmallerTable(s.site, t.info, s.newAt, t.newAt);
    CountsOfOne(s.info, id, t.info[id], s.newAt, t.newAt);
    IdsOfOne(s.info, id, t.info[id]);
  }

  lemma SlotsWithout(newAt: map<Slot, int>, x: Slot)
    requires x in newAt
    ensures var id := IdAt(newAt, x);
            && |SlotsOf(newAt - {x}, id)| == |SlotsOf(newAt, id)| - 1
            && (forall j :: j != id ==> SlotsOf(newAt - {x}, j) == SlotsOf(newAt, j))
            && (forall y :: y in newAt - {x} ==> IdAt(newAt - {x}, y) == IdAt(newAt, y))
  {
    assert forall y :: y in newAt - {x} ==> IdAt(newAt - {x}, y) == IdAt(newAt, y);
    var id := IdAt(newAt, x);
    assert SlotsOf(newAt - {x}, id) == SlotsOf(newAt, id) - {x} && x in SlotsOf(newAt, id);
  }

  /** Puts an entry into a free slot of the new table. */
  function Linked(s: State, x: Slot, id: int): State
    requires id in s.info
  {
    s.(newAt := s.newAt[x := id], info := s.info[id := s.info[id].(refCount := s.info[id].refCount + 1)])
  }

  lemma LinkedCore(s: State, x: Slot, id: int)
    requires Core(s) && x !in s.newAt && id in s.info && !s.info[id].inTried
    requires x.bucket < NEW_BUCKETS && x == NewSlot(s.site, s.info[id], x.bucket)
    requires s.info[id].refCount < NEW_BUCKETS_PER_ADDRESS
    ensures Core(Linked(s, x, id)) && Linked(s, x, id).info[id].refCount > 0
    ensures NewIds(Linked(s, x, id).info) == NewIds(s.info) + {id}
            && TriedIds(Linked(s, x, id).info) == TriedIds(s.info)
  {
    hide SlotsOf, Index, Random, NewTable, TriedTable, RefCounts, NewSlot, NewIds, TriedIds;
    LinkedBody(s, x, id);
    SameIndex(s.info, id, Linked(s, x, id).info[id], s.addr, s.random);
  }

  lemma LinkedBody(s: State, x: Slot, id: int)
    requires Body(s) && x !in s.newAt && id in s.info && !s.info[id].inTried
    requires x.bucket < NEW_BUCKETS && x == NewSlot(s.site, s.info[id], x.bucket)
    requires s.info[id].refCount < NEW_BUCKETS_PER_ADDRESS
    ensures Body(Linked(s, x, id)) && Linked(s, x, id).info[id].refCount > 0
    ensures NewIds(Linked(s, x, id).info) == NewIds(s.info) + {id}
            && TriedIds(Linked(s, x, id).info) == TriedIds(s.info)
  {
    hide SlotsOf, Random, TriedTable, NewSlot;
    SlotsWith(s.newAt, x, id);
    var t := Linked(s, x, id);
    SameRandom(s.info, id, t.info[id], s.random);
    SameTables(s.site, s.info, id, t.info[id], s.newAt, s.triedAt);
    SlotsFixed(s.site, s.info[id], t.info[id], x.bucket);
    assert NewTable(s.site, t.info, t.newAt);
    CountsOfOne(s.info, id, t.info[id], s.newAt, t.newAt);
    IdsOfOne(s.info, id, t.info[id]);
  }

  lemma SlotsWith(newAt: map<Slot, int>, x: Slot, id: int)
    requires x !in newAt
    ensures |SlotsOf(newAt[x := id], id)| == |SlotsOf(newAt, id)| + 1
    ensures forall j :: j != id ==> SlotsOf(newAt[x := id], j) == SlotsOf(newAt, j)
    ensures forall y :: y in newAt ==> IdAt(newAt[x := id], y) == IdAt(newAt, y)
  {
    assert forall y :: y in newAt ==> IdAt(newAt[x := id], y) == IdAt(newAt, y);
    assert SlotsOf(newAt[x := id], id) == SlotsOf(newAt, id) + {x};
  }

  /** The table without an entry. */
  function Without(newAt: map<Slot, int>, id: int): map<Slot, int> {
    map x | x in newAt && IdAt(newAt, x) != id :: IdAt(newAt, x)
  }

  /** Takes an entry out of every slot of the new table. */
  function Withdrawn(s: State, id: int): State
    requires id in s.info
  {
    s.(newAt := Without(s.newAt, id), nNew := s.nNew - 1,
       info := s.info[id := s.info[id].(refCount := s.info[id].refCount - |SlotsOf(s.newAt, id)|)])
  }

  lemma WithdrawnCore(s: State, id: int)
    requires Core(s) && id in s.info && !s.info[id].inTried
    ensures Core(Withdrawn(s, id)) && Limbo(Withdrawn(s, id), id)
    ensures NewIds(Withdrawn(s, id).info) == NewIds(s.info) - {id}
    ensures TriedIds(Withdrawn(s, id).info) == TriedIds(s.info)
  {
    hide SlotsOf, Index, Random, TriedTable, NewSlot;
    var t := Withdrawn(s, id);
    SlotsOfOthers(s.newAt, id);
    SameIndex(s.info, id, t.info[id], s.addr, s.random);
    SameTables(s.site, s.info, id, t.info[id], s.newAt, s.triedAt);
    SmallerTable(s.site, t.info, s.newAt, t.newAt);
    CountsOfOne(s.info, id, t.info[id], s.newAt, t.newAt);
    IdsOfOne(s.info, id, t.info[id]);
  }

  lemma SlotsOfOthers(newAt: map<Slot, int>, id: int)
    ensures SlotsOf(Without(newAt, id), id) == {}
    ensures forall j :: j != id ==> SlotsOf(Without(newAt, id), j) == SlotsOf(newAt, j)
    ensures forall x :: x in Without(newAt, id) ==> IdAt(Without(newAt, id), x) == IdAt(newAt, x)
  {}

  /** Takes whoever sits there out of a slot of the tried table. */
  function Untried(s: State, x: Slot): State
    requires x in s.triedAt && IdAt(s.triedAt, x) in s.info
  {
    var id := IdAt(s.triedAt, x);
    s.(triedAt := s.triedAt - {x}, nTried := s.nTried - 1, info := s.info[id := s.info[id].(inTried := false)])
  }

  lemma UntriedCore(s: State, x: Slot)
    requires Core(s) && x in s.triedAt
    ensures IdAt(s.triedAt, x) in s.info && s.info[IdAt(s.triedAt, x)].inTried
    ensures Core(Untried(s, x)) && Limbo(Untried(s, x), IdAt(s.triedAt, x))
    ensures NewIds(Untried(s, x).info) == NewIds(s.info)
    ensures IdAt(s.triedAt, x) in TriedIds(s.info)
            && TriedIds(Untried(s, x).info) == TriedIds(s.info) - {IdAt(s.triedAt, x)}
  {
    hide SlotsOf, Index, Random, NewSlot, TriedSlot, NewTable;
    var (id, t) := (IdAt(s.triedAt, x), Untried(s, x));
    NewUnaffected(s.site, s.info, id, t.info[id], s.newAt);
    SameIndex(s.info, id, t.info[id], s.addr, s.random);
    IdsOfOne(s.info, id, t.info[id]);
    SlotsFixed(s.site, s.info[id], t.info[id], 0);
    assert forall y :: y in t.triedAt ==> IdAt(t.triedAt, y) == IdAt(s.triedAt, y);
  }

  /** Moving an entry in or out of the tried table leaves the new table alone. */
  lemma NewUnaffected(site: Site, info: Infos, id: int, i: AddrInfo, newAt: map<Slot, int>)
    requires NewTable(site, info, newAt) && RefCounts(info, newAt) && id in info
             && (info[id].inTried || info[id].refCount == 0)
    requires i.refCount == info[id].refCount
    ensures info[id].refCount == 0 && NewTable(site, info[id := i], newAt) && RefCounts(info[id := i], newAt)
  {
    hide NewSlot;
    if info[id].inTried {
      assert SlotsOf(newAt, id) == {};
    }
    assert forall x :: x in newAt && IdAt(newAt, x) == id ==> x in SlotsOf(newAt, id);
  }

  /** Puts an entry into its slot of the tried table. */
  function Tried(s: State, id: int): State
    requires id in s.info
  {
    s.(triedAt := s.triedAt[TriedSlot(s.site, s.info[id]) := id], nTried := s.nTried + 1,
       info := s.info[id := s.info[id].(inTried := true)])
  }

  lemma TriedCore(s: State, id: int)
    requires Core(s) && Limbo(s, id) && TriedSlot(s.site, s.info[id]) !in s.triedAt
    ensures Core(Tried(s, id))
    ensures NewIds(Tried(s, id).info) == NewIds(s.info)
    ensures id !in TriedIds(s.info) && TriedIds(Tried(s, id).info) == TriedIds(s.info) + {id}
  {
    hide SlotsOf, Index, Random, NewTable, TriedTable, RefCounts, TriedSlot, NewIds, TriedIds;
    TriedBody(s, id);
    SameIndex(s.info, id, Tried(s, id).info[id], s.addr, s.random);
  }

  lemma TriedBody(s: State, id: int)
    requires Body(s) && Limbo(s, id) && TriedSlot(s.site, s.info[id]) !in s.triedAt
    ensures Body(Tried(s, id))
    ensures NewIds(Tried(s, id).info) == NewIds(s.info)
    ensures id !in TriedIds(s.info) && TriedIds(Tried(s, id).info) == TriedIds(s.info) + {id}
  {
    hide SlotsOf, Random, NewSlot, TriedSlot, NewTable;
    var t := Tried(s, id);
    NewUnaffected(s.site, s.info, id, t.info[id], s.newAt);
    SameRandom(s.info, id, t.info[id], s.random);
    IdsOfOne(s.info, id, t.info[id]);
    SlotsFixed(s.site, s.info[id], t.info[id], 0);
    assert forall y :: y in s.triedAt ==> IdAt(t.triedAt, y) == IdAt(s.triedAt, y);
  }

  // ---------------------------------------------------------------------------------
  // Clearing a slot of the new table
  // ---------------------------------------------------------------------------------

  /** The same entries outside `ids`, up to the random order. */
  ghost predicate Agree(info: Infos, other: Infos, ids: set<int>) {
    && (forall id :: id in info && id !in ids ==>
                       id in other && other[id] == info[id].(randomPos := other[id].randomPos))
    && (forall id :: id in other && id !in ids ==> id in info)
  }

  lemma DeletedAgree(s: State, id: int)
    requires Core(s) && Limbo(s, id)
    ensures Random(s.info, s.random) && id !in Deleted(s, id).info && Agree(s.info, Deleted(s, id).info, {id})
  {
    hide Index, NewTable, TriedTable, RefCounts;
  }

  ghost function Cleared(s: State, x: Slot): State
    requires Core(s)
  {
    if x !in s.newAt then s
    else
      UnlinkedCore(s, x);
      var id := IdAt(s.newAt, x);
      var t := Unlinked(s, x);
      if t.info[id].refCount == 0 then
        DeletedCore(t, id);
        Deleted(t, id)
      else t
  }

  /** The slot is free afterwards; whoever sat there has one reference less, and is forgotten
      if that was the last; nothing else changes. */
  lemma ClearedIs(s: State, x: Slot)
    requires Core(s)
    ensures var t := Cleared(s, x);
            && t == s.(newAt := s.newAt - {x}, info := t.info, addr := t.addr, random := t.random, nNew := t.nNew)
            && if x !in s.newAt then t == s
               else var id := IdAt(s.newAt, x);
                    && id in s.info && s.info[id].refCount > 0 && Agree(s.info, t.info, {id})
                    && (if s.info[id].refCount == 1 then id !in t.info
                        else id in t.info && t.info[id] == s.info[id].(refCount := s.info[id].refCount - 1))
  {
    hide Index, NewTable, TriedTable, RefCounts, Random;
    if x in s.newAt {
      UnlinkedCore(s, x);
      var (id, t) := (IdAt(s.newAt, x), Unlinked(s, x));
      if t.info[id].refCount == 0 {
        DeletedCore(t, id);
        DeletedAgree(t, id);
      }
    } else {
      assert s.newAt - {x} == s.newAt;
    }
  }

  lemma ClearedKeeps(s: State, x: Slot, k: int, limbo: set<int>)
    requires Core(s) && Counted(s, k) && Placed(s, limbo)
    ensures Core(Cleared(s, x)) && Counted(Cleared(s, x), k) && Placed(Cleared(s, x), limbo)
  {
    hide Core;
    ClearedIs(s, x);
    if x in s.newAt {
      UnlinkedCore(s, x);
      var (id, t) := (IdAt(s.newAt, x), Unlinked(s, x));
      if t.info[id].refCount == 0 {
        DeletedCore(t, id);
      }
    }
  }

  // ---------------------------------------------------------------------------------
  // Moving an entry to the tried table
  // ---------------------------------------------------------------------------------

  /** The slot of the new table an entry gets when announced by `source`. */
  function SlotFrom(site: Site, i: AddrInfo, source: NetAddr): (x: Slot)
    ensures x.bucket < NEW_BUCKETS && x.pos < BUCKET_SIZE && x == NewSlot(site, i, x.bucket)
  {
    NewSlot(site, i, GetNewBucket(site.h, site.key, i.address.service, source))
  }

  lemma FromFixed(site: Site, i: AddrInfo, j: AddrInfo)
    requires i.address.service == j.address.service && i.source == j.source
    ensures SlotFrom(site, i, i.source) == SlotFrom(site, j, j.source)
  {}

  /** Whoever is in slot `x` of the tried table goes back to the new table. */
  ghost function Evicted(s: State, x: Slot): State
    requires Core(s) && x in s.triedAt
  {
    UntriedCore(s, x);
    var id := IdAt(s.triedAt, x);
    var y := SlotFrom(s.site, s.info[id], s.info[id].source);
    ClearedIs(Untried(s, x), y);
    var t := Cleared(Untried(s, x), y);
    Linked(t, y, id).(nNew := t.nNew + 1)
  }

  /** The evicted entry has one reference, in the slot its first source gives it; whoever sat
      there loses one. */
  ghost predicate EvictedTo(s: State, t: State, x: Slot)
    requires x in s.triedAt
  {
    var id := IdAt(s.triedAt, x);
    && id in s.info && s.info[id].inTried && id in t.info
    && var y := SlotFrom(s.site, s.info[id], s.info[id].source);
    && t.info[id] == s.info[id].(inTried := false, refCount := 1, randomPos := t.info[id].randomPos)
    && t == s.(triedAt := s.triedAt - {x}, newAt := s.newAt[y := id], info := t.info, addr := t.addr,
               random := t.random, nNew := t.nNew, nTried := s.nTried - 1)
    && Agree(s.info, t.info, if y in s.newAt then {id, IdAt(s.newAt, y)} else {id})
    && (y in s.newAt ==> LostOne(s.info, t.info, IdAt(s.newAt, y)))
  }

  lemma EvictedIs(s: State, x: Slot)
    requires Core(s) && x in s.triedAt
    ensures EvictedTo(s, Evicted(s, x), x)
  {
    hide Core, SlotFrom;
    UntriedCore(s, x);
    var (id, u) := (IdAt(s.triedAt, x), Untried(s, x));
    var y := SlotFrom(s.site, s.info[id], s.info[id].source);
    ClearedIs(u, y);
    assert (s.newAt - {y})[y := id] == s.newAt[y := id];
  }

  /** An entry with one reference less, or none left and forgotten. */
  ghost predicate LostOne(info: Infos, other: Infos, id: int) {
    && id in info && info[id].refCount > 0
    && (if info[id].refCount == 1 then id !in other
        else id in other && other[id] == info[id].(refCount := info[id].refCount - 1, randomPos := other[id].randomPos))
  }

  lemma EvictedKeeps(s: State, x: Slot, limbo: set<int>)
    requires Core(s) && Counted(s, 0) && Placed(s, limbo) && x in s.triedAt
    ensures Core(Evicted(s, x)) && Counted(Evicted(s, x), 0) && Placed(Evicted(s, x), limbo)
    ensures x !in Evicted(s, x).triedAt
  {
    hide Core, SlotFrom, Cleared, TriedSlot, SlotsOf;
    UntriedCore(s, x);
    var (id, u) := (IdAt(s.triedAt, x), Untried(s, x));
    var y := SlotFrom(s.site, s.info[id], s.info[id].source);
    SlotsFixed(s.site, s.info[id], u.info[id], y.bucket);
    var t := Cleared(u, y);
    ClearedKeeps(u, y, 0, limbo + {id});
    ClearedIs(u, y);
    LinkedCore(t, y, id);
    assert Core(Linked(t, y, id).(nNew := t.nNew + 1)) by { CoreIgnoresCounters(Linked(t, y, id), t.nNew + 1); }
  }

  lemma CoreIgnoresCounters(s: State, n: int)
    requires Core(s)
    ensures Core(s.(nNew := n))
  {}

  ghost function MadeTried(s: State, id: int): State
    requires Core(s) && id in s.info && !s.info[id].inTried
  {
    WithdrawnCore(s, id);
    var t := Withdrawn(s, id);
    var x := TriedSlot(s.site, s.info[id]);
    if x in t.triedAt then
      EvictedIs(t, x);
      Tried(Evicted(t, x), id)
    else Tried(t, id)
  }

  lemma MadeTriedKeeps(s: State, id: int)
    requires Core(s) && Counted(s, 0) && Placed(s, {}) && id in s.info && !s.info[id].inTried
    ensures var t := MadeTried(s, id);
            Core(t) && Counted(t, 0) && Placed(t, {})
            && t.triedAt.Keys == s.triedAt.Keys + {TriedSlot(s.site, s.info[id])}
  {
    hide Core, TriedSlot;
    WithdrawnCore(s, id);
    var (t, x) := (Withdrawn(s, id), TriedSlot(s.site, s.info[id]));
    assert s.info[id].refCount != 0;
    assert Placed(t, {id});
    SlotsFixed(s.site, s.info[id], t.info[id], 0);
    if x in t.triedAt {
      EvictedIs(t, x);
      EvictedKeeps(t, x, {id});
      SlotsFixed(s.site, s.info[id], Evicted(t, x).info[id], 0);
      TriedCore(Evicted(t, x), id);
    } else {
      TriedCore(t, id);
    }
  }

  /** The entry sits in its tried slot and nowhere in the new table.  Whoever held that slot is
      back in the new table with one reference, and whoever held the slot it takes there has
      one less; nobody else changes. */
  lemma MadeTriedIs(s: State, id: int)
    requires Core(s) && id in s.info && !s.info[id].inTried
    ensures var (t, x) := (MadeTried(s, id), TriedSlot(s.site, s.info[id]));
            && id in t.info && t.info[id] == s.info[id].(refCount := 0, inTried := true,
               randomPos := t.info[id].randomPos)
            && t.triedAt == s.triedAt[x := id]
            && t == s.(triedAt := t.triedAt, newAt := t.newAt, info := t.info, addr := t.addr, random := t.random,
                       nNew := t.nNew, nTried := t.nTried)
            && if x in s.triedAt then Displaced(s, t, id, IdAt(s.triedAt, x))
               else t.newAt == Without(s.newAt, id) && Agree(s.info, t.info, {id})
  {
    hide Core, TriedSlot, SlotFrom, Without, Displaced, EvictedTo, Agree;
    WithdrawnCore(s, id);
    var (t, x) := (Withdrawn(s, id), TriedSlot(s.site, s.info[id]));
    SlotsFixed(s.site, s.info[id], t.info[id], 0);
    if x in s.triedAt {
      EvictedIs(t, x);
      DisplacedAfter(s, t, Evicted(t, x), id, x);
      SlotsFixed(s.site, s.info[id], Evicted(t, x).info[id], 0);
    } else {
      AgreeOnRest(s.info, id, t.info[id], MadeTried(s, id).info[id]);
    }
  }

  lemma AgreeOnRest(info: Infos, id: int, i: AddrInfo, j: AddrInfo)
    ensures Agree(info, info[id := i][id := j], {id})
  {}

  lemma DisplacedAfter(s: State, t: State, u: State, id: int, x: Slot)
    requires id in s.info && x in s.triedAt && t == Withdrawn(s, id) && Limbo(t, id) && EvictedTo(t, u, x)
    ensures id in u.info && u.info[id] == t.info[id].(randomPos := u.info[id].randomPos)
    ensures u == s.(triedAt := s.triedAt - {x}, newAt := u.newAt, info := u.info, addr := u.addr, random := u.random,
                    nNew := u.nNew, nTried := u.nTried)
    ensures (s.triedAt - {x})[x := id] == s.triedAt[x := id]
    ensures Displaced(s, Tried(u, id), id, IdAt(s.triedAt, x))
  {
    hide SlotFrom, Without, TriedSlot;
  }

  /** `prev` has made way for `id`. */
  ghost predicate Displaced(s: State, t: State, id: int, prev: int) {
    && prev in s.info && prev in t.info && prev != id
    && t.info[prev] == s.info[prev].(inTried := false, refCount := 1, randomPos := t.info[prev].randomPos)
    && var (y, rest) := (SlotFrom(s.site, s.info[prev], s.info[prev].source), Without(s.newAt, id));
    && t.newAt == rest[y := prev]
    && Agree(s.info, t.info, if y in rest then {id, prev, IdAt(rest, y)} else {id, prev})
    && (y in rest ==> LostOne(s.info, t.info, IdAt(rest, y)))
  }

  // ---------------------------------------------------------------------------------
  // Good: an address answered
  // ---------------------------------------------------------------------------------

  /** `time` is the time of the call.  The search for a bucket that holds the entry always
      succeeds when the invariant holds, wherever it starts, so it has no effect here. */
  ghost function Good(s: State, service: Service, testBeforeEvict: bool, time: int): State
    requires Core(s)
  {
    var u := s.(lastGood := time);
    if service.net !in s.addr || s.info[IdOf(s.addr, service.net)].address.service != service then u
    else
      var id := IdOf(s.addr, service.net);
      var t := Updated(u, id, u.info[id].(lastSuccess := time, lastTry := time, attempts := 0));
      if t.info[id].inTried then t
      else if testBeforeEvict && TriedSlot(t.site, t.info[id]) in t.triedAt then
        if |t.collisions| < TRIED_COLLISION_SIZE then t.(collisions := t.collisions + {id}) else t
      else
        assert Core(t) by { UpdatedCore(u, id, t.info[id]); }
        MadeTried(t, id)
  }

  /** What a run may do to the tried table: never empty a slot, never reuse an id. */
  ghost predicate Evolves(s: State, t: State) {
    && t.site == s.site && s.idCount <= t.idCount && s.triedAt.Keys <= t.triedAt.Keys
    && forall id :: id in t.info && id < s.idCount ==>
                      id in s.info && t.info[id].address.service == s.info[id].address.service
  }

  lemma PendingKept(s: State, t: State)
    requires Pending(s) && IdsUsed(t) && Evolves(s, t)
    requires forall id :: id in t.collisions ==>
                            id in s.collisions || (id in t.info && TriedSlot(t.site, t.info[id]) in t.triedAt)
    ensures Pending(t)
  {
    hide TriedSlot;
    forall id | id in t.collisions && id in t.info && id in s.collisions
      ensures TriedSlot(t.site, t.info[id]) in t.triedAt {
      SlotsFixed(s.site, s.info[id], t.info[id], 0);
    }
  }

  lemma MadeTriedEvolves(s: State, id: int)
    requires Core(s) && id in s.info && !s.info[id].inTried
    ensures Evolves(s, MadeTried(s, id)) && MadeTried(s, id).collisions == s.collisions
  {
    hide Core, TriedSlot, SlotFrom, Without;
    MadeTriedIs(s, id);
  }

  lemma GoodKeeps(s: State, service: Service, testBeforeEvict: bool, time: int)
    requires Check(s)
    ensures Check(Good(s, service, testBeforeEvict, time)) && Evolves(s, Good(s, service, testBeforeEvict, time))
  {
    hide Index, Random, NewTable, TriedTable, RefCounts, TriedSlot;
    var (u, v) := (s.(lastGood := time), Good(s, service, testBeforeEvict, time));
    if service.net in s.addr {
      Found(s, service.net);
      var id := IdOf(s.addr, service.net);
      if s.info[id].address.service == service {
        var t := Updated(u, id, u.info[id].(lastSuccess := time, lastTry := time, attempts := 0));
        UpdatedCheck(u, id, t.info[id]);
        if !t.info[id].inTried && !(testBeforeEvict && TriedSlot(t.site, t.info[id]) in t.triedAt) {
          MadeTriedChecks(t, id);
        }
      }
    }
  }

  /** The entry that Good is about, if it knows the address with this port. */
  predicate Knows(s: State, service: Service) {
    service.net in s.addr && IdOf(s.addr, service.net) in s.info
    && s.info[IdOf(s.addr, service.net)].address.service == service
  }

  /** An entry that has just answered. */
  function Answering(i: AddrInfo, time: int): AddrInfo { i.(lastSuccess := time, lastTry := time, attempts := 0) }

  /** Whose slot in the tried table would be taken. */
  function Occupants(s: State, x: Slot): set<int> { if x in s.triedAt then {IdAt(s.triedAt, x)} else {} }

  /** An address that is not known with this port leaves only a time behind.  Any other has answered,
      and is in the tried table afterwards exactly if it was there, or nobody is to be tested first, or its
      slot was free.  Then at most the occupant of its slot leaves; and otherwise it is pending if there
      was room, and nothing else changes. */
  lemma GoodIs(s: State, service: Service, testBeforeEvict: bool, time: int)
    requires Check(s)
    ensures var t := Good(s, service, testBeforeEvict, time);
            if !Knows(s, service) then t == s.(lastGood := time)
            else
              var id := IdOf(s.addr, service.net);
              var x := TriedSlot(s.site, s.info[id]);
              var moves := !s.info[id].inTried && (!testBeforeEvict || x !in s.triedAt);
              && t.lastGood == time && id in t.info
              && (id in TriedIds(t.info) <==> s.info[id].inTried || !testBeforeEvict || x !in s.triedAt)
              && (moves ==>
                    && t.info[id] == Answering(s.info[id], time).(refCount := 0, inTried := true,
                       randomPos := t.info[id].randomPos)
                    && TriedIds(t.info) == TriedIds(s.info) - Occupants(s, x) + {id}
                    && t.triedAt == s.triedAt[x := id] && t.collisions == s.collisions)
              && (!moves ==>
                    && t == s.(lastGood := time, collisions := t.collisions,
                       info := s.info[id := Answering(s.info[id], time)])
                    && t.collisions == if !s.info[id].inTried && |s.collisions| < TRIED_COLLISION_SIZE
                                       then s.collisions + {id} else s.collisions)
  {
    hide Random, NewTable, RefCounts, TriedSlot, MadeTried, Displaced, TriedTable;
    if service.net in s.addr {
      Found(s, service.net);
    }
    if Knows(s, service) {
      var id := IdOf(s.addr, service.net);
      var u := s.(lastGood := time);
      var t := Updated(u, id, Answering(u.info[id], time));
      UpdatedCore(u, id, t.info[id]);
      SlotsFixed(s.site, s.info[id], t.info[id], 0);
      IdsOfOne(s.info, id, t.info[id]);
      GoodKeeps(s, service, testBeforeEvict, time);
      if !s.info[id].inTried && (!testBeforeEvict || TriedSlot(s.site, s.info[id]) !in s.triedAt) {
        MadeTriedIs(t, id);
        TriedByTable(s, Good(s, service, testBeforeEvict, time), TriedSlot(s.site, s.info[id]), id);
      }
    }
  }

  /** The tried entries are those the tried table holds. */
  lemma TriedByTable(s: State, t: State, x: Slot, id: int)
    requires TriedTable(s.site, s.info, s.triedAt) && TriedTable(t.site, t.info, t.triedAt)
    requires t.triedAt == s.triedAt[x := id] && id !in TriedIds(s.info)
    ensures TriedIds(t.info) == TriedIds(s.info) - Occupants(s, x) + {id}
  {
    hide TriedSlot;
    var want := TriedIds(s.info) - Occupants(s, x) + {id};
    assert forall y :: y in s.triedAt && y != x ==> IdAt(t.triedAt, y) == IdAt(s.triedAt, y);
    assert IdAt(t.triedAt, x) == id;
    forall j | j in TriedIds(t.info) ensures j in want {
      var y := TriedSlot(t.site, t.info[j]);
      assert IdAt(t.triedAt, y) == j;
      assert y != x ==> IdAt(s.triedAt, y) == j;
    }
    forall j | j in want ensures j in TriedIds(t.info) {
      if j != id {
        var y := TriedSlot(s.site, s.info[j]);
        assert IdAt(s.triedAt, y) == j;
        assert y != x && IdAt(t.triedAt, y) == j;
      }
    }
  }

  lemma UpdatedCheck(s: State, id: int, i: AddrInfo)
    requires Check(s) && id in s.info && SamePlace(s.info[id], i) && s.info[id].randomPos == i.randomPos
    ensures Check(Updated(s, id, i)) && Evolves(s, Updated(s, id, i))
  {
    hide Index, Random, NewTable, TriedTable, RefCounts, TriedSlot;
    var t := Updated(s, id, i);
    UpdatedCore(s, id, i);
    ShapeCore(s, t.info);
    PendingKept(s, t);
  }

  lemma Found(s: State, a: NetAddr)
    requires Index(s.info, s.addr) && a in s.addr
    ensures IdOf(s.addr, a) in s.info && Net(s.info[IdOf(s.addr, a)]) == a
  {}

  lemma MadeTriedChecks(s: State, id: int)
    requires Check(s) && id in s.info && !s.info[id].inTried
    ensures Check(MadeTried(s, id)) && Evolves(s, MadeTried(s, id))
  {
    hide Index, Random, NewTable, TriedTable, RefCounts, TriedSlot, MadeTried;
    MadeTriedKeeps(s, id);
    MadeTriedEvolves(s, id);
    PendingKept(s, MadeTried(s, id));
  }

  // ---------------------------------------------------------------------------------
  // Add: an address was announced
  // ---------------------------------------------------------------------------------

  function Max(a: int, b: int): int { if a < b then b else a }

  function Pow2(n: nat): (p: nat)
    ensures p > 0
  {
    if n == 0 then 1 else 2 * Pow2(n - 1)
  }

  /** A known entry after a new announcement: possibly a later time, and more services. */
  function Refreshed(i: AddrInfo, address: Address, penalty: int, now: int): AddrInfo {
    var interval := if now - address.time < 24 * 60 * 60 then 60 * 60 else 24 * 60 * 60;
    var time := if address.time != 0 && (i.address.time == 0 || i.address.time < address.time - interval - penalty)
                then Max(0, address.time - penalty) else i.address.time;
    i.(address := i.address.(time := time, services := i.address.services + address.services))
  }

  lemma RefreshedPlace(i: AddrInfo, address: Address, penalty: int, now: int)
    ensures var t := Refreshed(i, address, penalty, now); SamePlace(i, t) && t.randomPos == i.randomPos
  {}

  /** An announcement never moves the time of an entry back.  It moves it exactly when it is more than a day
      ahead, or more than an hour if it is of the last day. */
  lemma RefreshedForward(i: AddrInfo, address: Address, penalty: int, now: int)
    requires i.address.time >= 0
    ensures var (t, was, ahead) := (Refreshed(i, address, penalty, now), i.address.time, address.time - penalty);
            && t == i.(address := t.address) && t.address.service == i.address.service
            && t.address.services == i.address.services + address.services
            && was <= t.address.time <= Max(was, ahead)
            && (was > 0 && ahead <= was + 3600 ==> t.address.time == was)
            && (was > 0 && ahead <= was + 86400 && address.time + 86400 <= now ==> t.address.time == was)
            && (address.time != 0 && ahead > was + 86400 ==> t.address.time == ahead)
            && (address.time != 0 && ahead > was + 3600 && address.time + 86400 > now ==> t.address.time == ahead)
  {
  }

  /** A known entry gets no further reference: nothing new, already tried, enough references,
      or bad luck in a draw of one in 2^references. */
  predicate Enough(i: AddrInfo, address: Address, draw: nat)
    requires i.refCount >= 0
  {
    || address.time == 0 || (i.address.time != 0 && address.time <= i.address.time)
    || i.inTried || i.refCount == NEW_BUCKETS_PER_ADDRESS
    || (Pow2(i.refCount) > 1 && draw % Pow2(i.refCount) != 0)
  }

  /** Whether the holder of a slot must give way. */
  predicate GivesWay(holder: AddrInfo, i: AddrInfo, now: int) {
    IsTerrible(holder, now) || (holder.refCount > 1 && i.refCount == 0)
  }

  /** Tries to give an entry the slot that `source` leads to. */
  ghost function Entered(s: State, id: int, source: NetAddr, now: int): State
    requires Core(s) && id in s.info && !s.info[id].inTried
  {
    var x := SlotFrom(s.site, s.info[id], source);
    if x in s.newAt && IdAt(s.newAt, x) == id then s
    else if x !in s.newAt || GivesWay(s.info[IdAt(s.newAt, x)], s.info[id], now) then
      ClearedIs(s, x);
      Linked(Cleared(s, x), x, id)
    else if s.info[id].refCount == 0 then Deleted(s, id)
    else s
  }

  ghost function Added(s: State, address: Address, source: NetAddr, penalty: int, now: int, draw: nat): State
    requires Core(s)
  {
    var pen := if address.service.net == source then 0 else penalty;
    if !s.site.h.routable(address.service.net) then s
    else if address.service.net in s.addr then
      var id := IdOf(s.addr, address.service.net);
      var t := Updated(s, id, Refreshed(s.info[id], address, pen, now));
      if Enough(t.info[id], address, draw) then t
      else
        UpdatedCore(s, id, t.info[id]);
        Entered(t, id, source, now)
    else
      CreatedCore(s, address.(time := Max(0, address.time - pen)), source);
      var t := Created(s, address.(time := Max(0, address.time - pen)), source);
      Entered(t.(nNew := t.nNew + 1), s.idCount, source, now)
  }

  lemma EnteredKeeps(s: State, id: int, source: NetAddr, now: int)
    requires Core(s) && id in s.info && !s.info[id].inTried && s.info[id].refCount < NEW_BUCKETS_PER_ADDRESS
    requires Placed(s, {id}) && Counted(s, if s.info[id].refCount == 0 then 1 else 0)
    ensures var t := Entered(s, id, source, now);
            Core(t) && Counted(t, 0) && Placed(t, {})
  {
    hide Core, SlotFrom, GivesWay;
    var x := SlotFrom(s.site, s.info[id], source);
    if x in s.newAt {
      HolderCounts(s, x);
    }
    if x in s.newAt && IdAt(s.newAt, x) == id {
    } else if x !in s.newAt || GivesWay(s.info[IdAt(s.newAt, x)], s.info[id], now) {
      EnteredSlot(s, id, x);
    } else if s.info[id].refCount == 0 {
      DeletedCore(s, id);
      DeletedAgree(s, id);
    }
  }

  lemma HolderCounts(s: State, x: Slot)
    requires Core(s) && x in s.newAt
    ensures IdAt(s.newAt, x) in s.info && s.info[IdAt(s.newAt, x)].refCount > 0
  {
    UnlinkedCore(s, x);
  }

  lemma EnteredSlot(s: State, id: int, x: Slot)
    requires Core(s) && id in s.info && !s.info[id].inTried && s.info[id].refCount < NEW_BUCKETS_PER_ADDRESS
    requires Placed(s, {id}) && Counted(s, if s.info[id].refCount == 0 then 1 else 0)
    requires x.bucket < NEW_BUCKETS && x == NewSlot(s.site, s.info[id], x.bucket)
             && (x in s.newAt ==> IdAt(s.newAt, x) != id)
    ensures id in Cleared(s, x).info
    ensures var t := Linked(Cleared(s, x), x, id);
            Core(t) && Counted(t, 0) && Placed(t, {})
  {
    hide Core, NewSlot;
    ClearedIs(s, x);
    ClearedKeeps(s, x, if s.info[id].refCount == 0 then 1 else 0, {id});
    var t := Cleared(s, x);
    SlotsFixed(s.site, s.info[id], t.info[id], x.bucket);
    LinkedCore(t, x, id);
    assert id in NewIds(t.info) <==> s.info[id].refCount != 0;
    assert id in NewIds(t.info) ==> NewIds(t.info) + {id} == NewIds(t.info);
  }

  /** What an attempt to take slot `x` of the new table comes to. */
  ghost predicate EnteredTo(s: State, t: State, id: int, x: Slot, now: int)
    requires id in s.info
  {
    && t == s.(newAt := t.newAt, info := t.info, addr := t.addr, random := t.random, nNew := t.nNew)
    && if x in s.newAt && IdAt(s.newAt, x) == id then t == s
       else if x in s.newAt && IdAt(s.newAt, x) in s.info && !GivesWay(s.info[IdAt(s.newAt, x)], s.info[id], now) then
         if s.info[id].refCount == 0 then t.newAt == s.newAt && id !in t.info && Agree(s.info, t.info, {id}) else t == s
       else
         && t.newAt == s.newAt[x := id]
         && id in t.info && t.info[id] == s.info[id].(refCount := s.info[id].refCount + 1,
            randomPos := t.info[id].randomPos)
         && Agree(s.info, t.info, if x in s.newAt then {id, IdAt(s.newAt, x)} else {id})
         && (x in s.newAt ==> LostOne(s.info, t.info, IdAt(s.newAt, x)))
  }

  lemma EnteredIs(s: State, id: int, source: NetAddr, now: int)
    requires Core(s) && id in s.info && !s.info[id].inTried
    ensures EnteredTo(s, Entered(s, id, source, now), id, SlotFrom(s.site, s.info[id], source), now)
  {
    hide Core, SlotFrom, GivesWay, Cleared, Deleted;
    var x := SlotFrom(s.site, s.info[id], source);
    if x in s.newAt {
      HolderCounts(s, x);
    }
    if x !in s.newAt || GivesWay(s.info[IdAt(s.newAt, x)], s.info[id], now) {
      ClearedIs(s, x);
      assert (s.newAt - {x})[x := id] == s.newAt[x := id];
    } else if s.info[id].refCount == 0 {
      DeletedIs(s, id);
    }
  }

  lemma DeletedIs(s: State, id: int)
    requires Core(s) && Limbo(s, id)
    ensures Random(s.info, s.random)
    ensures var t := Deleted(s, id);
            && t == s.(info := t.info, addr := t.addr, random := t.random, nNew := t.nNew)
            && id !in t.info && Agree(s.info, t.info, {id})
  {
    hide Index, NewTable, TriedTable, RefCounts;
    DeletedAgree(s, id);
  }

  lemma EnteredEvolves(s: State, t: State, id: int, x: Slot, now: int)
    requires id in s.info && EnteredTo(s, t, id, x, now)
    ensures Evolves(s, t)
  {
    hide GivesWay;
  }

  lemma AddedKeeps(s: State, address: Address, source: NetAddr, penalty: int, now: int, draw: nat)
    requires Check(s)
    ensures var t := Added(s, address, source, penalty, now, draw);
            Check(t) && Evolves(s, t) && t.triedAt == s.triedAt
  {
    hide Index, Random, NewTable, TriedTable, RefCounts, IdsUsed, Counted, Placed, Pending, Entered, Created;
    var pen := if address.service.net == source then 0 else penalty;
    var v := Added(s, address, source, penalty, now, draw);
    if s.site.h.routable(address.service.net) {
      if address.service.net in s.addr {
        Found(s, address.service.net);
        var id := IdOf(s.addr, address.service.net);
        AddedAgain(s, id, Refreshed(s.info[id], address, pen, now), source, now);
      } else {
        AddedAfresh(s, address.(time := Max(0, address.time - pen)), source, now);
      }
    }
  }

  lemma AddedAgain(s: State, id: int, i: AddrInfo, source: NetAddr, now: int)
    requires Check(s) && id in s.info && i == s.info[id].(address := i.address)
             && i.address.service == s.info[id].address.service
    ensures var t := Updated(s, id, i);
            && Check(t) && Evolves(s, t)
            && (!i.inTried && i.refCount != NEW_BUCKETS_PER_ADDRESS ==>
                  var v := Entered(t, id, source, now);
                  Check(v) && Evolves(s, v) && v.triedAt == s.triedAt)
  {
    hide Index, Random, NewTable, TriedTable, RefCounts, TriedSlot, Entered;
    var t := Updated(s, id, i);
    UpdatedCheck(s, id, i);
    CountsBounded(s, id);
    if !i.inTried && i.refCount != NEW_BUCKETS_PER_ADDRESS {
      var v := Entered(t, id, source, now);
      EnteredKeeps(t, id, source, now);
      EnteredIs(t, id, source, now);
      EnteredEvolves(t, v, id, SlotFrom(t.site, t.info[id], source), now);
      PendingKept(t, v);
    }
  }

  lemma CountsBounded(s: State, id: int)
    requires Core(s) && id in s.info
    ensures 0 <= s.info[id].refCount <= NEW_BUCKETS_PER_ADDRESS
  {}

  lemma AddedAfresh(s: State, address: Address, source: NetAddr, now: int)
    requires Check(s) && address.service.net !in s.addr
    ensures var t := Created(s, address, source);
            var u := t.(nNew := t.nNew + 1);
            && Core(u) && Limbo(u, s.idCount)
            && var v := Entered(u, s.idCount, source, now);
            Check(v) && Evolves(s, v) && v.triedAt == s.triedAt
  {
    hide Index, Random, NewTable, TriedTable, RefCounts, TriedSlot, Entered, SlotFrom;
    CreatedCore(s, address, source);
    var t := Created(s, address, source);
    var u := t.(nNew := t.nNew + 1);
    var v := Entered(u, s.idCount, source, now);
    EnteredKeeps(u, s.idCount, source, now);
    EnteredIs(u, s.idCount, source, now);
    EnteredEvolves(u, v, s.idCount, SlotFrom(u.site, u.info[s.idCount], source), now);
    PendingKept(s, v);
  }

  /** A slot of the new table can be had: it is free, its holder is terrible, or its holder has other
      slots and the newcomer has none. */
  ghost predicate Available(s: State, x: Slot, refCount: int, now: int) {
    x in s.newAt && IdAt(s.newAt, x) in s.info ==>
      var holder := s.info[IdAt(s.newAt, x)];
      IsTerrible(holder, now) || (holder.refCount > 1 && refCount == 0)
  }

  /** An unknown address gets the slot its source leads to, if that can be had, and is forgotten again
      otherwise. */
  lemma AddedNewIs(s: State, address: Address, source: NetAddr, penalty: int, now: int, draw: nat)
    requires Check(s) && s.site.h.routable(address.service.net) && address.service.net !in s.addr
    ensures var t := Added(s, address, source, penalty, now, draw);
            var time := Max(0, address.time - if address.service.net == source then 0 else penalty);
            var (id, x) := (s.idCount, SlotFrom(s.site, NewInfo(address, source), source));
            && t.idCount == id + 1 && (id in t.info <==> Available(s, x, 0, now))
            && t.newAt == (if id in t.info then s.newAt[x := id] else s.newAt)
            && (id in t.info ==>
                  t.info[id] == AddrInfo(address.(time := time), source, 0, 0, 0, 0, 1, false, t.info[id].randomPos))
  {
    hide TriedSlot, Core, Counted, Placed, Pending, SlotFrom, IsTerrible;
    var pen := if address.service.net == source then 0 else penalty;
    var later := address.(time := Max(0, address.time - pen));
    CreatedCore(s, later, source);
    NextIdFree(s);
    var u := Created(s, later, source);
    CoreIgnoresCounters(u, u.nNew + 1);
    FromFixed(s.site, NewInfo(address, source), u.info[s.idCount]);
    EnteredIs(u.(nNew := u.nNew + 1), s.idCount, source, now);
  }

  lemma NextIdFree(s: State)
    requires Core(s)
    ensures s.idCount !in s.info
    ensures forall x :: x in s.newAt ==> IdAt(s.newAt, x) in s.info && IdAt(s.newAt, x) != s.idCount
  {
    hide NewSlot;
  }

  /** A known address is refreshed.  It gets one more slot exactly if the announcement is news, it is not
      tried, it has fewer than eight slots, the draw favours it, and the slot can be had and is not its own. */
  lemma AddedAgainIs(s: State, address: Address, source: NetAddr, penalty: int, now: int, draw: nat)
    requires Check(s) && s.site.h.routable(address.service.net) && address.service.net in s.addr
    ensures IdOf(s.addr, address.service.net) in s.info
    ensures var id := IdOf(s.addr, address.service.net);
            var pen := if address.service.net == source then 0 else penalty;
            var (t, i) := (Added(s, address, source, penalty, now, draw), Refreshed(s.info[id], address, pen, now));
            var x := SlotFrom(s.site, i, source);
            var more := && address.time != 0 && (i.address.time == 0 || i.address.time < address.time)
                        && !i.inTried && i.refCount < NEW_BUCKETS_PER_ADDRESS && draw % Pow2(i.refCount) == 0
                        && Available(s, x, i.refCount, now) && !(x in s.newAt && IdAt(s.newAt, x) == id);
            && id in t.info
            && t.info[id] == i.(refCount := i.refCount + if more then 1 else 0, randomPos := t.info[id].randomPos)
            && t.newAt == (if more then s.newAt[x := id] else s.newAt)
  {
    hide TriedSlot, Core, Counted, Placed, Pending, SlotFrom, IsTerrible, Refreshed, Entered, LostOne, Agree;
    KnownPlaced(s, address.service.net);
    var id := IdOf(s.addr, address.service.net);
    var pen := if address.service.net == source then 0 else penalty;
    var i := Refreshed(s.info[id], address, pen, now);
    RefreshedPlace(s.info[id], address, pen, now);
    var u := Updated(s, id, i);
    UpdatedCore(s, id, i);
    CountsBounded(s, id);
    Pow2Odd(i.refCount, draw);
    if !Enough(i, address, draw) {
      EnteredIs(u, id, source, now);
      SlotsHold(s);
    }
  }

  lemma KnownPlaced(s: State, net: NetAddr)
    requires Check(s) && net in s.addr
    ensures IdOf(s.addr, net) in s.info
    ensures s.info[IdOf(s.addr, net)].inTried || s.info[IdOf(s.addr, net)].refCount != 0
  {
    hide Random, NewTable, TriedTable, RefCounts;
    Found(s, net);
  }

  lemma SlotsHold(s: State)
    requires Core(s)
    ensures forall x :: x in s.newAt ==> IdAt(s.newAt, x) in s.info
  {
    hide NewSlot;
  }

  lemma Pow2Odd(n: nat, draw: nat)
    ensures Pow2(n) <= 1 ==> draw % Pow2(n) == 0
  {}

  /** A terrible entry stays terrible, unless it was so for being ahead of time; and one tried in the last
      minute never is.  Any other is terrible if it was not seen for 30 days or is ahead by ten minutes, and
      otherwise exactly after three attempts without any success, or ten when the last was a week ago. */
  lemma TerribleAges(i: AddrInfo, now: int, later: int)
    requires now <= later
    ensures IsTerrible(i, now) && i.address.time <= now + 10 * 60 ==> IsTerrible(i, later)
    ensures var tried := i.lastTry != 0 && i.lastTry + 60 >= now;
            var seen := i.address.time != 0 && i.address.time + 30 * 24 * 3600 >= now;
            && (tried ==> !IsTerrible(i, now))
            && (!tried && (!seen || i.address.time - now > 600) ==> IsTerrible(i, now))
            && (!tried && seen && i.address.time - now <= 600 ==>
                  (IsTerrible(i, now) <==>
                   if i.lastSuccess == 0 then i.attempts >= 3
                   else i.attempts >= 10 && i.lastSuccess + 7 * 24 * 3600 < now))
  {}

  // ---------------------------------------------------------------------------------
  // Collisions: a tried slot wanted by somebody else
  // ---------------------------------------------------------------------------------

  datatype Verdict = Keep | Drop | Replace

  /** What becomes of a pending collision. */
  function Judge(s: State, id: int, now: int): Verdict
    requires id in s.info
  {
    var x := TriedSlot(s.site, s.info[id]);
    if !s.site.h.valid(Net(s.info[id])) then Drop
    else if x in s.triedAt && IdAt(s.triedAt, x) in s.info then
      var occupant := s.info[IdAt(s.triedAt, x)];
      if now - occupant.lastSuccess < REPLACEMENT_HOURS * (60 * 60) then Drop
      else if now - occupant.lastTry < REPLACEMENT_HOURS * (60 * 60) then
        if now - occupant.lastTry > 60 then Replace else Keep
      else if now - s.info[id].lastSuccess > TEST_WINDOW then Replace
      else Keep
    else Replace
  }

  ghost function ResolvedOne(s: State, id: int, now: int): State
    requires Core(s)
  {
    if id !in s.info then s.(collisions := s.collisions - {id})
    else match Judge(s, id, now)
         case Keep => s
         case Drop => s.(collisions := s.collisions - {id})
         case Replace =>
           var t := Good(s, s.info[id].address.service, false, now);
           t.(collisions := t.collisions - {id})
  }

  lemma ResolvedOneKeeps(s: State, id: int, now: int)
    requires Check(s)
    ensures Check(ResolvedOne(s, id, now)) && Evolves(s, ResolvedOne(s, id, now))
    ensures ResolvedOne(s, id, now).collisions <= s.collisions
  {
    hide Index, Random, NewTable, TriedTable, RefCounts, TriedSlot, Judge;
    var v := ResolvedOne(s, id, now);
    if id in s.info && Judge(s, id, now) == Replace {
      var t := Good(s, s.info[id].address.service, false, now);
      GoodKeeps(s, s.info[id].address.service, false, now);
      GoodCollisions(s, s.info[id].address.service, now);
      PendingKept(t, v);
    } else {
      PendingKept(s, v);
    }
  }

  lemma GoodCollisions(s: State, service: Service, time: int)
    requires Core(s)
    ensures Good(s, service, false, time).collisions == s.collisions
  {
    hide Index, Random, NewTable, TriedTable, RefCounts, TriedSlot, MadeTried;
    if service.net in s.addr {
      Found(s, service.net);
      var id := IdOf(s.addr, service.net);
      var u := s.(lastGood := time);
      var t := Updated(u, id, u.info[id].(lastSuccess := time, lastTry := time, attempts := 0));
      UpdatedCore(u, id, t.info[id]);
      if !t.info[id].inTried {
        MadeTriedEvolves(t, id);
      }
    }
  }

  predicate IsLeast(ids: set<int>, m: int) { m in ids && forall i :: i in ids ==> m <= i }

  /** The smallest of the ids, where an ordered set starts. */
  ghost function Least(ids: set<int>): (m: int)
    requires ids != {}
    ensures IsLeast(ids, m)
  {
    LeastExists(ids);
    var m :| IsLeast(ids, m);
    m
  }

  lemma Pick<T>(ids: set<T>) returns (a: T)
    requires ids != {}
    ensures a in ids
  {
    a :| a in ids;
  }

  lemma {:induction false} LeastExists(ids: set<int>)
    requires ids != {}
    ensures exists m :: IsLeast(ids, m)
    decreases |ids|
  {
    var a := Pick(ids);
    var rest := ids - {a};
    assert forall i :: i in ids && i != a ==> i in rest;
    if rest == {} {
      assert forall i :: i in ids ==> i == a;
      assert IsLeast(ids, a);
    } else {
      LeastExists(rest);
      var n :| IsLeast(rest, n);
      assert IsLeast(ids, if a < n then a else n);
    }
  }

  ghost function Resolved(s: State, ids: set<int>, now: int): State
    requires Check(s)
    decreases |ids|
  {
    if ids == {} then s
    else
      ResolvedOneKeeps(s, Least(ids), now);
      Resolved(ResolvedOne(s, Least(ids), now), ids - {Least(ids)}, now)
  }

  lemma {:induction false} ResolvedKeeps(s: State, ids: set<int>, now: int)
    requires Check(s)
    ensures Check(Resolved(s, ids, now)) && Evolves(s, Resolved(s, ids, now))
    ensures Resolved(s, ids, now).collisions <= s.collisions
    decreases |ids|
  {
    hide Core, Counted, Placed, Pending, ResolvedOne;
    if ids == {} {
    } else {
      ResolvedOneKeeps(s, Least(ids), now);
      ResolvedKeeps(ResolvedOne(s, Least(ids), now), ids - {Least(ids)}, now);
    }
  }

  /** A pending collision always has somebody to collide with: looking up the occupant of its
      tried slot finds an entry of the tried table. */
  /** What the others last did does not change. */
  ghost predicate SameTimes(s: State, t: State, id: int) {
    forall j :: j in t.info && j in s.info && j != id ==>
                  t.info[j].lastSuccess == s.info[j].lastSuccess && t.info[j].lastTry == s.info[j].lastTry
  }

  lemma GoodOthers(s: State, service: Service, testBeforeEvict: bool, time: int)
    requires Check(s) && Knows(s, service)
    ensures SameTimes(s, Good(s, service, testBeforeEvict, time), IdOf(s.addr, service.net))
  {
    hide Random, NewTable, RefCounts, TriedSlot, MadeTried, TriedTable, SlotFrom, Without;
    var id := IdOf(s.addr, service.net);
    var u := s.(lastGood := time);
    var t := Updated(u, id, Answering(u.info[id], time));
    UpdatedCore(u, id, t.info[id]);
    if !s.info[id].inTried && (!testBeforeEvict || TriedSlot(t.site, t.info[id]) !in s.triedAt) {
      MadeTriedIs(t, id);
      MadeTriedTimes(t, id);
    }
  }

  lemma MadeTriedTimes(s: State, id: int)
    requires Core(s) && id in s.info && !s.info[id].inTried
    ensures SameTimes(s, MadeTried(s, id), id)
  {
    hide Core, TriedSlot, MadeTried, SlotFrom, Without;
    MadeTriedIs(s, id);
  }

  /** The challenger gets the slot: the occupant leaves the tried table. */
  ghost predicate Replaces(s: State, t: State, id: int, now: int)
    requires id in s.info
  {
    && t.collisions == s.collisions - {id} && id in t.info
    && TriedIds(t.info) == TriedIds(s.info) - Occupants(s, TriedSlot(s.site, s.info[id])) + {id}
    && t.info[id].lastSuccess == now && SameTimes(s, t, id)
  }

  /** A pending collision is dropped if the challenger is gone or invalid, or if the occupant answered in
      the last four hours.  The occupant gives way if it was tried in the last four hours, and more than
      a minute ago, or else if the challenger has waited for more than 40 minutes.  Otherwise
      nothing changes. */
  lemma ResolvedOneIs(s: State, id: int, now: int)
    requires Check(s) && id in s.collisions
    ensures var t := ResolvedOne(s, id, now);
            if id !in s.info || !s.site.h.valid(Net(s.info[id])) then t == s.(collisions := s.collisions - {id})
            else
              && TriedSlot(s.site, s.info[id]) in s.triedAt
              && var o := IdAt(s.triedAt, TriedSlot(s.site, s.info[id]));
              && o in s.info
              && var occupant := s.info[o];
              && (occupant.lastSuccess > now - 4 * 3600 ==> t == s.(collisions := s.collisions - {id}))
              && (occupant.lastSuccess <= now - 4 * 3600 ==>
                    if occupant.lastTry > now - 4 * 3600 then
                      && (occupant.lastTry < now - 60 ==> Replaces(s, t, id, now))
                      && (occupant.lastTry >= now - 60 ==> t == s)
                    else
                      && (s.info[id].lastSuccess < now - 40 * 60 ==> Replaces(s, t, id, now))
                      && (s.info[id].lastSuccess >= now - 40 * 60 ==> t == s))
  {
    hide Index, Random, NewTable, RefCounts, TriedSlot, Good, TriedTable;
    if id in s.info {
      CollisionHasOccupant(s, id);
      KnownByNet(s, id);
      if Judge(s, id, now) == Replace {
        ReplacedBy(s, id, now);
      }
    }
  }

  lemma KnownByNet(s: State, id: int)
    requires Core(s) && id in s.info
    ensures Knows(s, s.info[id].address.service) && IdOf(s.addr, Net(s.info[id])) == id
  {
    hide Random, NewTable, RefCounts, TriedTable;
  }

  lemma ReplacedBy(s: State, id: int, now: int)
    requires Check(s) && id in s.info && TriedSlot(s.site, s.info[id]) in s.triedAt
    ensures var t := Good(s, s.info[id].address.service, false, now);
            Replaces(s, t.(collisions := t.collisions - {id}), id, now)
  {
    hide Index, Random, NewTable, RefCounts, TriedSlot, Good;
    KnownByNet(s, id);
    GoodIs(s, s.info[id].address.service, false, now);
    GoodOthers(s, s.info[id].address.service, false, now);
    var t := Good(s, s.info[id].address.service, false, now);
    if s.info[id].inTried {
      IdsOfOne(s.info, id, t.info[id]);
      assert IdAt(s.triedAt, TriedSlot(s.site, s.info[id])) == id;
    }
  }

  /** Whoever answered in the last four hours. */
  predicate Reached(i: AddrInfo, now: int) { i.lastSuccess > now - 4 * 3600 }

  /** Resolving collisions never takes anybody out of the tried table who answered in the last four
      hours. */
  lemma {:induction false} ResolvedSpares(s: State, ids: set<int>, now: int, j: int)
    requires Check(s) && ids <= s.collisions && j in TriedIds(s.info) && Reached(s.info[j], now)
    ensures var t := Resolved(s, ids, now); j in TriedIds(t.info) && Reached(t.info[j], now)
    decreases |ids|
  {
    hide Core, Counted, Placed, Pending, ResolvedOne;
    if ids == {} {
    } else {
      var id := Least(ids);
      ResolvedOneKeeps(s, id, now);
      OneSpares(s, id, now, j);
      ResolvedOthers(s, id, now);
      ResolvedSpares(ResolvedOne(s, id, now), ids - {id}, now, j);
    }
  }

  lemma OneSpares(s: State, id: int, now: int, j: int)
    requires Check(s) && id in s.collisions && j in TriedIds(s.info) && Reached(s.info[j], now)
    ensures var t := ResolvedOne(s, id, now); j in TriedIds(t.info) && Reached(t.info[j], now)
  {
    hide Core, Counted, Placed, Pending, ResolvedOne, TriedSlot;
    ResolvedOneIs(s, id, now);
  }

  /** Only the collision itself is taken off the list. */
  lemma ResolvedOthers(s: State, id: int, now: int)
    requires Check(s) && id in s.collisions
    ensures s.collisions - {id} <= ResolvedOne(s, id, now).collisions <= s.collisions
  {
    hide Core, Counted, Placed, Pending, ResolvedOne, TriedSlot, TriedIds;
    ResolvedOneIs(s, id, now);
  }

  lemma CollisionHasOccupant(s: State, id: int)
    requires Check(s) && id in s.collisions && id in s.info
    ensures var x := TriedSlot(s.site, s.info[id]);
            x in s.triedAt && IdAt(s.triedAt, x) in s.info && s.info[IdAt(s.triedAt, x)].inTried
  {
    hide TriedSlot;
  }

  /** Testing before evicting never takes anybody out of the tried table. */
  lemma TestedGoodEvictsNobody(s: State, service: Service, time: int)
    requires Check(s)
    ensures TriedIds(s.info) <= TriedIds(Good(s, service, true, time).info)
  {
    hide Random, NewTable, TriedTable, RefCounts, TriedSlot, MadeTried, Displaced;
    if service.net in s.addr {
      var id := IdOf(s.addr, service.net);
      var u := s.(lastGood := time);
      var t := Updated(u, id, u.info[id].(lastSuccess := time, lastTry := time, attempts := 0));
      UpdatedCore(u, id, t.info[id]);
      if !t.info[id].inTried && TriedSlot(t.site, t.info[id]) !in t.triedAt {
        MadeTriedIs(t, id);
        assert Agree(t.info, MadeTried(t, id).info, {id});
      }
    }
    var v := Good(s, service, true, time);
    forall i | i in TriedIds(s.info) ensures i in TriedIds(v.info) {}
  }

  // ---------------------------------------------------------------------------------
  // GetAddr: a random selection
  // ---------------------------------------------------------------------------------

  function Min(a: int, b: int): int { if a < b then a else b }

  function GetAddrLimit(size: nat): nat { Min(GETADDR_MAX_PCT * size / 100, GETADDR_MAX) }

  /** The entries worth handing out. */
  function Decent(info: Infos, now: int): set<int> { set id | id in info && !IsTerrible(info[id], now) }

  ghost predicate Distinct(ids: seq<int>) { forall i, j :: 0 <= i < j < |ids| ==> ids[i] != ids[j] }

  /** Only the random order differs. */
  ghost predicate Shuffled(s: State, t: State) {
    t == s.(info := t.info, random := t.random) && |t.random| == |s.random| && Agree(s.info, t.info, {})
  }

  lemma DecentIs(s: State, t: State, id: int, now: int)
    requires Shuffled(s, t) && id in t.info
    ensures id in s.info && t.info[id].address == s.info[id].address
    ensures id in Decent(s.info, now) <==> !IsTerrible(t.info[id], now)
  {}

  lemma ShuffledSwap(s: State, t: State, i: nat, j: nat)
    requires Shuffled(s, t) && Check(t) && i < |t.random| && j < |t.random|
    ensures Random(t.info, t.random) && Shuffled(s, Swapped(t, i, j)) && Check(Swapped(t, i, j))
  {
    hide Index, NewTable, TriedTable, RefCounts, TriedSlot, Agree;
    SwappedCheck(t, i, j);
    SwappedAgree(s.info, t, i, j);
  }

  lemma SwappedAgree(info: Infos, t: State, i: nat, j: nat)
    requires Random(t.info, t.random) && i < |t.random| && j < |t.random| && Agree(info, t.info, {})
    ensures Agree(info, Swapped(t, i, j).info, {})
  {}

  lemma SwappedCheck(t: State, i: nat, j: nat)
    requires Check(t) && i < |t.random| && j < |t.random|
    ensures Random(t.info, t.random) && Check(Swapped(t, i, j))
  {
    hide Index, NewTable, TriedTable, RefCounts, TriedSlot;
    var u := Swapped(t, i, j);
    SwappedCore(t, i, j);
    ShapeCore(t, u.info);
    PendingKept(t, u);
  }

  /** The swaps of a shuffle that stops after |swaps| steps. */
  predicate Drawn(swaps: seq<(nat, nat)>, draws: nat -> nat, size: nat) {
    |swaps| <= size && forall k :: 0 <= k < |swaps| ==> swaps[k] == (k, k + draws(k) % (size - k))
  }

  lemma DrawnMore(swaps: seq<(nat, nat)>, draws: nat -> nat, size: nat)
    requires Drawn(swaps, draws, size) && |swaps| < size
    ensures var n := |swaps|; Drawn(swaps + [(n, n + draws(n) % (size - n))], draws, size)
  {}

  /** Swaps two places of the random order, if there are such places. */
  function SwapOne(s: State, swap: (nat, nat)): State {
    var (i, j) := swap;
    if i < |s.random| && j < |s.random| && Nth(s.random, i) in s.info && Nth(s.random, j) in s.info
    then Swapped(s, i, j) else s
  }

  /** Swaps in the random order, one after the other. */
  function SwapAll(s: State, swaps: seq<(nat, nat)>): State {
    if swaps == [] then s else SwapOne(SwapAll(s, swaps[..|swaps| - 1]), swaps[|swaps| - 1])
  }

  lemma SwapAllMore(s: State, swaps: seq<(nat, nat)>, swap: (nat, nat))
    ensures SwapAll(s, swaps + [swap]) == SwapOne(SwapAll(s, swaps), swap)
  {
    hide SwapOne;
    assert (swaps + [swap])[..|swaps|] == swaps;
  }

  lemma {:induction false} SwapAllKeeps(s: State, swaps: seq<(nat, nat)>)
    requires Check(s)
    ensures Check(SwapAll(s, swaps)) && Shuffled(s, SwapAll(s, swaps))
  {
    hide Core, Counted, Placed, Pending, Swapped;
    if swaps == [] {
    } else {
      var last := |swaps| - 1;
      var (t, (i, j)) := (SwapAll(s, swaps[..last]), swaps[last]);
      SwapAllKeeps(s, swaps[..last]);
      if i < |t.random| && j < |t.random| {
        ShuffledSwap(s, t, i, j);
      }
    }
  }

  /** `ids` is what is worth handing out in a piece of the random order, in that order. */
  ghost predicate Picked(info: Infos, piece: seq<int>, ids: seq<int>, now: int) {
    && Distinct(ids)
    && (forall k :: 0 <= k < |ids| ==> Nth(ids, k) in Decent(info, now) && Nth(ids, k) in piece)
    && (forall k :: 0 <= k < |piece| && Nth(piece, k) in Decent(info, now) ==> Nth(piece, k) in ids)
  }

  lemma PickedStep(info: Infos, t: State, random: seq<int>, n: nat, ids: seq<int>, now: int)
    requires Random(t.info, t.random) && n < |t.random| && Picked(info, random, ids, now) && random == t.random[..n]
    ensures var id := Nth(t.random, n);
            Picked(info, t.random[..n + 1], if id in Decent(info, now) then ids + [id] else ids, now)
  {
    var (id, longer) := (Nth(t.random, n), t.random[..n + 1]);
    var more := if id in Decent(info, now) then ids + [id] else ids;
    assert forall k :: 0 <= k < n ==> Nth(longer, k) == Nth(t.random, k) == Nth(random, k);
    assert Nth(longer, n) == id;
    assert forall k :: 0 <= k < |ids| ==> Nth(more, k) == Nth(ids, k);
    forall k | 0 <= k < |ids| ensures Nth(ids, k) != id && Nth(ids, k) in longer {
      var m :| 0 <= m < n && random[m] == Nth(ids, k);
      assert Nth(t.random, m) == Nth(ids, k) && longer[m] == Nth(ids, k);
    }
    assert Distinct(more) by {
      assert forall k :: 0 <= k < |ids| ==> Nth(ids, k) == ids[k] == more[k];
    }
    assert longer[n] == id && (|more| > |ids| ==> Nth(more, |ids|) == id);
    forall k | 0 <= k < |longer| && Nth(longer, k) in Decent(info, now) ensures Nth(longer, k) in more {
      if k < n {
        assert Nth(random, k) in ids;
        var m :| 0 <= m < |ids| && ids[m] == Nth(random, k);
        assert more[m] == Nth(longer, k);
      }
    }
  }

  lemma PickedCount(s: State, t: State, n: nat, ids: seq<int>, now: int, limit: nat)
    requires Random(t.info, t.random) && Shuffled(s, t) && n <= |t.random| && Picked(s.info, t.random[..n], ids, now)
    requires |ids| == limit || (|ids| <= limit && n == |t.random|)
    ensures |ids| == Min(limit, |Decent(s.info, now)|)
  {
    var all := set id | id in ids;
    DistinctCount(ids);
    forall id | id in all ensures id in Decent(s.info, now) {
      var k :| 0 <= k < |ids| && ids[k] == id;
      assert Nth(ids, k) == id;
    }
    SubsetCount(all, Decent(s.info, now));
    if n == |t.random| {
      forall id | id in Decent(s.info, now) ensures id in all {
        var k := t.info[id].randomPos;
        assert Nth(t.random[..n], k) == Nth(t.random, k) == id;
      }
      SubsetCount(Decent(s.info, now), all);
    }
  }

  lemma {:induction false} DistinctCount(ids: seq<int>)
    requires Distinct(ids)
    ensures |set id | id in ids| == |ids|
  {
    if ids == [] {
    } else {
      var rest := ids[1..];
      DistinctCount(rest);
      assert (set id | id in ids) == (set id | id in rest) + {ids[0]};
    }
  }

  lemma {:induction false} SubsetCount<T>(a: set<T>, b: set<T>)
    requires a <= b
    ensures |a| <= |b|
  {
    if a == {} {
    } else {
      var i :| i in a;
      SubsetCount(a - {i}, b - {i});
    }
  }

  // ---------------------------------------------------------------------------------
  // Runs
  // ---------------------------------------------------------------------------------

  datatype Op =
    | Announce(address: Address, source: NetAddr, penalty: int, now: int, draw: nat)
    | Answered(service: Service, testBeforeEvict: bool, time: int)
    | Statistics(service: Service)
    | HandOut(swaps: seq<(nat, nat)>)
    | Resolve(now: int)
    | Forget(id: int)

  /** One operation: Add, Good, a change of statistics (Attempt, Connected, SetServices), GetAddr,
      ResolveCollisions, SelectTriedCollision. */
  ghost predicate Does(s: State, op: Op, t: State)
    requires Check(s)
  {
    match op
    case Announce(address, source, penalty, now, draw) => t == Added(s, address, source, penalty, now, draw)
    case Answered(service, test, time) => t == Good(s, service, test, time)
    case Statistics(service) => Touched(s, t, service)
    case HandOut(swaps) => t == SwapAll(s, swaps)
    case Resolve(now) => t == Resolved(s, s.collisions, now)
    case Forget(id) => t == s || (id !in s.info && t == s.(collisions := s.collisions - {id}))
  }

  /** At most the statistics of the entry for `service` differ. */
  ghost predicate Touched(s: State, t: State, service: Service) {
    service.net in s.addr && var id := IdOf(s.addr, service.net);
    && id in s.info && id in t.info && t == Updated(s, id, t.info[id]) && SamePlace(s.info[id], t.info[id])
    && s.info[id].randomPos == t.info[id].randomPos
  }

  lemma DoesKeeps(s: State, op: Op, t: State)
    requires Check(s) && Does(s, op, t)
    ensures Check(t) && Evolves(s, t)
  {
    hide Core, Counted, Placed, Pending, Added, Good, Resolved;
    match op
    case Announce(address, source, penalty, now, draw) => AddedKeeps(s, address, source, penalty, now, draw);
    case Answered(service, test, time) => GoodKeeps(s, service, test, time);
    case Statistics(service) =>
      var id := IdOf(s.addr, service.net);
      UpdatedCheck(s, id, t.info[id]);
    case HandOut(swaps) => SwapAllKeeps(s, swaps);
    case Resolve(now) => ResolvedKeeps(s, s.collisions, now);
    case Forget(id) => ForgotKeeps(s, id);
  }

  lemma ForgotKeeps(s: State, id: int)
    requires Check(s)
    ensures Check(s.(collisions := s.collisions - {id})) && Evolves(s, s.(collisions := s.collisions - {id}))
  {
    hide Index, Random, NewTable, TriedTable, RefCounts, TriedSlot;
  }

  /** A run; a step from a state that fails the check could go anywhere. */
  ghost predicate Run(states: seq<State>, ops: seq<Op>) {
    && |states| == |ops| + 1
    && forall i :: 0 <= i < |ops| ==> (Check(states[i]) ==> Does(states[i], ops[i], states[i + 1]))
  }

  /** Every state of a run keeps the invariant; tried slots, once occupied, stay occupied, and
      ids are never reused. */
  lemma {:induction false} RunKeeps(states: seq<State>, ops: seq<Op>, i: nat, j: nat)
    requires Run(states, ops) && i <= j < |states| && Check(states[0])
    ensures Check(states[i]) && Check(states[j]) && Evolves(states[i], states[j])
    decreases i + j
  {
    hide Check, Does;
    if j == 0 {
    } else {
      RunKeeps(states, ops, if i < j then i else i - 1, j - 1);
      DoesKeeps(states[j - 1], ops[j - 1], states[j]);
    }
  }

  // ---------------------------------------------------------------------------------
  // Clear
  // ---------------------------------------------------------------------------------

  /** The tables emptied under a new key.  The pending collisions are not forgotten. */
  function Reset(s: State, key: HashKey): State {
    State(Site(s.site.h, key), 0, map[], map[], [], map[], map[], 0, 0, 1, s.collisions)
  }

  lemma ResetKeepsIff(s: State, key: HashKey)
    requires Check(s)
    ensures Core(Reset(s, key)) && Counted(Reset(s, key), 0) && Placed(Reset(s, key), {})
    ensures Check(Reset(s, key)) <==> s.collisions == {}
  {
    hide TriedSlot;
    assert NewIds(map[]) == {} && TriedIds(map[]) == {};
    if s.collisions != {} {
      var id: int := Pick(s.collisions);
      assert id in Reset(s, key).collisions;
    }
  }

  /** The next address announced then takes id 0.  If that is still pending, nobody is in its
      tried slot, and looking up its occupant finds the mark for a free slot. */
  lemma StaleCollision(s: State, key: HashKey, address: Address, source: NetAddr, penalty: int, now: int, draw: nat)
    requires Check(s) && 0 in s.collisions && s.site.h.routable(address.service.net)
    ensures Core(Reset(s, key))
    ensures var t := Added(Reset(s, key), address, source, penalty, now, draw);
            0 in t.info && 0 in t.collisions && TriedSlot(t.site, t.info[0]) !in t.triedAt
  {
    hide TriedSlot, SlotFrom, Core;
    ResetKeepsIff(s, key);
    var u := Reset(s, key);
    var pen := if address.service.net == source then 0 else penalty;
    var later := address.(time := Max(0, address.time - pen));
    CreatedCore(u, later, source);
    var v := Created(u, later, source).(nNew := 1);
    CoreIgnoresCounters(Created(u, later, source), 1);
    EnteredIs(v, 0, source, now);
  }

  /** A manager that knows nobody. */
  function Empty(site: Site): State { State(site, 0, map[], map[], [], map[], map[], 0, 0, 1, {}) }

  /** An unknown address that finds its new slot free takes it, under the next id. */
  lemma AnnouncedIs(s: State, address: Address, source: NetAddr, now: int) returns (t: State)
    requires Check(s) && s.site.h.routable(address.service.net) && address.service.net !in s.addr
    requires SlotFrom(s.site, NewInfo(address, source), source) !in s.newAt
    ensures Does(s, Announce(address, source, 0, now, 0), t)
    ensures var id := s.idCount;
            && Check(t) && t.site == s.site && t.idCount == id + 1 && t.triedAt == s.triedAt
            && t.collisions == s.collisions
            && t.newAt == s.newAt[SlotFrom(s.site, NewInfo(address, source), source) := id]
            && id in t.info && t.info[id].address.service == address.service && !t.info[id].inTried
            && Agree(s.info, t.info, {id})
  {
    hide TriedSlot, Core, Counted, Placed, Pending, GivesWay, NewSlot;
    t := Added(s, address, source, 0, now, 0);
    var later := address.(time := Max(0, address.time));
    CreatedCore(s, later, source);
    AddedKeeps(s, address, source, 0, now, 0);
    var u := Created(s, later, source);
    CoreIgnoresCounters(u, u.nNew + 1);
    FromFixed(s.site, NewInfo(address, source), u.info[s.idCount]);
    EnteredIs(u.(nNew := u.nNew + 1), s.idCount, source, now);
  }

  /** An entry whose tried slot is free takes it once it has answered. */
  lemma AnsweredFirst(s: State, id: int, time: int) returns (v: State)
    requires Check(s) && id in s.info && !s.info[id].inTried && TriedSlot(s.site, s.info[id]) !in s.triedAt
    ensures Does(s, Answered(s.info[id].address.service, false, time), v)
    ensures Check(v) && v.site == s.site && TriedSlot(s.site, s.info[id]) in v.triedAt && v.collisions == s.collisions
    ensures Agree(s.info, v.info, {id})
  {
    hide Random, NewTable, TriedTable, RefCounts, TriedSlot, MadeTried, Displaced;
    v := Good(s, s.info[id].address.service, false, time);
    GoodKeeps(s, s.info[id].address.service, false, time);
    var u := s.(lastGood := time);
    var t := Updated(u, id, u.info[id].(lastSuccess := time, lastTry := time, attempts := 0));
    UpdatedCore(u, id, t.info[id]);
    SlotsFixed(s.site, s.info[id], t.info[id], 0);
    MadeTriedIs(t, id);
  }

  /** An entry whose tried slot is taken becomes pending, if the occupant is to be tested first. */
  lemma AnsweredSecond(s: State, id: int, time: int) returns (v: State)
    requires Check(s) && id in s.info && !s.info[id].inTried && TriedSlot(s.site, s.info[id]) in s.triedAt
    requires s.collisions == {}
    ensures Does(s, Answered(s.info[id].address.service, true, time), v)
    ensures Check(v) && v.site == s.site && v.collisions == {id}
  {
    hide Random, NewTable, TriedTable, RefCounts, TriedSlot, MadeTried;
    v := Good(s, s.info[id].address.service, true, time);
    GoodKeeps(s, s.info[id].address.service, true, time);
    SlotsFixed(s.site, s.info[id], s.info[id].(lastSuccess := time, lastTry := time, attempts := 0), 0);
  }

  lemma EmptyChecks(site: Site)
    ensures Check(Empty(site))
  {
    assert NewIds(map[]) == {} && TriedIds(map[]) == {};
  }

  /** Two addresses that share a tried slot but not a new slot: once the second is tried, the first,
      tested before evicting it, is pending under id 0. */
  lemma PendingRun(site: Site, a: Address, b: Address, source: NetAddr, now: int)
    returns (states: seq<State>, ops: seq<Op>)
    requires site.h.routable(a.service.net) && site.h.routable(b.service.net) && a.service.net != b.service.net
    requires TriedSlot(site, NewInfo(a, source)) == TriedSlot(site, NewInfo(b, source))
    requires SlotFrom(site, NewInfo(a, source), source) != SlotFrom(site, NewInfo(b, source), source)
    ensures |states| == 5 && Run(states, ops) && states[0] == Empty(site) && states[4].site == site
    ensures Check(states[0]) && Check(states[4]) && states[4].collisions == {0}
  {
    hide Check, Does, TriedSlot, SlotFrom;
    var s0 := Empty(site);
    EmptyChecks(site);
    var s1 := AnnouncedIs(s0, a, source, now);
    OnlyKnown(s1, a.service.net);
    var s2 := AnnouncedIs(s1, b, source, now);
    SlotsFixed(site, NewInfo(b, source), s2.info[1], 0);
    var s3 := AnsweredFirst(s2, 1, now);
    SlotsFixed(site, NewInfo(a, source), s3.info[0], 0);
    var s4 := AnsweredSecond(s3, 0, now);
    states := [s0, s1, s2, s3, s4];
    ops := [Announce(a, source, 0, now, 0), Announce(b, source, 0, now, 0), Answered(b.service, false, now),
            Answered(a.service, true, now)];
  }

  /** With the one entry for `net`, the index knows nobody else. */
  lemma OnlyKnown(s: State, net: NetAddr)
    requires Check(s) && forall id :: id in s.info ==> Net(s.info[id]) == net
    ensures forall a :: a in s.addr ==> a == net
  {
    hide TriedSlot, NewSlot;
    forall a | a in s.addr ensures a == net {
      assert IdOf(s.addr, a) in s.info;
    }
  }

  /** A network whose hash tells only the new-table positions of address 1 from those of others. */
  function Sample(): Network {
    Network(items => if |items| == 4 && items[1] == Letter('N') && items[3] == Bytes([1]) then 1 else 0,
            net => [], (service: Service) => [service.net], net => true, net => true)
  }

  /** A run that ends with id 0 pending, so that clearing breaks the invariant and the next address
      announced is pending although nobody is in its tried slot. */
  lemma StaleRun(key: HashKey, other: HashKey, address: Address, source: NetAddr, now: int)
    returns (states: seq<State>, ops: seq<Op>)
    ensures |states| == 5 && Run(states, ops) && states[0] == Empty(Site(Sample(), key)) && Check(states[0])
    ensures Check(states[4]) && !Check(Reset(states[4], other)) && Core(Reset(states[4], other))
    ensures var t := Added(Reset(states[4], other), address, source, 0, now, 0);
            0 in t.info && 0 in t.collisions && TriedSlot(t.site, t.info[0]) !in t.triedAt
  {
    hide Check, Core, Run, Added;
    var (site, a, b) := (Site(Sample(), key), Address(Service(1, 0), {}, now), Address(Service(2, 0), {}, now));
    SampleSlots(site, a, b, source);
    states, ops := PendingRun(site, a, b, source, now);
    ResetKeepsIff(states[4], other);
    StaleCollision(states[4], other, address, source, 0, now, 0);
  }

  lemma SampleSlots(site: Site, a: Address, b: Address, source: NetAddr)
    requires site.h == Sample() && a.service.net == 1 && b.service.net == 2
    ensures TriedSlot(site, NewInfo(a, source)) == TriedSlot(site, NewInfo(b, source))
    ensures SlotFrom(site, NewInfo(a, source), source) != SlotFrom(site, NewInfo(b, source), source)
  {
  }
}
