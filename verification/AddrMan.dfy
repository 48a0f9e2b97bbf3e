/** The address manager as the code keeps it: fields, two fixed tables of ids in which -1 marks
    a free slot, and methods that change them in place.  Each method is tied to a step of
    AddrManState. */
module AddrMan {
  import opened AddrManState
  import opened AddrManCheck

  /** The occupied slots of a table. */
  ghost function Table(a: array2<int>): map<Slot, int>
    reads a
  {
    map b, p | 0 <= b < a.Length0 && 0 <= p < a.Length1 && a[b, p] != -1 :: Slot(b, p) := a[b, p]
  }

  lemma TableAt(a: array2<int>, x: Slot)
    ensures x in Table(a) <==> x.bucket < a.Length0 && x.pos < a.Length1 && a[x.bucket, x.pos] != -1
    ensures x in Table(a) ==> IdAt(Table(a), x) == a[x.bucket, x.pos]
  {
    assert x == Slot(x.bucket, x.pos);
  }

  method Store(a: array2<int>, b: nat, p: nat, id: int)
    requires b < a.Length0 && p < a.Length1
    modifies a
    ensures a[b, p] == id
    ensures Table(a) == if id == -1 then old(Table(a)) - {Slot(b, p)} else old(Table(a))[Slot(b, p) := id]
  {
    a[b, p] := id;
    ghost var want := if id == -1 then old(Table(a)) - {Slot(b, p)} else old(Table(a))[Slot(b, p) := id];
    forall x: Slot ensures x in Table(a) <==> x in want {
      assert x == Slot(x.bucket, x.pos);
    }
    forall x: Slot | x in want ensures Table(a)[x] == want[x] {
      assert x == Slot(x.bucket, x.pos);
    }
  }

  method EmptyTable(a: array2<int>)
    modifies a
    ensures Table(a) == map[]
  {
    for b := 0 to a.Length0
      invariant forall i, j :: 0 <= i < b && 0 <= j < a.Length1 ==> a[i, j] == -1
    {
      for p := 0 to a.Length1
        invariant forall i, j :: 0 <= i < b && 0 <= j < a.Length1 ==> a[i, j] == -1
        invariant forall j :: 0 <= j < p ==> a[b, j] == -1
      {
        a[b, p] := -1;
      }
    }
  }

  class AddrManager {
    const h: Network
    var key: HashKey
    var idCount: int
    var mapInfo: map<int, AddrInfo>
    var mapAddr: map<NetAddr, int>
    var vRandom: seq<int>
    var nTried: int
    const vvTried: array2<int>
    var nNew: int
    const vvNew: array2<int>
    var lastGood: int
    var collisions: set<int>

    ghost predicate Shape() {
      && vvNew != vvTried && vvNew.Length0 == NEW_BUCKETS && vvNew.Length1 == BUCKET_SIZE
      && vvTried.Length0 == TRIED_BUCKETS && vvTried.Length1 == BUCKET_SIZE
    }

    ghost function Value(): State
      reads this, vvNew, vvTried
    {
      State(Site(h, key), idCount, mapInfo, mapAddr, vRandom, Table(vvNew), Table(vvTried), nNew, nTried, lastGood,
        collisions)
    }

    ghost predicate Valid()
      reads this, vvNew, vvTried
    {
      Shape() && Check(Value())
    }

    constructor (h: Network, randomKey: HashKey)
      ensures Valid() && fresh(vvNew) && fresh(vvTried) && this.h == h && key == randomKey && mapInfo == map[]
              && collisions == {}
    {
      this.h, key, idCount, mapInfo, mapAddr, vRandom := h, randomKey, 0, map[], map[], [];
      nTried, nNew, lastGood, collisions := 0, 0, 1, {};
      vvNew := new int[NEW_BUCKETS, BUCKET_SIZE]((b, p) => -1);
      vvTried := new int[TRIED_BUCKETS, BUCKET_SIZE]((b, p) => -1);
      new;
      assert Table(vvNew) == map[] && Table(vvTried) == map[];
      assert NewIds(mapInfo) == {} && TriedIds(mapInfo) == {};
    }

    /** Empties the tables, but does not forget pending collisions. */
    method Clear(randomKey: HashKey)
      requires Shape()
      modifies this, vvNew, vvTried
      ensures Value() == Reset(old(Value()), randomKey)
    {
      vRandom := [];
      key := randomKey;
      EmptyTable(vvNew);
      EmptyTable(vvTried);
      idCount, nTried, nNew, lastGood := 0, 0, 0, 1;
      mapInfo, mapAddr := map[], map[];
    }

    method Create(address: Address, source: NetAddr) returns (id: int)
      modifies this
      ensures id == old(idCount) && Value() == Created(old(Value()), address, source)
    {
      id := idCount;
      idCount := idCount + 1;
      mapInfo := mapInfo[id := NewInfo(address, source)];
      mapAddr := mapAddr[address.service.net := id];
      mapInfo := mapInfo[id := mapInfo[id].(randomPos := |vRandom|)];
      vRandom := vRandom + [id];
      assert mapInfo == old(mapInfo)[id := mapInfo[id]];
    }

    method SwapRandom(i: nat, j: nat)
      requires i < |vRandom| && j < |vRandom| && Random(mapInfo, vRandom)
      modifies this
      ensures Value() == Swapped(old(Value()), i, j)
    {
      if i == j {
        return;
      }
      var id1, id2 := Nth(vRandom, i), Nth(vRandom, j);
      assert id1 in mapInfo && id2 in mapInfo;
      mapInfo := mapInfo[id1 := mapInfo[id1].(randomPos := j)];
      mapInfo := mapInfo[id2 := mapInfo[id2].(randomPos := i)];
      vRandom := vRandom[i := id2][j := id1];
    }

    method Delete(id: int)
      requires Random(mapInfo, vRandom) && Limbo(Value(), id)
      modifies this
      ensures Random(old(mapInfo), old(vRandom)) && Value() == Deleted(old(Value()), id)
    {
      hide Table;
      assert !mapInfo[id].inTried && mapInfo[id].refCount == 0;
      SwapRandom(mapInfo[id].randomPos, |vRandom| - 1);
      vRandom := vRandom[..|vRandom| - 1];
      mapAddr := mapAddr - {Net(mapInfo[id])};
      mapInfo := mapInfo - {id};
      nNew := nNew - 1;
    }

    method ClearNew(b: nat, p: nat)
      requires Shape() && Core(Value()) && b < NEW_BUCKETS && p < BUCKET_SIZE
      modifies this, vvNew
      ensures Value() == Cleared(old(Value()), Slot(b, p)) && vvNew[b, p] == -1
    {
      hide Index, Random, NewTable, TriedTable, RefCounts, Table;
      ghost var (s, x) := (Value(), Slot(b, p));
      TableAt(vvNew, x);
      if vvNew[b, p] != -1 {
        var id := vvNew[b, p];
        UnlinkedCore(s, x);
        assert mapInfo[id].refCount > 0;
        mapInfo := mapInfo[id := mapInfo[id].(refCount := mapInfo[id].refCount - 1)];
        Store(vvNew, b, p, -1);
        assert Value() == Unlinked(s, x);
        if mapInfo[id].refCount == 0 {
          Delete(id);
        }
      }
    }

    /** The loop that takes an entry out of every bucket of the new table. */
    method Withdraw(id: int)
      requires Shape() && Core(Value()) && id in mapInfo && !mapInfo[id].inTried
      modifies this, vvNew
      ensures Value().(nNew := nNew - 1) == Withdrawn(old(Value()), id)
    {
      hide Index, Random, NewTable, TriedTable, RefCounts, Table, SlotsOf, NewSlot, LeftFrom, SlotsBelow,
           GetBucketPosition;
      ghost var s := Value();
      LeftFromStart(s.newAt, id);
      for bucket := 0 to NEW_BUCKETS
        invariant Table(vvNew) == LeftFrom(s.newAt, id, bucket) && id in mapInfo
        invariant mapInfo == s.info[id := mapInfo[id]]
        invariant mapInfo[id] == s.info[id].(refCount := s.info[id].refCount - |SlotsBelow(s.newAt, id, bucket)|)
        invariant Value() == s.(newAt := Table(vvNew), info := mapInfo)
      {
        var pos: nat := GetBucketPosition(h, key, true, bucket, mapInfo[id].address.service);
        ghost var x := Slot(bucket, pos);
        TableAt(vvNew, x);
        PositionIs(s.site, s.info[id], mapInfo[id], bucket);
        LeftFromStep(s, id, bucket, x);
        if vvNew[bucket, pos] == id {
          Store(vvNew, bucket, pos, -1);
          mapInfo := mapInfo[id := mapInfo[id].(refCount := mapInfo[id].refCount - 1)];
        }
      }
      LeftFromEnd(s, id);
    }

    method MakeTried(id: int)
      requires Shape() && Core(Value()) && id in mapInfo && !mapInfo[id].inTried
      modifies this, vvNew, vvTried
      ensures Value() == MadeTried(old(Value()), id)
    {
      hide Index, Random, NewTable, TriedTable, RefCounts, Table, TriedSlot, Evicted;
      ghost var s := Value();
      WithdrawnCore(s, id);
      Withdraw(id);
      nNew := nNew - 1;
      assert mapInfo[id].refCount == 0;
      var x := TriedSlot(Site(h, key), mapInfo[id]);
      SlotsFixed(s.site, s.info[id], mapInfo[id], 0);
      TableAt(vvTried, x);
      if vvTried[x.bucket, x.pos] != -1 {
        EvictedIs(Value(), x);
        Evict(x);
        TableAt(vvTried, x);
        SlotsFixed(s.site, s.info[id], mapInfo[id], 0);
      }
      assert vvTried[x.bucket, x.pos] == -1;
      Store(vvTried, x.bucket, x.pos, id);
      nTried := nTried + 1;
      mapInfo := mapInfo[id := mapInfo[id].(inTried := true)];
    }

    /** Makes space in the tried table. */
    method Evict(x: Slot)
      requires Shape() && Core(Value()) && x in Table(vvTried)
      modifies this, vvNew, vvTried
      ensures Value() == Evicted(old(Value()), x)
    {
      hide Index, Random, NewTable, TriedTable, RefCounts, Table, TriedSlot, SlotFrom, Cleared, Check, Net, NewSlot;
      ghost var s := Value();
      UntriedCore(s, x);
      TableAt(vvTried, x);
      var id := vvTried[x.bucket, x.pos];
      assert id in mapInfo;
      mapInfo := mapInfo[id := mapInfo[id].(inTried := false)];
      Store(vvTried, x.bucket, x.pos, -1);
      nTried := nTried - 1;
      assert Value() == Untried(s, x);
      var y := SlotFrom(Site(h, key), mapInfo[id], mapInfo[id].source);
      FromFixed(s.site, s.info[id], mapInfo[id]);
      ClearedIs(Value(), y);
      ClearNew(y.bucket, y.pos);
      assert vvNew[y.bucket, y.pos] == -1;
      mapInfo := mapInfo[id := mapInfo[id].(refCount := 1)];
      Store(vvNew, y.bucket, y.pos, id);
      nNew := nNew + 1;
    }

    /** Looks for a bucket that holds an entry, from a random start.  The search succeeds
        before it has been round once. */
    method FindBucket(id: int, start: nat) returns (bucket: nat)
      requires Valid() && id in mapInfo && !mapInfo[id].inTried && start < NEW_BUCKETS
      ensures bucket < NEW_BUCKETS && NewSlot(Site(h, key), mapInfo[id], bucket) in SlotsOf(Table(vvNew), id)
    {
      hide Index, Random, TriedTable, Table, NewSlot, GetBucketPosition;
      ghost var site := Site(h, key);
      ghost var w := SomeSlot(Value(), id);
      ghost var far := Ahead(start, w.bucket);
      var n := 0;
      bucket := start;
      var pos: nat := GetBucketPosition(h, key, true, bucket, mapInfo[id].address.service);
      PositionIs(site, mapInfo[id], mapInfo[id], bucket);
      TableAt(vvNew, Slot(bucket, pos));
      TableAt(vvNew, w);
      while vvNew[bucket, pos] != id
        invariant n <= far && bucket == (n + start) % NEW_BUCKETS && pos < BUCKET_SIZE
        invariant Slot(bucket, pos) == NewSlot(site, mapInfo[id], bucket)
        decreases far - n
      {
        n := n + 1;
        bucket := (n + start) % NEW_BUCKETS;
        pos := GetBucketPosition(h, key, true, bucket, mapInfo[id].address.service);
        PositionIs(site, mapInfo[id], mapInfo[id], bucket);
      }
      TableAt(vvNew, Slot(bucket, pos));
    }

    method Good_(service: Service, testBeforeEvict: bool, time: int, start: nat)
      requires Valid() && start < NEW_BUCKETS
      modifies this, vvNew, vvTried
      ensures Valid() && Value() == Good(old(Value()), service, testBeforeEvict, time)
    {
      hide Index, Random, NewTable, TriedTable, RefCounts, Table, TriedSlot, MadeTried;
      ghost var s := Value();
      GoodKeeps(s, service, testBeforeEvict, time);
      lastGood := time;
      if service.net !in mapAddr {
        return;
      }
      Found(s, service.net);
      var id := IdOf(mapAddr, service.net);
      if mapInfo[id].address.service != service {
        return;
      }
      mapInfo := mapInfo[id := mapInfo[id].(lastSuccess := time, lastTry := time, attempts := 0)];
      if mapInfo[id].inTried {
        return;
      }
      UpdatedCore(s.(lastGood := time), id, mapInfo[id]);
      UpdatedCheck(s.(lastGood := time), id, mapInfo[id]);
      var bucket := FindBucket(id, start);
      var x := TriedSlot(Site(h, key), mapInfo[id]);
      TableAt(vvTried, x);
      if testBeforeEvict && vvTried[x.bucket, x.pos] != -1 {
        if |collisions| < TRIED_COLLISION_SIZE {
          collisions := collisions + {id};
        }
      } else {
        MakeTried(id);
      }
    }

    /** Tells whether the address was unknown; it may not have been given a place all the same. */
    method Add_(address: Address, source: NetAddr, timePenalty: int, now: int, draw: nat) returns (isNew: bool)
      requires Valid()
      modifies this, vvNew
      ensures Valid() && Value() == Added(old(Value()), address, source, timePenalty, now, draw)
      ensures isNew <==> h.routable(address.service.net) && address.service.net !in old(mapAddr)
    {
      hide Index, Random, NewTable, TriedTable, RefCounts, IdsUsed, Counted, Placed, Pending, Table, Entered, Pow2,
           Refreshed;
      ghost var s := Value();
      AddedKeeps(s, address, source, timePenalty, now, draw);
      if !h.routable(address.service.net) {
        return false;
      }
      var penalty := if address.service.net == source then 0 else timePenalty;
      var id;
      if address.service.net in mapAddr {
        Found(s, address.service.net);
        isNew, id := false, IdOf(mapAddr, address.service.net);
        RefreshedPlace(mapInfo[id], address, penalty, now);
        mapInfo := mapInfo[id := Refreshed(mapInfo[id], address, penalty, now)];
        CountsBounded(s, id);
        var i := mapInfo[id];
        if address.time == 0 || (i.address.time != 0 && address.time <= i.address.time) {
          return;
        }
        if i.inTried || i.refCount == NEW_BUCKETS_PER_ADDRESS {
          return;
        }
        var factor := DoubleFor(i.refCount);
        if factor > 1 && draw % factor != 0 {
          return;
        }
        UpdatedCore(s, id, i);
      } else {
        var later := address.(time := Max(0, address.time - penalty));
        CreatedCore(s, later, source);
        id := Create(later, source);
        CoreIgnoresCounters(Value(), nNew + 1);
        nNew := nNew + 1;
        isNew := true;
      }
      Enter(id, source, now);
    }

    /** Tries to give an entry the slot that `source` leads to. */
    method Enter(id: int, source: NetAddr, now: int)
      requires Shape() && Core(Value()) && id in mapInfo && !mapInfo[id].inTried
      modifies this, vvNew
      ensures Value() == Entered(old(Value()), id, source, now)
    {
      hide Index, Random, NewTable, TriedTable, RefCounts, Table, SlotFrom, IsTerrible, Cleared;
      ghost var s := Value();
      var x := SlotFrom(Site(h, key), mapInfo[id], source);
      TableAt(vvNew, x);
      if vvNew[x.bucket, x.pos] != id {
        var insert := vvNew[x.bucket, x.pos] == -1;
        if !insert {
          HolderCounts(s, x);
          insert := GivesWay(mapInfo[vvNew[x.bucket, x.pos]], mapInfo[id], now);
        }
        if insert {
          ClearedIs(s, x);
          ClearNew(x.bucket, x.pos);
          mapInfo := mapInfo[id := mapInfo[id].(refCount := mapInfo[id].refCount + 1)];
          Store(vvNew, x.bucket, x.pos, id);
        } else if mapInfo[id].refCount == 0 {
          Delete(id);
        }
      }
    }

    // The consistency check.  Each part answers 0 or the code of the first clause it finds broken.

    /** Looking up an address the index does not know leaves it there, with 0. */
    method CheckEntry(n: int, info: AddrInfo) returns (code: int)
      modifies this`mapAddr
      ensures code == 0 <==> EntryOk(info, n, old(mapAddr), vRandom)
      ensures mapAddr == if code in {-1, -2, -3, -4} || Net(info) in old(mapAddr) then old(mapAddr)
              else old(mapAddr)[Net(info) := 0]
    {
      if info.inTried {
        if info.lastSuccess == 0 {
          return -1;
        }
        if info.refCount != 0 {
          return -2;
        }
      } else {
        if info.refCount < 0 || info.refCount > NEW_BUCKETS_PER_ADDRESS {
          return -3;
        }
        if info.refCount == 0 {
          return -4;
        }
      }
      if Net(info) !in mapAddr {
        mapAddr := mapAddr[Net(info) := 0];
      }
      if mapAddr[Net(info)] != n {
        return -5;
      }
      if info.randomPos < 0 || info.randomPos >= |vRandom| || vRandom[info.randomPos] != n {
        return -14;
      }
      if info.lastTry < 0 {
        return -6;
      }
      if info.lastSuccess < 0 {
        return -8;
      }
      return 0;
    }

    method CheckEntries() returns (code: int, setTried: set<int>, mapNew: map<int, int>)
      modifies this`mapAddr
      ensures code == 0 <==> old(EntriesOk(Value()))
      ensures code == 0 ==> EntriesOk(Value())
      ensures code == 0 ==> setTried == TriedIds(mapInfo)
      ensures code == 0 ==> mapNew == map id | id in NewIds(mapInfo) :: mapInfo[id].refCount
      ensures SameLookups(mapAddr, old(mapAddr)) && (Known(mapInfo, old(mapAddr)) ==> mapAddr == old(mapAddr))
    {
      hide Table, EntryOk, EntriesBut, TriedBut, NewBut;
      ghost var s := Value();
      EntriesStart(s);
      setTried, mapNew := {}, map[];
      var left := mapInfo.Keys;
      while left != {}
        invariant left <= mapInfo.Keys && SameLookups(mapAddr, s.addr) && (Known(mapInfo, s.addr) ==> mapAddr == s.addr)
        invariant EntriesBut(s, left) && setTried == TriedBut(mapInfo, left) && mapNew == NewBut(mapInfo, left)
        decreases |left|
      {
        LeastExists(left);
        var n :| IsLeast(left, n);
        SameEntry(mapInfo[n], n, mapAddr, s.addr, vRandom);
        code := CheckEntry(n, mapInfo[n]);
        if code != 0 {
          assert mapInfo[n] == s.info[n];
          return;
        }
        EntriesStep(s, left, n);
        if mapInfo[n].inTried {
          setTried := setTried + {n};
        } else {
          mapNew := mapNew[n := mapInfo[n].refCount];
        }
        left := left - {n};
      }
      EntriesEnd(s, Value());
      code := 0;
    }

    method CheckTried(tried: set<int>) returns (code: int, setTried: set<int>)
      requires Shape() && tried == TriedIds(mapInfo)
      ensures code == 0 && setTried == {} <==> TriedTable(Value().site, mapInfo, Table(vvTried))
    {
      hide Table, TriedTable, TriedLeft, TriedSoFar;
      ghost var s := Value();
      setTried := tried;
      forall x: Slot ensures x in s.triedAt ==> x.bucket < TRIED_BUCKETS && x.pos < BUCKET_SIZE {
        TableAt(vvTried, x);
      }
      TriedStart(s);
      for n := 0 to TRIED_BUCKETS
        invariant TriedSoFar(s, n, 0) && setTried == TriedLeft(s, n, 0)
      {
        for i := 0 to BUCKET_SIZE
          invariant TriedSoFar(s, n, i) && setTried == TriedLeft(s, n, i)
        {
          TableAt(vvTried, Slot(n, i));
          TriedStep(s, n, i);
          var id := vvTried[n, i];
          if id != -1 {
            if id !in setTried {
              return -11, setTried;
            }
            TriedLeftTried(s, id, n, i);
            if GetTriedBucket(h, key, mapInfo[id].address.service) != n {
              return -17, setTried;
            }
            if GetBucketPosition(h, key, false, n, mapInfo[id].address.service) != i {
              return -18, setTried;
            }
            setTried := setTried - {id};
          }
        }
        TriedRow(s, n);
      }
      TriedEnd(s);
      code := 0;
    }

    method CheckNew(refs: map<int, int>) returns (code: int, mapNew: map<int, int>)
      requires Shape() && EntriesOk(Value()) && refs == map id | id in NewIds(mapInfo) :: mapInfo[id].refCount
      ensures code == 0 && mapNew == map[] <==>
              NewTable(Value().site, mapInfo, Table(vvNew)) && RefCounts(mapInfo, Table(vvNew))
    {
      hide Table, NewTable, RefCounts, NewLeft, NewSoFar, EntriesOk;
      ghost var s := Value();
      mapNew := refs;
      forall x: Slot ensures x in s.newAt ==> x.bucket < NEW_BUCKETS && x.pos < BUCKET_SIZE {
        TableAt(vvNew, x);
      }
      NewStart(s);
      for n := 0 to NEW_BUCKETS
        invariant NewSoFar(s, n, 0) && mapNew == NewLeft(s, n, 0)
      {
        for i := 0 to BUCKET_SIZE
          invariant NewSoFar(s, n, i) && mapNew == NewLeft(s, n, i)
        {
          TableAt(vvNew, Slot(n, i));
          NewStep(s, n, i);
          var id := vvNew[n, i];
          if id != -1 {
            if id !in mapNew {
              NewRefuted(s, n, i);
              return -12, mapNew;
            }
            NewLeftNew(s, id, n, i);
            if GetBucketPosition(h, key, true, n, mapInfo[id].address.service) != i {
              NewRefuted(s, n, i);
              return -19, mapNew;
            }
            mapNew := mapNew[id := mapNew[id] - 1];
            if mapNew[id] == 0 {
              mapNew := mapNew - {id};
            }
          }
        }
        NewRow(s, n);
      }
      NewEnd(s);
      code := 0;
    }

    /** Answers 0 just when the state is consistent, and changes nothing unless the index has lost
        an entry. */
    method Check_() returns (code: int)
      requires Shape()
      modifies this`mapAddr
      ensures code == 0 <==> old(Consistent(Value()))
      ensures old(Valid()) ==> (code == 0 <==> old(Timely(Value())))
      ensures Known(mapInfo, old(mapAddr)) ==> mapAddr == old(mapAddr)
    {
      hide Table, NewTable, RefCounts, TriedTable, EntriesOk, Check, Timely, Known, SameLookups;
      ghost var s := Value();
      if Check(s) {
        CheckedIff(s);
      }
      if |vRandom| != nTried + nNew {
        return -7;
      }
      var setTried, mapNew;
      code, setTried, mapNew := CheckEntries();
      if code != 0 {
        return;
      }
      if |setTried| != nTried {
        return -9;
      }
      assert mapNew.Keys == NewIds(mapInfo);
      if |mapNew| != nNew {
        return -10;
      }
      code, setTried := CheckTried(setTried);
      if code != 0 {
        return;
      }
      code, mapNew := CheckNew(mapNew);
      if code != 0 {
        return;
      }
      if |setTried| != 0 {
        return -13;
      }
      if |mapNew| != 0 {
        return -15;
      }
      if key == 0 {
        return -16;
      }
    }

    /** `draws(n)` is the n-th random number. */
    method GetAddr_(now: int, draws: nat -> nat)
      returns (addresses: seq<Address>, ghost ids: seq<int>, ghost swaps: seq<(nat, nat)>)
      requires Valid()
      modifies this
      ensures Valid() && Shuffled(old(Value()), Value())
      ensures Drawn(swaps, draws, |old(vRandom)|) && Does(old(Value()), HandOut(swaps), Value())
      ensures Distinct(ids) && |ids| == |addresses|
      ensures forall k :: 0 <= k < |ids| ==>
                            ids[k] in old(mapInfo) && addresses[k] == old(mapInfo)[ids[k]].address
                            && !IsTerrible(old(mapInfo)[ids[k]], now)
      ensures |addresses| == Min(GetAddrLimit(|old(vRandom)|), |Decent(old(mapInfo), now)|)
    {
      hide Check, Table, IsTerrible, Picked, Decent, Shuffled, Swapped, SwapAll, Drawn, Does, Shuffling;
      ghost var s := Value();
      var limit := GetAddrLimit(|vRandom|);
      addresses, ids, swaps := [], [], [];
      var n := 0;
      NoSwaps(s, draws);
      PickedNone(s.info, now);
      assert vRandom[..0] == [];
      while n < |vRandom| && |addresses| < limit
        invariant n <= |vRandom| == |s.random| && |addresses| <= limit
        invariant |swaps| == n && Shuffling(s, Value(), swaps, draws)
        invariant Picked(s.info, vRandom[..n], ids, now) && |ids| == |addresses|
        invariant forall k :: 0 <= k < |ids| ==> ids[k] in s.info && addresses[k] == s.info[ids[k]].address
      {
        var pos := n + draws(n) % (|vRandom| - n);
        ghost var t := Value();
        ShufflingStep(s, t, swaps, draws, pos);
        SwapRandom(n, pos);
        var id := Nth(vRandom, n);
        DecentIs(s, Value(), id, now);
        PickedStep(s.info, Value(), vRandom[..n], n, ids, now);
        if !IsTerrible(mapInfo[id], now) {
          addresses, ids := addresses + [mapInfo[id].address], ids + [id];
        }
        swaps, n := swaps + [(n, pos)], n + 1;
      }
      ShufflingIs(s, Value(), swaps, draws);
      PickedCount(s, Value(), n, ids, now, limit);
      PickedAll(s, Value(), n, ids, now);
    }

    method ResolveCollisions_(now: int, start: nat)
      requires Valid() && start < NEW_BUCKETS
      modifies this, vvNew, vvTried
      ensures Valid() && Value() == Resolved(old(Value()), old(collisions), now)
    {
      hide Index, Random, NewTable, TriedTable, RefCounts, Table, TriedSlot, Good, Pending, IdsUsed;
      ghost var s := Value();
      var left := collisions;
      while left != {}
        invariant Valid() && Resolved(s, s.collisions, now) == Resolved(Value(), left, now)
        decreases |left|
      {
        ghost var t := Value();
        LeastExists(left);
        var id :| IsLeast(left, id);
        assert id == Least(left);
        ResolvedOneKeeps(t, id, now);
        ResolveOne(id, now, start);
        left := left - {id};
      }
    }

    /** One pending collision. */
    method ResolveOne(id: int, now: int, start: nat)
      requires Valid() && start < NEW_BUCKETS
      modifies this, vvNew, vvTried
      ensures Valid() && Value() == ResolvedOne(old(Value()), id, now)
    {
      hide Index, Random, NewTable, TriedTable, RefCounts, Table, TriedSlot, Good;
      ghost var s := Value();
      ResolvedOneKeeps(s, id, now);
      var erase := false;
      if id !in mapInfo {
        erase := true;
      } else {
        var x := TriedSlot(Site(h, key), mapInfo[id]);
        TableAt(vvTried, x);
        if !h.valid(Net(mapInfo[id])) {
          erase := true;
        } else if vvTried[x.bucket, x.pos] != -1 {
          UntriedCore(s, x);
          var occupant := mapInfo[vvTried[x.bucket, x.pos]];
          if now - occupant.lastSuccess < REPLACEMENT_HOURS * (60 * 60) {
            erase := true;
          } else if now - occupant.lastTry < REPLACEMENT_HOURS * (60 * 60) {
            if now - occupant.lastTry > 60 {
              Good_(mapInfo[id].address.service, false, now, start);
              erase := true;
            }
          } else if now - mapInfo[id].lastSuccess > TEST_WINDOW {
            Good_(mapInfo[id].address.service, false, now, start);
            erase := true;
          }
        } else {
          Good_(mapInfo[id].address.service, false, now, start);
          erase := true;
        }
      }
      if erase {
        collisions := collisions - {id};
      }
    }

    /** `pick` is the pending collision drawn at random, if there is one.  The answer, if any, is
        an entry of the tried table. */
    method SelectTriedCollision_(pick: int) returns (found: Option<AddrInfo>)
      requires Valid() && (collisions != {} ==> pick in collisions)
      modifies this
      ensures Valid() && Value() == old(Value()).(collisions := collisions)
      ensures collisions == if pick in old(mapInfo) then old(collisions) else old(collisions) - {pick}
      ensures found.Some? <==> old(collisions) != {} && pick in mapInfo
      ensures found.Some? ==> var x := TriedSlot(Site(h, key), mapInfo[pick]);
                              x in Table(vvTried) && IdAt(Table(vvTried), x) in mapInfo
                              && found.value == mapInfo[IdAt(Table(vvTried), x)] && found.value.inTried
    {
      hide Index, Random, NewTable, RefCounts, Table, TriedSlot;
      ghost var s := Value();
      if collisions == {} {
        assert collisions - {pick} == collisions;
        return None;
      }
      if pick !in mapInfo {
        collisions := collisions - {pick};
        return None;
      }
      CollisionHasOccupant(s, pick);
      var x := TriedSlot(Site(h, key), mapInfo[pick]);
      TableAt(vvTried, x);
      found := Some(mapInfo[vvTried[x.bucket, x.pos]]);
    }
  }

  /** A shuffle of `s` has come as far as `t`. */
  ghost predicate Shuffling(s: State, t: State, swaps: seq<(nat, nat)>, draws: nat -> nat) {
    Check(s) && Drawn(swaps, draws, |s.random|) && t == SwapAll(s, swaps)
  }

  lemma NoSwaps(s: State, draws: nat -> nat)
    requires Check(s)
    ensures Shuffling(s, s, [], draws)
  {}

  lemma ShufflingIs(s: State, t: State, swaps: seq<(nat, nat)>, draws: nat -> nat)
    requires Shuffling(s, t, swaps, draws)
    ensures Check(t) && Random(t.info, t.random) && Shuffled(s, t)
    ensures Drawn(swaps, draws, |s.random|) && Does(s, HandOut(swaps), t)
  {
    hide SwapAll, Shuffled;
    SwapAllKeeps(s, swaps);
  }

  lemma ShufflingStep(s: State, t: State, swaps: seq<(nat, nat)>, draws: nat -> nat, pos: nat)
    requires Shuffling(s, t, swaps, draws) && |swaps| < |t.random| == |s.random|
    requires pos == |swaps| + draws(|swaps|) % (|s.random| - |swaps|)
    ensures pos < |t.random| && Random(t.info, t.random)
    ensures var (n, u) := (|swaps|, Swapped(t, |swaps|, pos));
            && Shuffling(s, u, swaps + [(n, pos)], draws) && Shuffled(s, u) && Random(u.info, u.random)
            && |u.random| == |t.random| && u.random[..n] == t.random[..n] && Nth(u.random, n) in u.info
  {
    hide Check, SwapAll, Shuffled, Swapped, Drawn;
    var n := |swaps|;
    ShufflingIs(s, t, swaps, draws);
    DrawnMore(swaps, draws, |s.random|);
    SwapAllMore(s, swaps, (n, pos));
    SwappedPrefix(t, n, pos);
    ShufflingIs(s, Swapped(t, n, pos), swaps + [(n, pos)], draws);
  }

  lemma PickedNone(info: Infos, now: int)
    ensures Picked(info, [], [], now)
  {}

  lemma SwappedPrefix(t: State, n: nat, pos: nat)
    requires Random(t.info, t.random) && n <= pos < |t.random|
    ensures var u := Swapped(t, n, pos);
            |u.random| == |t.random| && u.random[..n] == t.random[..n] && Nth(u.random, n) in u.info
  {}

  lemma PickedAll(s: State, t: State, n: nat, ids: seq<int>, now: int)
    requires n <= |t.random| && Picked(s.info, t.random[..n], ids, now) && Shuffled(s, t)
    ensures Distinct(ids) && forall k :: 0 <= k < |ids| ==> ids[k] in s.info && !IsTerrible(s.info[ids[k]], now)
  {
    assert forall k :: 0 <= k < |ids| ==> Nth(ids, k) == ids[k];
  }

  method DoubleFor(n: nat) returns (factor: nat)
    ensures factor == Pow2(n)
  {
    factor := 1;
    for k := 0 to n
      invariant factor == Pow2(k)
    {
      factor := factor * 2;
    }
  }

  lemma PositionIs(site: Site, i: AddrInfo, j: AddrInfo, bucket: nat)
    requires i.address.service == j.address.service
    ensures NewSlot(site, i, bucket) ==
            Slot(bucket, GetBucketPosition(site.h, site.key, true, bucket, j.address.service))
  {}

  /** The table when an entry is out of the buckets below `bucket`. */
  function LeftFrom(t: map<Slot, int>, id: int, bucket: nat): map<Slot, int> {
    map x | x in t && (x.bucket >= bucket || IdAt(t, x) != id) :: IdAt(t, x)
  }

  function SlotsBelow(t: map<Slot, int>, id: int, bucket: nat): set<Slot> {
    set x | x in SlotsOf(t, id) && x.bucket < bucket
  }

  lemma LeftFromStart(t: map<Slot, int>, id: int)
    ensures LeftFrom(t, id, 0) == t && SlotsBelow(t, id, 0) == {}
  {}

  lemma LeftFromStep(s: State, id: int, bucket: nat, x: Slot)
    requires NewTable(s.site, s.info, s.newAt) && id in s.info && id >= 0 && x == NewSlot(s.site, s.info[id], bucket)
    ensures var (t, u) := (LeftFrom(s.newAt, id, bucket), LeftFrom(s.newAt, id, bucket + 1));
            if x in t && IdAt(t, x) == id
            then u == t - {x} && |SlotsBelow(s.newAt, id, bucket + 1)| == |SlotsBelow(s.newAt, id, bucket)| + 1
            else u == t && SlotsBelow(s.newAt, id, bucket + 1) == SlotsBelow(s.newAt, id, bucket)
  {
    hide NewSlot;
    var (t, below) := (LeftFrom(s.newAt, id, bucket), SlotsBelow(s.newAt, id, bucket));
    assert forall y :: y in s.newAt && IdAt(s.newAt, y) == id && y.bucket == bucket ==> y == x;
    if x in t && IdAt(t, x) == id {
      assert SlotsBelow(s.newAt, id, bucket + 1) == below + {x};
    }
  }

  lemma LeftFromEnd(s: State, id: int)
    requires NewTable(s.site, s.info, s.newAt)
    ensures LeftFrom(s.newAt, id, NEW_BUCKETS) == Without(s.newAt, id)
            && SlotsBelow(s.newAt, id, NEW_BUCKETS) == SlotsOf(s.newAt, id)
  {
    hide NewSlot;
  }

  lemma SomeSlot(s: State, id: int) returns (x: Slot)
    requires Check(s) && id in s.info && !s.info[id].inTried
    ensures x in s.newAt && IdAt(s.newAt, x) == id && 0 <= x.bucket < NEW_BUCKETS
            && x == NewSlot(s.site, s.info[id], x.bucket)
  {
    hide Index, Random, TriedTable, NewSlot;
    x := Pick(SlotsOf(s.newAt, id));
  }

  /** How many steps from `start` reach bucket `b`, going round. */
  function Ahead(start: nat, b: nat): (n: nat)
    requires start < NEW_BUCKETS && b < NEW_BUCKETS
    ensures n < NEW_BUCKETS && (n + start) % NEW_BUCKETS == b
  {
    if b >= start then b - start else b + NEW_BUCKETS - start
  }
}
