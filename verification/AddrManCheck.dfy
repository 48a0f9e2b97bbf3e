/** What the consistency check carried along for debugging accepts, and how that compares with
    the invariant of AddrManState. */
module AddrManCheck {
  import opened AddrManState

  /** A lookup that answers 0 for an address it does not know. */
  function Lookup(addr: map<NetAddr, int>, a: NetAddr): int { if a in addr then IdOf(addr, a) else 0 }

  predicate EntryOk(i: AddrInfo, id: int, addr: map<NetAddr, int>, random: seq<int>) {
    && (if i.inTried then i.lastSuccess != 0 && i.refCount == 0 else 0 < i.refCount <= NEW_BUCKETS_PER_ADDRESS)
    && Lookup(addr, Net(i)) == id
    && 0 <= i.randomPos < |random| && Nth(random, i.randomPos) == id
    && i.lastTry >= 0 && i.lastSuccess >= 0
  }

  ghost predicate EntriesOk(s: State) {
    forall id :: id in s.info ==> EntryOk(s.info[id], id, s.addr, s.random)
  }

  /** The index knows the address of every entry. */
  ghost predicate Known(info: Infos, addr: map<NetAddr, int>) {
    forall id :: id in info ==> Net(info[id]) in addr
  }

  ghost predicate SameLookups(addr: map<NetAddr, int>, other: map<NetAddr, int>) {
    forall a: NetAddr :: Lookup(addr, a) == Lookup(other, a)
  }

  /** The entries outside `left` are in order. */
  ghost predicate EntriesBut(s: State, left: set<int>) {
    forall id :: id in s.info && id !in left ==> EntryOk(s.info[id], id, s.addr, s.random)
  }

  ghost function TriedBut(info: Infos, left: set<int>): set<int> { set id | id in TriedIds(info) && id !in left }

  ghost function NewBut(info: Infos, left: set<int>): map<int, int> {
    map id | id in NewIds(info) && id !in left :: info[id].refCount
  }

  lemma SameEntry(i: AddrInfo, id: int, addr: map<NetAddr, int>, other: map<NetAddr, int>, random: seq<int>)
    requires SameLookups(addr, other)
    ensures EntryOk(i, id, addr, random) <==> EntryOk(i, id, other, random)
  {
    assert Lookup(addr, Net(i)) == Lookup(other, Net(i));
  }

  lemma EntriesStart(s: State)
    ensures EntriesBut(s, s.info.Keys) && TriedBut(s.info, s.info.Keys) == {} && NewBut(s.info, s.info.Keys) == map[]
  {
    forall id ensures id !in NewBut(s.info, s.info.Keys) {}
  }

  lemma EntriesStep(s: State, left: set<int>, n: int)
    requires n in left && n in s.info && EntriesBut(s, left) && EntryOk(s.info[n], n, s.addr, s.random)
    ensures EntriesBut(s, left - {n})
    ensures TriedBut(s.info, left - {n}) == if s.info[n].inTried then TriedBut(s.info, left) + {n}
            else TriedBut(s.info, left)
    ensures NewBut(s.info, left - {n}) == if s.info[n].inTried then NewBut(s.info, left)
            else NewBut(s.info, left)[n := s.info[n].refCount]
  {
  }

  lemma EntriesEnd(s: State, t: State)
    requires EntriesBut(s, {}) && t.info == s.info && t.random == s.random && SameLookups(t.addr, s.addr)
    ensures EntriesOk(s) && EntriesOk(t) && TriedBut(s.info, {}) == TriedIds(s.info)
    ensures NewBut(s.info, {}) == map id | id in NewIds(s.info) :: s.info[id].refCount
  {
    forall id | id in t.info ensures EntryOk(t.info[id], id, t.addr, t.random) {
      SameEntry(s.info[id], id, t.addr, s.addr, s.random);
    }
  }

  /** The states the check accepts. */
  ghost predicate Consistent(s: State) {
    && s.site.key != 0 && |s.random| == s.nTried + s.nNew && Counted(s, 0) && EntriesOk(s)
    && TriedTable(s.site, s.info, s.triedAt) && NewTable(s.site, s.info, s.newAt) && RefCounts(s.info, s.newAt)
  }

  /** The clauses of the check about time stamps and the key, which the invariant leaves out. */
  ghost predicate Timely(s: State) {
    && s.site.key != 0
    && forall id :: id in s.info ==>
                      s.info[id].lastTry >= 0 && s.info[id].lastSuccess >= 0
                      && (s.info[id].inTried ==> s.info[id].lastSuccess != 0)
  }

  /** The clauses of the invariant that the check does not see: stale index entries, an entry with
      id 0 that the index has lost, ids beyond the counter, and the pending collisions. */
  ghost predicate Unseen(s: State) {
    && IdsUsed(s) && Pending(s)
    && (forall a :: a in s.addr ==> IdOf(s.addr, a) in s.info && Net(s.info[IdOf(s.addr, a)]) == a)
    && (0 in s.info ==> Net(s.info[0]) in s.addr)
  }

  // ---------------------------------------------------------------------------------
  // Scanning a table
  // ---------------------------------------------------------------------------------

  /** Slots before position i of bucket n, in the order the check scans a table. */
  predicate Seen(x: Slot, n: nat, i: nat) { x.bucket < n || (x.bucket == n && x.pos < i) }

  ghost predicate InBounds(table: map<Slot, int>, buckets: nat) {
    forall x :: x in table ==> x.bucket < buckets && x.pos < BUCKET_SIZE
  }

  ghost predicate TriedHolds(s: State, x: Slot)
    requires x in s.triedAt
  {
    var id := IdAt(s.triedAt, x);
    id in s.info && s.info[id].inTried && x == TriedSlot(s.site, s.info[id])
  }

  ghost predicate TriedSoFar(s: State, n: nat, i: nat) {
    forall x :: x in s.triedAt && Seen(x, n, i) ==> TriedHolds(s, x)
  }

  ghost predicate Hit(s: State, id: int, n: nat, i: nat)
    requires id in s.info
  {
    var x := TriedSlot(s.site, s.info[id]);
    x in s.triedAt && IdAt(s.triedAt, x) == id && Seen(x, n, i)
  }

  /** The tried entries not yet found in their slot. */
  ghost function TriedLeft(s: State, n: nat, i: nat): set<int> {
    set id | id in TriedIds(s.info) && !Hit(s, id, n, i)
  }

  ghost predicate NewHolds(s: State, x: Slot)
    requires x in s.newAt
  {
    var id := IdAt(s.newAt, x);
    id in s.info && !s.info[id].inTried && x == NewSlot(s.site, s.info[id], x.bucket)
  }

  ghost function SlotsSeen(s: State, id: int, n: nat, i: nat): set<Slot> {
    set x | x in SlotsOf(s.newAt, id) && Seen(x, n, i)
  }

  ghost predicate NewSoFar(s: State, n: nat, i: nat) {
    && (forall x :: x in s.newAt && Seen(x, n, i) ==> NewHolds(s, x))
    && (forall id :: id in NewIds(s.info) ==> |SlotsSeen(s, id, n, i)| <= s.info[id].refCount)
  }

  /** How many references of each new entry have not been found yet. */
  ghost function NewLeft(s: State, n: nat, i: nat): map<int, int> {
    map id | id in NewIds(s.info) && |SlotsSeen(s, id, n, i)| < s.info[id].refCount ::
      s.info[id].refCount - |SlotsSeen(s, id, n, i)|
  }

  lemma Dropped<T>(small: set<T>, big: set<T>, x: T)
    requires small <= big && x in big && x !in small && forall y :: y in big && y != x ==> y in small
    ensures small == big - {x}
  {
  }

  lemma TriedStart(s: State)
    ensures TriedSoFar(s, 0, 0) && TriedLeft(s, 0, 0) == TriedIds(s.info)
  {
    hide TriedSlot;
    forall id | id in TriedIds(s.info) ensures id in TriedLeft(s, 0, 0) {
      assert !Hit(s, id, 0, 0);
    }
  }

  lemma TriedStep(s: State, n: nat, i: nat)
    requires TriedSoFar(s, n, i)
    ensures var x := Slot(n, i);
            if x !in s.triedAt then TriedSoFar(s, n, i + 1) && TriedLeft(s, n, i + 1) == TriedLeft(s, n, i)
            else if TriedHolds(s, x) then
              var id := IdAt(s.triedAt, x);
              TriedSoFar(s, n, i + 1) && id in TriedLeft(s, n, i) && TriedLeft(s, n, i + 1) == TriedLeft(s, n, i) - {id}
            else !TriedTable(s.site, s.info, s.triedAt)
  {
    hide TriedSlot;
    var (x, before, after) := (Slot(n, i), TriedLeft(s, n, i), TriedLeft(s, n, i + 1));
    forall j | j in after ensures j in before {
      assert !Hit(s, j, n, i);
    }
    if x !in s.triedAt {
      forall j | j in before ensures j in after {
        assert !Hit(s, j, n, i + 1);
      }
    } else if TriedHolds(s, x) {
      var id := IdAt(s.triedAt, x);
      assert !Hit(s, id, n, i) && Hit(s, id, n, i + 1);
      forall j | j in before && j != id ensures j in after {
        assert !Hit(s, j, n, i + 1);
      }
      Dropped(after, before, id);
    }
  }

  lemma TriedLeftTried(s: State, id: int, n: nat, i: nat)
    requires id in TriedLeft(s, n, i)
    ensures id in s.info && s.info[id].inTried
  {
  }

  lemma TriedRow(s: State, n: nat)
    requires InBounds(s.triedAt, TRIED_BUCKETS) && TriedSoFar(s, n, BUCKET_SIZE)
    ensures TriedSoFar(s, n + 1, 0) && TriedLeft(s, n + 1, 0) == TriedLeft(s, n, BUCKET_SIZE)
  {
    hide TriedSlot;
    forall id | id in TriedIds(s.info) ensures id in TriedLeft(s, n + 1, 0) <==> id in TriedLeft(s, n, BUCKET_SIZE) {
      assert Hit(s, id, n + 1, 0) <==> Hit(s, id, n, BUCKET_SIZE);
    }
  }

  lemma TriedEnd(s: State)
    requires InBounds(s.triedAt, TRIED_BUCKETS) && TriedSoFar(s, TRIED_BUCKETS, 0)
    ensures TriedLeft(s, TRIED_BUCKETS, 0) == {} <==> TriedTable(s.site, s.info, s.triedAt)
  {
    hide TriedSlot;
    forall x | x in s.triedAt ensures TriedHolds(s, x) {
      assert Seen(x, TRIED_BUCKETS, 0);
    }
    if TriedLeft(s, TRIED_BUCKETS, 0) == {} {
      forall id | id in s.info && s.info[id].inTried ensures Hit(s, id, TRIED_BUCKETS, 0) {
        assert id !in TriedLeft(s, TRIED_BUCKETS, 0);
      }
    } else {
      var id := Pick(TriedLeft(s, TRIED_BUCKETS, 0));
      assert !Hit(s, id, TRIED_BUCKETS, 0);
    }
  }

  lemma SlotsSeenStep(s: State, id: int, n: nat, i: nat)
    ensures var (x, seen) := (Slot(n, i), SlotsSeen(s, id, n, i));
            && x !in seen
            && SlotsSeen(s, id, n, i + 1) == if x in s.newAt && IdAt(s.newAt, x) == id then seen + {x} else seen
  {
  }

  lemma SeenAtMost(s: State, id: int, n: nat, i: nat)
    ensures |SlotsSeen(s, id, n, i)| <= |SlotsOf(s.newAt, id)|
  {
    SubsetCount(SlotsSeen(s, id, n, i), SlotsOf(s.newAt, id));
  }

  lemma NewStart(s: State)
    requires EntriesOk(s)
    ensures NewSoFar(s, 0, 0) && NewLeft(s, 0, 0) == map id | id in NewIds(s.info) :: s.info[id].refCount
  {
    hide SlotsOf;
    forall id ensures SlotsSeen(s, id, 0, 0) == {} {}
  }

  /** A free slot, or one whose holder still has a reference to be found, takes the scan one slot
      further. */
  lemma NewStep(s: State, n: nat, i: nat)
    requires NewSoFar(s, n, i)
    ensures var (x, left) := (Slot(n, i), NewLeft(s, n, i));
            if x !in s.newAt then NewSoFar(s, n, i + 1) && NewLeft(s, n, i + 1) == left
            else
              var id := IdAt(s.newAt, x);
              id in left && NewHolds(s, x) ==>
                && NewSoFar(s, n, i + 1)
                && NewLeft(s, n, i + 1) == if left[id] == 1 then left - {id} else left[id := left[id] - 1]
  {
    hide NewSlot, SlotsSeen, SlotsOf;
    forall id ensures var (x, seen) := (Slot(n, i), SlotsSeen(s, id, n, i));
                      && x !in seen
                      && SlotsSeen(s, id, n, i + 1) == if x in s.newAt && IdAt(s.newAt, x) == id then seen + {x}
                         else seen
    {
      SlotsSeenStep(s, id, n, i);
    }
  }

  /** A holder with no reference left to be found gives the table away. */
  lemma NewRefuted(s: State, n: nat, i: nat)
    requires EntriesOk(s) && NewSoFar(s, n, i) && Slot(n, i) in s.newAt
    requires IdAt(s.newAt, Slot(n, i)) !in NewLeft(s, n, i) || !NewHolds(s, Slot(n, i))
    ensures !(NewTable(s.site, s.info, s.newAt) && RefCounts(s.info, s.newAt))
  {
    hide NewSlot, SlotsSeen, SlotsOf;
    var id := IdAt(s.newAt, Slot(n, i));
    SlotsSeenStep(s, id, n, i);
    SeenAtMost(s, id, n, i + 1);
  }

  lemma NewLeftNew(s: State, id: int, n: nat, i: nat)
    requires id in NewLeft(s, n, i) && EntriesOk(s)
    ensures id in s.info && !s.info[id].inTried && NewLeft(s, n, i)[id] > 0
  {
  }

  lemma SlotsSeenRow(s: State, id: int, n: nat)
    requires InBounds(s.newAt, NEW_BUCKETS)
    ensures SlotsSeen(s, id, n + 1, 0) == SlotsSeen(s, id, n, BUCKET_SIZE)
    ensures SlotsSeen(s, id, NEW_BUCKETS, 0) == SlotsOf(s.newAt, id)
  {
  }

  lemma NewRow(s: State, n: nat)
    requires InBounds(s.newAt, NEW_BUCKETS) && NewSoFar(s, n, BUCKET_SIZE)
    ensures NewSoFar(s, n + 1, 0) && NewLeft(s, n + 1, 0) == NewLeft(s, n, BUCKET_SIZE)
  {
    hide SlotsSeen, NewHolds;
    forall id ensures SlotsSeen(s, id, n + 1, 0) == SlotsSeen(s, id, n, BUCKET_SIZE) {
      SlotsSeenRow(s, id, n);
    }
  }

  lemma NewEnd(s: State)
    requires InBounds(s.newAt, NEW_BUCKETS) && EntriesOk(s) && NewSoFar(s, NEW_BUCKETS, 0)
    ensures NewLeft(s, NEW_BUCKETS, 0) == map[] <==> NewTable(s.site, s.info, s.newAt) && RefCounts(s.info, s.newAt)
  {
    hide NewSlot, SlotsSeen;
    forall x | x in s.newAt ensures NewHolds(s, x) {
      assert Seen(x, NEW_BUCKETS, 0);
    }
    forall id | id in s.info
      ensures id in NewLeft(s, NEW_BUCKETS, 0) <==> s.info[id].refCount != |SlotsOf(s.newAt, id)|
    {
      SlotsSeenRow(s, id, 0);
      if s.info[id].inTried {
        assert SlotsOf(s.newAt, id) == {};
      }
    }
  }

  // ---------------------------------------------------------------------------------
  // The check against the invariant
  // ---------------------------------------------------------------------------------

  lemma SameMembers<T>(a: set<T>, b: set<T>)
    requires (forall x :: x in a ==> x in b) && (forall x :: x in b ==> x in a)
    ensures a == b
  {
  }

  lemma Apart<T>(a: set<T>, b: set<T>)
    requires forall x :: x in a ==> x !in b
    ensures |a + b| == |a| + |b|
  {
    assert a !! b;
  }

  /** The ids split into tried and new ones. */
  lemma IdsSplit(info: Infos)
    requires forall id :: id in info ==> (info[id].inTried <==> info[id].refCount == 0)
    ensures |info| == |TriedIds(info)| + |NewIds(info)|
  {
    forall id | id in info.Keys ensures id in TriedIds(info) + NewIds(info) {}
    forall id | id in TriedIds(info) + NewIds(info) ensures id in info.Keys {}
    SameMembers(info.Keys, TriedIds(info) + NewIds(info));
    forall id | id in TriedIds(info) ensures id !in NewIds(info) {}
    Apart(TriedIds(info), NewIds(info));
  }

  /** As many distinct ids as there are places leave no place without its own id. */
  lemma {:induction false} Filled(ids: set<int>, info: Infos, random: seq<int>, k: nat)
    requires ids <= info.Keys && |ids| == |random|
    requires forall id :: id in ids ==> 0 <= info[id].randomPos < |random| && Nth(random, info[id].randomPos) == id
    requires k < |random|
    ensures Nth(random, k) in ids && info[Nth(random, k)].randomPos == k
    decreases |random|
  {
    var last := |random| - 1;
    if forall id :: id in ids ==> info[id].randomPos != last {
      Crowded(ids, info, random[..last], random);
      assert false;
    }
    var id :| id in ids && info[id].randomPos == last;
    if k < last {
      forall j | j in ids - {id} ensures 0 <= info[j].randomPos < last && Nth(random[..last], info[j].randomPos) == j {}
      Filled(ids - {id}, info, random[..last], k);
    }
  }

  /** More ids than places do not fit. */
  lemma {:induction false} Crowded(ids: set<int>, info: Infos, random: seq<int>, full: seq<int>)
    requires ids <= info.Keys && random <= full
    requires forall id :: id in ids ==> 0 <= info[id].randomPos < |random| && Nth(full, info[id].randomPos) == id
    ensures |ids| <= |random|
  {
    forall id | id in ids ensures id in Front(full, |random|) {}
    SubsetCount(ids, Front(full, |random|));
    AtMost(full, |random|);
  }

  ghost function Front(full: seq<int>, n: nat): set<int>
    requires n <= |full|
  {
    set k | 0 <= k < n :: Nth(full, k)
  }

  lemma {:induction false} AtMost(full: seq<int>, n: nat)
    requires n <= |full|
    ensures |Front(full, n)| <= n
  {
    if n == 0 {
      assert Front(full, 0) == {};
    } else {
      AtMost(full, n - 1);
      assert Front(full, n) == Front(full, n - 1) + {Nth(full, n - 1)};
    }
  }

  lemma RandomCount(info: Infos, random: seq<int>)
    requires Random(info, random)
    ensures |random| == |info|
  {
    Crowded(info.Keys, info, random, random);
    forall j, k | 0 <= j < k < |random| ensures random[j] != random[k] {
      assert Nth(random, j) != Nth(random, k);
    }
    DistinctCount(random);
    var there := set id | id in random;
    forall id | id in there ensures id in info.Keys {
      var k :| 0 <= k < |random| && random[k] == id;
      assert Nth(random, k) == id;
    }
    SubsetCount(there, info.Keys);
  }

  /** The invariant is what the check accepts, but for the clauses the check does not see. */
  lemma CheckIff(s: State)
    ensures Check(s) && Timely(s) <==> Consistent(s) && Unseen(s)
  {
    if Check(s) && Timely(s) {
      CheckAccepts(s);
    }
    if Consistent(s) && Unseen(s) {
      AcceptedChecks(s);
    }
  }

  /** In a state that satisfies the invariant only time stamps and the key can displease. */
  lemma CheckedIff(s: State)
    requires Check(s)
    ensures Consistent(s) <==> Timely(s)
  {
    hide TriedTable, NewTable, RefCounts, Random, Index, Pending, Placed, IdsUsed;
    if Timely(s) {
      CheckAccepts(s);
    }
  }

  lemma CheckAccepts(s: State)
    requires Check(s) && Timely(s)
    ensures Consistent(s) && Unseen(s)
  {
    hide NewSlot, TriedSlot;
    forall id | id in s.info ensures s.info[id].inTried <==> s.info[id].refCount == 0 {
      if s.info[id].inTried {
        assert SlotsOf(s.newAt, id) == {};
      }
    }
    IdsSplit(s.info);
    RandomCount(s.info, s.random);
    forall id | id in s.info ensures EntryOk(s.info[id], id, s.addr, s.random) {}
  }

  lemma AcceptedChecks(s: State)
    requires Consistent(s) && Unseen(s)
    ensures Check(s) && Timely(s)
  {
    hide NewSlot, TriedSlot, SlotsOf;
    assert s.info.Keys <= s.info.Keys;
    IdsSplit(s.info);
    forall k | 0 <= k < |s.random| ensures Nth(s.random, k) in s.info && s.info[Nth(s.random, k)].randomPos == k {
      Filled(s.info.Keys, s.info, s.random, k);
    }
    forall id | id in s.info ensures Net(s.info[id]) in s.addr && IdOf(s.addr, Net(s.info[id])) == id {
      assert EntryOk(s.info[id], id, s.addr, s.random);
    }
  }

  /** The check accepts a state whose index has lost its one entry, because a lookup of an unknown
      address answers 0. */
  lemma LostEntryAccepted(site: Site, address: Address, source: NetAddr, bucket: nat)
    requires site.key != 0 && bucket < NEW_BUCKETS
    ensures var i := NewInfo(address, source).(refCount := 1, randomPos := 0);
            var s := State(site, 1, map[0 := i], map[], [0], map[NewSlot(site, i, bucket) := 0], map[], 1, 0, 1, {});
            Consistent(s) && !Check(s) && Check(s.(addr := map[address.service.net := 0]))
  {
    hide NewSlot, TriedSlot;
    var i := NewInfo(address, source).(refCount := 1, randomPos := 0);
    var s := State(site, 1, map[0 := i], map[], [0], map[NewSlot(site, i, bucket) := 0], map[], 1, 0, 1, {});
    assert SlotsOf(s.newAt, 0) == {NewSlot(site, i, bucket)};
    assert NewIds(s.info) == {0} && TriedIds(s.info) == {};
    assert 0 in s.info;
  }
}
