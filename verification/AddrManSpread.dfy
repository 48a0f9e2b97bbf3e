/** How far one address range reaches into the tables.  The tables are spread over buckets by
    hashes of the range, so that no range, however many addresses it has or announces, gets more
    than its share of them. */
module AddrManSpread {
  import opened AddrManState

  /** The buckets, of `count`, that a range can take: one for each of `n` numbers. */
  function Spread(site: Site, group: seq<nat>, n: nat, count: nat): set<nat>
    requires count > 0
  {
    set k | 0 <= k < n :: site.h.cheapHash([Key(site.key), Bytes(group), Number(k)]) % count
  }

  lemma {:induction false} SpreadSize(site: Site, group: seq<nat>, n: nat, count: nat)
    requires count > 0
    ensures |Spread(site, group, n, count)| <= n
  {
    if n == 0 {
      assert Spread(site, group, n, count) == {};
    } else {
      SpreadSize(site, group, n - 1, count);
      var last := site.h.cheapHash([Key(site.key), Bytes(group), Number(n - 1)]) % count;
      assert Spread(site, group, n, count) == Spread(site, group, n - 1, count) + {last};
    }
  }

  /** The tried buckets of an address range. */
  function TriedShare(site: Site, group: seq<nat>): set<nat> {
    Spread(site, group, TRIED_BUCKETS_PER_GROUP, TRIED_BUCKETS)
  }

  /** The new buckets of what a source in an address range announces. */
  function NewShare(site: Site, group: seq<nat>): set<nat> {
    Spread(site, group, NEW_BUCKETS_PER_SOURCE_GROUP, NEW_BUCKETS)
  }

  lemma TriedInShare(site: Site, i: AddrInfo)
    ensures TriedSlot(site, i).bucket in TriedShare(site, site.h.group(Net(i)))
  {
    var k := site.h.cheapHash([Key(site.key), Bytes(site.h.bytes(i.address.service))]) % TRIED_BUCKETS_PER_GROUP;
    assert 0 <= k < TRIED_BUCKETS_PER_GROUP;
  }

  lemma NewInShare(site: Site, i: AddrInfo, source: NetAddr)
    ensures SlotFrom(site, i, source).bucket in NewShare(site, site.h.group(source))
  {
    var from := Bytes(site.h.group(source));
    var k := site.h.cheapHash([Key(site.key), Bytes(site.h.group(Net(i))), from]) % NEW_BUCKETS_PER_SOURCE_GROUP;
    assert 0 <= k < NEW_BUCKETS_PER_SOURCE_GROUP;
  }

  // ---------------------------------------------------------------------------------
  // The tried table
  // ---------------------------------------------------------------------------------

  /** The slots of some buckets. */
  function SlotsIn(buckets: set<nat>): set<Slot> { set b, p | b in buckets && 0 <= p < BUCKET_SIZE :: Slot(b, p) }

  function Column(b: nat, n: nat): set<Slot> { set p | 0 <= p < n :: Slot(b, p) }

  lemma {:induction false} ColumnSize(b: nat, n: nat)
    ensures |Column(b, n)| == n
  {
    if n == 0 {
      assert Column(b, n) == {};
    } else {
      ColumnSize(b, n - 1);
      assert Column(b, n) == Column(b, n - 1) + {Slot(b, n - 1)};
    }
  }

  lemma {:induction false} SlotsSize(buckets: set<nat>)
    ensures |SlotsIn(buckets)| == |buckets| * BUCKET_SIZE
  {
    if buckets == {} {
      assert SlotsIn(buckets) == {};
    } else {
      var b :| b in buckets;
      SlotsSize(buckets - {b});
      ColumnSize(b, BUCKET_SIZE);
      assert SlotsIn(buckets) == SlotsIn(buckets - {b}) + Column(b, BUCKET_SIZE);
    }
  }

  lemma {:induction false} InjectiveSize<T, U>(a: set<T>, b: set<U>, f: T -> U)
    requires forall x :: x in a ==> f(x) in b
    requires forall x, y :: x in a && y in a && f(x) == f(y) ==> x == y
    ensures |a| <= |b|
  {
    if a == {} {
    } else {
      var x :| x in a;
      InjectiveSize(a - {x}, b - {f(x)}, f);
    }
  }

  /** The tried entries of an address range. */
  function TriedOf(s: State, group: seq<nat>): set<int> {
    set id | id in s.info && s.info[id].inTried && s.site.h.group(Net(s.info[id])) == group
  }

  /** However many of its addresses answered, a range has at most 512 of the 16384 places. */
  lemma TriedShareBounds(s: State, group: seq<nat>)
    requires Core(s)
    ensures |TriedOf(s, group)| <= TRIED_BUCKETS_PER_GROUP * BUCKET_SIZE
  {
    hide Index, Random, NewTable, RefCounts, IdsUsed, TriedSlot, Spread;
    var f := id => if id in s.info then TriedSlot(s.site, s.info[id]) else Slot(0, 0);
    var (ids, buckets) := (TriedOf(s, group), TriedShare(s.site, group));
    forall id | id in ids ensures f(id) in SlotsIn(buckets) {
      TriedInShare(s.site, s.info[id]);
      assert f(id) == Slot(f(id).bucket, f(id).pos);
    }
    forall x, y | x in ids && y in ids && f(x) == f(y) ensures x == y {
      assert IdAt(s.triedAt, f(x)) == x && IdAt(s.triedAt, f(y)) == y;
    }
    InjectiveSize(ids, SlotsIn(buckets), f);
    SlotsSize(buckets);
    SpreadSize(s.site, group, TRIED_BUCKETS_PER_GROUP, TRIED_BUCKETS);
  }

  // ---------------------------------------------------------------------------------
  // The new table
  // ---------------------------------------------------------------------------------

  /** The tables differ at most in these buckets of the new one. */
  ghost predicate Confined(s: State, t: State, buckets: set<nat>) {
    && t.site == s.site && t.triedAt == s.triedAt
    && forall x: Slot :: x.bucket !in buckets ==>
                             (x in s.newAt <==> x in t.newAt) && (x in s.newAt ==> IdAt(s.newAt, x) == IdAt(t.newAt, x))
  }

  lemma EnteredConfined(s: State, id: int, source: NetAddr, now: int)
    requires Core(s) && id in s.info && !s.info[id].inTried
    ensures Confined(s, Entered(s, id, source, now), NewShare(s.site, s.site.h.group(source)))
  {
    hide Core, SlotFrom, GivesWay, Entered, Spread;
    EnteredIs(s, id, source, now);
    NewInShare(s.site, s.info[id], source);
  }

  /** What a source announces changes only its range's buckets. */
  lemma AddedConfined(s: State, address: Address, source: NetAddr, penalty: int, now: int, draw: nat)
    requires Check(s)
    ensures Confined(s, Added(s, address, source, penalty, now, draw), NewShare(s.site, s.site.h.group(source)))
  {
    hide Index, Random, NewTable, TriedTable, RefCounts, IdsUsed, Counted, Placed, Pending, Entered, Created, Spread;
    var pen := if address.service.net == source then 0 else penalty;
    if s.site.h.routable(address.service.net) {
      if address.service.net in s.addr {
        Found(s, address.service.net);
        var id := IdOf(s.addr, address.service.net);
        CountsBounded(s, id);
        var t := Updated(s, id, Refreshed(s.info[id], address, pen, now));
        if !Enough(t.info[id], address, draw) {
          UpdatedCore(s, id, t.info[id]);
          EnteredConfined(t, id, source, now);
        }
      } else {
        var a := address.(time := Max(0, address.time - pen));
        CreatedTables(s, a, source);
        EnteredConfined(Created(s, a, source).(nNew := s.nNew + 1), s.idCount, source, now);
      }
    }
  }

  lemma CreatedTables(s: State, address: Address, source: NetAddr)
    requires Core(s) && address.service.net !in s.addr
    ensures var t := Created(s, address, source);
            && t.site == s.site && t.newAt == s.newAt && t.triedAt == s.triedAt && t.nNew == s.nNew
            && Core(t.(nNew := s.nNew + 1)) && s.idCount in t.info && !t.info[s.idCount].inTried
  {
    CreatedCore(s, address, source);
  }

  /** All of these are announcements by sources of one range. */
  ghost predicate AnnouncedBy(h: Network, ops: seq<Op>, group: seq<nat>) {
    forall i :: 0 <= i < |ops| ==> ops[i].Announce? && h.group(ops[i].source) == group
  }

  /** A run of announcements from one range, however long, touches at most 64 of the 1024 new buckets,
      and no tried slot. */
  lemma {:induction false} AnnouncementsConfined(states: seq<State>, ops: seq<Op>, group: seq<nat>)
    requires Run(states, ops) && Check(states[0]) && AnnouncedBy(states[0].site.h, ops, group)
    ensures Confined(states[0], states[|ops|], NewShare(states[0].site, group))
    ensures |NewShare(states[0].site, group)| <= NEW_BUCKETS_PER_SOURCE_GROUP
  {
    hide Check, Added, Spread;
    SpreadSize(states[0].site, group, NEW_BUCKETS_PER_SOURCE_GROUP, NEW_BUCKETS);
    var n := |ops|;
    if n == 0 {
    } else {
      var (s, t, op) := (states[n - 1], states[n], ops[n - 1]);
      AnnouncementsConfined(states[..n], ops[..n - 1], group);
      RunKeeps(states, ops, 0, n - 1);
      AddedConfined(s, op.address, op.source, op.penalty, op.now, op.draw);
    }
  }
}
