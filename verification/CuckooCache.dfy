/** A cache that behaves like a cuckoo set with eight locations per element.  Slots are reused
    when their element is marked as erasable; elements age in epochs.  The eight hash functions
    are a parameter. */
module CuckooCache {

  const HASHES: nat := 8
  const TWO32: nat := 0x1_0000_0000
  const INVALID: nat := 0xFFFF_FFFF

  // ---------------------------------------------------------------------------------
  // Bit-packed flags
  // ---------------------------------------------------------------------------------

  /** 1 << k */
  function Mask(k: nat): bv8
    requires k < 8
  {
    if k == 0 then 1 else if k == 1 then 2 else if k == 2 then 4 else if k == 3 then 8
    else if k == 4 then 16 else if k == 5 then 32 else if k == 6 then 64 else 128
  }

  predicate IsSet(b: bv8, k: nat)
    requires k < 8
  {
    b & Mask(k) != 0
  }

  lemma SetBit(b: bv8, k: nat, j: nat)
    requires k < 8 && j < 8
    ensures IsSet(b | Mask(k), j) <==> j == k || IsSet(b, j)
  {}

  lemma ClearBit(b: bv8, k: nat, j: nat)
    requires k < 8 && j < 8
    ensures IsSet(b & !Mask(k), j) <==> j != k && IsSet(b, j)
  {}

  lemma AllSet(j: nat)
    requires j < 8
    ensures IsSet(0xFF, j)
  {}

  class BitPackedFlags {
    const mem: array<bv8>
    ghost var bits: seq<bool>

    ghost predicate Valid()
      reads this, mem
    {
      |bits| == 8 * mem.Length && forall i :: 0 <= i < |bits| ==> bits[i] == IsSet(mem[i / 8], i % 8)
    }

    /** All flags set, space for at least `size`. */
    constructor (size: nat)
      ensures Valid() && fresh(mem) && |bits| >= size && forall i :: 0 <= i < |bits| ==> bits[i]
    {
      var n := (size + 7) / 8;
      mem := new bv8[n](_ => 0xFF);
      bits := seq(8 * n, _ => true);
      new;
      forall i | 0 <= i < |bits| ensures IsSet(mem[i / 8], i % 8) {
        AllSet(i % 8);
      }
    }

    method BitSet(s: nat)
      requires Valid() && s < |bits|
      modifies this, mem
      ensures Valid() && bits == old(bits)[s := true]
    {
      hide IsSet, Mask;
      mem[s / 8] := mem[s / 8] | Mask(s % 8);
      bits := bits[s := true];
      forall i | 0 <= i < |bits| ensures bits[i] == IsSet(mem[i / 8], i % 8) {
        SetBit(old(mem[s / 8]), s % 8, i % 8);
      }
    }

    method BitUnset(s: nat)
      requires Valid() && s < |bits|
      modifies this, mem
      ensures Valid() && bits == old(bits)[s := false]
    {
      hide IsSet, Mask;
      mem[s / 8] := mem[s / 8] & !Mask(s % 8);
      bits := bits[s := false];
      forall i | 0 <= i < |bits| ensures bits[i] == IsSet(mem[i / 8], i % 8) {
        ClearBit(old(mem[s / 8]), s % 8, i % 8);
      }
    }

    method BitIsSet(s: nat) returns (b: bool)
      requires Valid() && s < |bits|
      ensures b == bits[s]
    {
      b := Mask(s % 8) & mem[s / 8] != 0;
    }
  }

  // ---------------------------------------------------------------------------------
  // The table as a value
  // ---------------------------------------------------------------------------------

  datatype Element = Element(value: nat)

  /** What the slots hold at first. */
  const BLANK := Element(0)

  datatype Option<+T> = None | Some(value: T)

  /** Maps a 32-bit hash to [0, size) by a multiplication and a shift. */
  function Scale(h: nat, size: nat): (loc: nat)
    requires h < TWO32 && size > 0
    ensures loc < size
  {
    ScaleBound(h, size);
    h * size / TWO32
  }

  lemma ScaleBound(h: nat, size: nat)
    requires h < TWO32 && size > 0
    ensures 0 <= h * size < TWO32 * size && h * size / TWO32 < size
  {
    var q := h * size / TWO32;
    assert h * size < TWO32 * size;
    assert TWO32 * q <= h * size;
  }

  type Hash = (nat, Element) -> nat

  function Loc(hash: Hash, size: nat, e: Element, k: nat): (loc: nat)
    requires size > 0
    ensures loc < size
  {
    Scale(hash(k, e) % TWO32, size)
  }

  /** The eight locations of an element. */
  function Locs(hash: Hash, size: nat, e: Element): (locs: seq<nat>)
    requires size > 0
    ensures |locs| == HASHES && forall k :: 0 <= k < HASHES ==> locs[k] < size
  {
    [Loc(hash, size, e, 0), Loc(hash, size, e, 1), Loc(hash, size, e, 2), Loc(hash, size, e, 3),
     Loc(hash, size, e, 4), Loc(hash, size, e, 5), Loc(hash, size, e, 6), Loc(hash, size, e, 7)]
  }

  /** The elements in slots below `n` that are not marked as erasable. */
  ghost function Live(table: seq<Element>, bits: seq<bool>, n: nat): multiset<Element>
    requires n <= |table| && n <= |bits|
  {
    if n == 0 then multiset{}
    else Live(table, bits, n - 1) + if bits[n - 1] then multiset{} else multiset{table[n - 1]}
  }

  ghost function Holder(table: seq<Element>, bits: seq<bool>, i: nat): multiset<Element>
    requires i < |table| && i < |bits|
  {
    if bits[i] then multiset{} else multiset{table[i]}
  }

  /** Putting an element into a slot: whoever lived there is replaced. */
  lemma {:induction false} LivePut(table: seq<Element>, bits: seq<bool>, n: nat, i: nat, x: Element)
    requires i < n <= |table| && n <= |bits|
    ensures Live(table[i := x], bits[i := false], n) + Holder(table, bits, i) == Live(table, bits, n) + multiset{x}
  {
    if i == n - 1 {
      LiveElsewhere(table, bits, n - 1, i, x);
    } else {
      LivePut(table, bits, n - 1, i, x);
      Rearrange(Live(table[i := x], bits[i := false], n - 1), Live(table, bits, n - 1), Holder(table, bits, i),
        multiset{x},
                Holder(table, bits, n - 1));
    }
  }

  lemma Rearrange(a: multiset<Element>, b: multiset<Element>, p: multiset<Element>, q: multiset<Element>,
                  k: multiset<Element>)
    requires a + p == b + q
    ensures a + k + p == b + k + q
  {
    assert a + k + p == a + p + k;
  }

  lemma {:induction false} LiveErase(table: seq<Element>, bits: seq<bool>, n: nat, i: nat)
    requires i < n <= |table| && n <= |bits|
    ensures Live(table, bits[i := true], n) + Holder(table, bits, i) == Live(table, bits, n)
  {
    if i == n - 1 {
      LiveUntouched(table, bits, n - 1, i);
    } else {
      LiveErase(table, bits, n - 1, i);
      Rearrange(Live(table, bits[i := true], n - 1), Live(table, bits, n - 1), Holder(table, bits, i), multiset{},
        Holder(table, bits, n - 1));
    }
  }

  lemma {:induction false} LiveUntouched(table: seq<Element>, bits: seq<bool>, n: nat, i: nat)
    requires n <= i < |bits| && n <= |table|
    ensures Live(table, bits[i := true], n) == Live(table, bits, n)
  {
    if n == 0 {
    } else {
      LiveUntouched(table, bits, n - 1, i);
    }
  }

  /** Marking the only live copy of an element as erasable takes it out of what is kept. */
  lemma Erased(table: seq<Element>, bits: seq<bool>, n: nat, i: nat)
    requires i < n <= |table| && n <= |bits|
    requires forall j :: 0 <= j < n && j != i && table[j] == table[i] ==> bits[j]
    ensures Live(table, bits[i := true], n) == Live(table, bits, n) - multiset{table[i]}
  {
    hide Live;
    LiveErase(table, bits, n, i);
    LiveHas(table, bits, n, table[i]);
    var (a, b, x) := (Live(table, bits[i := true], n), Live(table, bits, n), table[i]);
    if bits[i] {
      assert x !in b;
      assert b - multiset{x} == b;
    } else {
      assert a + multiset{x} == b;
      assert a == b - multiset{x};
    }
  }

  lemma AgedOut(table: seq<Element>, bits: seq<bool>, more: seq<bool>, n: nat, history: seq<Element>, epochSize: nat)
    requires n <= |table| && n <= |bits| == |more|
    requires forall i :: 0 <= i < n && more[i] && !bits[i] ==> SincePut(history, table[i]) > epochSize
    ensures forall x :: x in Live(table, bits, n) && x !in Live(table, more, n) ==> SincePut(history, x) > epochSize
  {
    hide Live, SincePut;
    forall x | x in Live(table, bits, n) && x !in Live(table, more, n) ensures SincePut(history, x) > epochSize {
      LiveHas(table, bits, n, x);
      LiveHas(table, more, n, x);
    }
  }

  lemma {:induction false} LiveElsewhere(table: seq<Element>, bits: seq<bool>, n: nat, i: nat, x: Element)
    requires n <= i < |table| && i < |bits|
    ensures Live(table[i := x], bits[i := false], n) == Live(table, bits, n)
  {
    if n == 0 {
    } else {
      LiveElsewhere(table, bits, n - 1, i, x);
    }
  }

  lemma {:induction false} LiveHas(table: seq<Element>, bits: seq<bool>, n: nat, x: Element)
    requires n <= |table| && n <= |bits|
    ensures x in Live(table, bits, n) <==> exists i :: 0 <= i < n && !bits[i] && table[i] == x
  {
    if n == 0 {
    } else {
      LiveHas(table, bits, n - 1, x);
    }
  }

  /** Marking more slots as erasable leaves fewer live elements. */
  lemma {:induction false} LiveFewer(table: seq<Element>, bits: seq<bool>, more: seq<bool>, n: nat)
    requires n <= |table| && n <= |bits| == |more| && forall i :: 0 <= i < n && bits[i] ==> more[i]
    ensures Live(table, more, n) <= Live(table, bits, n)
  {
    if n == 0 {
    } else {
      LiveFewer(table, bits, more, n - 1);
    }
  }

  // ---------------------------------------------------------------------------------
  // The cache
  // ---------------------------------------------------------------------------------

  class Cache {
    const hash: Hash
    const size: nat
    const depthLimit: nat
    const epochSize: nat
    const table: array<Element>
    const flags: BitPackedFlags
    const epochFlags: array<bool>
    var counter: nat

    // The elements inserted so far, the insertion that each slot's element comes from, and how
    // many insertions there had been when the elements last aged.
    ghost var history: seq<Element>
    ghost var born: seq<nat>
    ghost var lastAge: nat

    ghost predicate Shape()
      reads this, flags, flags.mem
    {
      && size >= 2 && depthLimit >= 1 && epochSize >= 1 && table.Length == size == epochFlags.Length == |born|
      && flags.Valid() && |flags.bits| >= size
      && (epochFlags as object) != flags.mem as object && (table as object) != flags.mem as object
      && (table as object) != epochFlags as object
    }

    /** The elements that are kept. */
    ghost function Content(): multiset<Element>
      requires Shape()
      reads this, table, flags, flags.mem
    {
      Live(table[..], flags.bits, size)
    }

    ghost predicate Valid()
      reads this, table, flags, flags.mem, epochFlags
    {
      Slots() && lastAge <= |history| && |history| - lastAge + counter >= epochSize && Recent(0)
    }

    /** With `k` more elements, the live elements of the current epoch and the insertions until the next
        scan are together not many more than an epoch holds. */
    ghost predicate Recent(k: nat)
      requires Shape()
      reads this, flags, flags.mem, epochFlags
    {
      Current(epochFlags[..], flags.bits, size) + k + counter <= epochSize + Max(1, epochSize / 16)
    }

    /** Between the epoch check of an insertion and the insertion itself. */
    ghost predicate Checked()
      reads this, table, flags, flags.mem, epochFlags
    {
      Slots() && lastAge <= |history| + 1 && |history| + 1 - lastAge + counter >= epochSize && Recent(1)
    }

    ghost predicate Slots()
      reads this, table, flags, flags.mem, epochFlags
    {
      && Shape() && Homed(hash, size, table[..], flags.bits) && Unique(table[..])
      && BlankFirst(hash, size, table[..], flags.bits)
      && Dated(table[..], flags.bits, epochFlags[..], history, born, lastAge)
    }

    /** `depth` is the number of displacements an insertion may try. */
    constructor (hash: Hash, newSize: nat, depth: nat)
      requires depth >= 1
      ensures Valid() && fresh(table) && fresh(flags) && fresh(flags.mem) && fresh(epochFlags)
      ensures Content() == multiset{} && history == [] && this.hash == hash && depthLimit == depth
      ensures size == Max(2, newSize) && epochSize == Max(1, size * 45 / 100)
    {
      this.hash := hash;
      var n := Max(2, newSize);
      size, depthLimit := n, depth;
      table := new Element[n](_ => BLANK);
      flags := new BitPackedFlags(n);
      epochFlags := new bool[n](_ => false);
      epochSize := Max(1, n * 45 / 100);
      counter := Max(1, n * 45 / 100);
      history, born, lastAge := [], seq(n, _ => 0), 0;
      new;
      LiveNone(table[..], flags.bits, n);
      CurrentNone(epochFlags[..], flags.bits, n);
    }

    /** Counts down to the next scan; when that is due and the current epoch is full, the epochs
        age: elements of the old epoch become erasable, the current epoch becomes the old one.
        Whoever becomes erasable has seen more than `epochSize` insertions since its own. */
    method EpochCheck()
      requires Valid()
      modifies this`counter, this`lastAge, flags, flags.mem, epochFlags
      ensures Checked() && table[..] == old(table[..])
      ensures |flags.bits| == |old(flags.bits)| && forall i :: 0 <= i < size && old(flags.bits)[i] ==> flags.bits[i]
      ensures forall i :: 0 <= i < size && flags.bits[i] && !old(flags.bits)[i] ==>
                            SincePut(history, table[i]) > epochSize
      ensures var unused := Current(old(epochFlags[..]), old(flags.bits), size);
              if old(counter) == 0 && unused >= epochSize then
                counter == epochSize && AgedFlags(size, old(flags.bits), old(epochFlags[..]), flags.bits,
                  epochFlags[..])
              else
                && flags.bits == old(flags.bits) && epochFlags[..] == old(epochFlags[..])
                && counter == if old(counter) != 0 then old(counter) - 1
                              else Max(1, Max(epochSize / 16, epochSize - unused))
    {
      hide Homed, Unique, BlankFirst, Dated, BitPackedFlags.Valid, SincePut, Current, AgedFlags;
      if counter != 0 {
        counter := counter - 1;
        return;
      }
      var unused := CountCurrent();
      if unused >= epochSize {
        Age();
        counter := epochSize;
      } else {
        counter := Max(1, Max(epochSize / 16, epochSize - unused));
      }
    }

    method CountCurrent() returns (unused: nat)
      requires Shape()
      ensures unused == Current(epochFlags[..], flags.bits, size)
    {
      unused := 0;
      for i := 0 to size
        invariant unused == Current(epochFlags[..], flags.bits, i)
      {
        var erasable := flags.BitIsSet(i);
        if epochFlags[i] && !erasable {
          unused := unused + 1;
        }
      }
    }

    method Age()
      requires Slots() && |history| - lastAge >= epochSize
      modifies flags, flags.mem, epochFlags, this`lastAge
      ensures Slots() && lastAge == |history| + 1
      ensures AgedFlags(size, old(flags.bits), old(epochFlags[..]), flags.bits, epochFlags[..])
      ensures Current(epochFlags[..], flags.bits, size) == 0
      ensures |flags.bits| == |old(flags.bits)| && forall i :: 0 <= i < size && old(flags.bits)[i] ==> flags.bits[i]
      ensures forall i :: 0 <= i < size && flags.bits[i] && !old(flags.bits)[i] ==>
                            SincePut(history, table[i]) > epochSize
    {
      hide BitPackedFlags.Valid, Dated, Homed, Unique, BlankFirst, SincePut, Current;
      ghost var (bits, epochs) := (flags.bits, epochFlags[..]);
      for i := 0 to size
        invariant Shape() && |flags.bits| == |bits| && lastAge == old(lastAge)
        invariant forall j :: i <= j < size ==> epochFlags[j] == epochs[j] && flags.bits[j] == bits[j]
        invariant forall j :: 0 <= j < i ==> !epochFlags[j] && flags.bits[j] == (bits[j] || !epochs[j])
      {
        if epochFlags[i] {
          epochFlags[i] := false;
        } else {
          flags.BitSet(i);
        }
      }
      Aged(hash, size, table[..], bits, flags.bits, epochs, epochFlags[..], history, born, lastAge, epochSize);
      CurrentNone(epochFlags[..], flags.bits, size);
      lastAge := |history| + 1;
    }

    /** Inserts an element.  Of the elements kept after the epoch check and the new one, all are
        kept and can be found, except at most one that is dropped.  Nothing is dropped if the new
        element was in the table or has an erasable location.  `bits` are the erasable slots after
        the epoch check, `hand` the elements that were looking for a place. */
    method Insert(e: Element)
      returns (ghost aged: multiset<Element>, ghost dropped: Option<Element>, ghost bits: seq<bool>,
        ghost hand: seq<Element>)
      requires Valid()
      modifies this, table, flags, flags.mem, epochFlags
      ensures Valid() && history == old(history) + [e] && aged <= old(Content())
      ensures |bits| >= size && aged == Live(old(table[..]), bits, size)
      ensures forall i :: 0 <= i < size && old(flags.bits)[i] ==> bits[i]
      ensures forall x :: x in old(Content()) && x !in aged ==> SincePut(old(history), x) > epochSize
      ensures (dropped.None? && e in aged && Content() == aged)
              || Content() + (if dropped.Some? then multiset{dropped.value} else multiset{}) == aged + multiset{e}
      ensures dropped.None? ==> e in Content()
      ensures AtHome(hash, size, old(table[..]), e) || !Stuck(hash, size, bits, e) ==> dropped.None?
      ensures dropped.Some? ==>
                && |hand| == depthLimit + 1 && hand[0] == e && hand[depthLimit] == dropped.value
                && forall d :: 0 <= d < depthLimit ==> Stuck(hash, size, bits, hand[d])
    {
      hide Homed, Unique, BlankFirst, NotLive, Preferred, Dated, BitPackedFlags.Valid, Live, Locs, Current, AgedFlags,
           Stuck, Trail, Exchanged, FirstErasable, AtHome;
      EpochCheck();
      aged, bits, hand := Content(), flags.bits, [e];
      LiveFewer(table[..], old(flags.bits), flags.bits, size);
      AgedOut(table[..], old(flags.bits), flags.bits, size, history, epochSize);
      var locs := Locs(hash, size, e);
      var k := Find(locs, e);
      if k < HASHES {
        IndexAtMost(locs, k);
        KeepAt(e, locs[k]);
        dropped := None;
        return;
      }
      NowhereElse(hash, size, table[..], flags.bits, e);
      ghost var at;
      dropped, hand, at := Displace(e);
      TrailStuck(hash, size, old(table[..]), bits, hand, at);
      if dropped.None? {
        KeptIn(Content(), aged, e);
      }
    }

    /** The first of the locations that holds the element, or HASHES. */
    method Find(locs: seq<nat>, e: Element) returns (k: nat)
      requires Shape() && |locs| == HASHES && forall j :: 0 <= j < HASHES ==> locs[j] < size
      ensures k <= HASHES && (k < HASHES ==> table[locs[k]] == e) && forall j :: 0 <= j < k ==> table[locs[j]] != e
    {
      k := 0;
      while k < HASHES && table[locs[k]] != e
        invariant k <= HASHES && forall j :: 0 <= j < k ==> table[locs[j]] != e
      {
        k := k + 1;
      }
    }

    /** An element in hand: when it was last inserted, and which epoch it belongs to. */
    ghost predicate InHand(e: Element, epoch: bool, birth: nat)
      reads this, table, flags
    {
      && birth < |history| && history[birth] == e && (!epoch ==> birth < lastAge)
      && Latest(history, birth) && NotLive(table[..], flags.bits, e) && (e != BLANK ==> e !in table[..])
    }

    /** An element that is in the table already is live once, as before or again. */
    method KeepAt(e: Element, loc: nat)
      requires Checked() && loc < size && loc in Locs(hash, size, e) && table[loc] == e
      requires forall k :: 0 <= k < IndexOf(Locs(hash, size, e), loc) ==> table[Locs(hash, size, e)[k]] != e
      modifies this`born, this`history, flags, flags.mem, epochFlags
      ensures Valid() && history == old(history) + [e] && e in Content()
      ensures if old(flags.bits)[loc] then Content() == old(Content()) + multiset{e}
              else e in old(Content()) && Content() == old(Content())
    {
      hide Homed, Unique, BlankFirst, NotLive, Preferred, Dated, BitPackedFlags.Valid, Live, Locs, Current;
      LiveHas(table[..], flags.bits, size, e);
      ghost var (was, wasErasable) := (Content(), flags.bits[loc]);
      Refresh(e, loc);
      if wasErasable {
        KeptIn(Content(), was, e);
      } else {
        Cancel(Content(), was, e);
      }
    }

    /** An element that is in the table already is kept and belongs to the current epoch. */
    method Refresh(e: Element, loc: nat)
      requires Checked() && loc < size && loc in Locs(hash, size, e) && table[loc] == e
      requires forall k :: 0 <= k < IndexOf(Locs(hash, size, e), loc) ==> table[Locs(hash, size, e)[k]] != e
      modifies this`born, this`history, flags, flags.mem, epochFlags
      ensures Valid() && history == old(history) + [e]
      ensures Content() + Holder(table[..], old(flags.bits), loc) == old(Content()) + multiset{e}
    {
      hide Homed, Unique, BlankFirst, NotLive, Preferred, Dated, BitPackedFlags.Valid, Live, Locs;
      Refreshed(hash, size, table[..], flags.bits, epochFlags[..], history, born, lastAge, loc, e);
      LivePut(table[..], flags.bits, size, loc, e);
      CurrentPut(epochFlags[..], flags.bits, size, loc, true);
      flags.BitUnset(loc);
      epochFlags[loc] := true;
      born := born[loc := |history|];
      history := history + [e];
      assert table[..][loc := e] == table[..];
    }

    /** Takes an erasable slot. */
    method Take(e: Element, loc: nat, epoch: bool, ghost birth: nat)
      requires Valid() && loc < size && loc in Locs(hash, size, e) && flags.bits[loc] && InHand(e, epoch, birth)
      requires Preferred(hash, size, flags.bits, e, loc) && Recent(if epoch then 1 else 0)
      modifies this`born, table, flags, flags.mem, epochFlags
      ensures Valid() && Content() == old(Content()) + multiset{e} && table[..] == old(table[..])[loc := e]
    {
      hide Homed, Unique, BlankFirst, NotLive, Preferred, Dated, BitPackedFlags.Valid, Live, Locs, Latest;
      PutOk(hash, size, table[..], flags.bits, epochFlags[..], history, born, lastAge, loc, e, epoch, birth);
      LivePut(table[..], flags.bits, size, loc, e);
      CurrentPut(epochFlags[..], flags.bits, size, loc, epoch);
      table[loc] := e;
      flags.BitUnset(loc);
      epochFlags[loc] := epoch;
      born := born[loc := birth];
    }

    /** Swaps with the element in a slot; the epoch travels with the element. */
    method Swap(e: Element, loc: nat, epoch: bool, ghost birth: nat)
                returns (out: Element, outEpoch: bool, ghost outBirth: nat)
      requires Valid() && loc < size && loc in Locs(hash, size, e) && !flags.bits[loc] && InHand(e, epoch, birth)
      requires Preferred(hash, size, flags.bits, e, loc) && Recent(if epoch then 1 else 0)
      modifies this`born, table, epochFlags
      ensures Valid() && InHand(out, outEpoch, outBirth) && loc in Locs(hash, size, out)
      ensures Recent(if outEpoch then 1 else 0) && out == old(table[loc]) && table[..] == old(table[..])[loc := e]
      ensures Content() + multiset{out} == old(Content()) + multiset{e}
    {
      hide Homed, Unique, BlankFirst, NotLive, Preferred, Dated, BitPackedFlags.Valid, Live, Locs, Latest;
      PutOk(hash, size, table[..], flags.bits, epochFlags[..], history, born, lastAge, loc, e, epoch, birth);
      LivePut(table[..], flags.bits, size, loc, e);
      CurrentPut(epochFlags[..], flags.bits, size, loc, epoch);
      TakenOut(hash, size, table[..], flags.bits, epochFlags[..], history, born, lastAge, loc, e);
      out, outEpoch, outBirth := table[loc], epochFlags[loc], born[loc];
      table[loc] := e;
      epochFlags[loc] := epoch;
      born := born[loc := birth];
      assert flags.bits[loc := false] == flags.bits;
      assert table[..] == old(table[..])[loc := e];
    }

    /** An element that lives nowhere is in hand. */
    ghost method PickUp(e: Element)
      requires Checked() && NotLive(table[..], flags.bits, e) && (e != BLANK ==> e !in table[..])
      modifies this`history
      ensures Valid() && Recent(1) && history == old(history) + [e] && InHand(e, true, |old(history)|)
    {
      hide Homed, Unique, BlankFirst, NotLive, BitPackedFlags.Valid, Locs, Current;
      DatedLonger(table[..], flags.bits, epochFlags[..], history, born, lastAge, e);
      history := history + [e];
    }

    /** The displacement loop: takes an erasable slot if there is one, and else swaps with the
        element at the location after the one it comes from.  `hand` are the elements in hand one
        after the other, and `at` the slots where they changed places.  An element is dropped
        exactly after depthLimit swaps. */
    method Displace(first: Element)
      returns (ghost dropped: Option<Element>, ghost hand: seq<Element>, ghost at: seq<nat>)
      requires Checked() && NotLive(table[..], flags.bits, first) && (first != BLANK ==> first !in table[..])
      modifies this`born, this`history, table, flags, flags.mem, epochFlags
      ensures Valid() && history == old(history) + [first]
      ensures Content() + (if dropped.Some? then multiset{dropped.value} else multiset{}) ==
              old(Content()) + multiset{first}
      ensures Trail(hash, size, old(table[..]), old(flags.bits), hand, at) && hand[0] == first && |at| <= depthLimit
      ensures dropped == if |at| == depthLimit then Some(hand[depthLimit]) else None
      ensures dropped.None? ==> !Stuck(hash, size, old(flags.bits), hand[|at|])
      ensures var end := Exchanged(old(table[..]), hand, at, |at|);
              table[..] == if dropped.Some? then end
                           else end[FirstErasable(hash, size, old(flags.bits), hand[|at|]) := hand[|at|]]
    {
      hide InHand, Homed, Unique, BlankFirst, Dated, NotLive, BitPackedFlags.Valid, Live, Current, Trail, Stuck,
           Exchanged, FirstErasable, NextLoc;
      var e, lastEpoch, lastLoc := first, true, INVALID;
      ghost var birth: nat := |history|;
      PickUp(first);
      hand, at := [first], [];
      TrailStart(hash, size, table[..], flags.bits, first);
      for depth := 0 to depthLimit
        invariant Valid() && history == old(history) + [first] && InHand(e, lastEpoch, birth)
        invariant Recent(if lastEpoch then 1 else 0) && flags.bits == old(flags.bits)
        invariant Content() + multiset{e} == old(Content()) + multiset{first}
        invariant |at| == depth && |hand| == depth + 1 && hand[depth] == e && hand[0] == first
        invariant forall i :: 0 <= i < |at| ==> at[i] < size
        invariant lastLoc == if depth == 0 then INVALID else at[depth - 1]
        invariant Trail(hash, size, old(table[..]), old(flags.bits), hand, at)
        invariant table[..] == Exchanged(old(table[..]), hand, at, depth)
      {
        var placed;
        placed, e, lastEpoch, lastLoc, birth := Relocate(e, lastEpoch, lastLoc, birth);
        if placed {
          return None, hand, at;
        }
        TrailMore(hash, size, old(table[..]), flags.bits, hand, at, lastLoc, e);
        hand, at := hand + [e], at + [lastLoc];
      }
      dropped := Some(e);
    }

    /** One round of the displacement loop. */
    method Relocate(e: Element, epoch: bool, lastLoc: int, ghost birth: nat)
      returns (placed: bool, out: Element, outEpoch: bool, loc: nat, ghost outBirth: nat)
      requires Valid() && InHand(e, epoch, birth) && Recent(if epoch then 1 else 0)
      modifies this`born, table, flags, flags.mem, epochFlags
      ensures Valid() && placed == !Stuck(hash, size, old(flags.bits), e)
      ensures placed ==>
                && Content() == old(Content()) + multiset{e}
                && table[..] == old(table[..])[FirstErasable(hash, size, old(flags.bits), e) := e]
      ensures !placed ==>
                && loc == NextLoc(hash, size, e, lastLoc) < size && out == old(table[..])[loc]
                && table[..] == old(table[..])[loc := e] && flags.bits == old(flags.bits)
                && InHand(out, outEpoch, outBirth) && Recent(if outEpoch then 1 else 0)
                && Content() + multiset{out} == old(Content()) + multiset{e}
    {
      hide InHand, Homed, Unique, BlankFirst, Dated, NotLive, Preferred, BitPackedFlags.Valid, Live, Locs, Current,
           Stuck, FirstErasable;
      out, outEpoch, loc, outBirth := e, epoch, 0, birth;
      var locs := Locs(hash, size, e);
      var k := FindErasable(locs);
      if k < HASHES {
        NotStuck(hash, size, flags.bits, e, k);
        PreferredBy(hash, size, flags.bits, e, k);
        Take(e, locs[k], epoch, birth);
        return true, out, outEpoch, loc, outBirth;
      }
      IsStuck(hash, size, flags.bits, e);
      PreferredBy(hash, size, flags.bits, e, (1 + IndexOf(locs, lastLoc)) % 8);
      loc := locs[(1 + IndexOf(locs, lastLoc)) % 8];
      out, outEpoch, outBirth := Swap(e, loc, epoch, birth);
      placed := false;
    }

    method FindErasable(locs: seq<nat>) returns (k: nat)
      requires Shape() && |locs| == HASHES && forall j :: 0 <= j < HASHES ==> locs[j] < size
      ensures k <= HASHES && (k < HASHES ==> flags.bits[locs[k]])
      ensures forall j :: 0 <= j < k ==> !flags.bits[locs[j]]
    {
      hide BitPackedFlags.Valid;
      k := 0;
      while k < HASHES
        invariant k <= HASHES && forall j :: 0 <= j < k ==> !flags.bits[locs[j]]
      {
        var open := flags.BitIsSet(locs[k]);
        if open {
          return;
        }
        k := k + 1;
      }
    }

    /** Finds an element whatever its flag says; with `erase`, marks it as erasable. */
    method Contains(e: Element, erase: bool) returns (found: bool)
      requires Valid()
      modifies flags, flags.mem
      ensures Valid() && (!found || !erase ==> Content() == old(Content()))
      ensures found && erase ==> Content() == old(Content()) - multiset{e}
      ensures found <==> exists k :: 0 <= k < HASHES && table[Locs(hash, size, e)[k]] == e
      ensures e in old(Content()) ==> found
    {
      hide BitPackedFlags.Valid, Live, Unique, BlankFirst, IndexOf, Dated, Homed, Locs, Current;
      var locs := Locs(hash, size, e);
      if e in Content() {
        LiveIsFound(hash, size, table[..], flags.bits, e);
      }
      var k := Find(locs, e);
      found := k < HASHES;
      if found && erase {
        IndexAtMost(locs, k);
        CurrentErase(epochFlags[..], flags.bits, size, locs[k]);
        ErasedKeeps(hash, size, table[..], flags.bits, epochFlags[..], history, born, lastAge, locs[k]);
        flags.BitSet(locs[k]);
      }
    }
  }

  lemma LiveIsFound(hash: Hash, size: nat, table: seq<Element>, bits: seq<bool>, e: Element)
    requires 0 < size == |table| <= |bits| && Homed(hash, size, table, bits) && e in Live(table, bits, size)
    ensures exists k :: 0 <= k < HASHES && table[Locs(hash, size, e)[k]] == e
  {
    hide Locs, Live;
    LiveHas(table, bits, size, e);
  }

  lemma ErasedKeeps(hash: Hash, size: nat, table: seq<Element>, bits: seq<bool>, epochs: seq<bool>,
                    history: seq<Element>,
                    born: seq<nat>, lastAge: nat, loc: nat)
    requires 0 < size == |table| == |epochs| == |born| <= |bits| && loc < size && loc in Locs(hash, size, table[loc])
    requires var locs := Locs(hash, size, table[loc]);
             forall k :: 0 <= k < IndexOf(locs, loc) ==> table[locs[k]] != table[loc]
    requires Homed(hash, size, table, bits) && Unique(table) && Dated(table, bits, epochs, history, born, lastAge)
    requires BlankFirst(hash, size, table, bits)
    ensures Homed(hash, size, table, bits[loc := true])
            && Dated(table, bits[loc := true], epochs, history, born, lastAge)
    ensures BlankFirst(hash, size, table, bits[loc := true])
    ensures Live(table, bits[loc := true], size) == Live(table, bits, size) - multiset{table[loc]}
  {
    hide Locs, Live, BlankFirst, IndexOf, Latest;
    OnlyLive(hash, size, table, bits, loc);
    Erased(table, bits, size, loc);
    BlankFewer(hash, size, table, bits, bits[loc := true]);
  }

  lemma KeptIn(a: multiset<Element>, b: multiset<Element>, x: Element)
    requires a + multiset{} == b + multiset{x}
    ensures x in a && a == b + multiset{x}
  {
    assert a == a + multiset{};
  }

  lemma Cancel(a: multiset<Element>, b: multiset<Element>, x: Element)
    requires a + multiset{x} == b + multiset{x}
    ensures a == b
  {
    assert forall y :: (a + multiset{x})[y] == a[y] + multiset{x}[y] && (b + multiset{x})[y] == b[y] + multiset{x}[y];
  }

  lemma PutOk(hash: Hash, size: nat, table: seq<Element>, bits: seq<bool>, epochs: seq<bool>, history: seq<Element>,
              born: seq<nat>, lastAge: nat, loc: nat, e: Element, epoch: bool, birth: nat)
    requires 0 < size == |table| == |epochs| == |born| <= |bits| && loc < size && loc in Locs(hash, size, e)
    requires Homed(hash, size, table, bits) && Unique(table) && Dated(table, bits, epochs, history, born, lastAge)
    requires BlankFirst(hash, size, table, bits) && Preferred(hash, size, bits, e, loc)
    requires birth < |history| && history[birth] == e && (!epoch ==> birth < lastAge)
    requires Latest(history, birth) && NotLive(table, bits, e) && (e != BLANK ==> e !in table)
    ensures Homed(hash, size, table[loc := e], bits[loc := false]) && Unique(table[loc := e])
    ensures BlankFirst(hash, size, table[loc := e], bits[loc := false])
    ensures Dated(table[loc := e], bits[loc := false], epochs[loc := epoch], history, born[loc := birth], lastAge)
  {
    hide Locs, Latest, BlankFirst, Preferred;
    PutBlank(hash, size, table, bits, loc, e);
  }

  lemma PutBlank(hash: Hash, size: nat, table: seq<Element>, bits: seq<bool>, loc: nat, e: Element)
    requires 0 < size == |table| <= |bits| && loc < size && loc in Locs(hash, size, e)
    requires BlankFirst(hash, size, table, bits) && Preferred(hash, size, bits, e, loc) && NotLive(table, bits, e)
    ensures BlankFirst(hash, size, table[loc := e], bits[loc := false])
  {
    hide Locs;
  }

  lemma Refreshed(hash: Hash, size: nat, table: seq<Element>, bits: seq<bool>, epochs: seq<bool>, history: seq<Element>,
                  born: seq<nat>, lastAge: nat, loc: nat, e: Element)
    requires 0 < size == |table| == |epochs| == |born| <= |bits|
    requires loc < size && loc in Locs(hash, size, e) && table[loc] == e
    requires forall k :: 0 <= k < IndexOf(Locs(hash, size, e), loc) ==> table[Locs(hash, size, e)[k]] != e
    requires Homed(hash, size, table, bits) && Unique(table) && Dated(table, bits, epochs, history, born, lastAge)
    requires BlankFirst(hash, size, table, bits)
    ensures Homed(hash, size, table, bits[loc := false]) && BlankFirst(hash, size, table, bits[loc := false])
    ensures Dated(table, bits[loc := false], epochs[loc := true], history + [e], born[loc := |history|], lastAge)
  {
    hide Locs, BlankFirst, Homed;
    OnlyLive(hash, size, table, bits, loc);
    RefreshedBlank(hash, size, table, bits, loc);
  }

  lemma RefreshedBlank(hash: Hash, size: nat, table: seq<Element>, bits: seq<bool>, loc: nat)
    requires 0 < size == |table| <= |bits| && loc < size && loc in Locs(hash, size, table[loc])
    requires var locs := Locs(hash, size, table[loc]);
             forall k :: 0 <= k < IndexOf(locs, loc) ==> table[locs[k]] != table[loc]
    requires Homed(hash, size, table, bits) && BlankFirst(hash, size, table, bits)
    ensures Homed(hash, size, table, bits[loc := false]) && BlankFirst(hash, size, table, bits[loc := false])
  {
    hide Locs;
  }

  /** No element lives in two slots: not even one that looks like a blank slot. */
  lemma OnlyLive(hash: Hash, size: nat, table: seq<Element>, bits: seq<bool>, loc: nat)
    requires 0 < size == |table| <= |bits| && loc < size && loc in Locs(hash, size, table[loc])
    requires var locs := Locs(hash, size, table[loc]);
             forall k :: 0 <= k < IndexOf(locs, loc) ==> table[locs[k]] != table[loc]
    requires Homed(hash, size, table, bits) && Unique(table) && BlankFirst(hash, size, table, bits)
    ensures forall i :: 0 <= i < size && i != loc && table[i] == table[loc] ==> bits[i]
  {
    hide Locs, IndexOf, BlankFirst;
    forall i | 0 <= i < size && table[i] == table[loc] && !bits[i] ensures i == loc {
      if table[i] == BLANK {
        SamePlace(hash, size, table, bits, loc, i);
      }
    }
  }

  lemma SamePlace(hash: Hash, size: nat, table: seq<Element>, bits: seq<bool>, loc: nat, i: nat)
    requires 0 < size == |table| <= |bits| && BlankFirst(hash, size, table, bits)
    requires loc < size && loc in Locs(hash, size, BLANK) && table[loc] == BLANK
    requires i < size && i in Locs(hash, size, BLANK) && table[i] == BLANK && !bits[i]
    requires var locs := Locs(hash, size, BLANK); forall k :: 0 <= k < IndexOf(locs, loc) ==> table[locs[k]] != BLANK
    ensures i == loc
  {
    hide Locs, IndexOf;
    var locs := Locs(hash, size, BLANK);
    assert IndexOf(locs, i) == IndexOf(locs, loc);
  }

  /** Whoever is taken out of its slot lives nowhere else. */
  lemma TakenOut(hash: Hash, size: nat, table: seq<Element>, bits: seq<bool>, epochs: seq<bool>, history: seq<Element>,
                 born: seq<nat>, lastAge: nat, loc: nat, e: Element)
    requires 0 < size == |table| == |epochs| == |born| <= |bits| && loc < size && !bits[loc]
    requires NotLive(table, bits, e) && (e != BLANK ==> e !in table)
    requires Homed(hash, size, table, bits) && Unique(table) && Dated(table, bits, epochs, history, born, lastAge)
    requires BlankFirst(hash, size, table, bits)
    ensures loc in Locs(hash, size, table[loc]) && born[loc] < |history| && history[born[loc]] == table[loc]
    ensures !epochs[loc] ==> born[loc] < lastAge
    ensures Latest(history, born[loc]) && NotLive(table[loc := e], bits, table[loc])
    ensures table[loc] != BLANK ==> table[loc] !in table[loc := e]
  {
    hide Locs, Latest;
    if table[loc] == BLANK {
      OnlyLive(hash, size, table, bits, loc);
    }
  }

  /** An element that is at none of its locations lives nowhere. */
  lemma NowhereElse(hash: Hash, size: nat, table: seq<Element>, bits: seq<bool>, e: Element)
    requires 0 < size == |table| <= |bits| && Homed(hash, size, table, bits)
    requires forall k :: 0 <= k < HASHES ==> table[Locs(hash, size, e)[k]] != e
    ensures NotLive(table, bits, e) && (e != BLANK ==> e !in table) && !AtHome(hash, size, table, e)
  {}

  lemma IndexAtMost(locs: seq<nat>, k: nat)
    requires k < |locs|
    ensures IndexOf(locs, locs[k]) <= k
  {}

  lemma PreferredBy(hash: Hash, size: nat, bits: seq<bool>, e: Element, k: nat)
    requires 0 < size <= |bits| && k < HASHES
    requires forall j :: 0 <= j < k ==> !bits[Locs(hash, size, e)[j]]
    ensures Preferred(hash, size, bits, e, Locs(hash, size, e)[k])
  {
    hide Locs;
    IndexAtMost(Locs(hash, size, e), k);
  }

  lemma BlankFewer(hash: Hash, size: nat, table: seq<Element>, bits: seq<bool>, more: seq<bool>)
    requires 0 < size == |table| <= |bits| == |more| && BlankFirst(hash, size, table, bits)
    requires forall i :: 0 <= i < size && bits[i] ==> more[i]
    ensures BlankFirst(hash, size, table, more)
  {
    hide Locs;
  }

  /** The position of a location in the list, or the length of the list. */
  function IndexOf(locs: seq<nat>, loc: int): (k: nat)
    ensures k <= |locs| && (k < |locs| ==> locs[k] == loc) && (loc in locs <==> k < |locs|)
    ensures forall j :: 0 <= j < k ==> locs[j] != loc
  {
    if locs == [] then 0 else if locs[0] == loc then 0 else 1 + IndexOf(locs[1..], loc)
  }

  lemma Aged(hash: Hash, size: nat, table: seq<Element>, bits: seq<bool>, more: seq<bool>, epochs: seq<bool>,
             after: seq<bool>,
             history: seq<Element>, born: seq<nat>, lastAge: nat, epochSize: nat)
    requires 0 < size == |table| == |epochs| == |after| == |born| <= |bits| == |more|
             && |history| - lastAge >= epochSize
    requires Homed(hash, size, table, bits) && Dated(table, bits, epochs, history, born, lastAge)
    requires BlankFirst(hash, size, table, bits)
    requires forall i :: 0 <= i < size ==> !after[i] && more[i] == (bits[i] || !epochs[i])
    ensures Homed(hash, size, table, more) && Dated(table, more, after, history, born, |history| + 1)
    ensures BlankFirst(hash, size, table, more)
    ensures forall i :: 0 <= i < size && more[i] && !bits[i] ==> SincePut(history, table[i]) > epochSize
  {
    hide Locs, SincePut, BlankFirst;
    BlankFewer(hash, size, table, bits, more);
    forall i | 0 <= i < size && more[i] && !bits[i] ensures SincePut(history, table[i]) > epochSize {
      SincePutIs(history, born[i]);
    }
  }

  /** Every live element, and every element that was ever inserted, sits at one of its own
      locations. */
  ghost predicate Homed(hash: Hash, size: nat, table: seq<Element>, bits: seq<bool>)
    requires size > 0 && size <= |table| && size <= |bits|
  {
    forall i :: 0 <= i < size && (!bits[i] || table[i] != BLANK) ==> i in Locs(hash, size, table[i])
  }

  ghost predicate Unique(table: seq<Element>) {
    forall i, j :: 0 <= i < j < |table| && table[i] == table[j] ==> table[i] == BLANK
  }

  /** A live element that looks like a blank slot comes before every blank slot in the order of its
      locations. */
  ghost predicate BlankFirst(hash: Hash, size: nat, table: seq<Element>, bits: seq<bool>)
    requires size > 0 && size <= |table| && size <= |bits|
  {
    var locs := Locs(hash, size, BLANK);
    forall i, k :: 0 <= i < size && !bits[i] && table[i] == BLANK && 0 <= k < HASHES && k < IndexOf(locs, i) ==>
                     table[locs[k]] != BLANK
  }

  ghost predicate NotLive(table: seq<Element>, bits: seq<bool>, e: Element) {
    forall i :: 0 <= i < |table| && i < |bits| && table[i] == e ==> bits[i]
  }

  /** No location of `e` before `loc` is erasable. */
  ghost predicate Preferred(hash: Hash, size: nat, bits: seq<bool>, e: Element, loc: nat)
    requires 0 < size <= |bits|
  {
    var locs := Locs(hash, size, e);
    forall k :: 0 <= k < HASHES && k < IndexOf(locs, loc) ==> !bits[locs[k]]
  }

  /** An element inserted at `b` was not inserted again. */
  ghost predicate Latest(history: seq<Element>, b: nat)
    requires b < |history|
  {
    forall c :: b < c < |history| ==> history[c] != history[b]
  }

  /** How many insertions there were from the last one of `e` on. */
  ghost function SincePut(history: seq<Element>, e: Element): nat {
    if history == [] then 0
    else if history[|history| - 1] == e then 1
    else 1 + SincePut(history[..|history| - 1], e)
  }

  lemma {:induction false} SincePutIs(history: seq<Element>, b: nat)
    requires b < |history| && Latest(history, b)
    ensures SincePut(history, history[b]) == |history| - b
  {
    if b < |history| - 1 {
      SincePutIs(history[..|history| - 1], b);
    }
  }

  /** Every live element comes from the insertion its slot says, which is its last one; and if it
      is not of the current epoch, that was before the last ageing. */
  ghost predicate Dated(table: seq<Element>, bits: seq<bool>, epochs: seq<bool>, history: seq<Element>, born: seq<nat>,
                        lastAge: nat)
    requires |table| == |epochs| == |born| <= |bits|
  {
    forall i :: 0 <= i < |table| && !bits[i] ==>
                  && born[i] < |history| && history[born[i]] == table[i] && (!epochs[i] ==> born[i] < lastAge)
                  && Latest(history, born[i])
  }

  lemma DatedLonger(table: seq<Element>, bits: seq<bool>, epochs: seq<bool>, history: seq<Element>, born: seq<nat>,
                    lastAge: nat,
                    next: Element)
    requires |table| == |epochs| == |born| <= |bits| && Dated(table, bits, epochs, history, born, lastAge)
    requires NotLive(table, bits, next)
    ensures Dated(table, bits, epochs, history + [next], born, lastAge)
  {}

  /** How many live slots below `n` belong to the current epoch. */
  ghost function Current(epochs: seq<bool>, bits: seq<bool>, n: nat): nat
    requires n <= |epochs| && n <= |bits|
  {
    if n == 0 then 0 else Current(epochs, bits, n - 1) + if epochs[n - 1] && !bits[n - 1] then 1 else 0
  }

  lemma {:induction false} CurrentNone(epochs: seq<bool>, bits: seq<bool>, n: nat)
    requires n <= |epochs| && n <= |bits| && forall i :: 0 <= i < n ==> !epochs[i]
    ensures Current(epochs, bits, n) == 0
  {
    if n == 0 {
    } else {
      CurrentNone(epochs, bits, n - 1);
    }
  }

  /** A slot that becomes live belongs to the epoch given. */
  lemma {:induction false} CurrentPut(epochs: seq<bool>, bits: seq<bool>, n: nat, i: nat, epoch: bool)
    requires n <= |epochs| && n <= |bits| && i < |epochs| && i < |bits|
    ensures Current(epochs[i := epoch], bits[i := false], n) ==
            Current(epochs, bits, n) + if i >= n then 0
            else (if epoch then 1 else 0) - if epochs[i] && !bits[i] then 1 else 0
  {
    if n == 0 {
    } else {
      CurrentPut(epochs, bits, n - 1, i, epoch);
    }
  }

  lemma {:induction false} CurrentErase(epochs: seq<bool>, bits: seq<bool>, n: nat, i: nat)
    requires n <= |epochs| && n <= |bits| && i < |bits|
    ensures Current(epochs, bits[i := true], n) <= Current(epochs, bits, n)
  {
    if n == 0 {
    } else {
      CurrentErase(epochs, bits, n - 1, i);
    }
  }

  /** The old epoch becomes erasable, and the current one old. */
  ghost predicate AgedFlags(size: nat, bits: seq<bool>, epochs: seq<bool>, more: seq<bool>, after: seq<bool>)
    requires size <= |bits| && size <= |epochs| && size <= |more| && size <= |after|
  {
    forall i :: 0 <= i < size ==> !after[i] && more[i] == (bits[i] || !epochs[i])
  }

  /** The element is at one of its locations, erasable or not. */
  ghost predicate AtHome(hash: Hash, size: nat, table: seq<Element>, e: Element)
    requires 0 < size <= |table|
  {
    exists k :: 0 <= k < HASHES && table[Locs(hash, size, e)[k]] == e
  }

  /** No location of the element is erasable. */
  ghost predicate Stuck(hash: Hash, size: nat, bits: seq<bool>, e: Element)
    requires 0 < size <= |bits|
  {
    forall k :: 0 <= k < HASHES ==> !bits[Locs(hash, size, e)[k]]
  }

  /** The first location of an element that is erasable, if there is one. */
  ghost function FirstErasable(hash: Hash, size: nat, bits: seq<bool>, e: Element): (loc: nat)
    requires 0 < size <= |bits|
    ensures loc < size
  {
    Locs(hash, size, e)[FirstFrom(bits, Locs(hash, size, e), 0)]
  }

  ghost function FirstFrom(bits: seq<bool>, locs: seq<nat>, k: nat): (j: nat)
    requires k < |locs| && forall i :: 0 <= i < |locs| ==> locs[i] < |bits|
    ensures k <= j < |locs|
    decreases |locs| - k
  {
    if bits[locs[k]] || k == |locs| - 1 then k else FirstFrom(bits, locs, k + 1)
  }

  lemma {:induction false} FirstFromIs(bits: seq<bool>, locs: seq<nat>, k: nat, j: nat)
    requires k <= j < |locs| && forall i :: 0 <= i < |locs| ==> locs[i] < |bits|
    requires bits[locs[j]] && forall i :: k <= i < j ==> !bits[locs[i]]
    ensures FirstFrom(bits, locs, k) == j
    decreases j - k
  {
    if k == j {
    } else {
      FirstFromIs(bits, locs, k + 1, j);
    }
  }

  lemma NotStuck(hash: Hash, size: nat, bits: seq<bool>, e: Element, k: nat)
    requires 0 < size <= |bits| && k < HASHES && bits[Locs(hash, size, e)[k]]
    requires forall j :: 0 <= j < k ==> !bits[Locs(hash, size, e)[j]]
    ensures !Stuck(hash, size, bits, e) && FirstErasable(hash, size, bits, e) == Locs(hash, size, e)[k]
  {
    hide Locs;
    FirstFromIs(bits, Locs(hash, size, e), 0, k);
  }

  lemma IsStuck(hash: Hash, size: nat, bits: seq<bool>, e: Element)
    requires 0 < size <= |bits| && forall j :: 0 <= j < HASHES ==> !bits[Locs(hash, size, e)[j]]
    ensures Stuck(hash, size, bits, e)
  {
    hide Locs;
  }

  /** The table after the first d elements in hand were put where they changed places. */
  ghost function Exchanged(table: seq<Element>, hand: seq<Element>, at: seq<nat>, d: nat): (t: seq<Element>)
    requires d <= |at| && d <= |hand| && forall i :: 0 <= i < |at| ==> at[i] < |table|
    ensures |t| == |table|
  {
    if d == 0 then table else Exchanged(table, hand, at, d - 1)[at[d - 1] := hand[d - 1]]
  }

  /** A chain of displacements: whoever was stuck took the place of the next, at the location after the
      one it had been taken from itself, and the first at its second location. */
  ghost predicate Trail(hash: Hash, size: nat, table: seq<Element>, bits: seq<bool>, hand: seq<Element>, at: seq<nat>)
    requires 0 < size == |table| <= |bits|
  {
    && |hand| == |at| + 1
    && (forall d :: 0 <= d < |at| ==> at[d] < size)
    && (forall d :: 0 <= d < |at| ==> TrailAt(hash, size, table, bits, hand, at, d))
  }

  ghost predicate TrailAt(hash: Hash, size: nat, table: seq<Element>, bits: seq<bool>, hand: seq<Element>,
                          at: seq<nat>, d: nat)
    requires 0 < size == |table| <= |bits| && d < |at| && |hand| == |at| + 1
    requires forall i :: 0 <= i < |at| ==> at[i] < size
  {
    && Stuck(hash, size, bits, hand[d]) && hand[d + 1] == Exchanged(table, hand, at, d)[at[d]]
    && at[d] == NextLoc(hash, size, hand[d], if d == 0 then INVALID else at[d - 1])
  }

  /** The location after `loc` in the order of the element's locations, or the second. */
  function NextLoc(hash: Hash, size: nat, e: Element, loc: int): nat
    requires size > 0
  {
    Locs(hash, size, e)[(1 + IndexOf(Locs(hash, size, e), loc)) % 8]
  }

  lemma TrailStart(hash: Hash, size: nat, table: seq<Element>, bits: seq<bool>, e: Element)
    requires 0 < size == |table| <= |bits|
    ensures Trail(hash, size, table, bits, [e], []) && Exchanged(table, [e], [], 0) == table
  {}

  lemma {:induction false} ExchangedSame(table: seq<Element>, hand: seq<Element>, at: seq<nat>, e: Element, loc: nat,
                                         d: nat)
    requires d <= |at| && d <= |hand| && (forall i :: 0 <= i < |at| ==> at[i] < |table|) && loc < |table|
    ensures Exchanged(table, hand + [e], at + [loc], d) == Exchanged(table, hand, at, d)
  {
    if d == 0 {
    } else {
      ExchangedSame(table, hand, at, e, loc, d - 1);
    }
  }

  lemma TrailMore(hash: Hash, size: nat, table: seq<Element>, bits: seq<bool>, hand: seq<Element>, at: seq<nat>,
                  loc: nat, e: Element)
    requires 0 < size == |table| <= |bits| && Trail(hash, size, table, bits, hand, at) && loc < size
    requires var held := hand[|at|];
             && Stuck(hash, size, bits, held) && e == Exchanged(table, hand, at, |at|)[loc]
             && loc == NextLoc(hash, size, held, if at == [] then INVALID else at[|at| - 1])
    ensures Trail(hash, size, table, bits, hand + [e], at + [loc])
    ensures Exchanged(table, hand + [e], at + [loc], |at| + 1) == Exchanged(table, hand, at, |at|)[loc := hand[|at|]]
  {
    hide Stuck, NextLoc, Exchanged, TrailAt;
    var (hand', at') := (hand + [e], at + [loc]);
    forall d | 0 <= d < |at| ensures TrailAt(hash, size, table, bits, hand', at', d) {
      TrailAtSame(hash, size, table, bits, hand, at, loc, e, d);
    }
    TrailAtLast(hash, size, table, bits, hand, at, loc, e);
  }

  lemma TrailAtSame(hash: Hash, size: nat, table: seq<Element>, bits: seq<bool>, hand: seq<Element>, at: seq<nat>,
                    loc: nat, e: Element, d: nat)
    requires 0 < size == |table| <= |bits| && |hand| == |at| + 1 && (forall i :: 0 <= i < |at| ==> at[i] < size)
    requires loc < size && d < |at| && TrailAt(hash, size, table, bits, hand, at, d)
    ensures TrailAt(hash, size, table, bits, hand + [e], at + [loc], d)
  {
    hide Stuck, NextLoc, Exchanged;
    ExchangedSame(table, hand, at, e, loc, d);
  }

  lemma TrailAtLast(hash: Hash, size: nat, table: seq<Element>, bits: seq<bool>, hand: seq<Element>, at: seq<nat>,
                    loc: nat, e: Element)
    requires 0 < size == |table| <= |bits| && |hand| == |at| + 1 && (forall i :: 0 <= i < |at| ==> at[i] < size)
             && loc < size
    requires Stuck(hash, size, bits, hand[|at|]) && e == Exchanged(table, hand, at, |at|)[loc]
    requires loc == NextLoc(hash, size, hand[|at|], if at == [] then INVALID else at[|at| - 1])
    ensures TrailAt(hash, size, table, bits, hand + [e], at + [loc], |at|)
    ensures Exchanged(table, hand + [e], at + [loc], |at| + 1) == Exchanged(table, hand, at, |at|)[loc := hand[|at|]]
  {
    hide Stuck, NextLoc;
    ExchangedSame(table, hand, at, e, loc, |at|);
  }

  lemma TrailStuck(hash: Hash, size: nat, table: seq<Element>, bits: seq<bool>, hand: seq<Element>, at: seq<nat>)
    requires 0 < size == |table| <= |bits| && Trail(hash, size, table, bits, hand, at)
    ensures |hand| == |at| + 1 && forall d :: 0 <= d < |at| ==> Stuck(hash, size, bits, hand[d])
  {
    hide Stuck, NextLoc, Exchanged;
    forall d | 0 <= d < |at| ensures Stuck(hash, size, bits, hand[d]) {
      assert TrailAt(hash, size, table, bits, hand, at, d);
    }
  }

  lemma {:induction false} LiveNone(table: seq<Element>, bits: seq<bool>, n: nat)
    requires n <= |table| && n <= |bits| && forall i :: 0 <= i < n ==> bits[i]
    ensures Live(table, bits, n) == multiset{}
  {
    if n == 0 {
    } else {
      LiveNone(table, bits, n - 1);
    }
  }

  function Max(a: nat, b: int): nat { if a < b then b else a }
}
