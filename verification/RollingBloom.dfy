/** The rolling Bloom filter: every position stores, in two bits, the generation in which it was
    last set; when a generation is full the oldest of three is wiped and its number reused.

    The hash function, the number of hashes and the size of the table are parameters. */
module RollingBloom {

  const TWO32: nat := 0x1_0000_0000

  // ---------------------------------------------------------------------------------
  // Bits
  // ---------------------------------------------------------------------------------

  predicate BitOf(w: bv64, b: bv64)
    requires b < 64
  {
    (w >> b) & 1 == 1
  }

  function And(x: bv64, y: bv64): bv64 { x & y }
  function Or(x: bv64, y: bv64): bv64 { x | y }
  function Xor(x: bv64, y: bv64): bv64 { x ^ y }
  function Not(x: bv64): bv64 { !x }

  function OneBit(b: bv64, v: bool): bv64
    requires b < 64
  {
    (if v then 1 else 0) << b
  }

  function AllBits(v: bool): bv64 { if v then 0xFFFF_FFFF_FFFF_FFFF else 0 }

  /** The word with bit `b` replaced. */
  function WriteBit(w: bv64, b: bv64, v: bool): bv64
    requires b < 64
  {
    Or(And(w, Not(OneBit(b, true))), OneBit(b, v))
  }

  lemma RawAnd(x: bv64, y: bv64, c: bv64)
    requires c < 64
    ensures BitOf(x & y, c) <==> BitOf(x, c) && BitOf(y, c)
  {}

  lemma BitOfAnd(x: bv64, y: bv64, c: bv64)
    requires c < 64
    ensures BitOf(And(x, y), c) <==> BitOf(x, c) && BitOf(y, c)
  {
    hide BitOf;
    RawAnd(x, y, c);
  }

  lemma RawOr(x: bv64, y: bv64, c: bv64)
    requires c < 64
    ensures BitOf(x | y, c) <==> BitOf(x, c) || BitOf(y, c)
  {}

  lemma BitOfOr(x: bv64, y: bv64, c: bv64)
    requires c < 64
    ensures BitOf(Or(x, y), c) <==> BitOf(x, c) || BitOf(y, c)
  {
    hide BitOf;
    RawOr(x, y, c);
  }

  lemma BitOfXor(x: bv64, v: bool, c: bv64)
    requires c < 64
    ensures BitOf(Xor(x, AllBits(v)), c) <==> BitOf(x, c) != v
  {}

  lemma BitOfNot(x: bv64, c: bv64)
    requires c < 64
    ensures BitOf(Not(x), c) <==> !BitOf(x, c)
  {}

  lemma BitOfOneBit(b: bv64, v: bool, c: bv64)
    requires b < 64 && c < 64
    ensures BitOf(OneBit(b, v), c) <==> v && b == c
  {}

  lemma WriteBitIs(w: bv64, b: bv64, v: bool, c: bv64)
    requires b < 64 && c < 64
    ensures BitOf(WriteBit(w, b, v), c) == if c == b then v else BitOf(w, c)
  {
    hide BitOf, And, Or, Not, OneBit;
    BitOfOneBit(b, true, c);
    BitOfOneBit(b, v, c);
    BitOfNot(OneBit(b, true), c);
    BitOfAnd(w, Not(OneBit(b, true)), c);
    BitOfOr(And(w, Not(OneBit(b, true))), OneBit(b, v), c);
  }

  lemma NoBits(c: bv64)
    requires c < 64
    ensures !BitOf(0, c)
  {}

  // ---------------------------------------------------------------------------------
  // Generations
  // ---------------------------------------------------------------------------------

  /** A position: a pair of words and a bit in it. */
  datatype Pos = Pos(pair: nat, bit: bv64)

  /** The generation number stored at a position, 0 if none: its low bit is in the first word of
      the pair, its high bit in the second. */
  function Stamp(p1: bv64, p2: bv64, b: bv64): nat
    requires b < 64
  {
    (if BitOf(p1, b) then 1 else 0) + (if BitOf(p2, b) then 2 else 0)
  }

  /** The number of the generation that came after `g` others. */
  function Number(g: nat): (n: nat)
    ensures 1 <= n <= 3
  {
    g % 3 + 1
  }

  predicate Low(n: nat) { n % 2 == 1 }

  predicate High(n: nat) { n / 2 == 1 }

  /** The pair of words without the positions of generation `n`. */
  function Wiped(p1: bv64, p2: bv64, n: nat): (bv64, bv64) {
    var mask := Or(Xor(p1, AllBits(Low(n))), Xor(p2, AllBits(High(n))));
    (And(p1, mask), And(p2, mask))
  }

  lemma WipedIs(p1: bv64, p2: bv64, n: nat, b: bv64)
    requires 1 <= n <= 3 && b < 64
    ensures Stamp(Wiped(p1, p2, n).0, Wiped(p1, p2, n).1, b) == if Stamp(p1, p2, b) == n then 0 else Stamp(p1, p2, b)
  {
    hide BitOf, AllBits, And, Or, Xor;
    var (m1, m2) := (Xor(p1, AllBits(Low(n))), Xor(p2, AllBits(High(n))));
    BitOfXor(p1, Low(n), b);
    BitOfXor(p2, High(n), b);
    BitOfOr(m1, m2, b);
    BitOfAnd(p1, Or(m1, m2), b);
    BitOfAnd(p2, Or(m1, m2), b);
  }

  lemma StampedIs(p1: bv64, p2: bv64, b: bv64, n: nat, c: bv64)
    requires 1 <= n <= 3 && b < 64 && c < 64
    ensures Stamp(WriteBit(p1, b, Low(n)), WriteBit(p2, b, High(n)), c) == if c == b then n else Stamp(p1, p2, c)
  {
    hide BitOf, WriteBit;
    WriteBitIs(p1, b, Low(n), c);
    WriteBitIs(p2, b, High(n), c);
  }

  /** What a position should store in generation `now`: the number of the generation it was last
      written in, if that is one of the last three. */
  ghost function Expected(written: map<Pos, nat>, now: nat, p: Pos): nat {
    if p in written && written[p] + 2 >= now then Number(written[p]) else 0
  }

  ghost predicate StoresAt(data: seq<bv64>, written: map<Pos, nat>, now: nat, p: Pos) {
    2 * p.pair + 1 < |data| && p.bit < 64 ==>
      Stamp(data[2 * p.pair], data[2 * p.pair + 1], p.bit) == Expected(written, now, p)
  }

  ghost predicate Stores(data: seq<bv64>, written: map<Pos, nat>, now: nat) {
    (forall p :: p in written ==> written[p] <= now) && (forall p :: StoresAt(data, written, now, p))
  }

  lemma NothingStored(data: seq<bv64>)
    requires forall i :: 0 <= i < |data| ==> data[i] == 0
    ensures Stores(data, map[], 0)
  {
    hide BitOf;
    forall p: Pos | 2 * p.pair + 1 < |data| && p.bit < 64
      ensures Stamp(data[2 * p.pair], data[2 * p.pair + 1], p.bit) == 0 {
      NoBits(p.bit);
    }
  }

  /** A position is set in either word. */
  predicate IsSet(data: seq<bv64>, p: Pos)
    requires 2 * p.pair + 1 < |data| && p.bit < 64
  {
    BitOf(Or(data[2 * p.pair], data[2 * p.pair + 1]), p.bit)
  }

  lemma SetIffRecent(data: seq<bv64>, written: map<Pos, nat>, now: nat, p: Pos)
    requires Stores(data, written, now) && 2 * p.pair + 1 < |data| && p.bit < 64
    ensures IsSet(data, p) <==> p in written && written[p] + 2 >= now
  {
    hide BitOf, Or;
    assert StoresAt(data, written, now, p);
    BitOfOr(data[2 * p.pair], data[2 * p.pair + 1], p.bit);
  }

  /** Starting a generation: its number was that of the generation three before. */
  lemma NextGeneration(written: map<Pos, nat>, now: nat, p: Pos)
    requires p in written ==> written[p] <= now
    ensures Expected(written, now + 1, p) == if Expected(written, now, p) == Number(now + 1) then 0
            else Expected(written, now, p)
  {}

  // ---------------------------------------------------------------------------------
  // The filter
  // ---------------------------------------------------------------------------------

  type Key = seq<nat>
  type Hash = (nat, nat, Key) -> bv32

  /** Maps a 32-bit number to [0, n) by a multiplication and a shift. */
  function FastMod(x: bv32, n: nat): (r: nat)
    requires n > 0
    ensures r < n
  {
    FastModBound(x as nat, n);
    x as nat * n / TWO32
  }

  lemma FastModBound(x: nat, n: nat)
    requires x < TWO32 && n > 0
    ensures 0 <= x * n / TWO32 < n
  {
    var q := x * n / TWO32;
    assert x * n < TWO32 * n;
    assert TWO32 * q <= x * n;
  }

  function BitIndex(h: bv32): (b: bv64)
    ensures b < 64
  {
    (h & 0x3F) as bv64
  }

  /** The position of the n-th hash of a key; the lowest bit of the word index is ignored. */
  function PosOf(hash: Hash, tweak: nat, words: nat, key: Key, n: nat): (p: Pos)
    requires words > 0 && words % 2 == 0
    ensures 2 * p.pair + 1 < words && p.bit < 64
  {
    var h := hash(n, tweak, key);
    Pos(FastMod(h, words) / 2, BitIndex(h))
  }

  /** Every key is stored in its generation or later. */
  ghost predicate Remembers(hash: Hash, tweak: nat, words: nat, hashes: nat, written: map<Pos, nat>, keys: seq<Key>,
                            gen: seq<nat>)
    requires words > 0 && words % 2 == 0 && |gen| == |keys|
  {
    forall i, n :: 0 <= i < |keys| && 0 <= n < hashes ==>
                     PosOf(hash, tweak, words, keys[i], n) in written
                     && written[PosOf(hash, tweak, words, keys[i], n)] >= gen[i]
  }

  /** A position comes from a hash of a key of generation `g`. */
  ghost predicate Stems(hash: Hash, tweak: nat, words: nat, hashes: nat, keys: seq<Key>, gen: seq<nat>, p: Pos, g: nat)
    requires words > 0 && words % 2 == 0 && |gen| == |keys|
  {
    exists i, n :: 0 <= i < |keys| && 0 <= n < hashes && gen[i] == g && PosOf(hash, tweak, words, keys[i], n) == p
  }

  /** Every position stored was last written for a key of that generation. */
  ghost predicate NothingElse(hash: Hash, tweak: nat, words: nat, hashes: nat, written: map<Pos, nat>, keys: seq<Key>,
                              gen: seq<nat>)
    requires words > 0 && words % 2 == 0 && |gen| == |keys|
  {
    forall p :: p in written ==> Stems(hash, tweak, words, hashes, keys, gen, p, written[p])
  }

  /** The keys of the last generations are exactly the last keys. */
  ghost predicate Recent(gen: seq<nat>, now: nat, perGeneration: nat, thisGeneration: nat) {
    forall i :: 0 <= i < |gen| ==>
                  && gen[i] <= now
                  && (i >= |gen| - thisGeneration <==> gen[i] == now)
                  && (i >= |gen| - thisGeneration - perGeneration <==> gen[i] + 1 >= now)
                  && (i >= |gen| - thisGeneration - 2 * perGeneration <==> gen[i] + 2 >= now)
  }

  /** A position of one of the last keys. */
  ghost predicate OfLast(hash: Hash, tweak: nat, words: nat, hashes: nat, keys: seq<Key>, last: nat, p: Pos)
    requires words > 0 && words % 2 == 0
  {
    exists i, n :: 0 <= i < |keys| <= i + last && 0 <= n < hashes && PosOf(hash, tweak, words, keys[i], n) == p
  }

  class RollingBloomFilter {
    const hash: Hash
    const nHashFuncs: nat
    const nEntriesPerGeneration: nat
    const data: array<bv64>
    var nEntriesThisGeneration: nat
    var nGeneration: nat
    var nTweak: nat

    // The keys since the last reset, the generation of each, how many generations there were,
    // and in which each position was last written.
    ghost var keys: seq<Key>
    ghost var gen: seq<nat>
    ghost var now: nat
    ghost var written: map<Pos, nat>

    ghost predicate Valid()
      reads this, data
    {
      && data.Length > 0 && data.Length % 2 == 0 && nGeneration == Number(now) && |gen| == |keys|
      && Stores(data[..], written, now)
      && Remembers(hash, nTweak, data.Length, nHashFuncs, written, keys, gen)
      && NothingElse(hash, nTweak, data.Length, nHashFuncs, written, keys, gen)
      && Recent(gen, now, nEntriesPerGeneration, nEntriesThisGeneration)
    }

    /** `pairs` is how many pairs of words the bits take. */
    constructor (hash: Hash, nElements: nat, nHashFuncs: nat, pairs: nat, tweak: nat)
      requires pairs > 0 && 1 <= nHashFuncs <= 50
      ensures Valid() && fresh(data) && keys == [] && nEntriesPerGeneration == (nElements + 1) / 2
      ensures this.hash == hash && this.nHashFuncs == nHashFuncs && nTweak == tweak && data.Length == 2 * pairs
      ensures nEntriesThisGeneration == 0
    {
      this.hash, this.nHashFuncs, nEntriesPerGeneration := hash, nHashFuncs, (nElements + 1) / 2;
      data := new bv64[2 * pairs](_ => 0);
      nEntriesThisGeneration, nGeneration, nTweak := 0, 1, tweak;
      keys, gen, now, written := [], [], 0, map[];
      new;
      NothingStored(data[..]);
    }

    method Reset(tweak: nat)
      requires Valid()
      modifies this, data
      ensures Valid() && keys == [] && nTweak == tweak && nEntriesThisGeneration == 0
    {
      hide Stamp;
      nTweak, nEntriesThisGeneration, nGeneration := tweak, 0, 1;
      for i := 0 to data.Length
        invariant forall j :: 0 <= j < i ==> data[j] == 0
        modifies data
      {
        data[i] := 0;
      }
      keys, gen, now, written := [], [], 0, map[];
      NothingStored(data[..]);
    }

    /** The filter finds a key exactly if each of its positions is one of a key of this generation or of
        the two before; so it finds, among others, each of these keys. */
    method Contains(key: Key) returns (found: bool)
      requires Valid()
      ensures found <==> forall n :: 0 <= n < nHashFuncs ==> IsSet(data[..], PosOf(hash, nTweak, data.Length, key, n))
      ensures var last := 2 * nEntriesPerGeneration + nEntriesThisGeneration;
              && (found <==> forall n :: 0 <= n < nHashFuncs ==>
                               OfLast(hash, nTweak, data.Length, nHashFuncs, keys, last,
                                 PosOf(hash, nTweak, data.Length, key, n)))
              && (forall i :: 0 <= i < |keys| <= i + last && keys[i] == key ==> found)
    {
      hide Stores, BitOf, Or, PosOf, OfLast, Remembers, NothingElse, Recent;
      ghost var last := 2 * nEntriesPerGeneration + nEntriesThisGeneration;
      forall n | 0 <= n < nHashFuncs
        ensures var p := PosOf(hash, nTweak, data.Length, key, n);
                IsSet(data[..], p) <==> OfLast(hash, nTweak, data.Length, nHashFuncs, keys, last, p)
        ensures forall i :: 0 <= i < |keys| <= i + last && keys[i] == key ==>
                  OfLast(hash, nTweak, data.Length, nHashFuncs, keys, last, PosOf(hash, nTweak, data.Length, key, n))
      {
        var p := PosOf(hash, nTweak, data.Length, key, n);
        SetIffRecent(data[..], written, now, p);
        LastIffRecent(hash, nTweak, data.Length, nHashFuncs, written, keys, gen, now, nEntriesPerGeneration,
                      nEntriesThisGeneration, p);
        OwnPosition(hash, nTweak, data.Length, nHashFuncs, keys, last, key, n);
      }
      var n := 0;
      while n < nHashFuncs
        invariant n <= nHashFuncs
        invariant forall m :: 0 <= m < n ==> IsSet(data[..], PosOf(hash, nTweak, data.Length, key, m))
      {
        var p := PosOf(hash, nTweak, data.Length, key, n);
        if !BitOf(Or(data[2 * p.pair], data[2 * p.pair + 1]), p.bit) {
          return false;
        }
        n := n + 1;
      }
      found := true;
    }

    method Insert(key: Key)
      requires Valid()
      modifies this, data
      ensures Valid() && keys == old(keys) + [key] && nTweak == old(nTweak)
      ensures nEntriesThisGeneration == (if old(nEntriesThisGeneration) == nEntriesPerGeneration then 0
              else old(nEntriesThisGeneration)) + 1
    {
      hide Stores, Remembers, NothingElse, PosOf;
      if nEntriesThisGeneration == nEntriesPerGeneration {
        Rotate();
      }
      nEntriesThisGeneration := nEntriesThisGeneration + 1;
      ghost var before := written;
      StoresBound(data[..], written, now);
      for n := 0 to nHashFuncs
        invariant Stores(data[..], written, now) && Grown(before, written, now)
        invariant forall p :: p in written ==>
                    || (p in before && written[p] == before[p])
                    || (written[p] == now && OfKey(hash, nTweak, data.Length, nHashFuncs, key, p))
        invariant forall m :: 0 <= m < n ==>
                    var p := PosOf(hash, nTweak, data.Length, key, m); p in written && written[p] == now
        modifies data, this`written
      {
        IsOfKey(hash, nTweak, data.Length, nHashFuncs, key, n);
        Mark(PosOf(hash, nTweak, data.Length, key, n));
      }
      RemembersMore(hash, nTweak, data.Length, nHashFuncs, before, written, keys, gen, key, now);
      NothingElseMore(hash, nTweak, data.Length, nHashFuncs, before, written, keys, gen, key, now);
      keys, gen := keys + [key], gen + [now];
    }

    /** Sets a position in the current generation. */
    method Mark(p: Pos)
      requires data.Length % 2 == 0 && nGeneration == Number(now) && Stores(data[..], written, now)
      requires 2 * p.pair + 1 < data.Length && p.bit < 64
      modifies data, this`written
      ensures Stores(data[..], written, now) && written == old(written)[p := now]
    {
      hide BitOf, WriteBit;
      ghost var was := data[..];
      var i := 2 * p.pair;
      data[i] := WriteBit(data[i], p.bit, Low(nGeneration));
      data[i + 1] := WriteBit(data[i + 1], p.bit, High(nGeneration));
      written := written[p := now];
      Marked(was, data[..], old(written), now, p);
    }

    /** A full generation: the oldest one makes way. */
    method Rotate()
      requires Valid() && nEntriesThisGeneration == nEntriesPerGeneration
      modifies this, data
      ensures Valid() && nEntriesThisGeneration == 0 && keys == old(keys) && nTweak == old(nTweak)
    {
      hide Stores, Remembers, NothingElse, Wiped;
      nEntriesThisGeneration := 0;
      nGeneration := nGeneration + 1;
      if nGeneration == 4 {
        nGeneration := 1;
      }
      WipeAll();
      WipedAll(old(data[..]), data[..], written, now);
      now := now + 1;
    }

    /** Wipes the positions that carry the number of the current generation. */
    method WipeAll()
      requires data.Length % 2 == 0
      modifies data
      ensures forall j :: 0 <= j < data.Length && j % 2 == 0 ==>
                            (data[j], data[j + 1]) == Wiped(old(data[j]), old(data[j + 1]), nGeneration)
    {
      hide Wiped;
      var p := 0;
      while p < data.Length
        invariant 0 <= p <= data.Length && p % 2 == 0
        invariant forall j :: p <= j < data.Length ==> data[j] == old(data[j])
        invariant forall j :: 0 <= j < p && j % 2 == 0 ==>
                  (data[j], data[j + 1]) == Wiped(old(data[j]), old(data[j + 1]), nGeneration)
      {
        var (a, b) := Wiped(data[p], data[p + 1], nGeneration);
        data[p] := a;
        data[p + 1] := b;
        p := p + 2;
      }
    }
  }

  ghost predicate OfKey(hash: Hash, tweak: nat, words: nat, hashes: nat, key: Key, p: Pos)
    requires words > 0 && words % 2 == 0
  {
    exists n :: 0 <= n < hashes && PosOf(hash, tweak, words, key, n) == p
  }

  lemma IsOfKey(hash: Hash, tweak: nat, words: nat, hashes: nat, key: Key, n: nat)
    requires words > 0 && words % 2 == 0 && n < hashes
    ensures OfKey(hash, tweak, words, hashes, key, PosOf(hash, tweak, words, key, n))
  {}

  lemma OwnPosition(hash: Hash, tweak: nat, words: nat, hashes: nat, keys: seq<Key>, last: nat, key: Key, n: nat)
    requires words > 0 && words % 2 == 0 && n < hashes
    ensures forall i :: 0 <= i < |keys| <= i + last && keys[i] == key ==>
              OfLast(hash, tweak, words, hashes, keys, last, PosOf(hash, tweak, words, key, n))
  {
    hide PosOf;
  }

  lemma NothingElseMore(hash: Hash, tweak: nat, words: nat, hashes: nat, before: map<Pos, nat>, after: map<Pos, nat>,
                        keys: seq<Key>, gen: seq<nat>, key: Key, now: nat)
    requires words > 0 && words % 2 == 0 && |gen| == |keys|
             && NothingElse(hash, tweak, words, hashes, before, keys, gen)
    requires forall p :: p in after ==>
               || (p in before && after[p] == before[p])
               || (after[p] == now && OfKey(hash, tweak, words, hashes, key, p))
    ensures NothingElse(hash, tweak, words, hashes, after, keys + [key], gen + [now])
  {
    hide PosOf;
    var (keys', gen') := (keys + [key], gen + [now]);
    forall p | p in after ensures Stems(hash, tweak, words, hashes, keys', gen', p, after[p]) {
      if p in before && after[p] == before[p] {
        var i, n :| 0 <= i < |keys| && 0 <= n < hashes && gen[i] == after[p]
            && PosOf(hash, tweak, words, keys[i], n) == p;
        assert keys'[i] == keys[i] && gen'[i] == gen[i];
      } else {
        var n :| 0 <= n < hashes && PosOf(hash, tweak, words, key, n) == p;
        assert keys'[|keys|] == key && gen'[|keys|] == now;
      }
    }
  }

  /** What is stored of the last three generations are the positions of the last keys. */
  lemma LastIffRecent(hash: Hash, tweak: nat, words: nat, hashes: nat, written: map<Pos, nat>, keys: seq<Key>,
                      gen: seq<nat>, now: nat, perGeneration: nat, thisGeneration: nat, p: Pos)
    requires words > 0 && words % 2 == 0 && |gen| == |keys| && Recent(gen, now, perGeneration, thisGeneration)
    requires Remembers(hash, tweak, words, hashes, written, keys, gen)
    requires NothingElse(hash, tweak, words, hashes, written, keys, gen)
    ensures OfLast(hash, tweak, words, hashes, keys, 2 * perGeneration + thisGeneration, p) <==>
            p in written && written[p] + 2 >= now
  {
    hide PosOf;
    var last := 2 * perGeneration + thisGeneration;
    if OfLast(hash, tweak, words, hashes, keys, last, p) {
      var i, n :| 0 <= i < |keys| <= i + last && 0 <= n < hashes && PosOf(hash, tweak, words, keys[i], n) == p;
      assert gen[i] + 2 >= now;
    }
    if p in written && written[p] + 2 >= now {
      assert Stems(hash, tweak, words, hashes, keys, gen, p, written[p]);
      var i, n :| 0 <= i < |keys| && 0 <= n < hashes && gen[i] == written[p]
          && PosOf(hash, tweak, words, keys[i], n) == p;
      assert |keys| <= i + last;
    }
  }

  /** Positions are only written, and only in the current generation. */
  ghost predicate Grown(before: map<Pos, nat>, after: map<Pos, nat>, now: nat) {
    forall p :: p in before ==> p in after && (after[p] == before[p] || after[p] == now)
  }

  lemma StoresBound(data: seq<bv64>, written: map<Pos, nat>, now: nat)
    requires Stores(data, written, now)
    ensures forall p :: p in written ==> written[p] <= now
  {}

  lemma RemembersMore(hash: Hash, tweak: nat, words: nat, hashes: nat, before: map<Pos, nat>, after: map<Pos, nat>,
                      keys: seq<Key>, gen: seq<nat>, key: Key, now: nat)
    requires words > 0 && words % 2 == 0 && |gen| == |keys| && Remembers(hash, tweak, words, hashes, before, keys, gen)
    requires Grown(before, after, now) && forall p :: p in before ==> before[p] <= now
    requires forall n :: 0 <= n < hashes ==> var p := PosOf(hash, tweak, words, key, n); p in after && after[p] == now
    ensures Remembers(hash, tweak, words, hashes, after, keys + [key], gen + [now])
  {
    hide PosOf;
  }

  lemma Marked(was: seq<bv64>, data: seq<bv64>, written: map<Pos, nat>, now: nat, p: Pos)
    requires Stores(was, written, now) && 2 * p.pair + 1 < |was| == |data| && p.bit < 64
    requires forall j :: 0 <= j < |was| && j != 2 * p.pair && j != 2 * p.pair + 1 ==> data[j] == was[j]
    requires data[2 * p.pair] == WriteBit(was[2 * p.pair], p.bit, Low(Number(now)))
    requires data[2 * p.pair + 1] == WriteBit(was[2 * p.pair + 1], p.bit, High(Number(now)))
    ensures Stores(data, written[p := now], now)
  {
    hide BitOf, WriteBit, Stamp, Low, High;
    forall o: Pos | 2 * o.pair + 1 < |data| && o.bit < 64 ensures StoresAt(data, written[p := now], now, o) {
      assert StoresAt(was, written, now, o);
      if o.pair == p.pair {
        StampedIs(was[2 * o.pair], was[2 * o.pair + 1], p.bit, Number(now), o.bit);
      }
    }
  }

  lemma WipedAll(was: seq<bv64>, data: seq<bv64>, written: map<Pos, nat>, now: nat)
    requires Stores(was, written, now) && |was| == |data| && |was| % 2 == 0
    requires forall j :: 0 <= j < |was| && j % 2 == 0 ==>
             (data[j], data[j + 1]) == Wiped(was[j], was[j + 1], Number(now + 1))
    ensures Stores(data, written, now + 1)
  {
    hide Wiped, Stamp;
    forall p: Pos | 2 * p.pair + 1 < |data| && p.bit < 64 ensures StoresAt(data, written, now + 1, p) {
      assert StoresAt(was, written, now, p);
      WipedIs(was[2 * p.pair], was[2 * p.pair + 1], Number(now + 1), p.bit);
      NextGeneration(written, now, p);
    }
  }
}
