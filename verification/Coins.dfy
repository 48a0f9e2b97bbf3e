/** The UTXO cache stack: a write-back cache with DIRTY and FRESH flags over another
    cache or over the coin database.  Each layer is an object that points at the view
    below it; a stack may have any depth. */
module Coins {

  datatype TxOut = TxOut(value: int, script: seq<int>)

  const OP_RETURN := 0x6a
  const MAX_SCRIPT_SIZE := 129000

  datatype Coin = Coin(out: TxOut, coinBase: bool, coinStake: bool, height: nat) {
    predicate IsSpent() { out.value == -1 }

    predicate IsUnspendable() {
      (|out.script| > 0 && out.script[0] == OP_RETURN) || |out.script| > MAX_SCRIPT_SIZE
    }
  }

  /** What Coin::Clear leaves behind. */
  const CLEARED := Coin(TxOut(-1, []), false, false, 0)

  datatype Outpoint = Outpoint(txid: int, n: nat)

  datatype Entry = Entry(coin: Coin, isDirty: bool, isFresh: bool)

  type CoinsMap = map<Outpoint, Entry>

  /** The plain set of unspent coins a stack of caches stands for. */
  type Utxo = map<Outpoint, Coin>

  datatype Option<+T> = None | Some(value: T)

  // ---------------------------------------------------------------------------------
  // One layer over the view below it
  // ---------------------------------------------------------------------------------

  /** What a cache answers when `below` is what its base answers. */
  function Overlay(cache: CoinsMap, below: Utxo): (view: Utxo)
    ensures forall o :: o in view <==>
                        if o in cache then !cache[o].coin.IsSpent() else o in below
    ensures forall o :: o in view ==> view[o] == if o in cache then cache[o].coin else below[o]
  {
    map o | o in cache.Keys + below.Keys && (o in cache ==> !cache[o].coin.IsSpent())
      :: if o in cache then cache[o].coin else below[o]
  }

  /** The meaning of the flags: FRESH says the base has no such coin, and an entry that
      is not DIRTY says what the base says. */
  ghost predicate LayerInv(cache: CoinsMap, below: Utxo) {
    forall o :: o in cache ==> EntryInv(cache[o], o, below)
  }

  ghost predicate EntryInv(e: Entry, o: Outpoint, below: Utxo) {
    && (e.isFresh ==> o !in below)
    && (!e.isDirty ==> if e.coin.IsSpent() then o !in below else o in below && below[o] == e.coin)
  }

  /** No coin of a view is spent: the promise of CCoinsView::GetCoin. */
  ghost predicate AllUnspent(view: Utxo) {
    forall o :: o in view ==> !view[o].IsSpent()
  }

  /** The cache after AddCoin, when it does not throw. */
  function Added(cache: CoinsMap, o: Outpoint, coin: Coin, overwrite: bool): CoinsMap {
    var was := if o in cache then cache[o] else Entry(CLEARED, false, false);
    cache[o := Entry(coin, true, was.isFresh || (!overwrite && !was.isDirty))]
  }

  /** AddCoin throws exactly when it was told there is nothing to overwrite and the cache
      itself holds an unspent coin. */
  predicate AddThrows(cache: CoinsMap, o: Outpoint, overwrite: bool) {
    !overwrite && o in cache && !cache[o].coin.IsSpent()
  }

  /** The flags keep their meaning through AddCoin if and only if the caller was honest:
      it allowed an overwrite, or the coin was not there to begin with.  A dishonest call
      that is not caught by the throw plants a FRESH flag over an existing coin. */
  lemma AddKeepsLayerIffHonest(cache: CoinsMap, below: Utxo, o: Outpoint, coin: Coin, overwrite: bool)
    requires LayerInv(cache, below) && !coin.IsSpent()
    ensures Overlay(Added(cache, o, coin, overwrite), below) == Overlay(cache, below)[o := coin]
    ensures (!AddThrows(cache, o, overwrite) && LayerInv(Added(cache, o, coin, overwrite), below))
            <==> overwrite || o !in Overlay(cache, below)
  {
    var after := Added(cache, o, coin, overwrite);
    forall p | p in cache && p != o ensures EntryInv(after[p], p, below) {
      assert EntryInv(cache[p], p, below);
    }
    if o in cache {
      assert EntryInv(cache[o], o, below);
    }
    assert LayerInv(after, below) <==> EntryInv(after[o], o, below);
  }

  /** A dishonest AddCoin followed by SpendCoin brings the old coin back from below. */
  lemma DishonestAddResurrects(o: Outpoint, buried: Coin, coin: Coin)
    requires !buried.IsSpent() && !coin.IsSpent()
    ensures var below := map[o := buried];
            var cache := Added(map[], o, coin, false);
            && LayerInv(map[], below)
            && !LayerInv(cache, below)
            && o in Overlay(SpentIn(cache, o), below)
  {
    var cache := Added(map[], o, coin, false);
    assert !EntryInv(cache[o], o, map[o := buried]);
  }

  /** The cache after SpendCoin of a cached entry. */
  function SpentIn(cache: CoinsMap, o: Outpoint): CoinsMap {
    if o !in cache then cache
    else if cache[o].isFresh then cache - {o}
    else cache[o := Entry(CLEARED, true, false)]
  }

  lemma SpendKeepsLayer(cache: CoinsMap, below: Utxo, o: Outpoint)
    requires LayerInv(cache, below) && (o !in cache ==> o !in below)
    ensures LayerInv(SpentIn(cache, o), below)
    ensures Overlay(SpentIn(cache, o), below) == Overlay(cache, below) - {o}
  {
    var after := SpentIn(cache, o);
    forall p | p in after ensures EntryInv(after[p], p, below) {
      assert p in cache && EntryInv(cache[p], p, below);
    }
    assert Overlay(after, below) == Overlay(cache, below) - {o} by {
      if o in cache { assert EntryInv(cache[o], o, below); }
    }
  }

  /** Loading an entry from below, or dropping one that carries no flag, is invisible. */
  lemma LoadKeepsLayer(cache: CoinsMap, below: Utxo, o: Outpoint)
    requires LayerInv(cache, below) && AllUnspent(below) && o in below && o !in cache
    ensures LayerInv(cache[o := Entry(below[o], false, false)], below)
    ensures Overlay(cache[o := Entry(below[o], false, false)], below) == Overlay(cache, below)
  {
    var after := cache[o := Entry(below[o], false, false)];
    forall p | p in after ensures EntryInv(after[p], p, below) {
      if p != o { assert EntryInv(cache[p], p, below); }
    }
  }

  lemma UncacheKeepsLayer(cache: CoinsMap, below: Utxo, o: Outpoint)
    requires LayerInv(cache, below) && o in cache && !cache[o].isDirty && !cache[o].isFresh
    ensures LayerInv(cache - {o}, below)
    ensures Overlay(cache - {o}, below) == Overlay(cache, below)
  {
    forall p | p in cache - {o} ensures EntryInv((cache - {o})[p], p, below) {
      assert EntryInv(cache[p], p, below);
    }
    assert EntryInv(cache[o], o, below);
    assert Overlay(cache - {o}, below) == Overlay(cache, below);
  }

  // ---------------------------------------------------------------------------------
  // Flushing one layer into the layer below
  // ---------------------------------------------------------------------------------

  /** The throw in BatchWrite: a FRESH child entry over an unspent entry of ours. */
  predicate Misapplied(ours: CoinsMap, o: Outpoint, e: Entry) {
    e.isDirty && e.isFresh && o in ours && !ours[o].coin.IsSpent()
  }

  ghost predicate Clash(ours: CoinsMap, child: CoinsMap) {
    exists o :: o in child && Misapplied(ours, o, child[o])
  }

  /** Our entry for `o` after BatchWrite met the child's entry `e`. */
  function MergeEntry(ours: CoinsMap, o: Outpoint, e: Entry): Option<Entry> {
    if !e.isDirty then if o in ours then Some(ours[o]) else None
    else if o !in ours then
      if e.isFresh && e.coin.IsSpent() then None else Some(Entry(e.coin, true, e.isFresh))
    else if ours[o].isFresh && e.coin.IsSpent() then None
    else Some(Entry(e.coin, true, ours[o].isFresh))
  }

  /** Our cache after BatchWrite of the child's entries. */
  function Merged(ours: CoinsMap, child: CoinsMap): (after: CoinsMap)
    ensures forall o :: o !in child ==> (o in after <==> o in ours) && (o in ours ==> after[o] == ours[o])
    ensures forall o :: o in child ==> EntryAt(after, o) == MergeEntry(ours, o, child[o])
  {
    map o | o in ours.Keys + child.Keys && (o in child ==> MergeEntry(ours, o, child[o]).Some?)
      :: if o in child then MergeEntry(ours, o, child[o]).value else ours[o]
  }

  function EntryAt(cache: CoinsMap, o: Outpoint): Option<Entry> {
    if o in cache then Some(cache[o]) else None
  }

  /** What one merged entry must satisfy: it means what the child meant, and its flags
      are right for the layer below us. */
  lemma MergeEntryCorrect(ours: CoinsMap, below: Utxo, o: Outpoint, e: Entry)
    requires LayerInv(ours, below) && EntryInv(e, o, Overlay(ours, below))
    ensures !Misapplied(ours, o, e)
    ensures var m := MergeEntry(ours, o, e);
            if m.None? then e.coin.IsSpent() ==> o !in below
            else EntryInv(m.value, o, below) && (m.value.coin == e.coin || (m.value.coin.IsSpent() && e.coin.IsSpent()))
  {
    if o in ours { assert EntryInv(ours[o], o, below); }
  }

  /** Flushing is invisible from above: our view becomes the child's view, the flags keep
      their meaning with respect to the layer below us, and nothing is misapplied. */
  lemma FlushRefines(ours: CoinsMap, child: CoinsMap, below: Utxo)
    requires LayerInv(ours, below) && LayerInv(child, Overlay(ours, below))
    ensures !Clash(ours, child)
    ensures LayerInv(Merged(ours, child), below)
    ensures Overlay(Merged(ours, child), below) == Overlay(child, Overlay(ours, below))
  {
    var after := Merged(ours, child);
    var view, want := Overlay(after, below), Overlay(child, Overlay(ours, below));
    forall o ensures o in child ==> !Misapplied(ours, o, child[o])
      ensures o in after ==> EntryInv(after[o], o, below)
      ensures (o in view <==> o in want) && (o in view ==> view[o] == want[o])
    {
      if o in child {
        assert EntryInv(child[o], o, Overlay(ours, below));
        MergeEntryCorrect(ours, below, o, child[o]);
      } else if o in ours {
        assert EntryInv(ours[o], o, below);
      }
    }
  }

  /** The database after writing a batch: dirty spent entries are erased, dirty unspent
      ones written, the rest ignored. */
  function Written(coins: Utxo, child: CoinsMap): (after: Utxo)
  {
    map o | o in coins.Keys + child.Keys &&
            (if o in child && child[o].isDirty then !child[o].coin.IsSpent() else o in coins)
      :: if o in child && child[o].isDirty then child[o].coin else coins[o]
  }

  /** Moving one entry from the work left to the work done. */
  lemma MoveOne(seen: CoinsMap, left: CoinsMap, o: Outpoint)
    requires seen.Keys !! left.Keys && o in left
    ensures seen[o := left[o]].Keys !! (left - {o}).Keys
    ensures seen[o := left[o]] + (left - {o}) == seen + left
  {
  }

  lemma WrittenStep(coins: Utxo, child: CoinsMap, o: Outpoint, e: Entry)
    requires o !in child
    ensures Written(coins, child[o := e]) ==
            if !e.isDirty then Written(coins, child)
            else if e.coin.IsSpent() then Written(coins, child) - {o}
            else Written(coins, child)[o := e.coin]
  {
  }

  lemma WriteRefines(coins: Utxo, child: CoinsMap)
    requires LayerInv(child, coins)
    ensures Written(coins, child) == Overlay(child, coins)
  {
    forall o | o in child ensures EntryInv(child[o], o, coins) {}
  }

  // ---------------------------------------------------------------------------------
  // The objects
  // ---------------------------------------------------------------------------------

  /** A block hash; zero is the null hash. */
  type BlockHash = int
  const NULL_HASH: BlockHash := 0

  /** The first of these best blocks that is set, or else the last. */
  function FirstSet(bests: seq<BlockHash>): BlockHash
    requires bests != []
  {
    if |bests| == 1 || bests[0] != NULL_HASH then bests[0] else FirstSet(bests[1..])
  }

  /** Every layer down to the first that has a best block takes it over. */
  function Filled(bests: seq<BlockHash>): (r: seq<BlockHash>)
    requires bests != []
    ensures |r| == |bests|
  {
    if |bests| == 1 || bests[0] != NULL_HASH then bests else [FirstSet(bests)] + Filled(bests[1..])
  }

  function Lookup(m: Utxo, o: Outpoint): Option<Coin> {
    if o in m then Some(m[o]) else None
  }

  /** The coin database at the bottom of a stack. */
  class CoinsViewDB {
    var coins: Utxo
    var bestBlock: BlockHash

    constructor (coins: Utxo, bestBlock: BlockHash)
      ensures this.coins == coins && this.bestBlock == bestBlock
    {
      this.coins, this.bestBlock := coins, bestBlock;
    }

    method GetCoin(o: Outpoint) returns (coin: Option<Coin>)
      ensures coin == Lookup(coins, o)
    {
      coin := if o in coins then Some(coins[o]) else None;
    }

    /** Writes the batch entry by entry, in any order. */
    method BatchWrite(mapCoins: CoinsMap, hashBlock: BlockHash)
      requires hashBlock != NULL_HASH
      modifies this
      ensures coins == Written(old(coins), mapCoins) && bestBlock == hashBlock
    {
      var left := mapCoins;
      ghost var seen: CoinsMap := map[];
      assert Written(coins, seen) == coins;
      while left != map[]
        invariant seen.Keys !! left.Keys && seen + left == mapCoins
        invariant coins == Written(old(coins), seen)
        decreases left.Keys
      {
        var o :| o in left;
        WrittenStep(old(coins), seen, o, left[o]);
        MoveOne(seen, left, o);
        if left[o].isDirty {
          coins := if left[o].coin.IsSpent() then coins - {o} else coins[o := left[o].coin];
        }
        seen := seen[o := left[o]];
        left := left - {o};
      }
      assert seen == mapCoins;
      bestBlock := hashBlock;
    }
  }

  /** The `base` pointer of a cache: virtual dispatch over the two kinds of view. */
  datatype Base = OnDB(db: CoinsViewDB) | OnCache(cache: CoinsViewCache)

  datatype AddOutcome = CoinAdded | IgnoredUnspendable | ThrewReplacesNonPruned
  datatype FlushOutcome = Flushed | ThrewFreshMisapplied | AssertedNullBlock

  class CoinsViewCache {
    var hashBlock: BlockHash
    var cacheCoins: CoinsMap
    const base: Base
    ghost const Depth: nat
    ghost const Repr: set<object>

    /** The stack below this layer is finite and its objects are distinct. */
    ghost predicate Stacked()
      decreases Depth
    {
      match base
      case OnDB(db) => Repr == {this, db}
      case OnCache(c) => c.Depth < Depth && this !in c.Repr && Repr == {this} + c.Repr && c.Stacked()
    }

    /** What this layer answers. */
    ghost function View(): Utxo
      requires Stacked()
      reads Repr
      decreases Depth, 1
    {
      Overlay(cacheCoins, Below())
    }

    /** What the base answers. */
    ghost function Below(): Utxo
      requires Stacked()
      reads Repr - {this}
      decreases Depth, 0
    {
      match base
      case OnDB(db) => db.coins
      case OnCache(c) => c.View()
    }

    ghost predicate Valid()
      reads Repr
      decreases Depth
    {
      && Stacked()
      && LayerInv(cacheCoins, Below())
      && AllUnspent(Below())
      && (base.OnCache? ==> base.cache.Valid())
    }

    /** What GetBestBlock answers. */
    ghost function BestBlock(): BlockHash
      requires Stacked()
      reads Repr
      decreases Depth, 1
    {
      if hashBlock != NULL_HASH then hashBlock else BelowBestBlock()
    }

    ghost function BelowBestBlock(): BlockHash
      requires Stacked()
      reads Repr - {this}
      decreases Depth, 0
    {
      match base
      case OnDB(db) => db.bestBlock
      case OnCache(c) => c.BestBlock()
    }

    /** The best block of every layer from this one down, that of the database last. */
    ghost function Bests(): (bests: seq<BlockHash>)
      requires Stacked()
      reads Repr
      ensures |bests| >= 2 && (|bests| == 2 <==> base.OnDB?) && bests[0] == hashBlock
      decreases Depth
    {
      match base
      case OnDB(db) => [hashBlock, db.bestBlock]
      case OnCache(c) => [hashBlock] + c.Bests()
    }

    constructor OverDB(db: CoinsViewDB)
      requires AllUnspent(db.coins)
      ensures Valid() && base == OnDB(db) && fresh(Repr - {db}) && View() == db.coins
      ensures Bests() == [NULL_HASH, db.bestBlock] && BestBlock() == db.bestBlock
    {
      hashBlock, cacheCoins, base := NULL_HASH, map[], OnDB(db);
      Depth, Repr := 0, {this, db};
    }

    constructor OverCache(c: CoinsViewCache)
      requires c.Valid()
      ensures Valid() && base == OnCache(c) && fresh(Repr - c.Repr) && View() == c.View()
      ensures Bests() == [NULL_HASH] + c.Bests() && BestBlock() == c.BestBlock()
    {
      hashBlock, cacheCoins, base := NULL_HASH, map[], OnCache(c);
      Depth, Repr := c.Depth + 1, {this} + c.Repr;
    }

    method FetchCoin(o: Outpoint) returns (found: bool)
      requires Valid()
      modifies Repr
      ensures Valid() && View() == old(View()) && Below() == old(Below()) && BestBlock() == old(BestBlock())
      ensures hashBlock == old(hashBlock) && Bests() == old(Bests())
      ensures found == (o in cacheCoins)
      ensures found <==> o in old(cacheCoins) || o in old(View())
      ensures o in old(cacheCoins) || o !in old(View()) ==> cacheCoins == old(cacheCoins)
      ensures o !in old(cacheCoins) && o in old(View()) ==>
                cacheCoins == old(cacheCoins)[o := Entry(old(View())[o], false, false)]
      decreases Depth, 0
    {
      hide Overlay, LayerInv, AllUnspent, FirstSet, Filled;
      if o in cacheCoins {
        return true;
      }
      var tmp;
      match base {
        case OnDB(db) => tmp := db.GetCoin(o);
        case OnCache(c) => tmp := c.GetCoin(o);
      }
      if tmp.None? {
        return false;
      }
      LoadKeepsLayer(cacheCoins, Below(), o);
      cacheCoins := cacheCoins[o := Entry(tmp.value, false, tmp.value.IsSpent())];
      found := true;
    }

    method GetCoin(o: Outpoint) returns (coin: Option<Coin>)
      requires Valid()
      modifies Repr
      ensures Valid() && View() == old(View()) && Below() == old(Below()) && BestBlock() == old(BestBlock())
      ensures hashBlock == old(hashBlock) && Bests() == old(Bests())
      ensures coin == Lookup(View(), o)
      decreases Depth, 1
    {
      var found := FetchCoin(o);
      coin := if found && !cacheCoins[o].coin.IsSpent() then Some(cacheCoins[o].coin) else None;
    }

    /** A reference to the cached coin, or an empty one: spent exactly when the view lacks it. */
    method AccessCoin(o: Outpoint) returns (coin: Coin)
      requires Valid()
      modifies Repr
      ensures Valid() && View() == old(View()) && BestBlock() == old(BestBlock()) && Bests() == old(Bests())
      ensures coin.IsSpent() <==> o !in View()
      ensures o in View() ==> coin == View()[o]
    {
      var found := FetchCoin(o);
      coin := if found then cacheCoins[o].coin else CLEARED;
    }

    method HaveCoin(o: Outpoint) returns (have: bool)
      requires Valid()
      modifies Repr
      ensures Valid() && View() == old(View()) && BestBlock() == old(BestBlock()) && Bests() == old(Bests())
      ensures have <==> o in View()
    {
      var found := FetchCoin(o);
      have := found && !cacheCoins[o].coin.IsSpent();
    }

    /** Keeps the stack valid if and only if it did nothing or the caller's flag was honest. */
    method AddCoin(o: Outpoint, coin: Coin, overwrite: bool) returns (r: AddOutcome)
      requires Valid() && !coin.IsSpent()
      modifies this`cacheCoins
      ensures r == if coin.IsUnspendable() then IgnoredUnspendable
                   else if AddThrows(old(cacheCoins), o, overwrite) then ThrewReplacesNonPruned
                   else CoinAdded
      ensures Below() == old(Below()) && BestBlock() == old(BestBlock()) && Bests() == old(Bests())
      ensures r == CoinAdded ==> cacheCoins == Added(old(cacheCoins), o, coin, overwrite)
      ensures r == CoinAdded ==> View() == old(View())[o := coin]
      ensures r != CoinAdded ==> cacheCoins == old(cacheCoins)
      ensures Valid() <==> r != CoinAdded || overwrite || o !in old(View())
    {
      if coin.IsUnspendable() {
        return IgnoredUnspendable;
      }
      AddKeepsLayerIffHonest(cacheCoins, Below(), o, coin, overwrite);
      var entry := if o in cacheCoins then cacheCoins[o] else Entry(CLEARED, false, false);
      var markFresh := false;
      if !overwrite {
        if !entry.coin.IsSpent() {
          return ThrewReplacesNonPruned;
        }
        markFresh := !entry.isDirty;
      }
      cacheCoins := cacheCoins[o := Entry(coin, true, entry.isFresh || markFresh)];
      r := CoinAdded;
    }

    /** The coin leaves the view.  The return value is not "there was a coin": it is also
        true for an entry this cache already holds as spent. */
    method SpendCoin(o: Outpoint) returns (spent: bool, moved: Coin)
      requires Valid()
      modifies Repr
      ensures Valid() && View() == old(View()) - {o} && Below() == old(Below())
      ensures BestBlock() == old(BestBlock()) && Bests() == old(Bests())
      ensures spent <==> o in old(View()) || o in old(cacheCoins)
      ensures o in old(View()) ==> moved == old(View())[o]
      ensures o !in old(View()) ==> moved.IsSpent()
    {
      var found := FetchCoin(o);
      if !found {
        return false, CLEARED;
      }
      moved := cacheCoins[o].coin;
      SpendKeepsLayer(cacheCoins, Below(), o);
      if cacheCoins[o].isFresh {
        cacheCoins := cacheCoins - {o};
      } else {
        cacheCoins := cacheCoins[o := Entry(CLEARED, true, cacheCoins[o].isFresh)];
      }
      spent := true;
    }

    /** Drops an entry that carries no flag. */
    method Uncache(o: Outpoint)
      requires Valid()
      modifies this`cacheCoins
      ensures Valid() && View() == old(View()) && Below() == old(Below()) && BestBlock() == old(BestBlock())
      ensures Bests() == old(Bests())
      ensures cacheCoins == if o in old(cacheCoins) && !old(cacheCoins)[o].isDirty && !old(cacheCoins)[o].isFresh
                            then old(cacheCoins) - {o} else old(cacheCoins)
    {
      if o in cacheCoins && !cacheCoins[o].isDirty && !cacheCoins[o].isFresh {
        UncacheKeepsLayer(cacheCoins, Below(), o);
        cacheCoins := cacheCoins - {o};
      }
    }

    method GetBestBlock() returns (hash: BlockHash)
      requires Valid()
      modifies Repr
      ensures Valid() && View() == old(View()) && BestBlock() == old(BestBlock())
      ensures hash == BestBlock() == FirstSet(old(Bests())) && hashBlock == hash && Bests() == Filled(old(Bests()))
      decreases Depth
    {
      ghost var bests := Bests();
      assert base.OnCache? ==> bests[1..] == base.cache.Bests();
      if hashBlock == NULL_HASH {
        match base {
          case OnDB(db) => hashBlock := db.bestBlock;
          case OnCache(c) =>
            var below := c.GetBestBlock();
            hashBlock := below;
        }
      }
      hash := hashBlock;
    }

    method SetBestBlock(hash: BlockHash)
      requires Valid()
      modifies this`hashBlock
      ensures Valid() && View() == old(View()) && hashBlock == hash && Below() == old(Below())
      ensures BelowBestBlock() == old(BelowBestBlock()) && Bests() == old(Bests())[0 := hash]
    {
      hashBlock := hash;
    }

    /** The body of BatchWrite's loop. */
    method AbsorbEntry(o: Outpoint, e: Entry) returns (misapplied: bool)
      modifies this`cacheCoins
      ensures misapplied == Misapplied(old(cacheCoins), o, e)
      ensures !misapplied ==>
                cacheCoins == var m := MergeEntry(old(cacheCoins), o, e);
                              if m.None? then old(cacheCoins) - {o} else old(cacheCoins)[o := m.value]
    {
      if !e.isDirty {
        return false;
      }
      if o !in cacheCoins {
        if !(e.isFresh && e.coin.IsSpent()) {
          cacheCoins := cacheCoins[o := Entry(e.coin, true, e.isFresh)];
        }
      } else {
        if e.isFresh && !cacheCoins[o].coin.IsSpent() {
          return true;
        }
        if cacheCoins[o].isFresh && e.coin.IsSpent() {
          cacheCoins := cacheCoins - {o};
        } else {
          cacheCoins := cacheCoins[o := Entry(e.coin, true, cacheCoins[o].isFresh)];
        }
      }
      misapplied := false;
    }

    /** The loop of BatchWrite: takes over the child's entries, in any order. */
    method AbsorbEntries(mapCoins: CoinsMap) returns (misapplied: bool)
      modifies this`cacheCoins
      ensures misapplied == Clash(old(cacheCoins), mapCoins)
      ensures !misapplied ==> cacheCoins == Merged(old(cacheCoins), mapCoins)
    {
      misapplied := false;
      var left := mapCoins;
      ghost var seen: CoinsMap := map[];
      assert Merged(cacheCoins, seen) == cacheCoins;
      while left != map[]
        invariant seen.Keys !! left.Keys && seen + left == mapCoins
        invariant cacheCoins == Merged(old(cacheCoins), seen) && !Clash(old(cacheCoins), seen)
        decreases left.Keys
      {
        var o :| o in left;
        MergedStep(old(cacheCoins), seen, o, left[o]);
        MoveOne(seen, left, o);
        misapplied := AbsorbEntry(o, left[o]);
        if misapplied {
          return;
        }
        seen, left := seen[o := left[o]], left - {o};
      }
      assert seen == mapCoins;
    }

    /** A batch whose flags are right for what we answer becomes what we answer. */
    method BatchWrite(mapCoins: CoinsMap, hash: BlockHash) returns (r: FlushOutcome)
      requires Valid()
      modifies this
      ensures r == if Clash(old(cacheCoins), mapCoins) then ThrewFreshMisapplied else Flushed
      ensures r == Flushed ==> cacheCoins == Merged(old(cacheCoins), mapCoins) && hashBlock == hash
      ensures Below() == old(Below()) && BelowBestBlock() == old(BelowBestBlock())
      ensures r == Flushed ==> Bests() == old(Bests())[0 := hash]
      ensures LayerInv(mapCoins, old(View())) ==>
                r == Flushed && Valid() && View() == Overlay(mapCoins, old(View()))
    {
      if LayerInv(mapCoins, View()) {
        FlushRefines(cacheCoins, mapCoins, Below());
      }
      var misapplied := AbsorbEntries(mapCoins);
      if misapplied {
        return ThrewFreshMisapplied;
      }
      hashBlock := hash;
      r := Flushed;
    }

    /** The virtual call base->BatchWrite(cacheCoins, hashBlock). */
    method WriteToBase() returns (r: FlushOutcome)
      requires Valid()
      modifies Repr - {this}
      ensures r == if base.OnDB? && hashBlock == NULL_HASH then AssertedNullBlock else Flushed
      ensures r == Flushed ==> Below() == old(View()) && AllUnspent(Below())
      ensures r == Flushed && base.OnCache? ==>
                && base.cache.Valid() && base.cache.hashBlock == hashBlock
                && base.cache.BelowBestBlock() == old(base.cache.BelowBestBlock())
      ensures r == Flushed ==> Bests() == old(Bests())[1 := hashBlock]
    {
      match base {
        case OnDB(db) =>
          if hashBlock == NULL_HASH {
            return AssertedNullBlock;
          }
          WriteRefines(db.coins, cacheCoins);
          db.BatchWrite(cacheCoins, hashBlock);
          r := Flushed;
        case OnCache(c) =>
          r := c.BatchWrite(cacheCoins, hashBlock);
      }
    }

    /** Flushing a valid stack never throws for a misapplied FRESH flag, leaves this layer
        empty, and makes the base answer what this layer answered.  It trips the database's
        assertion exactly when no best block was ever set here.  The best block survives
        unless this layer has none of its own and the base has one that differs from what
        lies below it. */
    method Flush() returns (r: FlushOutcome)
      requires Valid()
      modifies Repr
      ensures r == if base.OnDB? && old(hashBlock) == NULL_HASH then AssertedNullBlock else Flushed
      ensures r == Flushed ==> Valid() && View() == old(View()) && Below() == old(View())
      ensures r == Flushed ==> cacheCoins == map[] && hashBlock == old(hashBlock)
      ensures r == Flushed ==> Bests() == old(Bests())[1 := hashBlock]
      ensures r == Flushed ==>
                (BestBlock() == old(BestBlock()) <==>
                 || hashBlock != NULL_HASH
                 || old(base.cache.hashBlock) == NULL_HASH
                 || old(base.cache.hashBlock) == old(base.cache.BelowBestBlock()))
    {
      r := WriteToBase();
      cacheCoins := map[];
      assert View() == Below();
      if base.OnCache? {
        assert old(BelowBestBlock()) == old(base.cache.BestBlock());
        assert base.cache.BelowBestBlock() == old(base.cache.BelowBestBlock());
        assert BelowBestBlock() == base.cache.BestBlock();
        assert hashBlock == NULL_HASH ==> BestBlock() == old(base.cache.BelowBestBlock());
        assert hashBlock == NULL_HASH ==> old(BestBlock()) == old(base.cache.BestBlock());
        assert hashBlock != NULL_HASH ==> BestBlock() == old(BestBlock());
      }
    }
  }

  lemma ClashGrows(ours: CoinsMap, child: CoinsMap, o: Outpoint, e: Entry)
    requires o !in child
    ensures Clash(ours, child[o := e]) <==> Clash(ours, child) || Misapplied(ours, o, e)
  {
    assert child[o := e][o] == e;
    forall p | p in child ensures child[o := e][p] == child[p] {}
  }

  /** Entries for different outpoints merge independently. */
  lemma MergedStep(ours: CoinsMap, child: CoinsMap, o: Outpoint, e: Entry)
    requires o !in child
    ensures EntryAt(Merged(ours, child), o) == EntryAt(ours, o)
    ensures Misapplied(Merged(ours, child), o, e) == Misapplied(ours, o, e)
    ensures Clash(ours, child[o := e]) <==> Clash(ours, child) || Misapplied(ours, o, e)
    ensures Merged(ours, child[o := e]) ==
            var m := MergeEntry(Merged(ours, child), o, e);
            if m.None? then Merged(ours, child) - {o} else Merged(ours, child)[o := m.value]
  {
    hide Merged, Clash;
    var sofar, after := Merged(ours, child), Merged(ours, child[o := e]);
    ClashGrows(ours, child, o, e);
    MergedAt(ours, child, o, e);
    var m := MergeEntry(sofar, o, e);
    SameEntries(after, if m.None? then sofar - {o} else sofar[o := m.value]);
  }

  lemma MergedAt(ours: CoinsMap, child: CoinsMap, o: Outpoint, e: Entry)
    requires o !in child
    ensures EntryAt(Merged(ours, child[o := e]), o) == MergeEntry(ours, o, e)
    ensures forall p :: p != o ==> EntryAt(Merged(ours, child[o := e]), p) == EntryAt(Merged(ours, child), p)
  {
    hide Merged, MergeEntry;
    var after := Merged(ours, child[o := e]);
    assert EntryAt(after, o) == MergeEntry(ours, o, child[o := e][o]);
    forall p | p in child ensures EntryAt(after, p) == EntryAt(Merged(ours, child), p) {
      assert EntryAt(after, p) == MergeEntry(ours, p, child[o := e][p]);
    }
  }

  lemma SameEntries(a: CoinsMap, b: CoinsMap)
    requires forall o :: EntryAt(a, o) == EntryAt(b, o)
    ensures a == b
  {
    assert forall o :: o in a ==> EntryAt(b, o) == Some(a[o]);
    assert forall o :: o in b ==> EntryAt(a, o) == Some(b[o]);
  }

  // ---------------------------------------------------------------------------------
  // Whole runs
  // ---------------------------------------------------------------------------------

  datatype Op =
    | Get(o: Outpoint)
    | Have(o: Outpoint)
    | Add(o: Outpoint, coin: Coin, overwrite: bool)
    | Spend(o: Outpoint)
    | Uncache(o: Outpoint)
    | GetBest
    | SetBest(block: BlockHash)
    | Flush

  /** What a caller learns from one operation. */
  datatype Answer = Nothing | Found(coin: Option<Coin>) | Present(have: bool) | Best(block: BlockHash)

  /** A stack without caching: one map of coins, and the best block of every layer. */
  datatype Plain = Plain(coins: Utxo, bests: seq<BlockHash>)

  /** The caller may not add a spent coin, and may rule out an overwrite only if the coin
      is not there. */
  predicate Honest(m: Utxo, op: Op) {
    op.Add? ==> !op.coin.IsSpent() && (op.overwrite || op.o !in m)
  }

  /** Flushing to the database trips its assertion on a null best block. */
  predicate Trips(bests: seq<BlockHash>, op: Op) { op.Flush? && |bests| == 2 && bests[0] == NULL_HASH }

  /** The same operation without caches. */
  function PlainStep(p: Plain, op: Op): (r: (Plain, Answer))
    requires |p.bests| >= 2
    ensures |r.0.bests| == |p.bests|
  {
    match op
    case Get(o) => (p, Found(Lookup(p.coins, o)))
    case Have(o) => (p, Present(o in p.coins))
    case Add(o, coin, _) => (if coin.IsUnspendable() then p else p.(coins := p.coins[o := coin]), Nothing)
    case Spend(o) => (p.(coins := p.coins - {o}), Found(Lookup(p.coins, o)))
    case Uncache(o) => (p, Nothing)
    case GetBest => (p.(bests := Filled(p.bests)), Best(FirstSet(p.bests)))
    case SetBest(block) => (p.(bests := p.bests[0 := block]), Nothing)
    case Flush => (p.(bests := p.bests[1 := p.bests[0]]), Nothing)
  }

  predicate AllHonest(p: Plain, ops: seq<Op>)
    requires |p.bests| >= 2
    decreases |ops|
  {
    ops == [] || (Honest(p.coins, ops[0]) && AllHonest(PlainStep(p, ops[0]).0, ops[1..]))
  }

  predicate SomeTrips(p: Plain, ops: seq<Op>)
    requires |p.bests| >= 2
    decreases |ops|
  {
    ops != [] && (Trips(p.bests, ops[0]) || SomeTrips(PlainStep(p, ops[0]).0, ops[1..]))
  }

  function PlainAnswers(p: Plain, ops: seq<Op>): seq<Answer>
    requires |p.bests| >= 2
    decreases |ops|
  {
    if ops == [] then [] else [PlainStep(p, ops[0]).1] + PlainAnswers(PlainStep(p, ops[0]).0, ops[1..])
  }

  function PlainRun(p: Plain, ops: seq<Op>): Plain
    requires |p.bests| >= 2
    decreases |ops|
  {
    if ops == [] then p else PlainRun(PlainStep(p, ops[0]).0, ops[1..])
  }

  ghost function Meaning(top: CoinsViewCache): (p: Plain)
    requires top.Stacked()
    reads top.Repr
    ensures |p.bests| >= 2
  {
    Plain(top.View(), top.Bests())
  }

  /** One operation on the top of a stack does to its meaning what it does without caches. */
  method Perform(top: CoinsViewCache, op: Op) returns (answer: Answer, tripped: bool)
    requires top.Valid() && Honest(top.View(), op)
    modifies top.Repr
    ensures tripped == Trips(old(top.Bests()), op)
    ensures !tripped ==> top.Valid() && (Meaning(top), answer) == PlainStep(old(Meaning(top)), op)
  {
    answer, tripped := Nothing, false;
    match op {
      case Get(o) => var coin := top.GetCoin(o); answer := Found(coin);
      case Have(o) => var have := top.HaveCoin(o); answer := Present(have);
      case Add(o, coin, overwrite) => var r := top.AddCoin(o, coin, overwrite);
      case Spend(o) =>
        var spent, moved := top.SpendCoin(o);
        answer := Found(if moved.IsSpent() then None else Some(moved));
      case Uncache(o) => top.Uncache(o);
      case GetBest => var hash := top.GetBestBlock(); answer := Best(hash);
      case SetBest(block) => top.SetBestBlock(block);
      case Flush => var r := top.Flush(); tripped := r == AssertedNullBlock;
    }
  }

  /** Any stack, under any run of honest operations on its top layer, answers exactly like one
      plain map with a list of best blocks.  The run breaks off exactly where a layer that has no
      best block is flushed to the database. */
  method Replay(top: CoinsViewCache, ops: seq<Op>) returns (answers: seq<Answer>, tripped: bool)
    requires top.Valid() && AllHonest(Meaning(top), ops)
    modifies top.Repr
    ensures tripped == SomeTrips(old(Meaning(top)), ops)
    ensures answers <= PlainAnswers(old(Meaning(top)), ops)
    ensures !tripped ==> answers == PlainAnswers(old(Meaning(top)), ops)
    ensures !tripped ==> top.Valid() && Meaning(top) == PlainRun(old(Meaning(top)), ops)
    decreases |ops|
  {
    if ops == [] {
      return [], false;
    }
    var first;
    first, tripped := Perform(top, ops[0]);
    if tripped {
      return [], true;
    }
    var rest;
    rest, tripped := Replay(top, ops[1..]);
    answers := [first] + rest;
  }

  /** What GetBestBlock answers is the first best block that is set, from the top. */
  lemma {:induction false} BestIsFirst(c: CoinsViewCache)
    requires c.Stacked()
    ensures c.BestBlock() == FirstSet(c.Bests()) && c.BelowBestBlock() == FirstSet(c.Bests()[1..])
    decreases c.Depth
  {
    match c.base
    case OnDB(db) =>
    case OnCache(below) => BestIsFirst(below);
  }

  /** Putting a layer on top and flushing it at once makes the layer below forget its best block. */
  method FlushUnused(below: CoinsViewCache)
    requires below.Valid()
    modifies below.Repr
    ensures below.Valid() && below.View() == old(below.View())
    ensures below.hashBlock == NULL_HASH && below.BestBlock() == old(below.BelowBestBlock())
  {
    hide Overlay, LayerInv;
    BestIsFirst(below);
    ghost var bests := below.Bests();
    var top := new CoinsViewCache.OverCache(below);
    assert top.Bests()[1..] == bests;
    var r := top.Flush();
    assert below.Bests() == top.Bests()[1..] == bests[0 := NULL_HASH];
    BestIsFirst(below);
    assert below.Bests()[1..] == bests[1..];
  }

  /** A database at block 1, a cache at block 2 on it, and an unused cache on that. */
  method ForgetfulFlush() returns (before: BlockHash, after: BlockHash)
    ensures before == 2 && after == 1
  {
    hide Overlay, LayerInv;
    var db := new CoinsViewDB(map[], 1);
    var middle := new CoinsViewCache.OverDB(db);
    middle.SetBestBlock(2);
    before := middle.GetBestBlock();
    FlushUnused(middle);
    after := middle.GetBestBlock();
  }
}
