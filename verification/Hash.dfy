/** The chained hash of `src/hash.c`: adding, looking up, deleting by item, traversal and rehashing. */
module Hash {
  import opened HashShape

  /** The fields of an item say what the view says; only a head has a bucket pointer, and it points at its slot. */
  ghost predicate Is(m: Item, w: View)
    reads m
  {
    m.prev == w.prev && m.next == w.next && m.bucket == if w.prev == null then w.b else NOT_A_HEAD
  }

  /** Equal keys have equal hash values. */
  ghost predicate Consistent(hashfn: Key -> nat, cmp: (Key, Key) -> int) {
    forall a, b {:trigger cmp(a, b)} :: cmp(a, b) == 0 ==> hashfn(a) == hashfn(b)
  }

  function Slot(hashfn: Key -> nat, key: Key, sz: nat): (b: nat)
    requires sz > 0
    ensures b < sz
  {
    hashfn(key) % sz
  }

  ghost predicate NoTwice(s: seq<Item>) {
    forall i, j :: 0 <= i < j < |s| ==> s[i] != s[j]
  }

  /** What a lookup finds in the given chains. */
  ghost function Found(v: Chains, table: Table, hashfn: Key -> nat, cmp: (Key, Key) -> int, key: Key): Item?
    requires ShapeOk(v, table) && |table| > 0
  {
    FirstMatch(SlotChain(v, table, Slot(hashfn, key, |table|)), key, cmp)
  }

  lemma EachLinked(v: Chains, v1: Chains, table: Table, x: Item, b: nat, rank: nat)
    requires ShapeOk(v, table) && b < |table| && Below(v, rank) && Linking(v, v1, x, b, rank, table[b])
    requires ShapeOk(v1, table[b := x])
    ensures forall c: nat {:trigger SlotChain(v1, table[b := x], c)} :: c < |table| ==>
      SlotChain(v1, table[b := x], c) == if c == b then [x] + SlotChain(v, table, c) else SlotChain(v, table, c)
  {
    forall c: nat | c < |table|
      ensures SlotChain(v1, table[b := x], c) == if c == b then [x] + SlotChain(v, table, c) else SlotChain(v, table, c)
    {
      LinkedChains(v, v1, table, x, b, rank, c);
    }
  }

  /** An item in front of its slot is found by every key that is equal to its own. */
  lemma EachFound(v: Chains, v1: Chains, table: Table, x: Item, b: nat, rank: nat, hashfn: Key -> nat,
    cmp: (Key, Key) -> int)
    requires ShapeOk(v, table) && b < |table| && Below(v, rank) && Linking(v, v1, x, b, rank, table[b])
    requires ShapeOk(v1, table[b := x]) && Consistent(hashfn, cmp) && b == Slot(hashfn, x.key, |table|)
    ensures forall k {:trigger Found(v1, table[b := x], hashfn, cmp, k)} ::
      Found(v1, table[b := x], hashfn, cmp, k) == if cmp(k, x.key) == 0 then x else Found(v, table, hashfn, cmp, k)
  {
    forall k
      ensures Found(v1, table[b := x], hashfn, cmp, k)
        == if cmp(k, x.key) == 0 then x else Found(v, table, hashfn, cmp, k)
    {
      var c := Slot(hashfn, k, |table|);
      LinkedChains(v, v1, table, x, b, rank, c);
      assert ([x] + SlotChain(v, table, c))[1..] == SlotChain(v, table, c);
    }
  }

  lemma EachUnlinked(v: Chains, v1: Chains, table: Table, x: Item, hashfn: Key -> nat, cmp: (Key, Key) -> int)
    requires ShapeOk(v, table) && x in v && v[x].b < |table| && Unlinking(v, v1, x, v[x].prev, v[x].next)
    requires ShapeOk(v1, Shortened(table, v[x].b, v[x].prev, v[x].next))
    ensures var t := Shortened(table, v[x].b, v[x].prev, v[x].next);
      forall c: nat {:trigger SlotChain(v1, t, c)} :: c < |table| ==>
        SlotChain(v1, t, c) == if c == v[x].b then Without(SlotChain(v, table, c), x) else SlotChain(v, table, c)
    ensures var t := Shortened(table, v[x].b, v[x].prev, v[x].next);
      forall k {:trigger Found(v1, t, hashfn, cmp, k)} ::
        Found(v, table, hashfn, cmp, k) != x ==> Found(v1, t, hashfn, cmp, k) == Found(v, table, hashfn, cmp, k)
  {
    var t := Shortened(table, v[x].b, v[x].prev, v[x].next);
    forall c: nat | c < |table|
      ensures SlotChain(v1, t, c) == if c == v[x].b then Without(SlotChain(v, table, c), x) else SlotChain(v, table, c)
    {
      UnlinkedChains(v, v1, table, x, c);
    }
    forall k | Found(v, table, hashfn, cmp, k) != x
      ensures Found(v1, t, hashfn, cmp, k) == Found(v, table, hashfn, cmp, k)
    {
      var c := Slot(hashfn, k, |table|);
      UnlinkedChains(v, v1, table, x, c);
      WithoutOther(SlotChain(v, table, c), x, k, cmp);
    }
  }

  class Dict {
    const hashfn: Key -> nat
    const cmp: (Key, Key) -> int
    var table: seq<Item?>
    var elnum: nat
    ghost var v: Chains
    ghost var top: nat

    /** Every item is in exactly the chain of its slot, and its pointers are those of the chain. */
    ghost predicate Linked()
      reads this`table, this`v, this`top, v.Keys
    {
      && |table| > 0 && ShapeOk(v, table) && Below(v, top)
      && (forall m {:trigger v[m]} :: m in v ==> Is(m, v[m]) && v[m].b == Slot(hashfn, m.key, |table|))
    }

    ghost predicate Valid()
      reads this, v.Keys
    {
      Linked() && elnum == |v.Keys|
    }

    ghost function Items(): set<Item>
      reads this`v
    {
      v.Keys
    }

    /** The items of slot `b` in the order of their chain. */
    ghost function ChainOf(b: nat): seq<Item>
      reads this`table, this`v
      requires ShapeOk(v, table) && b < |table|
    {
      SlotChain(v, table, b)
    }

    /** What a lookup finds. */
    ghost function Lookup(key: Key): Item?
      reads this`table, this`v
      requires ShapeOk(v, table) && |table| > 0
    {
      Found(v, table, hashfn, cmp, key)
    }

    /** A match is an item of the dictionary, and without one no item of the dictionary matches. */
    lemma LookupIs(key: Key)
      requires Linked() && Consistent(hashfn, cmp)
      ensures Lookup(key) != null ==> Lookup(key) in Items() && cmp(key, Lookup(key).key) == 0
      ensures Lookup(key) == null ==> forall m :: m in Items() ==> cmp(key, m.key) != 0
    {
      var b := Slot(hashfn, key, |table|);
      assert SlotOk(v, table, b);
      FirstMatchIs(ChainOf(b), key, cmp);
      if table[b] != null {
        ChainItems(v, table, table[b]);
      }
      forall m | m in Items() && Lookup(key) == null
        ensures cmp(key, m.key) != 0
      {
        Reached(v, table, top, m);
        assert v[m].b == Slot(hashfn, m.key, |table|);
      }
    }

    /** `hash_init` */
    constructor (sz: nat, hashfn: Key -> nat, cmp: (Key, Key) -> int)
      requires sz > 0
      ensures Valid() && Items() == {} && this.hashfn == hashfn && this.cmp == cmp
    {
      this.hashfn := hashfn;
      this.cmp := cmp;
      table := seq(sz, _ => null);
      elnum := 0;
      v := map[];
      top := 0;
    }

    /** The assignments that put an item in front of the chain of its slot. */
    method WireLink(hit: Item, idx: nat, ghost v1: Chains, ghost rank: nat)
      requires idx < |table| && Linking(v, v1, hit, idx, rank, table[idx])
      requires forall m {:trigger v[m]} :: m in v ==> Is(m, v[m])
      requires table[idx] != null ==> v[table[idx]].b == idx
      modifies this`table, hit, v.Keys
      ensures table == old(table)[idx := hit]
      ensures forall m {:trigger v1[m]} :: m in v1 ==> Is(m, v1[m])
    {
      var phit := table[idx];
      assert phit != null ==> Is(phit, v[phit]);
      hit.bucket := idx;
      hit.prev := null;
      if phit == null {
        hit.next := null;
      } else {
        hit.next := phit;
        phit.prev := hit;
        phit.bucket := NOT_A_HEAD;
      }
      table := table[idx := hit];
    }

    /** The common part of `hash_set_item` and `hash_rehash`. */
    method Link(hit: Item)
      requires Linked() && hit !in v
      modifies this`table, this`v, this`top, hit, v.Keys
      ensures Linked() && v.Keys == old(v.Keys) + {hit} && |table| == |old(table)|
      ensures forall b: nat {:trigger ChainOf(b)} :: b < |table| ==>
        ChainOf(b) == if b == Slot(hashfn, hit.key, |table|) then [hit] + old(ChainOf(b)) else old(ChainOf(b))
      ensures Consistent(hashfn, cmp) ==>
        forall k {:trigger Lookup(k)} :: Lookup(k) == if cmp(k, hit.key) == 0 then hit else old(Lookup(k))
    {
      var idx := Slot(hashfn, hit.key, |table|);
      LinkedLinks(v, table, hit, idx, top);
      ghost var v1 := HashShape.Linked(v, hit, idx, top, table[idx]);
      LinkedOk(v, v1, table, hit, idx, top);
      assert SlotOk(v, table, idx);
      EachLinked(v, v1, table, hit, idx, top);
      if Consistent(hashfn, cmp) {
        EachFound(v, v1, table, hit, idx, top, hashfn, cmp);
      }
      WireLink(hit, idx, v1, top);
      v := v1;
      top := top + 1;
    }

    /** `hash_set_item`: the new item heads its slot, so that lookups of equal keys find it; other lookups find what
        they found before. */
    method SetItem(key: Key, value: int) returns (hit: Item)
      requires Valid()
      modifies this, Items()
      ensures Valid() && fresh(hit) && hit.key == key && hit.value == value
      ensures Items() == old(Items()) + {hit} && |table| == |old(table)|
      ensures forall b: nat {:trigger ChainOf(b)} :: b < |table| ==>
        ChainOf(b) == if b == Slot(hashfn, key, |table|) then [hit] + old(ChainOf(b)) else old(ChainOf(b))
      ensures Consistent(hashfn, cmp) ==>
        forall k {:trigger Lookup(k)} :: Lookup(k) == if cmp(k, key) == 0 then hit else old(Lookup(k))
    {
      hit := new Item(key, value);
      ghost var s := v.Keys;
      Link(hit);
      elnum := elnum + 1;
      Count(s, hit);
    }

    /** `hash_get_item`: the first item of the chain with an equal key, and one is found just when there is one. */
    method GetItem(key: Key) returns (hit: Item?)
      requires Valid() && Consistent(hashfn, cmp)
      ensures hit == Lookup(key)
      ensures hit != null ==> hit in Items() && cmp(key, hit.key) == 0
      ensures hit == null ==> forall m :: m in Items() ==> cmp(key, m.key) != 0
    {
      LookupIs(key);
      if elnum == 0 {
        return null;
      }
      var idx := Slot(hashfn, key, |table|);
      assert SlotOk(v, table, idx);
      hit := table[idx];
      while hit != null
        invariant hit != null ==> hit in v
        invariant FirstMatch(Chain(v, table, hit), key, cmp) == Lookup(key)
        decreases if hit == null then 0 else v[hit].rank + 1
      {
        Near(v, table, hit);
        assert Is(hit, v[hit]);
        assert Chain(v, table, hit)[1..] == Chain(v, table, v[hit].next);
        if cmp(key, hit.key) == 0 {
          return;
        }
        hit := hit.next;
      }
    }

    /** What was set is what is found. */
    method SetThenGet(key: Key, value: int) returns (hit: Item, got: Item?)
      requires Valid() && Consistent(hashfn, cmp) && cmp(key, key) == 0
      modifies this, Items()
      ensures Valid() && got == hit && fresh(hit) && hit.key == key && hit.value == value
    {
      hit := SetItem(key, value);
      got := GetItem(key);
    }

    /** The assignments of `hash_delete_pair`. */
    method WireUnlink(hit: Item, ghost v1: Chains)
      requires hit in v && v[hit].b < |table| && Unlinking(v, v1, hit, hit.prev, hit.next)
      requires forall m {:trigger v[m]} :: m in v ==> Is(m, v[m])
      requires hit.next != null ==> v[hit.next].b == v[hit].b
      modifies this`table, v.Keys
      ensures table == Shortened(old(table), v[hit].b, v[hit].prev, v[hit].next)
      ensures forall m {:trigger v1[m]} :: m in v1 ==> Is(m, v1[m])
    {
      assert Is(hit, v[hit]);
      assert hit.prev != null ==> Is(hit.prev, v[hit.prev]);
      assert hit.next != null ==> Is(hit.next, v[hit.next]);
      if hit.prev != null {
        hit.prev.next := hit.next;
      } else {
        assert hit.bucket != NOT_A_HEAD;
        table := table[hit.bucket := hit.next];
      }
      if hit.next != null {
        hit.next.prev := hit.prev;
        if hit.prev == null {
          hit.next.bucket := hit.bucket;
        }
      }
    }

    /** `hash_delete_pair`: the other items stay in their order, and what finds another item still finds it. */
    method DeletePair(hit: Item)
      requires Valid() && hit in Items()
      modifies this, Items()
      ensures Valid() && Items() == old(Items()) - {hit} && |table| == |old(table)|
      ensures forall b: nat {:trigger ChainOf(b)} :: b < |table| ==>
        ChainOf(b) == if b == Slot(hashfn, hit.key, |table|) then Without(old(ChainOf(b)), hit) else old(ChainOf(b))
      ensures forall k {:trigger Lookup(k)} :: old(Lookup(k)) != hit ==> Lookup(k) == old(Lookup(k))
    {
      ghost var s := v.Keys;
      Unlink(hit);
      elnum := elnum - 1;
      Uncount(s, hit);
    }

    method Unlink(hit: Item)
      requires Linked() && hit in v
      modifies this`table, this`v, v.Keys
      ensures Linked() && v.Keys == old(v.Keys) - {hit} && |table| == |old(table)| && elnum == old(elnum)
      ensures forall b: nat {:trigger ChainOf(b)} :: b < |table| ==>
        ChainOf(b) == if b == Slot(hashfn, hit.key, |table|) then Without(old(ChainOf(b)), hit) else old(ChainOf(b))
      ensures forall k {:trigger Lookup(k)} :: old(Lookup(k)) != hit ==> Lookup(k) == old(Lookup(k))
    {
      Near(v, table, hit);
      UnlinkedLinks(v, table, hit);
      assert Is(hit, v[hit]);
      ghost var v1 := Unlinked(v, hit, hit.prev, hit.next);
      UnlinkedOk(v, v1, table, hit, top);
      EachUnlinked(v, v1, table, hit, hashfn, cmp);
      WireUnlink(hit, v1);
      v := v1;
    }

    /** `hash_traverse_item` with the callback that collects: every item comes exactly once. */
    method TraverseItem() returns (tmp: seq<Item>)
      requires Linked()
      ensures NoTwice(tmp) && forall m :: m in tmp <==> m in Items()
      ensures tmp == InOrder(v, table, |table|)
    {
      tmp := [];
      var b := 0;
      while b < |table|
        invariant 0 <= b <= |table| && NoTwice(tmp)
        invariant forall m :: m in tmp <==> m in v && v[m].b < b
        invariant tmp == InOrder(v, table, b)
      {
        assert SlotOk(v, table, b);
        ghost var before, head := tmp, table[b];
        var hit := table[b];
        while hit != null
          invariant hit != null ==> hit in v
          invariant tmp + Chain(v, table, hit) == before + Chain(v, table, head)
          decreases if hit == null then 0 else v[hit].rank + 1
        {
          Near(v, table, hit);
          assert Is(hit, v[hit]);
          Shift(tmp, hit, Chain(v, table, v[hit].next));
          tmp := tmp + [hit];
          hit := hit.next;
        }
        assert tmp == before + Chain(v, table, head);
        WholeChain(b, before, tmp);
        b := b + 1;
      }
    }

    /** With the chain of slot `b` behind them, the items of the slots before it are those of one slot more. */
    lemma WholeChain(b: nat, before: seq<Item>, tmp: seq<Item>)
      requires Linked() && b < |table| && (table[b] != null ==> table[b] in v)
      requires NoTwice(before) && (forall m :: m in before <==> m in v && v[m].b < b)
        && tmp == before + Chain(v, table, table[b])
      ensures NoTwice(tmp) && forall m :: m in tmp <==> m in v && v[m].b < b + 1
    {
      assert SlotOk(v, table, b);
      var chain := Chain(v, table, table[b]);
      if table[b] != null {
        ChainItems(v, table, table[b]);
      }
      forall m | m in v && v[m].b == b
        ensures m in chain
      {
        Reached(v, table, top, m);
      }
      forall i, j | 0 <= i < j < |tmp|
        ensures tmp[i] != tmp[j]
      {
        assert i < |before| ==> tmp[i] in before;
        assert j >= |before| ==> tmp[j] in chain;
      }
    }

    /** Of the items that match, the one that stands last in its chain. */
    ghost function Oldest(key: Key): Item?
      reads this`table, this`v
      requires ShapeOk(v, table) && |table| > 0
    {
      LastMatch(ChainOf(Slot(hashfn, key, |table|)), key, cmp)
    }

    /** The newest match is the oldest one just when no two items match. */
    lemma OneMatch(key: Key)
      requires Linked() && Consistent(hashfn, cmp)
      ensures Lookup(key) == Oldest(key)
        <==> forall x, y ::
               x in Items() && y in Items() && cmp(key, x.key) == 0 && cmp(key, y.key) == 0 ==> x == y
    {
      var b := Slot(hashfn, key, |table|);
      var s := ChainOf(b);
      assert SlotOk(v, table, b);
      if table[b] != null {
        ChainItems(v, table, table[b]);
      }
      OnlyMatch(s, key, cmp);
      forall x | x in Items() && cmp(key, x.key) == 0
        ensures x in s
      {
        Reached(v, table, top, x);
        assert v[x].b == Slot(hashfn, x.key, |table|);
      }
    }

    /** All that match stand in one chain. */
    lemma {:induction false} LastInOrder(n: nat, key: Key)
      requires Linked() && Consistent(hashfn, cmp) && n <= |table|
      ensures LastMatch(InOrder(v, table, n), key, cmp)
        == if Slot(hashfn, key, |table|) < n then Oldest(key) else null
      decreases n
    {
      if n > 0 {
        var b := n - 1;
        LastInOrder(b, key);
        LastMatchBehind(InOrder(v, table, b), ChainOf(b), key, cmp);
        if b != Slot(hashfn, key, |table|) {
          OtherSlot(b, key);
        }
      }
    }

    lemma OtherSlot(b: nat, key: Key)
      requires Linked() && Consistent(hashfn, cmp) && b < |table| && b != Slot(hashfn, key, |table|)
      ensures LastMatch(ChainOf(b), key, cmp) == null
    {
      assert SlotOk(v, table, b);
      if table[b] != null {
        ChainItems(v, table, table[b]);
      }
      forall x | x in ChainOf(b)
        ensures cmp(key, x.key) != 0
      {
        assert v[x].b == Slot(hashfn, x.key, |table|);
      }
      NoLastMatch(ChainOf(b), key, cmp);
    }

    /** `array_reset_no_fini` on the slots. */
    method Empty(sz: nat)
      requires sz > 0
      modifies this`table, this`v, this`top
      ensures Linked() && v.Keys == {} && |table| == sz
    {
      table := seq(sz, _ => null);
      v := map[];
      top := 0;
    }

    /** The items are those of `s`, and those added last are found first. */
    ghost predicate Holds(s: seq<Item>)
      reads this`table, this`v
      requires ShapeOk(v, table) && |table| > 0
    {
      && v.Keys == (set m | m in s)
      && (Consistent(hashfn, cmp) ==> forall k {:trigger Lookup(k)} :: Lookup(k) == LastMatch(s, k, cmp))
    }

    method RelinkOne(hit: Item, ghost s: seq<Item>)
      requires Linked() && Holds(s) && hit !in s
      modifies this`table, this`v, this`top, hit, v.Keys
      ensures Linked() && |table| == |old(table)| && Holds(s + [hit]) && v.Keys == old(v.Keys) + {hit}
    {
      LastMatchMore(s, hit, cmp);
      Link(hit);
    }

    /** The loop of `hash_rehash` that adds the items again. */
    method Relink(tmp: seq<Item>)
      requires Linked() && v.Keys == {} && NoTwice(tmp)
      modifies this`table, this`v, this`top, tmp
      ensures Linked() && |table| == |old(table)| && Holds(tmp)
    {
      var i := 0;
      EmptyLookup();
      while i < |tmp|
        invariant 0 <= i <= |tmp| && Linked() && |table| == |old(table)| && Holds(tmp[..i])
      {
        Front(tmp, i);
        RelinkOne(tmp[i], tmp[..i]);
        i := i + 1;
      }
      assert tmp[..i] == tmp;
    }

    lemma EmptyLookup()
      requires Linked() && v.Keys == {}
      ensures forall k {:trigger Lookup(k)} :: Lookup(k) == null
    {
      forall k {:trigger Lookup(k)}
        ensures Lookup(k) == null
      {
        assert SlotOk(v, table, Slot(hashfn, k, |table|));
      }
    }

    /** What the last matches among all items are. */
    lemma OldestOfAll(tmp: seq<Item>)
      requires Linked() && Consistent(hashfn, cmp) && tmp == InOrder(v, table, |table|)
      ensures forall k {:trigger LastMatch(tmp, k, cmp)} :: LastMatch(tmp, k, cmp) == Oldest(k)
    {
      forall k
        ensures LastMatch(tmp, k, cmp) == Oldest(k)
      {
        LastInOrder(|table|, k);
      }
    }

    /** The items in the order in which they are added again, which makes the last match of each key the first. */
    method Collect() returns (tmp: seq<Item>)
      requires Linked()
      ensures NoTwice(tmp) && (forall m :: m in tmp <==> m in Items()) && |tmp| == |Items()|
      ensures Consistent(hashfn, cmp) ==>
        forall k {:trigger LastMatch(tmp, k, cmp)} :: LastMatch(tmp, k, cmp) == Oldest(k)
    {
      tmp := TraverseItem();
      Size(tmp, v.Keys);
      if Consistent(hashfn, cmp) {
        OldestOfAll(tmp);
      }
    }

    /** `hash_rehash`: the same items under the new size.  Items with equal keys come out in the opposite order, so that
        a lookup now finds the oldest of those that match. */
    method Rehash(sz: nat)
      requires Valid() && sz > 0
      modifies this, Items()
      ensures Valid() && Items() == old(Items()) && |table| == sz && elnum == old(elnum)
      ensures Consistent(hashfn, cmp) ==> forall k {:trigger Lookup(k)} :: Lookup(k) == old(Oldest(k))
    {
      var tmp := Collect();
      Empty(sz);
      Relink(tmp);
      assert v.Keys == old(v.Keys);
    }

    /** The same lookup on both sides of a rehash: it finds the newest match and then the oldest, which is the same item
        just when no two items match. */
    method GetRehashGet(key: Key, sz: nat) returns (before: Item?, after: Item?)
      requires Valid() && sz > 0 && Consistent(hashfn, cmp)
      modifies this, Items()
      ensures Valid() && before == old(Lookup(key)) && after == old(Oldest(key))
      ensures before == after <==>
        old(forall x, y ::
              x in Items() && y in Items() && cmp(key, x.key) == 0 && cmp(key, y.key) == 0 ==> x == y)
    {
      OneMatch(key);
      before := GetItem(key);
      Rehash(sz);
      after := GetItem(key);
    }

    /** A key set twice: the matches in its chain. */
    method SetTwice(key: Key, value0: int, value1: int)
      requires Valid() && Consistent(hashfn, cmp) && cmp(key, key) == 0 && Lookup(key) == null
      modifies this, Items()
      ensures Valid() && fresh(Items() - old(Items())) && Lookup(key) != null && Lookup(key).value == value1
      ensures Oldest(key) != null && Oldest(key).value == value0
    {
      ghost var s := ChainOf(Slot(hashfn, key, |table|));
      FirstMatchIs(s, key, cmp);
      NoLastMatch(s, key, cmp);
      var hit0 := SetItem(key, value0);
      LastMatchBehind([hit0], s, key, cmp);
      var hit1 := SetItem(key, value1);
      LastMatchBehind([hit1], [hit0] + s, key, cmp);
    }

    /** So a rehash does not keep what a lookup finds. */
    method SetTwiceThenRehash(key: Key, value0: int, value1: int, sz: nat) returns (before: Item?, after: Item?)
      requires Valid() && sz > 0 && Consistent(hashfn, cmp) && cmp(key, key) == 0 && Lookup(key) == null
      modifies this, Items()
      ensures Valid() && before != null && before.value == value1 && after != null && after.value == value0
    {
      SetTwice(key, value0, value1);
      before, after := GetRehashGet(key, sz);
    }
  }

  lemma LastMatchMore(s: seq<Item>, x: Item, cmp: (Key, Key) -> int)
    ensures forall k {:trigger LastMatch(s + [x], k, cmp)} ::
      LastMatch(s + [x], k, cmp) == if cmp(k, x.key) == 0 then x else LastMatch(s, k, cmp)
  {
    assert (s + [x])[..|s|] == s;
  }

  lemma Count(s: set<Item>, x: Item)
    requires x !in s
    ensures |s + {x}| == |s| + 1
  {
  }

  lemma Uncount(s: set<Item>, x: Item)
    requires x in s
    ensures |s - {x}| == |s| - 1
  {
  }

  lemma Shift(tmp: seq<Item>, x: Item, rest: seq<Item>)
    ensures tmp + ([x] + rest) == tmp + [x] + rest
  {
  }

  lemma Front(tmp: seq<Item>, i: nat)
    requires i < |tmp| && NoTwice(tmp)
    ensures tmp[i] !in tmp[..i] && tmp[..i + 1] == tmp[..i] + [tmp[i]]
  {
  }

  lemma {:induction false} Size(tmp: seq<Item>, s: set<Item>)
    requires NoTwice(tmp) && (forall m :: m in tmp <==> m in s)
    ensures |tmp| == |s|
    decreases |tmp|
  {
    if tmp == [] {
      assert s == {};
    } else {
      var n := |tmp| - 1;
      var x, rest := tmp[n], tmp[..n];
      assert tmp == rest + [x] && x in tmp && x !in rest;
      assert forall m :: m in rest <==> m in s - {x};
      Size(rest, s - {x});
    }
  }
}
