/** Hash chains over item objects, as plain values: what the pointers of `src/hash.c` must say, and what linking and
    unlinking an item does to them. */
module HashShape {
  /** Keys are addresses; what they mean is up to the hash function and the comparator. */
  type Key = int

  const NOT_A_HEAD: int := -1

  class Item {
    /** The index of the slot that the bucket pointer points at. */
    var bucket: int
    var prev: Item?
    var next: Item?
    const key: Key
    const value: int

    constructor (key: Key, value: int)
      ensures this.key == key && this.value == value
    {
      this.key := key;
      this.value := value;
      bucket := NOT_A_HEAD;
      prev, next := null, null;
    }
  }

  /** The links of an item in the chain of slot `b`.  Ranks fall along a chain. */
  datatype View = View(b: nat, rank: nat, prev: Item?, next: Item?)

  type Chains = map<Item, View>
  type Table = seq<Item?>

  ghost predicate ItemOk(v: Chains, table: Table, m: Item)
    requires m in v
  {
    && v[m].b < |table|
    && (v[m].prev == null <==> table[v[m].b] == m)
    && (v[m].prev != null ==>
      v[m].prev in v && v[v[m].prev].next == m && v[v[m].prev].b == v[m].b && v[v[m].prev].rank > v[m].rank)
    && (v[m].next != null ==>
      v[m].next in v && v[v[m].next].prev == m && v[v[m].next].b == v[m].b && v[v[m].next].rank < v[m].rank)
  }

  ghost predicate SlotOk(v: Chains, table: Table, b: nat)
    requires b < |table|
  {
    table[b] != null ==> table[b] in v && v[table[b]].b == b && v[table[b]].prev == null
  }

  /** Every item is in the chain of its slot, and the links of neighbours agree. */
  ghost predicate ShapeOk(v: Chains, table: Table) {
    && (forall m {:trigger ItemOk(v, table, m)} :: m in v ==> ItemOk(v, table, m))
    && (forall b: nat {:trigger SlotOk(v, table, b)} :: b < |table| ==> SlotOk(v, table, b))
  }

  ghost predicate Below(v: Chains, top: nat) {
    forall m {:trigger v[m]} :: m in v ==> v[m].rank < top
  }

  lemma Near(v: Chains, table: Table, m: Item)
    requires ShapeOk(v, table) && m in v
    ensures ItemOk(v, table, m)
    ensures v[m].prev != null ==> ItemOk(v, table, v[m].prev)
    ensures v[m].next != null ==> ItemOk(v, table, v[m].next)
  {
    assert ItemOk(v, table, m);
    assert v[m].prev != null ==> ItemOk(v, table, v[m].prev);
    assert v[m].next != null ==> ItemOk(v, table, v[m].next);
  }

  /** The chain from an item on. */
  ghost function Chain(v: Chains, table: Table, m: Item?): seq<Item>
    requires ShapeOk(v, table) && (m != null ==> m in v)
    decreases if m == null then 0 else v[m].rank + 1
  {
    if m == null then [] else
      Near(v, table, m);
      [m] + Chain(v, table, v[m].next)
  }

  /** The chain of slot `b`. */
  ghost function SlotChain(v: Chains, table: Table, b: nat): seq<Item>
    requires ShapeOk(v, table) && b < |table|
  {
    assert SlotOk(v, table, b);
    Chain(v, table, table[b])
  }

  /** The chains of the first `n` slots, one behind the other. */
  ghost function InOrder(v: Chains, table: Table, n: nat): seq<Item>
    requires ShapeOk(v, table) && n <= |table|
  {
    if n == 0 then [] else InOrder(v, table, n - 1) + SlotChain(v, table, n - 1)
  }

  /** A chain holds items of its slot only, and none of them twice. */
  lemma {:induction false} ChainItems(v: Chains, table: Table, m: Item)
    requires ShapeOk(v, table) && m in v
    ensures forall x :: x in Chain(v, table, m) ==> x in v && v[x].b == v[m].b && v[x].rank <= v[m].rank
    ensures forall i, j :: 0 <= i < j < |Chain(v, table, m)| ==> Chain(v, table, m)[i] != Chain(v, table, m)[j]
    decreases v[m].rank
  {
    Near(v, table, m);
    var n := v[m].next;
    if n != null {
      ChainItems(v, table, n);
      var c := Chain(v, table, n);
      assert forall x :: x in c ==> x != m;
      forall i, j | 0 <= i < j < |[m] + c|
        ensures ([m] + c)[i] != ([m] + c)[j]
      {
        assert c[j - 1] in c;
      }
    }
  }

  /** Every item is reached from the head of its slot. */
  lemma {:induction false} Reached(v: Chains, table: Table, top: nat, m: Item)
    requires ShapeOk(v, table) && Below(v, top) && m in v
    ensures v[m].b < |table| && table[v[m].b] != null && table[v[m].b] in v && m in Chain(v, table, table[v[m].b])
    decreases top - v[m].rank
  {
    Near(v, table, m);
    if v[m].prev != null {
      var p: Item := v[m].prev;
      Reached(v, table, top, p);
      ChainFollows(v, table, table[v[m].b], p);
    }
  }

  lemma {:induction false} ChainFollows(v: Chains, table: Table, h: Item, p: Item)
    requires ShapeOk(v, table) && h in v && p in v && p in Chain(v, table, h)
    ensures v[p].next != null ==> v[p].next in Chain(v, table, h)
    decreases v[h].rank
  {
    Near(v, table, h);
    if p != h {
      ChainFollows(v, table, v[h].next, p);
    } else if v[h].next != null {
      assert Chain(v, table, v[h].next)[0] == v[h].next;
    }
  }

  /** The first item of a chain with a key that compares equal. */
  ghost function FirstMatch(s: seq<Item>, key: Key, cmp: (Key, Key) -> int): Item? {
    if s == [] then null else if cmp(key, s[0].key) == 0 then s[0] else FirstMatch(s[1..], key, cmp)
  }

  /** The last one. */
  ghost function LastMatch(s: seq<Item>, key: Key, cmp: (Key, Key) -> int): Item? {
    if s == [] then null
    else if cmp(key, s[|s| - 1].key) == 0 then s[|s| - 1]
    else LastMatch(s[..|s| - 1], key, cmp)
  }

  /** What the first match is: an item with an equal key, and no item with one stands before it. */
  lemma {:induction false} FirstMatchIs(s: seq<Item>, key: Key, cmp: (Key, Key) -> int)
    ensures var m := FirstMatch(s, key, cmp);
      if m == null then forall x :: x in s ==> cmp(key, x.key) != 0
      else cmp(key, m.key) == 0
           && exists k :: 0 <= k < |s| && s[k] == m && forall j :: 0 <= j < k ==> cmp(key, s[j].key) != 0
  {
    if s != [] && cmp(key, s[0].key) != 0 {
      FirstMatchIs(s[1..], key, cmp);
      var m := FirstMatch(s[1..], key, cmp);
      if m != null {
        var k :| 0 <= k < |s[1..]| && s[1..][k] == m && forall j :: 0 <= j < k ==> cmp(key, s[1..][j].key) != 0;
        assert s[k + 1] == m;
        forall j | 0 <= j < k + 1
          ensures cmp(key, s[j].key) != 0
        {
          assert j > 0 ==> s[1..][j - 1] == s[j];
        }
      }
    }
  }

  /** What the last match is. */
  lemma {:induction false} LastMatchIs(s: seq<Item>, key: Key, cmp: (Key, Key) -> int)
    ensures var m := LastMatch(s, key, cmp);
      if m == null then forall x :: x in s ==> cmp(key, x.key) != 0
      else cmp(key, m.key) == 0
           && exists k :: 0 <= k < |s| && s[k] == m && forall j :: k < j < |s| ==> cmp(key, s[j].key) != 0
    decreases |s|
  {
    if s != [] && cmp(key, s[|s| - 1].key) != 0 {
      var t := s[..|s| - 1];
      LastMatchIs(t, key, cmp);
      var m := LastMatch(t, key, cmp);
      if m != null {
        var k :| 0 <= k < |t| && t[k] == m && forall j :: k < j < |t| ==> cmp(key, t[j].key) != 0;
        assert s[k] == m;
        forall j | k < j < |s|
          ensures cmp(key, s[j].key) != 0
        {
          assert j < |t| ==> t[j] == s[j];
        }
      }
    }
  }

  /** The first match is the last one just when no other item matches. */
  lemma OnlyMatch(s: seq<Item>, key: Key, cmp: (Key, Key) -> int)
    requires forall i, j :: 0 <= i < j < |s| ==> s[i] != s[j]
    ensures FirstMatch(s, key, cmp) == LastMatch(s, key, cmp)
      <==> forall x, y :: x in s && y in s && cmp(key, x.key) == 0 && cmp(key, y.key) == 0 ==> x == y
  {
    FirstMatchIs(s, key, cmp);
    LastMatchIs(s, key, cmp);
    var m, n := FirstMatch(s, key, cmp), LastMatch(s, key, cmp);
    if m != null && n != null {
      var k :| 0 <= k < |s| && s[k] == m && forall j :: 0 <= j < k ==> cmp(key, s[j].key) != 0;
      var l :| 0 <= l < |s| && s[l] == n && forall j :: l < j < |s| ==> cmp(key, s[j].key) != 0;
      forall x, y | x in s && y in s && cmp(key, x.key) == 0 && cmp(key, y.key) == 0 && m == n
        ensures x == y
      {
        var i :| 0 <= i < |s| && s[i] == x;
        var j :| 0 <= j < |s| && s[j] == y;
        assert k <= i <= l && k <= j <= l;
      }
    }
  }

  /** Taking out an item that is not the first match leaves the first match. */
  lemma {:induction false} WithoutOther(s: seq<Item>, x: Item, key: Key, cmp: (Key, Key) -> int)
    requires FirstMatch(s, key, cmp) != x
    ensures FirstMatch(Without(s, x), key, cmp) == FirstMatch(s, key, cmp)
  {
    if s != [] && s[0] != x && cmp(key, s[0].key) != 0 {
      WithoutOther(s[1..], x, key, cmp);
    }
  }

  /** Items that do not match do not count behind others. */
  lemma {:induction false} LastMatchBehind(a: seq<Item>, b: seq<Item>, key: Key, cmp: (Key, Key) -> int)
    ensures LastMatch(a + b, key, cmp)
      == if LastMatch(b, key, cmp) == null then LastMatch(a, key, cmp) else LastMatch(b, key, cmp)
    decreases |b|
  {
    if b == [] {
      assert a + b == a;
    } else {
      assert (a + b)[..|a + b| - 1] == a + b[..|b| - 1];
      LastMatchBehind(a, b[..|b| - 1], key, cmp);
    }
  }

  lemma {:induction false} NoLastMatch(s: seq<Item>, key: Key, cmp: (Key, Key) -> int)
    requires forall x :: x in s ==> cmp(key, x.key) != 0
    ensures LastMatch(s, key, cmp) == null
    decreases |s|
  {
    if s != [] {
      NoLastMatch(s[..|s| - 1], key, cmp);
    }
  }

  /** The links that putting `x` in front of the chain of slot `b` leaves, `h` having been the head. */
  ghost predicate Linking(v: Chains, v': Chains, x: Item, b: nat, rank: nat, h: Item?) {
    && x !in v && h != x && v'.Keys == v.Keys + {x} && v'[x] == View(b, rank, null, h)
    && (h != null ==> h in v && v[h].prev == null && v'[h] == v[h].(prev := x))
    && (forall m {:trigger v'[m]} :: m in v && m != h ==> v'[m] == v[m])
  }

  ghost function Linked(v: Chains, x: Item, b: nat, rank: nat, h: Item?): Chains
    requires h != null ==> h in v
  {
    (if h == null then v else v[h := v[h].(prev := x)])[x := View(b, rank, null, h)]
  }

  lemma LinkedLinks(v: Chains, table: Table, x: Item, b: nat, rank: nat)
    requires ShapeOk(v, table) && x !in v && b < |table|
    ensures table[b] != null ==> table[b] in v
    ensures Linking(v, Linked(v, x, b, rank, table[b]), x, b, rank, table[b])
  {
    assert SlotOk(v, table, b);
  }

  lemma LinkedOk(v: Chains, v': Chains, table: Table, x: Item, b: nat, rank: nat)
    requires ShapeOk(v, table) && b < |table| && Below(v, rank) && Linking(v, v', x, b, rank, table[b])
    ensures ShapeOk(v', table[b := x]) && Below(v', rank + 1)
  {
    var h, t := table[b], table[b := x];
    assert SlotOk(v, table, b);
    forall m | m in v'
      ensures ItemOk(v', t, m)
    {
      if m != x {
        LinkedItem(v, v', table, x, b, rank, m);
      }
    }
    forall c: nat | c < |t|
      ensures SlotOk(v', t, c)
    {
      assert SlotOk(v, table, c);
    }
  }

  lemma LinkedItem(v: Chains, v': Chains, table: Table, x: Item, b: nat, rank: nat, m: Item)
    requires ShapeOk(v, table) && b < |table| && Below(v, rank) && Linking(v, v', x, b, rank, table[b]) && m in v
    ensures ItemOk(v', table[b := x], m)
  {
    Near(v, table, m);
    assert SlotOk(v, table, b);
    assert v[m].rank < rank;
  }

  /** Where the links to the next items are the same, the chains are. */
  lemma {:induction false} SameChain(v: Chains, table: Table, v': Chains, table': Table, m: Item?)
    requires ShapeOk(v, table) && ShapeOk(v', table') && v.Keys <= v'.Keys && (m != null ==> m in v)
    requires forall x {:trigger v'[x]} :: x in v ==> v'[x].next == v[x].next
    ensures Chain(v', table', m) == Chain(v, table, m)
    decreases if m == null then 0 else v[m].rank + 1
  {
    if m != null {
      Near(v, table, m);
      SameChain(v, table, v', table', v[m].next);
    }
  }

  /** The new item heads its slot, with the old chain behind it; the other slots keep theirs. */
  lemma LinkedChains(v: Chains, v': Chains, table: Table, x: Item, b: nat, rank: nat, c: nat)
    requires ShapeOk(v, table) && b < |table| && Below(v, rank) && Linking(v, v', x, b, rank, table[b]) && c < |table|
    requires ShapeOk(v', table[b := x])
    ensures SlotChain(v', table[b := x], c)
      == if c == b then [x] + SlotChain(v, table, c) else SlotChain(v, table, c)
  {
    assert SlotOk(v, table, c);
    SameChain(v, table, v', table[b := x], table[c]);
  }

  /** The items without `x`, which stands among them at most once. */
  ghost function Without(s: seq<Item>, x: Item): seq<Item> {
    if s == [] then [] else if s[0] == x then s[1..] else [s[0]] + Without(s[1..], x)
  }

  lemma {:induction false} WithoutAbsent(s: seq<Item>, x: Item)
    requires x !in s
    ensures Without(s, x) == s
  {
    if s != [] {
      WithoutAbsent(s[1..], x);
    }
  }

  /** The links that taking `x` out leaves, `p` and `n` having been its neighbours. */
  ghost predicate Unlinking(v: Chains, v': Chains, x: Item, p: Item?, n: Item?) {
    && x in v && p != x && n != x && (p == n ==> p == null) && v'.Keys == v.Keys - {x} && v[x].prev == p
      && v[x].next == n
    && (p != null ==> p in v && v[p].next == x && v'[p] == v[p].(next := n))
    && (n != null ==> n in v && v[n].prev == x && v'[n] == v[n].(prev := p))
    && (forall m {:trigger v'[m]} :: m in v && m != p && m != n && m != x ==> v'[m] == v[m])
  }

  ghost function Unlinked(v: Chains, x: Item, p: Item?, n: Item?): Chains
    requires (p != null ==> p in v) && (n != null ==> n in v)
  {
    var w := if p == null then v else v[p := v[p].(next := n)];
    (if n == null then w else w[n := w[n].(prev := p)]) - {x}
  }

  ghost function Shortened(table: Table, b: nat, p: Item?, n: Item?): Table
    requires b < |table|
  {
    if p == null then table[b := n] else table
  }

  lemma UnlinkedLinks(v: Chains, table: Table, x: Item)
    requires ShapeOk(v, table) && x in v
    ensures v[x].b < |table| && (v[x].prev != null ==> v[x].prev in v) && (v[x].next != null ==> v[x].next in v)
    ensures Unlinking(v, Unlinked(v, x, v[x].prev, v[x].next), x, v[x].prev, v[x].next)
  {
    Near(v, table, x);
  }

  lemma UnlinkedItem(v: Chains, v': Chains, table: Table, x: Item, m: Item)
    requires ShapeOk(v, table) && x in v && v[x].b < |table| && Unlinking(v, v', x, v[x].prev, v[x].next) && m in v
      && m != x
    ensures ItemOk(v', Shortened(table, v[x].b, v[x].prev, v[x].next), m)
  {
    Near(v, table, x);
    Near(v, table, m);
  }

  lemma UnlinkedOk(v: Chains, v': Chains, table: Table, x: Item, top: nat)
    requires ShapeOk(v, table) && Below(v, top) && x in v && v[x].b < |table|
      && Unlinking(v, v', x, v[x].prev, v[x].next)
    ensures ShapeOk(v', Shortened(table, v[x].b, v[x].prev, v[x].next)) && Below(v', top)
  {
    var t := Shortened(table, v[x].b, v[x].prev, v[x].next);
    Near(v, table, x);
    forall m | m in v'
      ensures ItemOk(v', t, m)
    {
      UnlinkedItem(v, v', table, x, m);
    }
    forall c: nat | c < |t|
      ensures SlotOk(v', t, c)
    {
      assert SlotOk(v, table, c);
    }
    forall m {:trigger v'[m]} | m in v'
      ensures v'[m].rank < top
    {
      assert v[m].rank < top;
    }
  }

  /** Taking `x` out of the items takes it out of their chains and keeps the order. */
  lemma {:induction false} UnlinkedChain(v: Chains, v': Chains, table: Table, table': Table, x: Item, m: Item?)
    requires ShapeOk(v, table) && ShapeOk(v', table') && x in v && m != x && (m != null ==> m in v)
    requires Unlinking(v, v', x, v[x].prev, v[x].next)
    ensures Chain(v', table', m) == Without(Chain(v, table, m), x)
    decreases if m == null then 0 else v[m].rank + 1
  {
    if m != null {
      Near(v, table, m);
      Near(v, table, x);
      if v[m].next == x {
        UnlinkedChain(v, v', table, table', x, v[x].next);
        BehindAbsent(v, table, x);
      } else {
        UnlinkedChain(v, v', table, table', x, v[m].next);
      }
    }
  }

  lemma BehindAbsent(v: Chains, table: Table, x: Item)
    requires ShapeOk(v, table) && x in v
    ensures v[x].next != null ==> v[x].next in v
    ensures Without(Chain(v, table, v[x].next), x) == Chain(v, table, v[x].next) == Without(Chain(v, table, x), x)
  {
    Near(v, table, x);
    if v[x].next != null {
      ChainItems(v, table, v[x].next);
    }
    WithoutAbsent(Chain(v, table, v[x].next), x);
  }

  /** Only the chain of its slot loses `x`. */
  lemma UnlinkedChains(v: Chains, v': Chains, table: Table, x: Item, c: nat)
    requires ShapeOk(v, table) && x in v && v[x].b < |table| && Unlinking(v, v', x, v[x].prev, v[x].next)
      && c < |table|
    requires ShapeOk(v', Shortened(table, v[x].b, v[x].prev, v[x].next))
    ensures var t := Shortened(table, v[x].b, v[x].prev, v[x].next);
      SlotChain(v', t, c) == if c == v[x].b then Without(SlotChain(v, table, c), x) else SlotChain(v, table, c)
  {
    var t := Shortened(table, v[x].b, v[x].prev, v[x].next);
    assert SlotOk(v, table, c);
    Near(v, table, x);
    if table[c] == x {
      UnlinkedChain(v, v', table, t, x, v[x].next);
      BehindAbsent(v, table, x);
    } else {
      UnlinkedChain(v, v', table, t, x, table[c]);
      if c != v[x].b {
        if table[c] != null {
          ChainItems(v, table, table[c]);
        }
        WithoutAbsent(SlotChain(v, table, c), x);
      }
    }
  }
}
