/** The ordered bitwise trie of `src/btrie.c`.

    A node stands for all keys that share a prefix.  Its position is the pair of its bit index and that
    prefix with the leading one kept, so the 64 roots are the positions whose prefix is 1 and a leaf for
    key k is the position (0, k).  The ghost map `nodes` says which node stands at which position; every
    pointer of the structure is determined by it. */
module Btrie {
  import opened Bits

  /** The `digit` of a node: its level, with the side it hangs on in the top bit of 16. */
  function Digit(level: nat, sel: nat): nat {
    if sel == 0 then level else level + 0x8000
  }

  datatype Pos = Pos(idx: nat, prefix: nat)

  function Leaf(k: nat): Pos { Pos(0, k) }

  function Root(i: nat): Pos { Pos(i, 1) }

  function ParentPos(p: Pos): Pos { Pos(p.idx + 1, p.prefix / 2) }

  function ChildPos(p: Pos, sel: nat): Pos
    requires p.idx > 0
  {
    Pos(p.idx - 1, 2 * p.prefix + sel)
  }

  /** `m` is `n` or lies in the subtree of `n`. */
  ghost predicate Under(m: Pos, n: Pos) {
    m.idx <= n.idx && Shr(m.prefix, n.idx - m.idx) == n.prefix
  }

  /** `p` is on the path of a key from its root down to its leaf. */
  ghost predicate OnPath(p: Pos, key: nat) {
    p.idx < Flsl(key) && p.prefix == Shr(key, p.idx)
  }

  ghost function Path(key: nat): (ps: set<Pos>)
    ensures forall p :: p in ps <==> OnPath(p, key)
  {
    set i: nat | i < Flsl(key) :: Pos(i, Shr(key, i))
  }

  ghost function Roots(): set<Pos> { set i: nat | i < WORD_BITS :: Root(i) }

  /** The shape of a trie that holds `keys` and nothing else. */
  ghost function Closure(keys: set<nat>): set<Pos> {
    Roots() + (set k, p | k in keys && p in Path(k) :: p)
  }

  lemma UnderTransitive(a: Pos, b: Pos, c: Pos)
    requires Under(a, b) && Under(b, c)
    ensures Under(a, c)
  {
    ShrShr(a.prefix, b.idx - a.idx, c.idx - b.idx);
  }

  /** A position strictly below `n` is below exactly one of its children. */
  lemma UnderChild(m: Pos, n: Pos)
    requires Under(m, n) && m.idx < n.idx
    ensures Under(m, ChildPos(n, 0)) != Under(m, ChildPos(n, 1))
    ensures Under(ChildPos(n, 0), n) && Under(ChildPos(n, 1), n)
  {
    ShrStep(m.prefix, n.idx - 1 - m.idx);
    assert Shr(2 * n.prefix, 1) == Shr(n.prefix, 0);
    assert Shr(2 * n.prefix + 1, 1) == Shr(n.prefix, 0);
  }

  /** Two positions above a third one are above one another. */
  lemma UnderLinear(m: Pos, a: Pos, b: Pos)
    requires Under(m, a) && Under(m, b) && a.idx <= b.idx
    ensures Under(a, b)
  {
    ShrShr(m.prefix, a.idx - m.idx, b.idx - a.idx);
  }

  /** Keys below child 0 come before keys below child 1. */
  lemma ChildrenOrdered(k: nat, l: nat, p: Pos)
    requires p.idx > 0 && Under(Leaf(k), ChildPos(p, 0)) && Under(Leaf(l), ChildPos(p, 1))
    ensures k < l
  {
    ShrLess(k, l, p.idx - 1);
  }

  /** Keys with different prefixes: where the prefix of `g` is that of `key`, `k` stays on its side of `g`. */
  lemma PrefixOrder(k: nat, g: nat, key: nat, i: nat)
    requires Shr(k, i) != Shr(g, i) && Shr(g, i) == Shr(key, i)
    ensures k <= key ==> k < g
    ensures k >= key ==> k > g
  {
    if k <= key {
      ShrMonotone(k, key, i);
      ShrLess(k, g, i);
    }
    if k >= key {
      ShrMonotone(key, k, i);
      ShrLess(g, k, i);
    }
  }

  lemma {:induction false} FlslMonotone(x: nat, y: nat)
    requires 0 < x <= y
    ensures Flsl(x) <= Flsl(y)
    decreases x
  {
    if x > 1 {
      FlslMonotone(x / 2, y / 2);
    }
  }

  lemma FlslLess(x: nat, y: nat)
    requires 0 < Flsl(x) < Flsl(y)
    ensures x < y
  {
    if y <= x {
      FlslMonotone(y, x);
    }
  }

  lemma {:induction false} FlslPrefix(k: nat, i: nat)
    requires Shr(k, i) > 0
    ensures i < Flsl(k)
    decreases i
  {
    if i == 0 {
    } else {
      FlslPrefix(k / 2, i - 1);
    }
  }

  class Node {
    var parent: Node?
    var child0: Node?
    var child1: Node?
    var value: object?
    var digit: nat
    var idx: nat
    ghost var pos: Pos

    constructor (parent: Node?, idx: nat, digit: nat, ghost pos: Pos)
      ensures this.parent == parent && this.idx == idx && this.digit == digit && this.pos == pos
      ensures child0 == null && child1 == null && value == null
    {
      this.parent := parent;
      this.child0, this.child1 := null, null;
      this.value := null;
      this.digit := digit;
      this.idx := idx;
      this.pos := pos;
    }

    function Child(sel: nat): Node?
      reads this
    {
      if sel == 0 then child0 else child1
    }

    /** `MNBTRIE_NODESEL0`: on which side of its parent this node hangs. */
    function Selector(): nat
      reads this
    {
      digit / 0x8000
    }

    predicate IsOrphan()
      reads this
    {
      child0 == null && child1 == null && value == null
    }
  }

  ghost function Lookup(m: map<Pos, Node>, p: Pos): Node? {
    if p in m then m[p] else null
  }

  /** The fields of a node in some state. */
  datatype View = View(pos: Pos, idx: nat, parent: Node?, child0: Node?, child1: Node?, selector: nat, filled: bool)

  ghost function ViewOf(n: Node): View
    reads n
  {
    View(n.pos, n.idx, n.parent, n.child0, n.child1, n.Selector(), n.value != null)
  }

  /** The downward links and the payload of the node at `p`. */
  ghost predicate DownView(m: map<Pos, Node>, p: Pos, v: View) {
    && v.pos == p && v.idx == p.idx && p.prefix >= 1
    && (p.idx == 0 ==> v.child0 == null && v.child1 == null)
    && (p.idx > 0 ==>
          && v.child0 == Lookup(m, ChildPos(p, 0))
          && v.child1 == Lookup(m, ChildPos(p, 1))
          && !v.filled)
  }

  /** The upward link of the node at `p` and the side it hangs on. */
  ghost predicate UpView(m: map<Pos, Node>, p: Pos, v: View) {
    && p.idx < WORD_BITS
    && (p.prefix == 1 ==> v.parent == null && v.selector == 0)
    && (p.prefix > 1 ==>
          && ParentPos(p) in m
          && v.parent == m[ParentPos(p)]
          && v.selector == p.prefix % 2)
  }

  ghost predicate DownOk(m: map<Pos, Node>, p: Pos)
    requires p in m
    reads m[p]
  {
    DownView(m, p, ViewOf(m[p]))
  }

  ghost predicate UpOk(m: map<Pos, Node>, p: Pos)
    requires p in m
    reads m[p]
  {
    UpView(m, p, ViewOf(m[p]))
  }

  /** The fields of all nodes, to be compared with a later state. */
  ghost function Snapshot(m: map<Pos, Node>): map<Pos, View>
    reads m.Values
  {
    map p | p in m :: ViewOf(m[p])
  }

  ghost predicate ValidViews(m: map<Pos, Node>, vs: map<Pos, View>) {
    && vs.Keys == m.Keys
    && (forall p {:trigger DownView(m, p, vs[p])} :: p in m ==> DownView(m, p, vs[p]))
    && (forall p {:trigger UpView(m, p, vs[p])} :: p in m ==> UpView(m, p, vs[p]))
  }

  lemma ParentOfChild(p: Pos, sel: nat)
    requires p.idx > 0 && sel < 2
    ensures ParentPos(ChildPos(p, sel)) == p && ChildPos(p, sel).prefix % 2 == sel
  {
  }

  ghost function Unlinked(v: View, sel: nat): View {
    if sel == 0 then v.(child0 := null) else v.(child1 := null)
  }

  /** A non-root on the way up from `start` that has nothing below it but the way itself. */
  ghost predicate Lonely(m: map<Pos, Node>, start: Pos, p: Pos) {
    && p.prefix > 1 && Under(start, p)
    && (forall q :: q in m && Under(q, p) ==> Under(start, q))
  }

  /** The climb from `start` has reached `at`: everything on the way is gone from `now`, and rightly so. */
  ghost predicate Climbed(before: map<Pos, Node>, now: map<Pos, Node>, start: Pos, at: Pos) {
    && Under(start, at)
    && (forall p :: p in now ==> p in before && now[p] == before[p])
    && (forall p :: p in now <==> p in before && !(Under(start, p) && p.idx < at.idx))
    && (forall p :: p in before && Under(start, p) && p.idx < at.idx ==> Lonely(before, start, p))
  }

  lemma ClimbStep(before: map<Pos, Node>, now: map<Pos, Node>, start: Pos, at: Pos)
    requires Climbed(before, now, start, at) && Lonely(before, start, at)
    ensures Climbed(before, now - {at}, start, ParentPos(at))
  {
    ShrStep(start.prefix, at.idx - start.idx);
  }

  /** What `btrie_remove_node` takes out: the subtree at `at` and the ancestors that are left without children. */
  ghost predicate Removed(m: map<Pos, Node>, at: Pos, p: Pos) {
    || (Under(p, at) && (p != at || at.prefix > 1))
    || (at.prefix > 1 && Lonely(Pruned(m, at), ParentPos(at), p))
  }

  /** One of the keys lies below `p`. */
  ghost predicate Needed(keys: set<nat>, p: Pos) {
    exists k: nat :: k in keys && Under(Leaf(k), p)
  }

  /** `now` is `before` without the positions below `at` (or at it, when `top` is set) that no key needs. */
  ghost predicate Trimmed(before: map<Pos, Node>, now: map<Pos, Node>, keys: set<nat>, at: Pos, top: bool) {
    && (forall p :: p in now <==> p in before && (Under(p, at) && (p != at || top) ==> Needed(keys, p)))
    && (forall p :: p in now ==> now[p] == before[p])
  }

  lemma NeededBelow(keys: set<nat>, k: nat, p: Pos)
    requires k in keys && Under(Leaf(k), p)
    ensures Needed(keys, p)
  {
  }

  lemma TrimBoth(before: map<Pos, Node>, middle: map<Pos, Node>, now: map<Pos, Node>, keys: set<nat>, at: Pos)
    requires at.idx > 0
    requires Trimmed(before, middle, keys, ChildPos(at, 0), true)
    requires Trimmed(middle, now, keys, ChildPos(at, 1), true)
    ensures Trimmed(before, now, keys, at, false)
  {
    forall p | p in before
      ensures Under(p, at) && p != at <==> Under(p, ChildPos(at, 0)) || Under(p, ChildPos(at, 1))
    {
      if Under(p, at) && p != at {
        UnderChild(p, at);
      } else if Under(p, ChildPos(at, 0)) || Under(p, ChildPos(at, 1)) {
        UnderParent2(p, at);
      }
    }
  }

  /** Below the first `n` roots there are only needed positions. */
  ghost predicate CleanUpTo(m: map<Pos, Node>, keys: set<nat>, n: nat) {
    forall p :: p in m && p.prefix > 1 && p.idx + Flsl(p.prefix) <= n ==> Needed(keys, p)
  }

  lemma TrimmedRoot(before: map<Pos, Node>, now: map<Pos, Node>, keys: set<nat>, i: nat)
    requires CleanUpTo(before, keys, i) && Trimmed(before, now, keys, Root(i), false)
    ensures CleanUpTo(now, keys, i + 1)
  {
    forall p | p in now && p.prefix > 1 && p.idx + Flsl(p.prefix) == i + 1
      ensures Needed(keys, p)
    {
      FlslTop(p.prefix);
    }
  }

  lemma LeafOnPath(k: nat, key: nat)
    requires key > 0
    ensures OnPath(Leaf(k), key) <==> k == key
  {
    assert Shr(key, 0) == key;
  }

  /** Which leaves the removal of the leaf of `key` takes out. */
  lemma LeafStays(m: map<Pos, Node>, k: nat, key: nat)
    ensures Removed(m, Leaf(key), Leaf(k)) <==> k == key && key > 1
    ensures Leaf(k) in Pruned(m, Leaf(key)) <==> Leaf(k) in m && (k == key ==> key == 1)
  {
    assert Shr(k, 0) == k;
  }

  ghost predicate LeavesIn(m: map<Pos, Node>, keys: set<nat>) {
    forall k: nat :: k > 1 && Leaf(k) in m ==> k in keys
  }

  lemma LeavesAdd(m: map<Pos, Node>, m1: map<Pos, Node>, keys: set<nat>, key: nat)
    requires LeavesIn(m, keys) && m1.Keys == m.Keys + Path(key) && key > 0
    ensures LeavesIn(m1, keys + {key})
  {
    forall k: nat | Leaf(k) in m1
      ensures Leaf(k) in m || k == key
    {
      LeafOnPath(k, key);
    }
  }

  lemma LeavesRemove(m: map<Pos, Node>, m1: map<Pos, Node>, keys: set<nat>, key: nat)
    requires LeavesIn(m, keys) && m1.Keys <= m.Keys && (Leaf(key) !in m1 || key <= 1)
    ensures LeavesIn(m1, keys - {key})
  {
  }

  lemma OnlyLeafBelow(key: nat)
    ensures forall k: nat :: Under(Leaf(k), Leaf(key)) <==> k == key
  {
    forall k: nat
      ensures Under(Leaf(k), Leaf(key)) <==> k == key
    {
      assert Shr(k, 0) == k;
    }
  }

  lemma ClosureAdd(keys: set<nat>, key: nat)
    ensures Closure(keys + {key}) == Closure(keys) + Path(key)
  {
  }

  /** Two positions on the path of a key are above one another. */
  lemma PathUnder(p: Pos, q: Pos, key: nat)
    requires OnPath(p, key) && OnPath(q, key) && p.idx <= q.idx
    ensures Under(p, q)
  {
    ShrShr(key, p.idx, q.idx - p.idx);
  }

  lemma UnderOnPath(p: Pos, q: Pos, key: nat)
    requires OnPath(p, key) && Under(p, q) && q.prefix > 0
    ensures OnPath(q, key)
  {
    ShrShr(key, p.idx, q.idx - p.idx);
    FlslPrefix(key, q.idx);
  }

  lemma ParentOnPath(key: nat)
    requires key > 1
    ensures OnPath(ParentPos(Leaf(key)), key)
  {
    assert Shr(key, 1) == Shr(key / 2, 0);
    assert Flsl(key) == 1 + Flsl(key / 2) && Flsl(key / 2) == 1 + Flsl(key / 2 / 2);
  }

  /** A node below `p` that is not above the parent of the leaf of `key` serves another key. */
  lemma ServesOther(keys: set<nat>, key: nat, p: Pos, q: Pos)
    requires key > 1 && p.prefix > 1 && q in Closure(keys) && q != Leaf(key)
    requires Under(q, p) && !Under(ParentPos(Leaf(key)), q)
    ensures p in Closure(keys - {key})
  {
    if q in Roots() {
      if q.idx < p.idx {
        ShrZero(p.idx - q.idx - 1);
      }
    } else {
      var k :| k in keys && q in Path(k);
      if k == key {
        ParentOnPath(key);
        LeafOnPath(key, key);
        PathUnder(ParentPos(Leaf(key)), q, key);
      } else {
        UnderOnPath(q, p, k);
        assert k in keys - {key} && p in Path(k);
      }
    }
  }

  /** A surviving inner node on the path of the removed key serves another key. */
  lemma KeptByOther(keys: set<nat>, m: map<Pos, Node>, key: nat, p: Pos)
    requires m.Keys == Closure(keys) && key > 1 && OnPath(p, key) && p.prefix > 1
    requires !Removed(m, Leaf(key), p)
    ensures p in Closure(keys - {key})
  {
    var at := Leaf(key);
    LeafOnPath(key, key);
    assert p != at;
    ParentOnPath(key);
    PathUnder(ParentPos(at), p, key);
    var q :| q in Pruned(m, at) && Under(q, p) && !Under(ParentPos(at), q);
    ServesOther(keys, key, p, q);
  }

  /** What another key needs survives. */
  lemma KeptFor(keys: set<nat>, m: map<Pos, Node>, key: nat, p: Pos, k: nat)
    requires m.Keys == Closure(keys) && k in keys && k != key && k > 0 && OnPath(p, k)
    ensures p in m && !Removed(m, Leaf(key), p)
  {
    assert p in Path(k);
    LeafOnPath(k, k);
    LeafOnPath(key, k);
    assert Leaf(k) in Path(k) && Leaf(k) in m;
    PathUnder(Leaf(k), p, k);
    LeafStays(m, k, key);
  }

  /** Eager removal of a leaf takes a clean shape to the clean shape of one key less. */
  lemma ClosureRemove(keys: set<nat>, m: map<Pos, Node>, key: nat)
    requires m.Keys == Closure(keys) && key > 0 && 0 !in keys
    requires forall p :: p in m ==> p.prefix >= 1 && p.idx < WORD_BITS
    ensures forall p :: p in Closure(keys - {key}) <==> p in m && !Removed(m, Leaf(key), p)
  {
    forall p | p in m && !Removed(m, Leaf(key), p)
      ensures p in Closure(keys - {key})
    {
      PathOfOne(p);
      if p.prefix == 1 {
        assert p == Root(p.idx);
      } else {
        var k :| k in keys && p in Path(k);
        if k == key {
          KeptByOther(keys, m, key, p);
        } else {
          assert k in keys - {key};
        }
      }
    }
    forall p | p in Closure(keys - {key})
      ensures p in m && !Removed(m, Leaf(key), p)
    {
      if p in Roots() {
        RootStays(m, key, p);
      } else {
        var k :| k in keys - {key} && p in Path(k);
        KeptFor(keys, m, key, p, k);
      }
    }
  }

  lemma PathOfOne(p: Pos)
    ensures OnPath(p, 1) ==> p.prefix == 1
  {
    assert Flsl(1) == 1 + Flsl(0);
  }

  lemma RootStays(m: map<Pos, Node>, key: nat, p: Pos)
    requires p.prefix == 1
    ensures !Removed(m, Leaf(key), p)
  {
    if Under(p, Leaf(key)) {
      assert p == Leaf(key);
    }
  }

  lemma UnderParent2(p: Pos, at: Pos)
    requires at.idx > 0 && (Under(p, ChildPos(at, 0)) || Under(p, ChildPos(at, 1)))
    ensures Under(p, at) && p.idx < at.idx
  {
    ShrStep(p.prefix, at.idx - 1 - p.idx);
  }

  /** What is left of the trie when the subtree at `at` goes; a root itself stays. */
  ghost function Pruned(m: map<Pos, Node>, at: Pos): map<Pos, Node> {
    map p | p in m && (Under(p, at) ==> p == at && at.prefix == 1) :: m[p]
  }

  lemma DifferenceSize(x: set<Pos>, y: set<Pos>)
    requires y <= x
    ensures |x - y| == |x| - |y|
  {
    assert x == (x - y) + y;
  }

  lemma PrunedSize(m: map<Pos, Node>, at: Pos)
    requires at in m
    ensures |Pruned(m, at)| == |m| - |Below(m, at)| + (if at.prefix == 1 then 1 else 0)
  {
    var x, y, z := m.Keys, Below(m, at).Keys, Pruned(m, at).Keys;
    DifferenceSize(x, y);
    assert |x| == |m| && |y| == |Below(m, at)| && |z| == |Pruned(m, at)|;
    assert Under(at, at);
    if at.prefix == 1 {
      assert z == (x - y) + {at};
    } else {
      assert z == x - y;
    }
  }

  /** The fields after the subtree at `at` was unlinked: its parent lost a child, a root lost both of its own. */
  ghost function Severed(vs: map<Pos, View>, at: Pos): map<Pos, View>
    requires at in vs && (at.prefix > 1 ==> ParentPos(at) in vs)
  {
    if at.prefix > 1 then vs[ParentPos(at) := Unlinked(vs[ParentPos(at)], at.prefix % 2)]
    else vs[at := vs[at].(child0 := null, child1 := null)]
  }

  lemma ViewPositions(m: map<Pos, Node>, vs: map<Pos, View>, at: Pos)
    requires ValidViews(m, vs) && at in m && (at.prefix > 1 ==> ParentPos(at) in m)
    ensures forall p :: p in m ==> vs[p].pos == p && Severed(vs, at)[p].pos == p
  {
    forall p | p in m
      ensures vs[p].pos == p
    {
      assert DownView(m, p, vs[p]);
    }
  }

  /** The links of the pruned trie are right again. */
  lemma PrunedDown(m: map<Pos, Node>, vs: map<Pos, View>, at: Pos, p: Pos)
    requires ValidViews(m, vs) && at in m && (at.prefix > 1 ==> ParentPos(at) in m) && p in Pruned(m, at)
    ensures DownView(Pruned(m, at), p, Severed(vs, at)[p])
  {
    assert DownView(m, p, vs[p]) && DownView(m, at, vs[at]) && UpView(m, at, vs[at]);
    if p.idx > 0 {
      PrunedChild(m, at, p, 0);
      PrunedChild(m, at, p, 1);
    }
  }

  /** A child goes with the subtree only below the top or as the top. */
  lemma PrunedChild(m: map<Pos, Node>, at: Pos, p: Pos, sel: nat)
    requires at in m && p in Pruned(m, at) && p.idx > 0 && sel < 2
    ensures Under(ChildPos(p, sel), at) <==> p == at || ChildPos(p, sel) == at
  {
    var c := ChildPos(p, sel);
    ParentOfChild(p, sel);
    assert Under(c, p) by {
      assert Shr(c.prefix, 1) == Shr(c.prefix / 2, 0);
    }
    if Under(c, at) && c != at {
      UnderParent(c, at);
    }
  }

  lemma PrunedUp(m: map<Pos, Node>, vs: map<Pos, View>, at: Pos, p: Pos)
    requires ValidViews(m, vs) && at in m && (at.prefix > 1 ==> ParentPos(at) in m) && p in Pruned(m, at)
    ensures UpView(Pruned(m, at), p, Severed(vs, at)[p])
  {
    assert UpView(m, p, vs[p]);
    if p.prefix > 1 && Under(ParentPos(p), at) {
      assert Under(p, ParentPos(p)) by {
        assert Shr(p.prefix, 1) == Shr(p.prefix / 2, 0);
      }
      UnderTransitive(p, ParentPos(p), at);
    }
  }

  /** After `n` was hung below the node at `at` on its free side `sel`, all downward links are right again ... */
  lemma LinkDown(m: map<Pos, Node>, m1: map<Pos, Node>, vs: map<Pos, View>, at: Pos, n: Node, sel: nat)
    requires ValidViews(m, vs) && at in m && at.idx > 0 && sel < 2
    requires (if sel == 0 then vs[at].child0 else vs[at].child1) == null
    requires n.pos == ChildPos(at, sel) && m1 == m[n.pos := n]
    requires n.idx == n.pos.idx && n.child0 == null && n.child1 == null && n.value == null
    requires forall p :: p in m && p != at ==> ViewOf(m[p]) == vs[p]
    requires ViewOf(m[at]) == if sel == 0 then vs[at].(child0 := n) else vs[at].(child1 := n)
    ensures n.pos !in m
    ensures forall p {:trigger DownOk(m1, p)} :: p in m1 ==> DownOk(m1, p)
  {
    var c := n.pos;
    assert DownView(m, at, vs[at]);
    assert c !in m;
    forall p | p in m1
      ensures DownOk(m1, p)
    {
      if p != c {
        assert DownView(m, p, vs[p]);
      } else if p.idx > 0 {
        assert ChildPos(p, 0) in m ==> UpView(m, ChildPos(p, 0), vs[ChildPos(p, 0)]);
        assert ChildPos(p, 1) in m ==> UpView(m, ChildPos(p, 1), vs[ChildPos(p, 1)]);
      }
    }
  }

  /** ... and so are all upward links. */
  lemma LinkUp(m: map<Pos, Node>, m1: map<Pos, Node>, vs: map<Pos, View>, at: Pos, n: Node, sel: nat)
    requires ValidViews(m, vs) && at in m && at.idx > 0 && sel < 2
    requires n.pos == ChildPos(at, sel) && n.pos !in m && m1 == m[n.pos := n]
    requires n.parent == m[at] && n.Selector() == sel
    requires forall p :: p in m && p != at ==> ViewOf(m[p]) == vs[p]
    requires ViewOf(m[at]) == if sel == 0 then vs[at].(child0 := n) else vs[at].(child1 := n)
    ensures forall p {:trigger UpOk(m1, p)} :: p in m1 ==> UpOk(m1, p)
  {
    assert DownView(m, at, vs[at]) && UpView(m, at, vs[at]);
    ParentOfChild(at, sel);
    forall p | p in m1
      ensures UpOk(m1, p)
    {
      if p != n.pos {
        assert UpView(m, p, vs[p]);
      }
    }
  }

  /** `n1` is `n0` with the path of `key` down to level `lo` added. */
  ghost predicate Grown(n0: map<Pos, Node>, n1: map<Pos, Node>, key: nat, lo: nat) {
    && (forall p :: p in n1 <==> p in n0 || (lo <= p.idx && OnPath(p, key)))
    && (forall p :: p in n0 ==> n1[p] == n0[p])
  }

  /** The new nodes are among `made`. */
  ghost predicate Made(n0: map<Pos, Node>, n1: map<Pos, Node>, made: set<Node>) {
    forall p :: p in n1 && p !in n0 ==> n1[p] in made
  }

  /** The new nodes carry no value. */
  ghost predicate Unvalued(made: set<Node>)
    reads made
  {
    forall n :: n in made ==> n.value == null
  }

  lemma GrownStep(n0: map<Pos, Node>, n1: map<Pos, Node>, key: nat, lo: nat, n: Node)
    requires Grown(n0, n1, key, lo + 1) && lo < Flsl(key)
    ensures Pos(lo, Shr(key, lo)) in n1 ==> Grown(n0, n1, key, lo)
    ensures Pos(lo, Shr(key, lo)) !in n1 ==> Grown(n0, n1[Pos(lo, Shr(key, lo)) := n], key, lo)
  {
  }

  lemma GrownAll(n0: map<Pos, Node>, n1: map<Pos, Node>, key: nat)
    requires Grown(n0, n1, key, 0)
    ensures n1.Keys == n0.Keys + Path(key)
    ensures forall p :: p in n0 ==> n1[p] == n0[p]
  {
  }

  /** A subtree that has been cut off: `d` holds its nodes, `top` is where it hung. */
  ghost predicate Subtree(d: map<Pos, Node>, top: Pos)
    reads d.Values
  {
    && top in d
    && (forall p {:trigger DownOk(d, p)} :: p in d ==> DownOk(d, p))
    && (forall p :: p in d ==> Under(p, top))
    && (forall p {:trigger ParentPos(p)} :: p in d && p != top ==> ParentPos(p) in d)
  }

  ghost function Below(d: map<Pos, Node>, top: Pos): map<Pos, Node> {
    map p | p in d && Under(p, top) :: d[p]
  }

  /** The part of a subtree below a child is itself a subtree, and empty when the child is missing. */
  lemma SubtreeChild(d: map<Pos, Node>, top: Pos, sel: nat)
    requires Subtree(d, top) && top.idx > 0 && sel < 2
    ensures ChildPos(top, sel) in d ==> Subtree(Below(d, ChildPos(top, sel)), ChildPos(top, sel))
    ensures ChildPos(top, sel) !in d ==> Below(d, ChildPos(top, sel)) == map[]
  {
    var c := ChildPos(top, sel);
    var b := Below(d, c);
    forall p | p in b && p != c
      ensures ParentPos(p) in b && c in d
    {
      assert p.idx < c.idx;
      UnderParent(p, c);
      assert p != top;
      SubtreeReaches(d, top, p, c);
    }
    if c in d {
      forall p | p in b
        ensures DownOk(b, p)
      {
        assert DownOk(d, p);
        if p.idx > 0 {
          UnderTransitiveChildren(p, c);
        }
      }
    }
  }

  lemma UnderParent(p: Pos, c: Pos)
    requires Under(p, c) && p.idx < c.idx
    ensures Under(ParentPos(p), c)
  {
  }

  lemma UnderTransitiveChildren(p: Pos, c: Pos)
    requires Under(p, c) && p.idx > 0
    ensures Under(ChildPos(p, 0), c) && Under(ChildPos(p, 1), c)
  {
    assert Under(ChildPos(p, 0), p) && Under(ChildPos(p, 1), p) by {
      assert Shr(2 * p.prefix, 1) == Shr(p.prefix, 0);
      assert Shr(2 * p.prefix + 1, 1) == Shr(p.prefix, 0);
    }
    UnderTransitive(ChildPos(p, 0), p, c);
    UnderTransitive(ChildPos(p, 1), p, c);
  }

  lemma {:induction false} SubtreeReaches(d: map<Pos, Node>, top: Pos, p: Pos, c: Pos)
    requires Subtree(d, top) && p in d && Under(p, c) && c.idx < top.idx
    ensures c in d
    decreases c.idx - p.idx
  {
    if p != c {
      UnderParent(p, c);
      assert p != top;
      SubtreeReaches(d, top, ParentPos(p), c);
    }
  }

  lemma SplitSize(a: set<Pos>, t: Pos, x: set<Pos>, y: set<Pos>)
    requires a == {t} + (x + y) && t !in x && t !in y && x !! y
    ensures |a| == 1 + |x| + |y|
  {
    assert |x + y| == |x| + |y|;
  }

  lemma SubtreeSize(d: map<Pos, Node>, top: Pos)
    requires Subtree(d, top)
    ensures top.idx == 0 ==> |d| == 1
    ensures top.idx > 0 ==> |d| == 1 + |Below(d, ChildPos(top, 0))| + |Below(d, ChildPos(top, 1))|
  {
    if top.idx == 0 {
      assert d.Keys == {top};
      assert |d| == |d.Keys|;
    } else {
      var b0, b1 := Below(d, ChildPos(top, 0)), Below(d, ChildPos(top, 1));
      SubtreeSplit(d, top);
      SplitSize(d.Keys, top, b0.Keys, b1.Keys);
    }
  }

  lemma SubtreeSplit(d: map<Pos, Node>, top: Pos)
    requires Subtree(d, top) && top.idx > 0
    ensures d.Keys == {top} + (Below(d, ChildPos(top, 0)).Keys + Below(d, ChildPos(top, 1)).Keys)
    ensures top !in Below(d, ChildPos(top, 0)) && top !in Below(d, ChildPos(top, 1))
    ensures Below(d, ChildPos(top, 0)).Keys !! Below(d, ChildPos(top, 1)).Keys
  {
    var b0, b1 := Below(d, ChildPos(top, 0)), Below(d, ChildPos(top, 1));
    forall p | p in d && p != top
      ensures (p in b0) != (p in b1)
    {
      UnderChild(p, top);
    }
  }

  /** The nodes of the two halves of a subtree are different objects. */
  lemma SubtreeDisjoint(d: map<Pos, Node>, top: Pos)
    requires Subtree(d, top) && top.idx > 0
    ensures Below(d, ChildPos(top, 0)).Values !! Below(d, ChildPos(top, 1)).Values
    ensures d[top] !in Below(d, ChildPos(top, 0)).Values && d[top] !in Below(d, ChildPos(top, 1)).Values
  {
    SubtreeSplit(d, top);
    forall p | p in d
      ensures d[p].pos == p
    {
      assert DownOk(d, p);
    }
  }

  /** The subtrees of the two children, empty for a missing child. */
  lemma Halves(d: map<Pos, Node>, top: Pos) returns (d0: map<Pos, Node>, d1: map<Pos, Node>)
    requires Subtree(d, top)
    ensures |d| == 1 + |d0| + |d1|
    ensures d0.Values !! d1.Values && d0.Values <= d.Values && d1.Values <= d.Values
    ensures d[top] !in d0.Values && d[top] !in d1.Values
    ensures d[top].child0 == null ==> |d0| == 0
    ensures d[top].child1 == null ==> |d1| == 0
    ensures d[top].child0 != null ==>
      && d[top].child0.pos.idx < top.idx && Subtree(d0, d[top].child0.pos) && d0[d[top].child0.pos] == d[top].child0
    ensures d[top].child1 != null ==>
      && d[top].child1.pos.idx < top.idx && Subtree(d1, d[top].child1.pos) && d1[d[top].child1.pos] == d[top].child1
  {
    d0, d1 := map[], map[];
    assert DownOk(d, top);
    SubtreeSize(d, top);
    if top.idx > 0 {
      d0, d1 := Below(d, ChildPos(top, 0)), Below(d, ChildPos(top, 1));
      SubtreeDisjoint(d, top);
      HalfNode(d, top, 0);
      HalfNode(d, top, 1);
    }
  }

  lemma HalfNode(d: map<Pos, Node>, top: Pos, sel: nat)
    requires Subtree(d, top) && top.idx > 0 && sel < 2
    ensures Below(d, ChildPos(top, sel)).Values <= d.Values
    ensures d[top].Child(sel) == null ==> |Below(d, ChildPos(top, sel))| == 0
    ensures d[top].Child(sel) != null ==>
      && d[top].Child(sel).pos == ChildPos(top, sel)
      && Subtree(Below(d, ChildPos(top, sel)), ChildPos(top, sel))
      && Below(d, ChildPos(top, sel))[ChildPos(top, sel)] == d[top].Child(sel)
  {
    SubtreeChild(d, top, sel);
    assert DownOk(d, top);
    if d[top].Child(sel) != null {
      assert DownOk(d, ChildPos(top, sel));
    }
  }

  lemma {:induction false} RootsSize(n: nat)
    ensures |set i: nat | i < n :: Root(i)| == n
  {
    if n > 0 {
      RootsSize(n - 1);
      assert (set i: nat | i < n :: Root(i)) == (set i: nat | i < n - 1 :: Root(i)) + {Root(n - 1)};
    }
  }

  /** A root without subtrees. */
  ghost predicate Blank(n: Node, i: nat)
    reads n
  {
    n.parent == null && n.child0 == null && n.child1 == null && n.value == null && n.digit == 0 && n.idx == i
      && n.pos == Root(i)
  }

  class Trie {
    const roots: array<Node>
    var volume: int
    ghost var nodes: map<Pos, Node>

    ghost predicate Valid()
      reads this, roots, nodes.Values
    {
      && roots.Length == WORD_BITS
      && (forall i :: 0 <= i < WORD_BITS ==> Root(i) in nodes && roots[i] == nodes[Root(i)])
      && (forall p {:trigger DownOk(nodes, p)} :: p in nodes ==> DownOk(nodes, p))
      && (forall p {:trigger UpOk(nodes, p)} :: p in nodes ==> UpOk(nodes, p))
      && volume == |nodes| - WORD_BITS
    }

    ghost predicate Has(n: Node)
      reads this, n
    {
      n.pos in nodes && nodes[n.pos] == n
    }

    /** Key `k` is in the set: its leaf exists and carries a value. */
    ghost predicate Stored(k: nat)
      reads this, nodes.Values
    {
      Leaf(k) in nodes && nodes[Leaf(k)].value != null
    }

    ghost function Keys(): (ks: set<nat>)
      reads this, nodes.Values
      ensures forall k: nat :: k in ks <==> Stored(k)
    {
      set p | p in nodes && p.idx == 0 && Stored(p.prefix) :: p.prefix
    }

    /** Every leaf but the root for key 1 carries a value: nobody added a node and left it empty. */
    ghost predicate Tidy()
      reads this, nodes.Values
    {
      LeavesIn(nodes, Keys())
    }

    /** No orphans: every node that is not a root lies on the path of a stored key. */
    ghost predicate Clean()
      reads this, nodes.Values
    {
      nodes.Keys == Closure(Keys())
    }

    /** Ancestors of a node are in the trie. */
    lemma {:induction false} Ancestor(p: Pos, i: nat)
      requires Valid() && p in nodes && p.idx <= i < p.idx + Flsl(p.prefix)
      ensures Pos(i, Shr(p.prefix, i - p.idx)) in nodes
      decreases i - p.idx
    {
      if i > p.idx {
        assert DownOk(nodes, p) && UpOk(nodes, p);
        assert p.prefix > 1;
        Ancestor(ParentPos(p), i);
      }
    }

    /** Every stored key lies below the root of its bit length. */
    lemma KeyUnderRoot(k: nat)
      requires Valid() && Stored(k)
      ensures 0 < k && 0 < Flsl(k) <= WORD_BITS && Under(Leaf(k), Root(Flsl(k) - 1))
    {
      assert DownOk(nodes, Leaf(k));
      FlslTop(k);
      Ancestor(Leaf(k), Flsl(k) - 1);
      assert UpOk(nodes, Root(Flsl(k) - 1));
    }

    /** What the links of one node say. */
    lemma Local(n: Node)
      requires Valid() && Has(n)
      ensures DownOk(nodes, n.pos) && UpOk(nodes, n.pos)
      ensures n.child0 != null ==> n.pos.idx > 0 && n.child0.pos == ChildPos(n.pos, 0) && Has(n.child0)
      ensures n.child1 != null ==> n.pos.idx > 0 && n.child1.pos == ChildPos(n.pos, 1) && Has(n.child1)
      ensures n.child0 != null ==> n.child0.idx < n.idx
      ensures n.child1 != null ==> n.child1.idx < n.idx
      ensures n.parent != null ==> n.pos.prefix > 1 && n.parent.pos == ParentPos(n.pos) && Has(n.parent)
      ensures n.parent != null ==> n.parent.idx == n.idx + 1
    {
      assert DownOk(nodes, n.pos) && UpOk(nodes, n.pos);
      if n.child0 != null {
        assert DownOk(nodes, ChildPos(n.pos, 0));
      }
      if n.child1 != null {
        assert DownOk(nodes, ChildPos(n.pos, 1));
      }
      if n.parent != null {
        assert DownOk(nodes, ParentPos(n.pos));
      }
    }

    /** A node hangs on the side of its parent that its selector tells. */
    lemma SelectorPos(n: Node)
      requires Valid() && Has(n) && n.parent != null
      ensures n.parent.pos.idx > 0 && n.Selector() < 2 && n.pos == ChildPos(n.parent.pos, n.Selector())
    {
      Local(n);
    }

    /** A stored key below an interior node is below one of its existing children. */
    lemma KeyUnderChild(n: Node, k: nat)
      requires Valid() && Has(n) && n.pos.idx > 0 && Stored(k) && Under(Leaf(k), n.pos)
      ensures Under(Leaf(k), ChildPos(n.pos, 0)) != Under(Leaf(k), ChildPos(n.pos, 1))
      ensures Under(Leaf(k), ChildPos(n.pos, 0)) ==> n.child0 != null
      ensures Under(Leaf(k), ChildPos(n.pos, 1)) ==> n.child1 != null
    {
      assert DownOk(nodes, n.pos);
      UnderChild(Leaf(k), n.pos);
      FlslPrefix(k, n.pos.idx - 1);
      Ancestor(Leaf(k), n.pos.idx - 1);
    }

    /** How the stored keys below a node are spread over its children. */
    lemma SubtreeKeys(n: Node)
      requires Valid() && Has(n)
      ensures n.pos.idx == 0 ==> n.child0 == null && n.child1 == null
      ensures n.pos.idx == 0 ==> forall k: nat :: Under(Leaf(k), n.pos) ==> Leaf(k) == n.pos
      ensures n.pos.idx > 0 ==> forall k: nat :: Stored(k) ==>
        (Under(Leaf(k), n.pos) <==>
          || (n.child0 != null && Under(Leaf(k), ChildPos(n.pos, 0)))
          || (n.child1 != null && Under(Leaf(k), ChildPos(n.pos, 1))))
    {
      assert DownOk(nodes, n.pos);
      if n.pos.idx > 0 {
        forall k: nat | Stored(k)
          ensures Under(Leaf(k), n.pos) <==>
            || (n.child0 != null && Under(Leaf(k), ChildPos(n.pos, 0)))
            || (n.child1 != null && Under(Leaf(k), ChildPos(n.pos, 1)))
        {
          if Under(Leaf(k), n.pos) {
            KeyUnderChild(n, k);
          } else {
            ShrStep(k, n.pos.idx - 1);
          }
        }
      }
    }

    static method NewRoots() returns (rs: array<Node>)
      ensures fresh(rs) && rs.Length == WORD_BITS
      ensures forall i {:trigger rs[i]} :: 0 <= i < WORD_BITS ==> fresh(rs[i]) && Blank(rs[i], i)
    {
      var first := new Node(null, 0, 0, Root(0));
      rs := new Node[WORD_BITS](_ => first);
      var i := 0;
      while i < WORD_BITS
        invariant 0 <= i <= WORD_BITS
        invariant forall j {:trigger rs[j]} :: 0 <= j < i ==> fresh(rs[j]) && Blank(rs[j], j)
      {
        rs[i] := new Node(null, i, 0, Root(i));
        i := i + 1;
      }
    }

    /** `btrie_init` */
    constructor ()
      ensures Valid() && Keys() == {} && nodes.Keys == Roots()
      ensures fresh(roots) && forall p :: p in nodes ==> fresh(nodes[p])
    {
      var rs := NewRoots();
      roots := rs;
      nodes := map p | p in Roots() :: rs[p.idx];
      volume := 0;
      new;
      RootsSize(WORD_BITS);
      assert |nodes| == |nodes.Keys| && nodes.Keys == Roots();
      forall p | p in nodes
        ensures DownOk(nodes, p) && UpOk(nodes, p) && fresh(nodes[p]) && nodes[p].value == null
      {
        assert Blank(roots[p.idx], p.idx);
      }
    }

    /** `r` is the greatest stored key below `p`, null when there is none. */
    ghost predicate GreatestBelow(p: Pos, r: Node?)
      reads this, r, nodes.Values
    {
      && (r == null ==> forall k: nat :: Stored(k) ==> !Under(Leaf(k), p))
      && (r != null ==>
            && Has(r) && r.pos == Leaf(r.pos.prefix) && Stored(r.pos.prefix) && Under(r.pos, p)
            && forall k: nat :: Stored(k) && Under(Leaf(k), p) ==> k <= r.pos.prefix)
    }

    /** The greatest key below a node without a value comes from the child 1, else from the other. */
    lemma JoinGreatest(n: Node, far: Node?, near: Node?)
      requires Valid() && Has(n) && n.value == null
      requires n.child1 == null ==> far == null
      requires n.child1 != null ==> GreatestBelow(n.child1.pos, far)
      requires n.child0 == null ==> near == null
      requires n.child0 != null && far == null ==> GreatestBelow(n.child0.pos, near)
      ensures GreatestBelow(n.pos, if far != null then far else near)
    {
      Local(n);
      SubtreeKeys(n);
      forall k: nat, l: nat | n.pos.idx > 0 && Under(Leaf(k), ChildPos(n.pos, 0)) && Under(Leaf(l), ChildPos(n.pos, 1))
        ensures k < l
      {
        ChildrenOrdered(k, l, n.pos);
      }
    }

    lemma OwnGreatest(n: Node)
      requires Valid() && Has(n) && n.value != null
      ensures GreatestBelow(n.pos, n)
    {
      Local(n);
      SubtreeKeys(n);
    }

    /** `find_value_reverse` */
    method FindValueReverse(n: Node) returns (r: Node?)
      requires Valid() && Has(n)
      ensures GreatestBelow(n.pos, r)
      decreases n.idx
    {
      Local(n);
      if n.value != null {
        OwnGreatest(n);
        return n;
      }
      var far: Node?, near: Node? := null, null;
      if n.child1 != null {
        if n.child1.value != null {
          OwnGreatest(n.child1);
          far := n.child1;
        } else {
          far := FindValueReverse(n.child1);
        }
        if far != null {
          JoinGreatest(n, far, null);
          return far;
        }
      }
      if n.child0 != null {
        if n.child0.value != null {
          OwnGreatest(n.child0);
          near := n.child0;
        } else {
          near := FindValueReverse(n.child0);
        }
      }
      JoinGreatest(n, null, near);
      r := near;
    }

    /** No stored key in the subtree of `p` is at most `key`. */
    ghost predicate NoneAtMost(p: Pos, key: nat)
      reads this, nodes.Values
    {
      forall k: nat :: Stored(k) && Under(Leaf(k), p) ==> !(k <= key)
    }

    /** `r` is the node of the greatest stored key <= `key`, null when there is none. */
    ghost predicate IsFloor(key: nat, r: Node?)
      reads this, r, nodes.Values
    {
      && (r == null ==> forall k: nat :: Stored(k) ==> !(k <= key))
      && (r != null ==>
            && Has(r) && r.pos == Leaf(r.pos.prefix) && Stored(r.pos.prefix) && r.pos.prefix <= key
            && forall k: nat :: Stored(k) && k <= key ==> k <= r.pos.prefix)
    }

    /** The node `n` lies on the path of `key`, which turns to child 1 there if there is a child 0 at
        all, and the keys below `n` that are at most `key` can only be below child 0. */
    ghost predicate LeanLeft(n: Node, key: nat)
      reads this, n, nodes.Values
    {
      && Has(n) && n.pos.idx > 0 && Under(Leaf(key), n.pos)
      && (n.child0 != null ==> Under(Leaf(key), ChildPos(n.pos, 1)))
      && (forall k: nat :: Stored(k) && Under(Leaf(k), n.pos) && k <= key ==> Under(Leaf(k), ChildPos(n.pos, 0)))
    }

    lemma LeanLeftFound(n: Node, r: Node, key: nat)
      requires Valid() && LeanLeft(n, key) && n.child0 != null
      requires GreatestBelow(n.child0.pos, r)
      ensures IsFloor(key, r)
    {
      Local(n);
      var g := r.pos.prefix;
      assert Under(Leaf(g), ChildPos(n.pos, 0));
      ChildrenOrdered(g, key, n.pos);
      ShrStep(g, n.pos.idx - 1);
      forall k: nat | Stored(k) && k <= key
        ensures k <= g
      {
        if !Under(Leaf(k), n.pos) {
          PrefixOrder(k, g, key, n.pos.idx);
        }
      }
    }

    lemma LeanLeftNone(n: Node, key: nat)
      requires Valid() && LeanLeft(n, key)
      requires n.child0 != null ==> GreatestBelow(n.child0.pos, null)
      ensures NoneAtMost(n.pos, key)
    {
      Local(n);
      SubtreeKeys(n);
    }

    /** Below `p`, what is at most a key on side 0 is itself on side 0. */
    lemma LeanLeftSide(p: Node, k: nat, key: nat)
      requires Valid() && Has(p) && p.pos.idx > 0 && Stored(k) && Under(Leaf(k), p.pos)
      requires Under(Leaf(key), ChildPos(p.pos, 0)) && k <= key
      ensures Under(Leaf(k), ChildPos(p.pos, 0))
    {
      KeyUnderChild(p, k);
      if Under(Leaf(k), ChildPos(p.pos, 1)) {
        ChildrenOrdered(key, k, p.pos);
      }
    }

    lemma LeanLeftStart(n: Node, key: nat, sel: nat)
      requires Valid() && Has(n) && n.pos.idx > 0 && !Stored(key) && Under(Leaf(key), n.pos)
      requires sel < 2 && n.Child(sel) == null && Under(Leaf(key), ChildPos(n.pos, sel))
      ensures LeanLeft(n, key)
    {
      forall k: nat | Stored(k) && Under(Leaf(k), n.pos) && k <= key
        ensures Under(Leaf(k), ChildPos(n.pos, 0))
      {
        if sel == 0 {
          LeanLeftSide(n, k, key);
        } else {
          KeyUnderChild(n, k);
        }
      }
    }

    /** A subtree without candidates: climbing from side 0 leaves none, from side 1 only the sibling's. */
    lemma LeanLeftClimb(n: Node, key: nat)
      requires Valid() && Has(n) && n.parent != null
      requires Under(Leaf(key), n.pos) && NoneAtMost(n.pos, key)
      ensures n.Selector() < 2 && Under(Leaf(key), n.parent.pos)
      ensures n.Selector() == 0 ==> NoneAtMost(n.parent.pos, key)
      ensures n.Selector() == 1 ==> LeanLeft(n.parent, key)
    {
      Local(n);
      var p := n.parent;
      SelectorPos(n);
      ShrStep(key, n.pos.idx);
      if n.Selector() == 0 {
        forall k: nat | Stored(k) && Under(Leaf(k), p.pos) && k <= key
          ensures false
        {
          LeanLeftSide(p, k, key);
        }
      } else {
        forall k: nat | Stored(k) && Under(Leaf(k), p.pos) && k <= key
          ensures Under(Leaf(k), ChildPos(p.pos, 0))
        {
          KeyUnderChild(p, k);
        }
      }
    }

    /** The inner loop of `find_value_lean_left`: up past every link of side 0, then one more. */
    method LeanLeftSkip(start: Node, ghost key: nat) returns (r: Node?)
      requires Valid() && Has(start) && Under(Leaf(key), start.pos) && NoneAtMost(start.pos, key)
      requires start.parent != null && start.Selector() == 0
      ensures r != null ==> LeanLeft(r, key) && r.pos.idx > start.pos.idx
      ensures r == null ==> key > 0 && NoneAtMost(Root(Flsl(key) - 1), key)
    {
      var node: Node := start;
      var mysel := 0;
      while node.parent != null && mysel == 0
        invariant Has(node) && Under(Leaf(key), node.pos) && NoneAtMost(node.pos, key)
        invariant mysel == node.Selector() && node.pos.idx >= start.pos.idx
        decreases WORD_BITS - node.pos.idx
      {
        Local(node);
        LeanLeftClimb(node, key);
        node := node.parent;
        mysel := node.Selector();
      }
      Local(node);
      if node.parent != null {
        LeanLeftClimb(node, key);
      } else {
        FlslUnique(key, node.pos.idx);
      }
      r := node.parent;
    }

    /** The first step of `find_value_lean_left`: what child 0 has to offer. */
    method LeanLeftHere(node: Node, ghost key: nat) returns (r: Node?)
      requires Valid() && LeanLeft(node, key)
      ensures r != null ==> IsFloor(key, r)
      ensures r == null ==> NoneAtMost(node.pos, key)
    {
      r := null;
      if node.child0 != null {
        Local(node);
        r := FindValueReverse(node.child0);
        if r != null {
          LeanLeftFound(node, r, key);
          return;
        }
      }
      LeanLeftNone(node, key);
    }

    /** `find_value_lean_left`, called where the path of `key` breaks off. */
    method FindValueLeanLeft(start: Node, ghost key: nat) returns (r: Node?)
      requires Valid() && LeanLeft(start, key)
      ensures r != null ==> IsFloor(key, r)
      ensures r == null ==> key > 0 && NoneAtMost(Root(Flsl(key) - 1), key)
    {
      var node: Node? := start;
      while node != null
        invariant node != null ==> LeanLeft(node, key)
        invariant node == null ==> key > 0 && NoneAtMost(Root(Flsl(key) - 1), key)
        decreases if node == null then 0 else 1 + WORD_BITS - node.pos.idx
      {
        r := LeanLeftHere(node, key);
        if r != null {
          return;
        }
        Local(node);
        var parent := node.parent;
        if parent == null {
          FlslUnique(key, node.pos.idx);
          return null;
        }
        var mysel := node.Selector();
        if mysel == 1 {
          LeanLeftClimb(node, key);
          node := parent;
        } else {
          node := LeanLeftSkip(node, key);
        }
      }
      r := node;
    }

    /** `r` is the least stored key below `p`, null when there is none. */
    ghost predicate LeastBelow(p: Pos, r: Node?)
      reads this, r, nodes.Values
    {
      && (r == null ==> forall k: nat :: Stored(k) ==> !Under(Leaf(k), p))
      && (r != null ==>
            && Has(r) && r.pos == Leaf(r.pos.prefix) && Stored(r.pos.prefix) && Under(r.pos, p)
            && forall k: nat :: Stored(k) && Under(Leaf(k), p) ==> r.pos.prefix <= k)
    }

    /** The least key below a node without a value comes from the child 0, else from the other. */
    lemma JoinLeast(n: Node, far: Node?, near: Node?)
      requires Valid() && Has(n) && n.value == null
      requires n.child0 == null ==> far == null
      requires n.child0 != null ==> LeastBelow(n.child0.pos, far)
      requires n.child1 == null ==> near == null
      requires n.child1 != null && far == null ==> LeastBelow(n.child1.pos, near)
      ensures LeastBelow(n.pos, if far != null then far else near)
    {
      Local(n);
      SubtreeKeys(n);
      forall k: nat, l: nat | n.pos.idx > 0 && Under(Leaf(k), ChildPos(n.pos, 0)) && Under(Leaf(l), ChildPos(n.pos, 1))
        ensures k < l
      {
        ChildrenOrdered(k, l, n.pos);
      }
    }

    lemma OwnLeast(n: Node)
      requires Valid() && Has(n) && n.value != null
      ensures LeastBelow(n.pos, n)
    {
      Local(n);
      SubtreeKeys(n);
    }

    /** `find_value_traverse` */
    method FindValueTraverse(n: Node) returns (r: Node?)
      requires Valid() && Has(n)
      ensures LeastBelow(n.pos, r)
      decreases n.idx
    {
      Local(n);
      if n.value != null {
        OwnLeast(n);
        return n;
      }
      var far: Node?, near: Node? := null, null;
      if n.child0 != null {
        if n.child0.value != null {
          OwnLeast(n.child0);
          far := n.child0;
        } else {
          far := FindValueTraverse(n.child0);
        }
        if far != null {
          JoinLeast(n, far, null);
          return far;
        }
      }
      if n.child1 != null {
        if n.child1.value != null {
          OwnLeast(n.child1);
          near := n.child1;
        } else {
          near := FindValueTraverse(n.child1);
        }
      }
      JoinLeast(n, null, near);
      r := near;
    }

    /** No stored key in the subtree of `p` is at least `key`. */
    ghost predicate NoneAtLeast(p: Pos, key: nat)
      reads this, nodes.Values
    {
      forall k: nat :: Stored(k) && Under(Leaf(k), p) ==> !(k >= key)
    }

    /** `r` is the node of the least stored key >= `key`, null when there is none. */
    ghost predicate IsCeiling(key: nat, r: Node?)
      reads this, r, nodes.Values
    {
      && (r == null ==> forall k: nat :: Stored(k) ==> !(k >= key))
      && (r != null ==>
            && Has(r) && r.pos == Leaf(r.pos.prefix) && Stored(r.pos.prefix) && r.pos.prefix >= key
            && forall k: nat :: Stored(k) && k >= key ==> k >= r.pos.prefix)
    }

    /** The node `n` lies on the path of `key`, which turns to child 0 there if there is a child 1 at
        all, and the keys below `n` that are at least `key` can only be below child 1. */
    ghost predicate LeanRight(n: Node, key: nat)
      reads this, n, nodes.Values
    {
      && Has(n) && n.pos.idx > 0 && Under(Leaf(key), n.pos)
      && (n.child1 != null ==> Under(Leaf(key), ChildPos(n.pos, 0)))
      && (forall k: nat :: Stored(k) && Under(Leaf(k), n.pos) && k >= key ==> Under(Leaf(k), ChildPos(n.pos, 1)))
    }

    lemma LeanRightFound(n: Node, r: Node, key: nat)
      requires Valid() && LeanRight(n, key) && n.child1 != null
      requires LeastBelow(n.child1.pos, r)
      ensures IsCeiling(key, r)
    {
      Local(n);
      var g := r.pos.prefix;
      assert Under(Leaf(g), ChildPos(n.pos, 1));
      ChildrenOrdered(key, g, n.pos);
      ShrStep(g, n.pos.idx - 1);
      forall k: nat | Stored(k) && k >= key
        ensures k >= g
      {
        if !Under(Leaf(k), n.pos) {
          PrefixOrder(k, g, key, n.pos.idx);
        }
      }
    }

    lemma LeanRightNone(n: Node, key: nat)
      requires Valid() && LeanRight(n, key)
      requires n.child1 != null ==> LeastBelow(n.child1.pos, null)
      ensures NoneAtLeast(n.pos, key)
    {
      Local(n);
      SubtreeKeys(n);
    }

    /** Below `p`, what is at least a key on side 1 is itself on side 1. */
    lemma LeanRightSide(p: Node, k: nat, key: nat)
      requires Valid() && Has(p) && p.pos.idx > 0 && Stored(k) && Under(Leaf(k), p.pos)
      requires Under(Leaf(key), ChildPos(p.pos, 1)) && k >= key
      ensures Under(Leaf(k), ChildPos(p.pos, 1))
    {
      KeyUnderChild(p, k);
      if Under(Leaf(k), ChildPos(p.pos, 0)) {
        ChildrenOrdered(k, key, p.pos);
      }
    }

    lemma LeanRightStart(n: Node, key: nat, sel: nat)
      requires Valid() && Has(n) && n.pos.idx > 0 && !Stored(key) && Under(Leaf(key), n.pos)
      requires sel < 2 && n.Child(sel) == null && Under(Leaf(key), ChildPos(n.pos, sel))
      ensures LeanRight(n, key)
    {
      forall k: nat | Stored(k) && Under(Leaf(k), n.pos) && k >= key
        ensures Under(Leaf(k), ChildPos(n.pos, 1))
      {
        if sel == 1 {
          LeanRightSide(n, k, key);
        } else {
          KeyUnderChild(n, k);
        }
      }
    }

    /** A subtree without candidates: climbing from side 1 leaves none, from side 0 only the sibling's. */
    lemma LeanRightClimb(n: Node, key: nat)
      requires Valid() && Has(n) && n.parent != null
      requires Under(Leaf(key), n.pos) && NoneAtLeast(n.pos, key)
      ensures n.Selector() < 2 && Under(Leaf(key), n.parent.pos)
      ensures n.Selector() == 1 ==> NoneAtLeast(n.parent.pos, key)
      ensures n.Selector() == 0 ==> LeanRight(n.parent, key)
    {
      Local(n);
      var p := n.parent;
      SelectorPos(n);
      ShrStep(key, n.pos.idx);
      if n.Selector() == 1 {
        forall k: nat | Stored(k) && Under(Leaf(k), p.pos) && k >= key
          ensures false
        {
          LeanRightSide(p, k, key);
        }
      } else {
        forall k: nat | Stored(k) && Under(Leaf(k), p.pos) && k >= key
          ensures Under(Leaf(k), ChildPos(p.pos, 1))
        {
          KeyUnderChild(p, k);
        }
      }
    }

    /** The inner loop of `find_value_lean_right`: up past every link of side 1, then one more. */
    method LeanRightSkip(start: Node, ghost key: nat) returns (r: Node?)
      requires Valid() && Has(start) && Under(Leaf(key), start.pos) && NoneAtLeast(start.pos, key)
      requires start.parent != null && start.Selector() == 1
      ensures r != null ==> LeanRight(r, key) && r.pos.idx > start.pos.idx
      ensures r == null ==> key > 0 && NoneAtLeast(Root(Flsl(key) - 1), key)
    {
      var node: Node := start;
      var mysel := 1;
      while node.parent != null && mysel == 1
        invariant Has(node) && Under(Leaf(key), node.pos) && NoneAtLeast(node.pos, key)
        invariant mysel == node.Selector() && node.pos.idx >= start.pos.idx
        decreases WORD_BITS - node.pos.idx
      {
        Local(node);
        LeanRightClimb(node, key);
        node := node.parent;
        mysel := node.Selector();
      }
      Local(node);
      if node.parent != null {
        LeanRightClimb(node, key);
      } else {
        FlslUnique(key, node.pos.idx);
      }
      r := node.parent;
    }

    /** The first step of `find_value_lean_right`: what child 1 has to offer. */
    method LeanRightHere(node: Node, ghost key: nat) returns (r: Node?)
      requires Valid() && LeanRight(node, key)
      ensures r != null ==> IsCeiling(key, r)
      ensures r == null ==> NoneAtLeast(node.pos, key)
    {
      r := null;
      if node.child1 != null {
        Local(node);
        r := FindValueTraverse(node.child1);
        if r != null {
          LeanRightFound(node, r, key);
          return;
        }
      }
      LeanRightNone(node, key);
    }

    /** `find_value_lean_right`, called where the path of `key` breaks off. */
    method FindValueLeanRight(start: Node, ghost key: nat) returns (r: Node?)
      requires Valid() && LeanRight(start, key)
      ensures r != null ==> IsCeiling(key, r)
      ensures r == null ==> key > 0 && NoneAtLeast(Root(Flsl(key) - 1), key)
    {
      var node: Node? := start;
      while node != null
        invariant node != null ==> LeanRight(node, key)
        invariant node == null ==> key > 0 && NoneAtLeast(Root(Flsl(key) - 1), key)
        decreases if node == null then 0 else 1 + WORD_BITS - node.pos.idx
      {
        r := LeanRightHere(node, key);
        if r != null {
          return;
        }
        Local(node);
        var parent := node.parent;
        if parent == null {
          FlslUnique(key, node.pos.idx);
          return null;
        }
        var mysel := node.Selector();
        if mysel == 0 {
          LeanRightClimb(node, key);
          node := parent;
        } else {
          node := LeanRightSkip(node, key);
        }
      }
      r := node;
    }

    /** The leaf of `key` was added and never given a value (the code itself checks the root of key 1). */
    ghost predicate Stale(key: nat)
      reads this, nodes.Values
    {
      key > 1 && Leaf(key) in nodes && !Stored(key)
    }

    /** A gap in the path of a key means that its leaf is missing. */
    lemma MissingLeaf(key: nat, i: nat)
      requires Valid() && i < Flsl(key) && Pos(i, Shr(key, i)) !in nodes
      ensures Leaf(key) !in nodes
    {
      if Leaf(key) in nodes {
        Ancestor(Leaf(key), i);
      }
    }

    /** The child on the way of a key, or the absence of its leaf. */
    lemma Turn(node: Node, key: nat)
      requires Valid() && Has(node) && node.idx == node.pos.idx > 0 && Under(Leaf(key), node.pos)
      ensures var sel := Shr(key, node.idx - 1) % 2;
        && Under(Leaf(key), ChildPos(node.pos, sel))
        && var c := node.Child(sel);
        && (c == null ==> Leaf(key) !in nodes)
        && (c != null ==> Has(c) && c.pos == ChildPos(node.pos, sel) && c.idx == c.pos.idx)
    {
      Local(node);
      ShrStep(key, node.idx - 1);
      var c := node.Child(Shr(key, node.idx - 1) % 2);
      if c == null {
        if Shr(key, node.idx - 1) > 0 {
          FlslPrefix(key, node.idx - 1);
        }
        MissingLeaf(key, node.idx - 1);
      } else {
        Local(c);
      }
    }

    /** `find_closest_partial_back` */
    method FindClosestPartialBack(root: Node, key: Word) returns (r: Node?)
      requires Valid() && key > 0 && Has(root) && root.pos == Root(Flsl(key) - 1)
      ensures Stale(key) ==> r == nodes[Leaf(key)]
      ensures !Stale(key) && r != null ==> IsFloor(key, r)
      ensures !Stale(key) && r == null ==> NoneAtMost(root.pos, key)
    {
      var node: Node := root;
      FlslTop(key);
      Local(node);
      if node.idx == 0 {
        assert key == Shr(key, 0);
        return if node.value == null then null else node;
      }
      while node.idx > 0
        invariant Has(node) && node.idx == node.pos.idx && Under(Leaf(key), node.pos)
        invariant key > 1 && node.idx < Flsl(key)
        decreases node.idx
      {
        Turn(node, key);
        var sel := Shr(key, node.idx - 1) % 2;
        var tmp := node.Child(sel);
        if tmp != null {
          node := tmp;
        } else {
          LeanLeftStart(node, key, sel);
          r := FindValueLeanLeft(node, key);
          return;
        }
      }
      r := node;
    }

    /** `find_closest_partial_forw` */
    method FindClosestPartialForw(root: Node, key: Word) returns (r: Node?)
      requires Valid() && key > 0 && Has(root) && root.pos == Root(Flsl(key) - 1)
      ensures Stale(key) ==> r == nodes[Leaf(key)]
      ensures !Stale(key) && r != null ==> IsCeiling(key, r)
      ensures !Stale(key) && r == null ==> NoneAtLeast(root.pos, key)
    {
      var node: Node := root;
      FlslTop(key);
      Local(node);
      if node.idx == 0 {
        assert key == Shr(key, 0);
        return if node.value == null then null else node;
      }
      while node.idx > 0
        invariant Has(node) && node.idx == node.pos.idx && Under(Leaf(key), node.pos)
        invariant key > 1 && node.idx < Flsl(key)
        decreases node.idx
      {
        Turn(node, key);
        var sel := Shr(key, node.idx - 1) % 2;
        var tmp := node.Child(sel);
        if tmp != null {
          node := tmp;
        } else {
          LeanRightStart(node, key, sel);
          r := FindValueLeanRight(node, key);
          return;
        }
      }
      r := node;
    }

    /** No stored key at least `key` has a bit length up to `n`. */
    ghost predicate NoneUpTo(key: nat, n: nat)
      reads this, nodes.Values
    {
      forall k: nat :: Stored(k) && k >= key ==> Flsl(k) > n
    }

    /** No stored key at most `key` has a bit length from `n` on. */
    ghost predicate NoneFrom(key: nat, n: nat)
      reads this, nodes.Values
    {
      forall k: nat :: Stored(k) && k <= key ==> Flsl(k) < n
    }

    /** A root none of whose keys is at least `key`. */
    lemma NextUp(key: nat, i: nat)
      requires Valid() && 0 < key && Flsl(key) <= i + 1 && NoneAtLeast(Root(i), key)
      requires forall k: nat :: Stored(k) && k >= key ==> Flsl(k) > i
      ensures NoneUpTo(key, i + 1)
    {
      forall k: nat | Stored(k) && k >= key
        ensures Flsl(k) > i + 1
      {
        KeyUnderRoot(k);
      }
    }

    lemma NextDown(key: nat, i: nat)
      requires Valid() && 0 < key && NoneAtMost(Root(i), key)
      requires forall k: nat :: Stored(k) && k <= key ==> Flsl(k) <= i + 1
      ensures NoneFrom(key, i + 1)
    {
      forall k: nat | Stored(k) && k <= key
        ensures Flsl(k) < i + 1
      {
        KeyUnderRoot(k);
      }
    }

    /** The least key of the first non-empty root above the root of `key`. */
    lemma CeilingAbove(key: nat, i: nat, r: Node)
      requires Valid() && 0 < key && Flsl(key) <= i < WORD_BITS && LeastBelow(Root(i), r) && NoneUpTo(key, i)
      ensures IsCeiling(key, r)
    {
      var g := r.pos.prefix;
      FlslUnique(g, i);
      FlslLess(key, g);
      forall k: nat | Stored(k) && k >= key
        ensures k >= g
      {
        if Flsl(k) == i + 1 {
          KeyUnderRoot(k);
        } else {
          FlslLess(g, k);
        }
      }
    }

    /** The greatest key of the first non-empty root below the root of `key`. */
    lemma FloorBelow(key: nat, i: nat, r: Node)
      requires Valid() && 0 < key && i < WORD_BITS && i + 1 < Flsl(key) && GreatestBelow(Root(i), r)
      requires NoneFrom(key, i + 2)
      ensures IsFloor(key, r)
    {
      var g := r.pos.prefix;
      FlslUnique(g, i);
      FlslLess(g, key);
      forall k: nat | Stored(k) && k <= key
        ensures k <= g
      {
        KeyUnderRoot(k);
        if Flsl(k) != i + 1 {
          FlslLess(k, g);
        }
      }
    }

    lemma AllBelow(key: nat)
      requires Valid() && NoneUpTo(key, WORD_BITS)
      ensures IsCeiling(key, null)
    {
      forall k: nat | Stored(k)
        ensures k < key
      {
        KeyUnderRoot(k);
      }
    }

    lemma AllAbove(key: nat)
      requires Valid() && NoneFrom(key, 1)
      ensures IsFloor(key, null)
    {
      forall k: nat | Stored(k)
        ensures k > key
      {
        KeyUnderRoot(k);
      }
    }

    /** Before the scan of the other roots: the root of `key` had nothing to offer. */
    lemma ScanUpStart(key: nat)
      requires Valid() && 0 < key && Flsl(key) > 0 && NoneAtLeast(Root(Flsl(key) - 1), key)
      ensures NoneUpTo(key, Flsl(key))
    {
      forall k: nat | Stored(k) && k >= key
        ensures Flsl(k) > Flsl(key) - 1
      {
        FlslMonotone(key, k);
      }
      NextUp(key, Flsl(key) - 1);
    }

    lemma NoneLonger(key: nat)
      requires Valid()
      ensures NoneFrom(key, Flsl(key) + 1)
    {
      forall k: nat | Stored(k) && k <= key
        ensures Flsl(k) <= Flsl(key)
      {
        KeyUnderRoot(k);
        FlslMonotone(k, key);
      }
    }

    lemma ScanDownStart(key: nat)
      requires Valid() && 0 < key && Flsl(key) > 0 && NoneAtMost(Root(Flsl(key) - 1), key)
      ensures NoneFrom(key, Flsl(key))
    {
      NoneLonger(key);
      NextDown(key, Flsl(key) - 1);
    }

    lemma RootAt(i: nat)
      requires Valid() && i < WORD_BITS
      ensures Has(roots[i]) && roots[i].pos == Root(i)
    {
      assert Root(i) in nodes && roots[i] == nodes[Root(i)];
      assert DownOk(nodes, Root(i));
    }

    /** `btrie_find_closest`: direction 0 looks down, any other direction up. */
    method FindClosest(key: Word, direction: int) returns (r: Node?)
      requires Valid()
      ensures key == 0 ==> r == null
      ensures key > 0 && direction == 0 ==> (IsFloor(key, r) <==> !Stale(key))
      ensures key > 0 && direction != 0 ==> (IsCeiling(key, r) <==> !Stale(key))
      ensures key > 0 && Stale(key) ==> r == nodes[Leaf(key)]
      ensures key > 0 && Tidy() ==> !Stale(key)
    {
      var idx: int := Flsl(key);
      if idx == 0 {
        return null;
      }
      idx := idx - 1;
      FlslWord(key);
      RootAt(idx);
      if direction != 0 {
        r := FindClosestPartialForw(roots[idx], key);
        if r != null {
          return;
        }
        ScanUpStart(key);
        idx := idx + 1;
        while idx < WORD_BITS
          invariant Flsl(key) <= idx <= WORD_BITS && NoneUpTo(key, idx) && r == null
        {
          RootAt(idx);
          r := FindValueTraverse(roots[idx]);
          if r != null {
            CeilingAbove(key, idx, r);
            break;
          }
          NextUp(key, idx);
          idx := idx + 1;
        }
        if r == null {
          AllBelow(key);
        }
      } else {
        r := FindClosestPartialBack(roots[idx], key);
        if r != null {
          return;
        }
        ScanDownStart(key);
        idx := idx - 1;
        while idx >= 0
          invariant -1 <= idx < Flsl(key) - 1 && NoneFrom(key, idx + 2) && r == null
          decreases idx
        {
          RootAt(idx);
          r := FindValueReverse(roots[idx]);
          if r != null {
            FloorBelow(key, idx, r);
            break;
          }
          NextDown(key, idx);
          idx := idx - 1;
        }
        if r == null {
          AllAbove(key);
        }
      }
    }

    /** The child on the path of a key is the node at the next position of that path. */
    lemma StepDown(cur: Node, key: nat, idx: nat)
      requires Valid() && Has(cur) && cur.pos == Pos(idx + 1, Shr(key, idx + 1)) && idx < Flsl(key)
      ensures cur.Child(Shr(key, idx) % 2) == Lookup(nodes, Pos(idx, Shr(key, idx)))
      ensures Pos(idx, Shr(key, idx)) !in nodes ==> Leaf(key) !in nodes
      ensures Pos(idx, Shr(key, idx)) in nodes ==> Has(nodes[Pos(idx, Shr(key, idx))])
      ensures Pos(idx, Shr(key, idx)) in nodes ==> nodes[Pos(idx, Shr(key, idx))].pos == Pos(idx, Shr(key, idx))
    {
      ShrStep(key, idx);
      Local(cur);
      if Pos(idx, Shr(key, idx)) !in nodes {
        MissingLeaf(key, idx);
      } else {
        assert DownOk(nodes, Pos(idx, Shr(key, idx)));
      }
    }

    /** `btrie_find_exact` */
    method FindExact(key: Word) returns (r: Node?)
      requires Valid()
      ensures key == 0 ==> r == null
      ensures key > 0 ==> r == Lookup(nodes, Leaf(key))
      ensures Stored(key) <==> r != null && r.value != null
    {
      var idx: int := Flsl(key);
      if idx == 0 {
        assert !Stored(0) by {
          if Stored(0) {
            KeyUnderRoot(0);
          }
        }
        return null;
      }
      FlslWord(key);
      FlslTop(key);
      idx := idx - 1;
      RootAt(idx);
      var cur: Node? := roots[idx];
      idx := idx - 1;
      while cur != null && idx >= 0
        invariant -1 <= idx < Flsl(key) - 1
        invariant cur == Lookup(nodes, Pos(idx + 1, Shr(key, idx + 1)))
        invariant cur != null ==> Has(cur) && cur.pos == Pos(idx + 1, Shr(key, idx + 1))
        invariant cur == null ==> Leaf(key) !in nodes
        decreases idx
      {
        var sel := Shr(key, idx) % 2;
        StepDown(cur, key, idx);
        cur := cur.Child(sel);
        idx := idx - 1;
      }
      r := cur;
    }

    lemma TakeViews() returns (vs: map<Pos, View>)
      requires Valid()
      ensures ValidViews(nodes, vs)
      ensures forall p :: p in nodes ==> vs[p] == ViewOf(nodes[p])
    {
      vs := Snapshot(nodes);
      assert forall p :: p in nodes ==> DownOk(nodes, p) && UpOk(nodes, p);
    }

    /** The trie is valid again once the new node `n` is linked below `at` and entered in `nodes`. */
    lemma Linked(before: map<Pos, Node>, vs: map<Pos, View>, at: Pos, n: Node, sel: nat)
      requires ValidViews(before, vs) && at in before && at.idx > 0 && sel < 2
      requires (if sel == 0 then vs[at].child0 else vs[at].child1) == null
      requires n.pos == ChildPos(at, sel) && nodes == before[n.pos := n]
      requires ViewOf(n) == View(n.pos, n.pos.idx, before[at], null, null, sel, false)
      requires forall p :: p in before && p != at ==> ViewOf(before[p]) == vs[p]
      requires ViewOf(before[at]) == if sel == 0 then vs[at].(child0 := n) else vs[at].(child1 := n)
      requires roots.Length == WORD_BITS && volume == |before| + 1 - WORD_BITS
      requires forall i :: 0 <= i < WORD_BITS ==> Root(i) in before && roots[i] == before[Root(i)]
      ensures n.pos !in before && Valid()
    {
      LinkDown(before, nodes, vs, at, n, sel);
      LinkUp(before, nodes, vs, at, n, sel);
    }

    /** `btrie_node_init` on new memory, and the link from the parent. */
    method Attach(cur: Node, sel: nat, idx: nat, digit: nat, ghost vs: map<Pos, View>) returns (n: Node)
      requires Has(cur) && cur.pos.idx > 0 && sel < 2 && idx == cur.pos.idx - 1 && digit < 0x8000
      requires ValidViews(nodes, vs) && forall p :: p in nodes ==> vs[p] == ViewOf(nodes[p])
      modifies cur`child0, cur`child1
      ensures fresh(n) && n.value == null && n.pos == old(ChildPos(cur.pos, sel))
      ensures ViewOf(n) == View(n.pos, idx, cur, null, null, sel, false)
      ensures forall p :: p in nodes && p != cur.pos ==> ViewOf(nodes[p]) == vs[p]
      ensures ViewOf(cur) == if sel == 0 then vs[cur.pos].(child0 := n) else vs[cur.pos].(child1 := n)
    {
      n := new Node(cur, idx, Digit(digit, sel), Pos(idx, 2 * cur.pos.prefix + sel));
      if sel == 0 {
        cur.child0 := n;
      } else {
        cur.child1 := n;
      }
      forall p | p in nodes && p != cur.pos
        ensures ViewOf(nodes[p]) == vs[p]
      {
        assert DownView(nodes, p, vs[p]);
      }
    }

    /** Links a fresh node below `cur` on side `sel`. */
    method AddChild(cur: Node, sel: nat, idx: nat, digit: nat) returns (n: Node)
      requires Valid() && Has(cur) && cur.pos.idx > 0 && sel < 2 && cur.Child(sel) == null
      requires idx == cur.pos.idx - 1 && digit < 0x8000
      modifies this`nodes, this`volume, cur`child0, cur`child1
      ensures Valid() && fresh(n) && n.value == null
      ensures n.pos == old(ChildPos(cur.pos, sel)) && n.pos !in old(nodes) && nodes == old(nodes)[n.pos := n]
    {
      ghost var vs := TakeViews();
      ghost var before := nodes;
      n := Attach(cur, sel, idx, digit, vs);
      nodes := nodes[n.pos := n];
      volume := volume + 1;
      Linked(before, vs, cur.pos, n, sel);
    }

    /** One step of `btrie_add_node`: the next node on the path of `key`, created when it is missing. */
    method EnsureChild(cur: Node, idx: nat, digit: nat, ghost n0: map<Pos, Node>, ghost made: set<Node>, key: nat)
      returns (n: Node, ghost more: set<Node>)
      requires Valid() && Has(cur) && cur.pos == Pos(idx + 1, Shr(key, idx + 1)) && idx < Flsl(key) && digit < 0x8000
      requires Grown(n0, nodes, key, idx + 1) && Made(n0, nodes, made) && Unvalued(made)
      modifies this`nodes, this`volume, cur`child0, cur`child1
      ensures Valid() && Has(n) && n.pos == Pos(idx, Shr(key, idx))
      ensures Grown(n0, nodes, key, idx) && Made(n0, nodes, more) && Unvalued(more)
      ensures made <= more && fresh(more - made) && (n in n0.Values || n in more)
    {
      more := made;
      var sel := Shr(key, idx) % 2;
      ShrStep(key, idx);
      Local(cur);
      GrownStep(n0, nodes, key, idx, cur);
      var child := cur.Child(sel);
      if child == null {
        ghost var before := nodes;
        n := AddChild(cur, sel, idx, digit);
        more := made + {n};
        GrownStep(n0, before, key, idx, n);
      } else {
        n := child;
        assert n.pos in n0 ==> n0[n.pos] == n;
      }
    }

    lemma GrownKeys(before: map<Pos, Node>, keys: set<nat>)
      requires forall p :: p in before ==> p in nodes && nodes[p] == before[p]
      requires forall p :: p in nodes && p !in before ==> nodes[p].value == null
      requires forall k: nat :: k in keys <==> Leaf(k) in before && before[Leaf(k)].value != null
      ensures Keys() == keys
    {
      assert forall k: nat :: Stored(k) <==> k in keys;
    }

    /** The root of a key. */
    lemma TopRoot(key: Word)
      requires Valid() && key > 0
      ensures 0 < Flsl(key) <= WORD_BITS == roots.Length
      ensures var i := Flsl(key) - 1;
        Has(roots[i]) && roots[i] in nodes.Values && roots[i].pos == Pos(i, Shr(key, i))
    {
      FlslWord(key);
      FlslTop(key);
      RootAt(Flsl(key) - 1);
    }

    /** The descent of `btrie_add_node` for a key other than 0. */
    method GrowPath(key: Word) returns (r: Node, ghost made: set<Node>)
      requires Valid() && key > 0
      modifies this`nodes, this`volume, nodes.Values`child0, nodes.Values`child1
      ensures Valid() && Has(r) && r.pos == Leaf(key) && Grown(old(nodes), nodes, key, 0)
      ensures Made(old(nodes), nodes, made) && fresh(made) && Unvalued(made)
    {
      TopRoot(key);
      var idx: int := Flsl(key) - 1;
      r := roots[idx];
      idx := idx - 1;
      made := {};
      var digit := 1;
      while idx >= 0
        invariant -1 <= idx < Flsl(key) - 1 && digit == Flsl(key) - 1 - idx
        invariant Valid() && Has(r) && r.pos == Pos(idx + 1, Shr(key, idx + 1))
        invariant Grown(old(nodes), nodes, key, idx + 1) && Made(old(nodes), nodes, made)
        invariant fresh(made) && Unvalued(made) && (r in old(nodes).Values || r in made)
        decreases idx
      {
        r, made := EnsureChild(r, idx, digit, old(nodes), made, key);
        idx := idx - 1;
        digit := digit + 1;
      }
    }

    /** `btrie_add_node`: creates the missing part of the path of `key` and returns its leaf. */
    method AddNode(key: Word) returns (r: Node?)
      requires Valid()
      modifies this`nodes, this`volume, nodes.Values`child0, nodes.Values`child1
      ensures Valid()
      ensures key == 0 ==> r == null && nodes == old(nodes)
      ensures key > 0 ==> Leaf(key) in nodes && r == nodes[Leaf(key)]
      ensures nodes.Keys == old(nodes).Keys + Path(key)
      ensures forall p :: p in old(nodes) ==> nodes[p] == old(nodes[p])
      ensures forall p :: p in nodes && p !in old(nodes) ==> fresh(nodes[p])
      ensures forall p :: p in nodes && p !in old(nodes) ==> nodes[p].value == null
      ensures Keys() == old(Keys())
    {
      ghost var before, keys := nodes, Keys();
      if Flsl(key) == 0 {
        return null;
      }
      ghost var made;
      r, made := GrowPath(key);
      GrownAll(before, nodes, key);
      GrownKeys(before, keys);
    }

    /** The trie is valid again once the subtree at `at` is unlinked and taken out of `nodes`. */
    lemma Cut(before: map<Pos, Node>, vs: map<Pos, View>, at: Pos)
      requires ValidViews(before, vs) && at in before && (at.prefix > 1 ==> ParentPos(at) in before)
      requires nodes == Pruned(before, at)
      requires forall p :: p in nodes ==> ViewOf(nodes[p]) == Severed(vs, at)[p]
      requires roots.Length == WORD_BITS && volume == |nodes| - WORD_BITS
      requires forall i :: 0 <= i < WORD_BITS ==> Root(i) in before && roots[i] == before[Root(i)]
      ensures Valid()
    {
      forall p | p in nodes
        ensures DownOk(nodes, p) && UpOk(nodes, p)
      {
        PrunedDown(before, vs, at, p);
        PrunedUp(before, vs, at, p);
      }
      forall i | 0 <= i < WORD_BITS
        ensures Root(i) in nodes && roots[i] == nodes[Root(i)]
      {
        assert Root(i) in before;
        RootAlone(before, vs, at, i);
      }
    }

    /** A root is below no other position. */
    lemma RootAlone(before: map<Pos, Node>, vs: map<Pos, View>, at: Pos, i: nat)
      requires ValidViews(before, vs) && at in before
      ensures Under(Root(i), at) ==> at == Root(i)
    {
      assert DownView(before, at, vs[at]);
      if Under(Root(i), at) && at.idx > i {
        ShrZero(at.idx - i - 1);
      }
    }

    /** `btrie_node_fini`: frees everything below `n`. */
    method NodeFini(n: Node, ghost d: map<Pos, Node>)
      requires Subtree(d, n.pos) && d[n.pos] == n
      modifies this`volume, d.Values`parent, d.Values`child0, d.Values`child1
      ensures volume == old(volume) - (|d| - 1)
      ensures n.parent == null && n.child0 == null && n.child1 == null
      decreases n.pos.idx, 1
    {
      ghost var d0, d1 := Halves(d, n.pos);
      FiniChild0(n, d0);
      FiniChild1(n, d1);
      n.parent := null;
    }

    method FiniChild0(n: Node, ghost d: map<Pos, Node>)
      requires n !in d.Values && if n.child0 == null then |d| == 0 else SubtreeOf(d, n, n.child0)
      modifies this`volume, n`child0, d.Values`parent, d.Values`child0, d.Values`child1
      ensures volume == old(volume) - |d| && n.child0 == null
      decreases n.pos.idx, 0
    {
      if n.child0 != null {
        NodeFini(n.child0, d);
        n.child0 := null;
        volume := volume - 1;
      }
    }

    method FiniChild1(n: Node, ghost d: map<Pos, Node>)
      requires n !in d.Values && if n.child1 == null then |d| == 0 else SubtreeOf(d, n, n.child1)
      modifies this`volume, n`child1, d.Values`parent, d.Values`child0, d.Values`child1
      ensures volume == old(volume) - |d| && n.child1 == null
      decreases n.pos.idx, 0
    {
      if n.child1 != null {
        NodeFini(n.child1, d);
        n.child1 := null;
        volume := volume - 1;
      }
    }

    ghost predicate SubtreeOf(d: map<Pos, Node>, n: Node, c: Node)
      reads n`pos, c`pos, d.Values
    {
      c.pos.idx < n.pos.idx && Subtree(d, c.pos) && d[c.pos] == c
    }

    /** The nodes below a position form a subtree, made of other objects than the rest. */
    lemma BelowSubtree(at: Pos)
      requires Valid() && at in nodes
      ensures Subtree(Below(nodes, at), at)
      ensures forall p :: p in nodes && !Under(p, at) ==> nodes[p] !in Below(nodes, at).Values
    {
      var d := Below(nodes, at);
      assert Under(at, at);
      forall p | p in d
        ensures DownOk(d, p) && (p != at ==> ParentPos(p) in d)
      {
        assert DownOk(nodes, p) && UpOk(nodes, p);
        if p.idx > 0 {
          UnderTransitiveChildren(p, at);
        }
        if p != at {
          NotRootBelow(p, at);
          UnderParent(p, at);
        }
      }
      forall p | p in nodes && !Under(p, at)
        ensures nodes[p] !in d.Values
      {
        assert DownOk(nodes, p);
        assert forall q :: q in d ==> DownOk(nodes, q);
      }
    }

    lemma NotRootBelow(p: Pos, at: Pos)
      requires Valid() && p in nodes && at in nodes && Under(p, at) && p != at
      ensures p.prefix > 1 && p.idx < at.idx
    {
      assert DownOk(nodes, p) && DownOk(nodes, at);
      if p.prefix == 1 && at.idx > p.idx {
        ShrZero(at.idx - p.idx - 1);
      }
    }

    /** What the removal of `n` needs to know about its parent. */
    ghost predicate HangsBelow(n: Node, at: Pos)
      reads n, n.parent
    {
      && n.parent != null && n.pos.prefix > 1 && at == ParentPos(n.pos)
      && (n.parent.child0 == n <==> n.pos.prefix % 2 == 0)
      && (n.parent.child1 == n <==> n.pos.prefix % 2 == 1)
    }

    /** Clears the link from the parent of `n`. */
    method Unlink(n: Node, ghost at: Pos, ghost vs: map<Pos, View>)
      requires HangsBelow(n, at) && at in nodes && nodes[at] == n.parent && vs.Keys == nodes.Keys
      requires n.pos in nodes && forall p :: p in nodes ==> vs[p] == ViewOf(nodes[p]) && vs[p].pos == p
      modifies n.parent`child0, n.parent`child1
      ensures forall p :: p in nodes ==> ViewOf(nodes[p]) == Severed(vs, n.pos)[p]
    {
      var parent := n.parent;
      if parent.child0 == n {
        parent.child0 := null;
      } else {
        assert parent.child1 == n;
        parent.child1 := null;
      }
    }

    /** Unlinks `n` and frees it with what is below it, the common part of the removal functions; a root stays. */
    method Detach(n: Node, ghost vs: map<Pos, View>)
      requires Valid() && Has(n) && n.value == null
      requires ValidViews(nodes, vs) && forall p :: p in nodes ==> vs[p] == ViewOf(nodes[p])
      modifies this`volume, nodes.Values`parent, nodes.Values`child0, nodes.Values`child1
      ensures volume == |Pruned(nodes, n.pos)| - WORD_BITS
      ensures n.pos.prefix > 1 ==> ParentPos(n.pos) in nodes
      ensures forall p :: p in Pruned(nodes, n.pos) ==> ViewOf(nodes[p]) == Severed(vs, n.pos)[p]
    {
      ghost var d := Below(nodes, n.pos);
      ghost var at := ParentPos(n.pos);
      ParentLinks(n);
      BelowSubtree(n.pos);
      ViewPositions(nodes, vs, n.pos);
      PrunedSize(nodes, n.pos);
      if n.parent != null {
        DetachInner(n, at, d, vs);
      } else {
        Discard(n, d, vs);
      }
    }

    method DetachInner(n: Node, ghost at: Pos, ghost d: map<Pos, Node>, ghost vs: map<Pos, View>)
      requires HangsBelow(n, at) && at in nodes && nodes[at] == n.parent && n.parent !in d.Values
        && vs.Keys == nodes.Keys
      requires n.pos in nodes && d == Below(nodes, n.pos) && Subtree(d, n.pos) && d[n.pos] == n
      requires forall p :: p in nodes ==> vs[p] == ViewOf(nodes[p]) && vs[p].pos == p && Severed(vs, n.pos)[p].pos == p
      modifies this`volume, nodes.Values`parent, nodes.Values`child0, nodes.Values`child1
      ensures volume == old(volume) - |d|
      ensures forall p :: p in nodes && !Under(p, n.pos) ==> ViewOf(nodes[p]) == Severed(vs, n.pos)[p]
    {
      Unlink(n, at, vs);
      Discard(n, d, Severed(vs, n.pos));
      volume := volume - 1;
    }

    /** Frees what is below `n`; the fields of the other nodes stay. */
    method Discard(n: Node, ghost d: map<Pos, Node>, ghost vs: map<Pos, View>)
      requires n.pos in nodes && d == Below(nodes, n.pos) && Subtree(d, n.pos) && d[n.pos] == n
      requires vs.Keys == nodes.Keys && forall p :: p in nodes ==> ViewOf(nodes[p]) == vs[p] && vs[p].pos == p
      modifies this`volume, nodes.Values`parent, nodes.Values`child0, nodes.Values`child1
      ensures volume == old(volume) - (|d| - 1)
      ensures forall p :: p in nodes && !Under(p, n.pos) ==> ViewOf(nodes[p]) == vs[p]
      ensures ViewOf(n) == vs[n.pos].(parent := null, child0 := null, child1 := null)
    {
      assert d.Values <= nodes.Values;
      forall p | p in nodes && !Under(p, n.pos)
        ensures nodes[p] !in d.Values
      {
        assert nodes[p].pos == p;
        assert forall q :: q in d ==> d[q].pos == q;
      }
      NodeFini(n, d);
    }

    /** A node is exactly one of the children of its parent, which is not below it; only roots have none. */
    lemma ParentLinks(n: Node)
      requires Valid() && Has(n)
      ensures n.parent == null <==> n.pos.prefix == 1
      ensures n.parent != null ==> HangsBelow(n, ParentPos(n.pos)) && !Under(ParentPos(n.pos), n.pos)
      ensures n.parent != null ==> ParentPos(n.pos) in nodes && nodes[ParentPos(n.pos)] == n.parent
    {
      Local(n);
      if n.parent != null {
        Local(n.parent);
        SelectorPos(n);
      }
    }

    /** Pruning at a node without a value loses exactly the keys below it. */
    lemma PrunedKeys(before: map<Pos, Node>, keys: set<nat>, at: Pos)
      requires nodes == Pruned(before, at) && at in before && before[at].value == null
      requires forall k: nat :: k in keys <==> Leaf(k) in before && before[Leaf(k)].value != null
      ensures forall k: nat :: k in Keys() <==> k in keys && !Under(Leaf(k), at)
    {
      assert forall k: nat :: Leaf(k) in nodes ==> Leaf(k) in before && nodes[Leaf(k)] == before[Leaf(k)];
    }

    /** Takes the subtree of a node out. */
    method Prune(n: Node)
      requires Valid() && Has(n) && n.value == null
      modifies this`nodes, this`volume, nodes.Values`parent, nodes.Values`child0, nodes.Values`child1
      ensures Valid() && nodes == Pruned(old(nodes), n.pos)
    {
      ghost var vs := TakeViews();
      ghost var before := nodes;
      Detach(n, vs);
      nodes := Pruned(before, n.pos);
      Cut(before, vs, n.pos);
    }

    /** `btrie_remove_node_no_cleanup` */
    method RemoveNodeNoCleanup(n: Node)
      requires Valid() && Has(n) && n.value == null
      modifies this`nodes, this`volume, nodes.Values`parent, nodes.Values`child0, nodes.Values`child1
      ensures Valid() && nodes == Pruned(old(nodes), n.pos)
      ensures forall k: nat :: k in Keys() <==> k in old(Keys()) && !Under(Leaf(k), n.pos)
    {
      ghost var before, keys := nodes, Keys();
      Prune(n);
      PrunedKeys(before, keys, n.pos);
    }

    /** An orphan has nothing below it. */
    lemma OrphanAlone(n: Node)
      requires Valid() && Has(n) && n.child0 == null && n.child1 == null
      ensures forall p :: p in nodes && Under(p, n.pos) ==> p == n.pos
    {
      Local(n);
      forall p | p in nodes && Under(p, n.pos)
        ensures p == n.pos
      {
        if p.idx < n.pos.idx {
          UnderChild(p, n.pos);
          assert DownOk(nodes, p);
          FlslPrefix(p.prefix, n.pos.idx - 1 - p.idx);
          Ancestor(p, n.pos.idx - 1);
        }
      }
    }

    /** Unlinks and frees a node without children. */
    method DropOrphan(n: Node)
      requires Valid() && Has(n) && n.IsOrphan() && n.parent != null
      modifies this`nodes, this`volume, nodes.Values`parent, nodes.Values`child0, nodes.Values`child1
      ensures Valid() && nodes == old(nodes) - {n.pos}
    {
      OrphanAlone(n);
      ParentLinks(n);
      assert Under(n.pos, n.pos);
      assert Pruned(nodes, n.pos) == nodes - {n.pos};
      RemoveNodeNoCleanup(n);
    }

    /** One turn of `cleanup_orphans`. */
    method DropLonely(n: Node, ghost before: map<Pos, Node>, ghost start: Pos) returns (parent: Node)
      requires Valid() && Has(n) && n.parent != null && n.IsOrphan() && Climbed(before, nodes, start, n.pos)
      modifies this`nodes, this`volume, nodes.Values`parent, nodes.Values`child0, nodes.Values`child1
      ensures Valid() && Has(parent) && parent.pos == ParentPos(n.pos) && parent.pos.idx < WORD_BITS
      ensures nodes.Values <= old(nodes).Values && Climbed(before, nodes, start, parent.pos)
    {
      Local(n);
      Local(n.parent);
      ChainGrows(before, start, n);
      ClimbStep(before, nodes, start, n.pos);
      parent := n.parent;
      DropOrphan(n);
    }

    /** `cleanup_orphans`: frees `start` and its ancestors as long as they have no children. */
    method CleanupOrphans(start: Node)
      requires Valid() && Has(start) && start.pos.idx > 0
      modifies this`nodes, this`volume, nodes.Values`parent, nodes.Values`child0, nodes.Values`child1
      ensures Valid()
      ensures forall p :: p in nodes <==> p in old(nodes) && !Lonely(old(nodes), start.pos, p)
      ensures forall p :: p in nodes ==> nodes[p] == old(nodes)[p]
      ensures Keys() == old(Keys())
    {
      var n: Node := start;
      ghost var before, keys := nodes, Keys();
      while n.parent != null && n.IsOrphan()
        invariant Valid() && Has(n) && n.pos.idx > 0 && Climbed(before, nodes, start.pos, n.pos)
        decreases WORD_BITS - n.pos.idx
      {
        n := DropLonely(n, before, start.pos);
      }
      ChainEnds(before, start.pos, n);
      assert Keys() == keys by {
        ClimbedKeys(before, keys, start.pos, n.pos);
      }
    }

    /** Only inner nodes are freed on the way up, so no key is lost. */
    lemma ClimbedKeys(before: map<Pos, Node>, keys: set<nat>, start: Pos, at: Pos)
      requires start.idx > 0 && Climbed(before, nodes, start, at)
      requires forall k: nat :: k in keys <==> Leaf(k) in before && before[Leaf(k)].value != null
      ensures Keys() == keys
    {
      forall k: nat
        ensures Stored(k) <==> k in keys
      {
        assert !Under(start, Leaf(k));
      }
    }

    /** Where the climb stops, no further ancestor is to be freed. */
    lemma ChainEnds(before: map<Pos, Node>, start: Pos, n: Node)
      requires Valid() && Has(n) && n.pos.idx > 0 && (n.parent == null || !n.IsOrphan())
      requires Climbed(before, nodes, start, n.pos)
      ensures forall p :: p in nodes <==> p in before && !Lonely(before, start, p)
    {
      Local(n);
      forall p | p in nodes && Lonely(before, start, p)
        ensures false
      {
        UnderLinear(start, n.pos, p);
        if n.parent == null {
          NotAboveRoot(n.pos, p);
        } else {
          var c := if n.child0 != null then n.child0 else n.child1;
          ChildUnder(n, c);
          UnderTransitive(c.pos, n.pos, p);
        }
      }
    }

    /** An orphan on the chain was above nothing but the chain. */
    lemma ChainGrows(before: map<Pos, Node>, start: Pos, n: Node)
      requires Valid() && Has(n) && n.parent != null && n.IsOrphan()
      requires Climbed(before, nodes, start, n.pos)
      ensures Lonely(before, start, n.pos)
    {
      Local(n);
      OrphanAlone(n);
    }

    lemma NotAboveRoot(r: Pos, p: Pos)
      requires Valid() && r in nodes && r.prefix == 1 && p in nodes && Under(r, p)
      ensures p == r
    {
      assert DownOk(nodes, p);
      if p.idx > r.idx {
        ShrZero(p.idx - r.idx - 1);
      }
    }

    lemma ChildUnder(n: Node, c: Node)
      requires Valid() && Has(n) && (c == n.child0 || c == n.child1)
      ensures Has(c) && Under(c.pos, n.pos) && c.pos.idx + 1 == n.pos.idx && c.pos.prefix > 1
    {
      Local(n);
      assert Shr(c.pos.prefix, 1) == Shr(c.pos.prefix / 2, 0);
    }

    /** `btrie_remove_node` */
    method RemoveNode(n: Node)
      requires Valid() && Has(n) && n.value == null
      modifies this`nodes, this`volume, nodes.Values`parent, nodes.Values`child0, nodes.Values`child1
      ensures Valid()
      ensures forall p :: p in nodes <==> p in old(nodes) && !Removed(old(nodes), n.pos, p)
      ensures forall p :: p in nodes ==> nodes[p] == old(nodes)[p]
      ensures forall k: nat :: k in Keys() <==> k in old(Keys()) && !Under(Leaf(k), n.pos)
    {
      var parent := n.parent;
      ParentLinks(n);
      Local(n);
      RemoveNodeNoCleanup(n);
      if parent != null {
        CleanupOrphans(parent);
      }
    }

    /** Trimming keeps the stored keys. */
    lemma SameKeys(before: map<Pos, Node>, keys: set<nat>, at: Pos, top: bool)
      requires Trimmed(before, nodes, keys, at, top)
      requires forall k: nat :: k in keys <==> Leaf(k) in before && before[Leaf(k)].value != null
      ensures Keys() == keys
    {
      forall k: nat | k in keys
        ensures Stored(k)
      {
        assert Under(Leaf(k), Leaf(k)) && Needed(keys, Leaf(k)) by {
          assert Shr(k, 0) == k;
          NeededBelow(keys, k, Leaf(k));
        }
      }
    }

    /** Drops an orphan that no key needs, after what is below it has been trimmed. */
    method DropTop(c: Node, ghost before: map<Pos, Node>, ghost keys: set<nat>)
      requires Valid() && Has(c) && c.IsOrphan() && c.pos.prefix > 1 && keys == Keys()
      requires Trimmed(before, nodes, keys, c.pos, false)
      modifies this`nodes, this`volume, nodes.Values`parent, nodes.Values`child0, nodes.Values`child1
      ensures Valid() && keys == Keys() && Trimmed(before, nodes, keys, c.pos, true)
    {
      OrphanNotNeeded(c);
      ParentLinks(c);
      ghost var middle := nodes;
      DropOrphan(c);
      assert Trimmed(middle, nodes, keys, c.pos, true);
      SameKeys(middle, keys, c.pos, true);
    }

    /** What `btrie_node_cleanup` does to one child that exists. */
    method CleanupChild(c: Node, ghost keys: set<nat>)
      requires Valid() && Has(c) && c.pos.prefix > 1 && keys == Keys()
      modifies this`nodes, this`volume, nodes.Values`parent, nodes.Values`child0, nodes.Values`child1
      ensures Valid() && keys == Keys() && Trimmed(old(nodes), nodes, keys, c.pos, true)
      decreases c.pos.idx, 3
    {
      ghost var before := nodes;
      if !c.IsOrphan() {
        NodeCleanup(c, keys);
        if c.IsOrphan() {
          DropTop(c, before, keys);
        } else {
          TopNeeded(before, c, keys);
        }
      } else {
        OrphanAlone(c);
        DropTop(c, before, keys);
      }
    }

    /** A node that is no orphan after the cleanup leads to a value. */
    lemma TopNeeded(before: map<Pos, Node>, c: Node, keys: set<nat>)
      requires Valid() && Has(c) && !c.IsOrphan() && keys == Keys()
      requires Trimmed(before, nodes, keys, c.pos, false)
      ensures Trimmed(before, nodes, keys, c.pos, true)
    {
      Local(c);
      if c.value != null {
        assert Stored(c.pos.prefix);
        NeededBelow(keys, c.pos.prefix, c.pos);
      } else {
        var d := if c.child0 != null then c.child0 else c.child1;
        ChildUnder(c, d);
        assert Needed(keys, d.pos);
        var k: nat :| k in keys && Under(Leaf(k), d.pos);
        UnderTransitive(Leaf(k), d.pos, c.pos);
      }
    }

    /** Nothing is below the place of a missing child. */
    lemma ChildGap(n: Node, sel: nat)
      requires Valid() && Has(n) && n.pos.idx > 0 && sel < 2 && n.Child(sel) == null
      ensures forall p :: p in nodes ==> !Under(p, ChildPos(n.pos, sel))
    {
      Local(n);
      forall p | p in nodes && Under(p, ChildPos(n.pos, sel))
        ensures false
      {
        assert DownOk(nodes, p);
        FlslPrefix(p.prefix, n.pos.idx - 1 - p.idx);
        Ancestor(p, n.pos.idx - 1);
      }
    }

    /** `btrie_node_cleanup`: frees every node below `n` that leads to no value. */
    method NodeCleanup(n: Node, ghost keys: set<nat>)
      requires Valid() && Has(n) && keys == Keys()
      modifies this`nodes, this`volume, nodes.Values`parent, nodes.Values`child0, nodes.Values`child1
      ensures Valid() && keys == Keys() && Trimmed(old(nodes), nodes, keys, n.pos, false)
      decreases n.pos.idx, 2
    {
      ghost var before := nodes;
      if n.IsOrphan() {
        OrphanAlone(n);
        return;
      }
      SideCleanup(n, 0, keys);
      ghost var middle := nodes;
      SideCleanup(n, 1, keys);
      if n.pos.idx > 0 {
        TrimBoth(before, middle, nodes, keys, n.pos);
      } else {
        NothingBelowLeaf(n.pos);
      }
    }

    lemma NothingBelowLeaf(at: Pos)
      requires at.idx == 0
      ensures forall p :: Under(p, at) ==> p == at
    {
    }

    /** The cleanup of one side of a node. */
    method SideCleanup(n: Node, sel: nat, ghost keys: set<nat>)
      requires Valid() && Has(n) && keys == Keys() && sel < 2
      modifies this`nodes, this`volume, nodes.Values`parent, nodes.Values`child0, nodes.Values`child1
      ensures Valid() && Has(n) && keys == Keys()
      ensures n.pos.idx == 0 ==> nodes == old(nodes)
      ensures n.pos.idx > 0 ==> Trimmed(old(nodes), nodes, keys, ChildPos(n.pos, sel), true)
      decreases n.pos.idx, 1
    {
      Local(n);
      var c := n.Child(sel);
      if c != null {
        ChildUnder(n, c);
        CleanupChild(c, keys);
      } else if n.pos.idx > 0 {
        ChildGap(n, sel);
      }
    }

    /** A position that some key needs is a root or on the path of that key. */
    lemma OnSomePath(keys: set<nat>, p: Pos)
      requires Valid() && keys == Keys() && CleanUpTo(nodes, keys, WORD_BITS) && p in nodes
      ensures p in Closure(keys)
    {
      assert DownOk(nodes, p) && UpOk(nodes, p);
      if p.prefix == 1 {
        assert p == Root(p.idx);
      } else {
        WithinWord(p);
        var k: nat :| k in keys && Under(Leaf(k), p);
        FlslPrefix(k, p.idx);
        assert OnPath(p, k) && p in Path(k);
      }
    }

    /** No prefix in the trie is longer than a word. */
    lemma WithinWord(p: Pos)
      requires Valid() && p in nodes
      ensures p.idx + Flsl(p.prefix) <= WORD_BITS
    {
      assert DownOk(nodes, p);
      FlslTop(p.prefix);
      Ancestor(p, p.idx + Flsl(p.prefix) - 1);
      assert UpOk(nodes, Root(p.idx + Flsl(p.prefix) - 1));
    }

    /** With no unneeded node left, the shape is the one of the key set. */
    lemma CleanShape(keys: set<nat>)
      requires Valid() && keys == Keys() && CleanUpTo(nodes, keys, WORD_BITS)
      ensures Clean()
    {
      forall p | p in nodes
        ensures p in Closure(keys)
      {
        OnSomePath(keys, p);
      }
      PathsPresent(keys);
    }

    /** The paths of stored keys and the roots are always there. */
    lemma PathsPresent(keys: set<nat>)
      requires Valid() && keys <= Keys()
      ensures Closure(keys) <= nodes.Keys
    {
      forall k, p | k in keys && p in Path(k)
        ensures p in nodes
      {
        assert Stored(k) && OnPath(p, k);
        Ancestor(Leaf(k), p.idx);
      }
    }

    /** `btrie_cleanup` */
    method Cleanup()
      requires Valid()
      modifies this`nodes, this`volume, nodes.Values`parent, nodes.Values`child0, nodes.Values`child1
      ensures Valid() && Keys() == old(Keys()) && Clean()
      ensures forall p :: p in nodes ==> p in old(nodes) && nodes[p] == old(nodes)[p]
    {
      ghost var keys := Keys();
      ghost var before := nodes;
      var i := 0;
      while i < WORD_BITS
        invariant 0 <= i <= WORD_BITS && Valid() && keys == Keys()
        invariant forall p :: p in nodes ==> p in before && nodes[p] == before[p]
        invariant CleanUpTo(nodes, keys, i)
      {
        RootAt(i);
        ghost var middle := nodes;
        NodeCleanup(roots[i], keys);
        TrimmedRoot(middle, nodes, keys, i);
        i := i + 1;
      }
      CleanShape(keys);
    }

    lemma OrphanNotNeeded(c: Node)
      requires Valid() && Has(c) && c.IsOrphan()
      ensures !Needed(Keys(), c.pos)
    {
      forall k: nat | Stored(k) && Under(Leaf(k), c.pos)
        ensures false
      {
        OrphanAlone(c);
      }
    }

    /** A value put into a leaf leaves the links right. */
    lemma ValueValid(n: Node, vs: map<Pos, View>)
      requires Has(n) && n.pos.idx == 0 && ValidViews(nodes, vs)
      requires forall p :: p in nodes ==>
        ViewOf(nodes[p]) == vs[p] || (p == n.pos && ViewOf(n) == vs[p].(filled := n.value != null))
      requires roots.Length == WORD_BITS && volume == |nodes| - WORD_BITS
      requires forall i :: 0 <= i < WORD_BITS ==> Root(i) in nodes && roots[i] == nodes[Root(i)]
      ensures Valid()
    {
      forall p | p in nodes
        ensures DownOk(nodes, p) && UpOk(nodes, p)
      {
        assert DownView(nodes, p, vs[p]) && UpView(nodes, p, vs[p]);
      }
    }

    /** What callers do with a leaf they were given: `node->value = v`. */
    method SetValue(n: Node, v: object?)
      requires Valid() && Has(n) && n.pos.idx == 0
      modifies n`value
      ensures Valid() && n.value == v
      ensures Keys() == if v != null then old(Keys()) + {n.pos.prefix} else old(Keys()) - {n.pos.prefix}
    {
      ghost var vs := TakeViews();
      ghost var keys := Keys();
      ViewPositions(nodes, vs, Root(0));
      assert forall k: nat {:trigger k in keys} :: k in keys <==> Leaf(k) in nodes && vs[Leaf(k)].filled;
      AssignValue(n, v, vs);
      KeysByView(n, keys, vs);
    }

    /** The assignment; no other node changes. */
    method AssignValue(n: Node, v: object?, ghost vs: map<Pos, View>)
      requires Valid() && Has(n) && n.pos.idx == 0 && ValidViews(nodes, vs)
      requires forall p :: p in nodes ==> vs[p] == ViewOf(nodes[p]) && vs[p].pos == p
      modifies n`value
      ensures Valid() && n.value == v
      ensures forall p :: p in nodes && p != n.pos ==> ViewOf(nodes[p]) == vs[p]
    {
      n.value := v;
      ValueValid(n, vs);
    }

    /** Which keys are stored when one value was changed. */
    lemma KeysByView(n: Node, keys: set<nat>, vs: map<Pos, View>)
      requires Has(n) && n.pos.idx == 0 && vs.Keys == nodes.Keys
      requires forall k: nat {:trigger k in keys} :: k in keys <==> Leaf(k) in nodes && vs[Leaf(k)].filled
      requires forall p :: p in nodes && p != n.pos ==> ViewOf(nodes[p]) == vs[p]
      ensures Keys() == if n.value != null then keys + {n.pos.prefix} else keys - {n.pos.prefix}
    {
      forall k: nat | k != n.pos.prefix
        ensures Stored(k) <==> k in keys
      {
        assert Leaf(k) in nodes ==> ViewOf(nodes[Leaf(k)]) == vs[Leaf(k)];
      }
      assert n.pos == Leaf(n.pos.prefix);
    }

    lemma NoZeroKey()
      requires Valid()
      ensures 0 !in Keys() && forall p :: p in nodes ==> p.prefix >= 1 && p.idx < WORD_BITS
    {
      assert Leaf(0) in nodes ==> DownOk(nodes, Leaf(0));
      assert forall p :: p in nodes ==> DownOk(nodes, p) && UpOk(nodes, p);
    }

    /** A caller adds a key: `btrie_add_node`, then the value. */
    method Put(key: Word, v: object)
      requires Valid() && key > 0
      modifies this`nodes, this`volume, nodes.Values`child0, nodes.Values`child1, nodes.Values`value
      ensures Valid() && Keys() == old(Keys()) + {key as nat}
      ensures Leaf(key) in nodes && nodes[Leaf(key)].value == v
      ensures forall p :: p in old(nodes) ==> p in nodes && nodes[p] == old(nodes)[p]
      ensures forall p :: p in old(nodes) && p != Leaf(key) ==> nodes[p].value == old(nodes[p].value)
      ensures old(Tidy()) ==> Tidy()
      ensures old(Clean()) ==> Clean()
    {
      ghost var keys, before, tidy := Keys(), nodes, Tidy();
      PutLeaf(key, v);
      if tidy {
        TidyAfterPut(before, keys, key);
      }
      ClosureAdd(keys, key);
    }

    lemma TidyAfterPut(before: map<Pos, Node>, keys: set<nat>, key: nat)
      requires LeavesIn(before, keys) && nodes.Keys == before.Keys + Path(key) && key > 0 && Keys() == keys + {key}
      ensures Tidy()
    {
      LeavesAdd(before, nodes, keys, key);
    }

    /** The node and its value. */
    method PutLeaf(key: Word, v: object)
      requires Valid() && key > 0
      modifies this`nodes, this`volume, nodes.Values`child0, nodes.Values`child1, nodes.Values`value
      ensures Valid() && Keys() == old(Keys()) + {key as nat} && nodes.Keys == old(nodes).Keys + Path(key)
      ensures Leaf(key) in nodes && nodes[Leaf(key)].value == v
      ensures forall p :: p in old(nodes) ==> p in nodes && nodes[p] == old(nodes)[p]
      ensures forall p :: p in old(nodes) && p != Leaf(key) ==> nodes[p].value == old(nodes[p].value)
    {
      var n := AddNode(key);
      assert DownOk(nodes, Leaf(key));
      SetLeaf(n, v);
    }

    /** A value for a leaf, seen from the other nodes. */
    method SetLeaf(n: Node, v: object?)
      requires Valid() && Has(n) && n.pos.idx == 0
      modifies n`value
      ensures Valid() && n.value == v
      ensures Keys() == if v != null then old(Keys()) + {n.pos.prefix} else old(Keys()) - {n.pos.prefix}
      ensures forall p :: p in nodes && p != n.pos ==> nodes[p].value == old(nodes[p].value)
    {
      assert forall p :: p in nodes ==> DownOk(nodes, p);
      SetValue(n, v);
    }

    /** A leaf whose value was cleared goes, either with its orphaned ancestors or alone. */
    method DropLeaf(n: Node, ghost key: nat, eager: bool)
      requires Valid() && Has(n) && n.value == null && n.pos == Leaf(key) && key > 0
      modifies this`nodes, this`volume, nodes.Values`parent, nodes.Values`child0, nodes.Values`child1
      ensures Valid() && Keys() == old(Keys())
      ensures forall p :: p in nodes ==> p in old(nodes) && nodes[p] == old(nodes)[p]
      ensures Leaf(key) !in nodes || key == 1
      ensures eager ==> forall p :: p in nodes <==> p in old(nodes) && !Removed(old(nodes), Leaf(key), p)
    {
      LeafStays(nodes, key, key);
      OnlyLeafBelow(key);
      assert !Stored(key);
      if eager {
        RemoveNode(n);
      } else {
        RemoveNodeNoCleanup(n);
      }
    }

    /** A clean trie has no leaf without a value. */
    lemma CleanIsTidy()
      requires Valid() && Clean()
      ensures Tidy()
    {
      forall k: nat | k > 1 && Leaf(k) in nodes
        ensures k in Keys()
      {
        if Leaf(k) !in Roots() {
          var key: nat :| key in Keys() && Leaf(k) in Path(key);
          assert OnPath(Leaf(k), key);
          LeafOnPath(k, key);
        }
      }
    }

    /** Eager removal of the leaf of `key` keeps a clean trie clean. */
    lemma AfterDelete(before: map<Pos, Node>, keys: set<nat>, key: nat)
      requires Keys() == keys - {key} && key > 0 && 0 !in keys && before.Keys == Closure(keys)
      requires forall p :: p in before ==> p.prefix >= 1 && p.idx < WORD_BITS
      requires forall p :: p in nodes <==> p in before && !Removed(before, Leaf(key), p)
      ensures Clean()
    {
      ClosureRemove(keys, before, key);
    }

    /** A caller drops a key: `btrie_find_exact`, the value cleared, and one of the removal functions. */
    method Delete(key: Word, eager: bool)
      requires Valid()
      modifies this`nodes, this`volume
      modifies nodes.Values`parent, nodes.Values`child0, nodes.Values`child1, nodes.Values`value
      ensures Valid() && Keys() == old(Keys()) - {key as nat}
      ensures forall p :: p in nodes ==> p in old(nodes) && nodes[p] == old(nodes)[p]
      ensures forall p :: p in nodes && p != Leaf(key) ==> nodes[p].value == old(nodes[p].value)
      ensures old(Tidy()) ==> Tidy()
      ensures eager && old(Clean()) ==> Clean()
    {
      ghost var keys, before, tidy, clean := Keys(), nodes, Tidy(), Clean();
      NoZeroKey();
      var found := DeleteLeaf(key, eager);
      if found && tidy {
        TidyAfterDelete(before, keys, key);
      }
      if found && eager && clean {
        AfterDelete(before, keys, key);
      }
    }

    lemma TidyAfterDelete(before: map<Pos, Node>, keys: set<nat>, key: nat)
      requires LeavesIn(before, keys) && nodes.Keys <= before.Keys && (Leaf(key) !in nodes || key <= 1)
      requires Keys() == keys - {key}
      ensures Tidy()
    {
      LeavesRemove(before, nodes, keys, key);
    }

    /** Finds the leaf of `key` and drops it. */
    method DeleteLeaf(key: Word, eager: bool) returns (found: bool)
      requires Valid()
      modifies this`nodes, this`volume
      modifies nodes.Values`parent, nodes.Values`child0, nodes.Values`child1, nodes.Values`value
      ensures Valid() && Keys() == old(Keys()) - {key as nat}
      ensures forall p :: p in nodes ==> p in old(nodes) && nodes[p] == old(nodes)[p]
      ensures forall p :: p in nodes && p != Leaf(key) ==> nodes[p].value == old(nodes[p].value)
      ensures !found ==> nodes == old(nodes) && Keys() == old(Keys())
      ensures found ==> key > 0 && (Leaf(key) !in nodes || key == 1)
      ensures found && eager ==> forall p :: p in nodes <==> p in old(nodes) && !Removed(old(nodes), Leaf(key), p)
    {
      NoZeroKey();
      var n := FindExact(key);
      found := n != null;
      if found {
        ClearLeaf(n, key, eager);
      } else {
        assert key as nat !in Keys();
      }
    }

    /** Clears the value of the leaf of `key` and drops the leaf. */
    method ClearLeaf(n: Node, key: Word, eager: bool)
      requires Valid() && key > 0 && Leaf(key) in nodes && nodes[Leaf(key)] == n
      modifies this`nodes, this`volume
      modifies nodes.Values`parent, nodes.Values`child0, nodes.Values`child1, nodes.Values`value
      ensures Valid() && Keys() == old(Keys()) - {key as nat} && (Leaf(key) !in nodes || key == 1)
      ensures forall p :: p in nodes ==> p in old(nodes) && nodes[p] == old(nodes)[p]
      ensures forall p :: p in nodes && p != Leaf(key) ==> nodes[p].value == old(nodes[p].value)
      ensures eager ==> forall p :: p in nodes <==> p in old(nodes) && !Removed(old(nodes), Leaf(key), p)
    {
      assert DownOk(nodes, Leaf(key));
      SetLeaf(n, null);
      DropLeaf(n, key, eager);
    }

    /** Lazy removal: no cleanup at once, one over the whole trie later. */
    method DeleteLazily(key: Word)
      requires Valid()
      modifies this`nodes, this`volume
      modifies nodes.Values`parent, nodes.Values`child0, nodes.Values`child1, nodes.Values`value
      ensures Valid() && Tidy() && Clean() && Keys() == old(Keys()) - {key as nat}
      ensures forall p :: p in nodes ==> p in old(nodes) && nodes[p] == old(nodes)[p]
      ensures forall p :: p in nodes && p != Leaf(key) ==> nodes[p].value == old(nodes[p].value)
    {
      Delete(key, false);
      Cleanup();
      CleanIsTidy();
    }
  }

  /** The key set of a clean trie determines its shape and its volume. */
  lemma ShapeDetermined(t: Trie, keys: set<nat>)
    requires t.Valid() && t.Clean() && t.Keys() == keys
    ensures t.nodes.Keys == Closure(keys) && t.volume == |Closure(keys) - Roots()|
    ensures t.volume == |set p | p in t.nodes && p.prefix > 1|
  {
    RootsSize(WORD_BITS);
    assert |t.nodes| == |t.nodes.Keys|;
    DifferenceSize(Closure(keys), Roots());
    forall p | p in t.nodes
      ensures p in Roots() <==> p.prefix == 1
      ensures p.prefix >= 1
    {
      assert DownOk(t.nodes, p) && UpOk(t.nodes, p);
      assert p.prefix == 1 ==> p == Root(p.idx);
    }
    assert (set p | p in t.nodes && p.prefix > 1) == Closure(keys) - Roots();
  }

  /** So tries that hold the same keys agree, whatever mixture of removals and cleanups led to them. */
  lemma SameShape(a: Trie, b: Trie)
    requires a.Valid() && b.Valid() && a.Clean() && b.Clean() && a.Keys() == b.Keys()
    ensures a.nodes.Keys == b.nodes.Keys && a.volume == b.volume
  {
    ShapeDetermined(a, a.Keys());
    ShapeDetermined(b, a.Keys());
  }

  /** Where the exception bites: a leaf that was added and left without a value is found although its key is not in the
      set. */
  method StaleExample() returns (t: Trie, r: Node?)
    ensures t.Valid() && t.Keys() == {} && t.Stale(2) && r != null && r.value == null && !t.IsFloor(2, r)
  {
    t := new Trie();
    FlslUnique(2, 1);
    var n := t.AddNode(2);
    r := t.FindClosest(2, 0);
  }
}
