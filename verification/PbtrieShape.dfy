/** Path-compressed tries over node objects, as plain values: the prefix that every node stands for, where a key leads,
    and what splitting a node does. */
module PbtrieShape {
  import opened Bits

  class Node {
    var xmask: Word
    var prefix: Word
    var parent: Node?
    var child0: Node?
    var child1: Node?

    /** `pbtrie_node_new` */
    constructor ()
      ensures xmask == 0xFFFF_FFFF_FFFF_FFFF && prefix == 0 && parent == null && child0 == null && child1 == null
    {
      xmask := 0xFFFF_FFFF_FFFF_FFFF;
      prefix := 0;
      parent, child0, child1 := null, null, null;
    }
  }

  /** A node over the keys whose bits above the lowest `level` ones are `q`. */
  datatype View = View(level: nat, q: nat, parent: Node?, c0: Node?, c1: Node?)

  type Shape = map<Node, View>

  predicate Under(w: View, key: nat) {
    Shr(key, w.level) == w.q
  }

  /** The prefixes of the two children go on with the bits 0 and 1. */
  ghost predicate Extends(w: View, c: View, bit: nat) {
    c.level < w.level && Shr(c.q, w.level - 1 - c.level) == 2 * w.q + bit
  }

  ghost predicate NodeOk(t: Shape, root: Node, n: Node)
    requires n in t
  {
    && (t[n].level == 0 <==> t[n].c0 == null) && (t[n].level == 0 <==> t[n].c1 == null)
    && (t[n].level > 0 ==>
          && t[n].c0 in t && t[t[n].c0].parent == n && Extends(t[n], t[t[n].c0], 0)
          && t[n].c1 in t && t[t[n].c1].parent == n && Extends(t[n], t[t[n].c1], 1)
          && t[n].c0 != t[n].c1)
    && (t[n].parent == null <==> n == root)
    && (t[n].parent != null ==> t[n].parent in t && (t[t[n].parent].c0 == n || t[t[n].parent].c1 == n))
    && (n == root ==> t[n].level == 64 && t[n].q == 0)
    && t[n].level <= 64
  }

  /** Every interior node has two children, which part at the first bit below its own prefix. */
  ghost predicate ShapeOk(t: Shape, root: Node) {
    root in t && forall n {:trigger NodeOk(t, root, n)} :: n in t ==> NodeOk(t, root, n)
  }

  /** The node and all that is next to it. */
  lemma Near(t: Shape, root: Node, n: Node)
    requires ShapeOk(t, root) && n in t
    ensures NodeOk(t, root, n)
    ensures t[n].level > 0 ==> NodeOk(t, root, t[n].c0) && NodeOk(t, root, t[n].c1)
    ensures t[n].parent != null ==> NodeOk(t, root, t[n].parent) && t[t[n].parent].level > t[n].level
  {
    assert NodeOk(t, root, n);
    if t[n].level > 0 {
      assert NodeOk(t, root, t[n].c0) && NodeOk(t, root, t[n].c1);
    }
    if t[n].parent != null {
      assert NodeOk(t, root, t[n].parent);
    }
  }

  /** The keys of the leaves. */
  ghost function Keys(t: Shape): set<nat> {
    set n | n in t && t[n].level == 0 :: t[n].q
  }

  /** A key under a child is under its parent, on that side. */
  lemma UnderParent(w: View, c: View, bit: nat, key: nat)
    requires Extends(w, c, bit) && bit <= 1 && Under(c, key)
    ensures Under(w, key) && Shr(key, w.level - 1) == 2 * w.q + bit
  {
    ShrShr(key, c.level, w.level - 1 - c.level);
    ShrStep(key, w.level - 1);
  }

  /** The descent along the bits of `key`. */
  ghost function Find(t: Shape, root: Node, n: Node, key: nat): (r: Node)
    requires ShapeOk(t, root) && n in t
    ensures r in t && t[r].level == 0
    decreases t[n].level
  {
    Near(t, root, n);
    if t[n].level == 0 then n
    else if Shr(key, t[n].level - 1) % 2 == 0 then Find(t, root, t[n].c0, key)
    else Find(t, root, t[n].c1, key)
  }

  /** What the descent from `n` finds is a leaf under `n`. */
  lemma {:induction false} FindUnder(t: Shape, root: Node, n: Node, key: nat)
    requires ShapeOk(t, root) && n in t
    ensures Under(t[n], t[Find(t, root, n, key)].q)
    decreases t[n].level
  {
    Near(t, root, n);
    if t[n].level > 0 {
      if Shr(key, t[n].level - 1) % 2 == 0 {
        FindUnder(t, root, t[n].c0, key);
        UnderParent(t[n], t[t[n].c0], 0, t[Find(t, root, n, key)].q);
      } else {
        FindUnder(t, root, t[n].c1, key);
        UnderParent(t[n], t[t[n].c1], 1, t[Find(t, root, n, key)].q);
      }
    }
  }

  /** The descent for a key passes through every node that the key is under. */
  lemma {:induction false} FindClimb(t: Shape, root: Node, n: Node, key: nat)
    requires ShapeOk(t, root) && n in t && Under(t[n], key)
    ensures Find(t, root, root, key) == Find(t, root, n, key)
    decreases 64 - t[n].level
  {
    Near(t, root, n);
    if n != root {
      var p := t[n].parent;
      if t[p].c0 == n {
        UnderParent(t[p], t[n], 0, key);
      } else {
        UnderParent(t[p], t[n], 1, key);
      }
      FindClimb(t, root, p, key);
    }
  }

  /** Every leaf is found from the root by its key, so leaf keys are unique. */
  lemma FindsLeaf(t: Shape, root: Node, n: Node)
    requires ShapeOk(t, root) && n in t && t[n].level == 0
    ensures Find(t, root, root, t[n].q) == n
  {
    FindClimb(t, root, n, t[n].q);
  }

  lemma UniqueLeaf(t: Shape, root: Node, m: Node, n: Node)
    requires ShapeOk(t, root) && m in t && n in t && t[m].level == 0 && t[n].level == 0 && t[m].q == t[n].q
    ensures m == n
  {
    FindsLeaf(t, root, m);
    FindsLeaf(t, root, n);
  }

  ghost predicate IsLeaf(t: Shape, n: Node) { n in t && t[n].level == 0 }

  /** A leaf under an interior node is under one of its children, which its key tells. */
  lemma LeafSide(t: Shape, root: Node, n: Node, m: Node)
    requires ShapeOk(t, root) && n in t && t[n].level > 0 && IsLeaf(t, m) && Under(t[n], t[m].q)
    ensures t[n].c0 in t && t[n].c1 in t
    ensures Under(t[t[n].c0], t[m].q) || Under(t[t[n].c1], t[m].q)
  {
    Near(t, root, n);
    FindsLeaf(t, root, m);
    FindClimb(t, root, n, t[m].q);
    FindUnder(t, root, if Shr(t[m].q, t[n].level - 1) % 2 == 0 then t[n].c0 else t[n].c1, t[m].q);
  }

  /** Keys under the first child are below those under the second. */
  lemma SidesOrdered(t: Shape, root: Node, n: Node, k0: nat, k1: nat)
    requires ShapeOk(t, root) && n in t && t[n].level > 0
    requires t[n].c0 in t && t[n].c1 in t && Under(t[t[n].c0], k0) && Under(t[t[n].c1], k1)
    ensures k0 < k1
  {
    Near(t, root, n);
    UnderParent(t[n], t[t[n].c0], 0, k0);
    UnderParent(t[n], t[t[n].c1], 1, k1);
    ShrLess(k0, k1, t[n].level - 1);
  }

  /** A key outside of a node compares with all keys under the node in the same way. */
  lemma Outside(w: View, k: nat, k': nat, m: nat)
    requires Under(w, k) && Under(w, k') && !Under(w, m)
    ensures m < k <==> m < k'
    ensures m > k <==> m > k'
  {
    if Shr(m, w.level) < w.q {
      ShrLess(m, k, w.level);
      ShrLess(m, k', w.level);
    } else {
      ShrLess(k, m, w.level);
      ShrLess(k', m, w.level);
    }
  }

  /** `r` is the leaf under `n` with the least key. */
  ghost predicate LeastUnder(t: Shape, n: Node, r: Node) {
    && n in t && IsLeaf(t, r) && Under(t[n], t[r].q)
    && forall m {:trigger IsLeaf(t, m)} :: m in t && IsLeaf(t, m) && Under(t[n], t[m].q) ==> t[r].q <= t[m].q
  }

  ghost predicate GreatestUnder(t: Shape, n: Node, r: Node) {
    && n in t && IsLeaf(t, r) && Under(t[n], t[r].q)
    && forall m {:trigger IsLeaf(t, m)} :: m in t && IsLeaf(t, m) && Under(t[n], t[m].q) ==> t[m].q <= t[r].q
  }

  /** The least leaf under the first child is the least under the node. */
  lemma LeastStep(t: Shape, root: Node, n: Node, r: Node)
    requires ShapeOk(t, root) && n in t && t[n].level > 0 && t[n].c0 in t && LeastUnder(t, t[n].c0, r)
    ensures LeastUnder(t, n, r)
  {
    Near(t, root, n);
    UnderParent(t[n], t[t[n].c0], 0, t[r].q);
    forall m {:trigger IsLeaf(t, m)} | m in t && IsLeaf(t, m) && Under(t[n], t[m].q)
      ensures t[r].q <= t[m].q
    {
      LeafSide(t, root, n, m);
      if Under(t[t[n].c1], t[m].q) {
        SidesOrdered(t, root, n, t[r].q, t[m].q);
      }
    }
  }

  lemma GreatestStep(t: Shape, root: Node, n: Node, r: Node)
    requires ShapeOk(t, root) && n in t && t[n].level > 0 && t[n].c1 in t && GreatestUnder(t, t[n].c1, r)
    ensures GreatestUnder(t, n, r)
  {
    Near(t, root, n);
    UnderParent(t[n], t[t[n].c1], 1, t[r].q);
    forall m {:trigger IsLeaf(t, m)} | m in t && IsLeaf(t, m) && Under(t[n], t[m].q)
      ensures t[m].q <= t[r].q
    {
      LeafSide(t, root, n, m);
      if Under(t[t[n].c0], t[m].q) {
        SidesOrdered(t, root, n, t[m].q, t[r].q);
      }
    }
  }

  /** `r` is the leaf with the least key above that of the leaf `n`. */
  ghost predicate NextLeaf(t: Shape, n: Node, r: Node) {
    && IsLeaf(t, n) && IsLeaf(t, r) && t[n].q < t[r].q
    && forall m {:trigger IsLeaf(t, m)} :: m in t && IsLeaf(t, m) && t[n].q < t[m].q ==> t[r].q <= t[m].q
  }

  /** Where the climb turns into the second child, the least leaf there is the next one. */
  lemma TurnNext(t: Shape, root: Node, n: Node, c: Node, p: Node, r: Node)
    requires ShapeOk(t, root) && IsLeaf(t, n) && c in t && t[c].parent == p && p in t && t[p].c0 == c
    requires GreatestUnder(t, c, n) && t[p].c1 in t && LeastUnder(t, t[p].c1, r)
    ensures NextLeaf(t, n, r)
  {
    Near(t, root, p);
    SidesOrdered(t, root, p, t[n].q, t[r].q);
    UnderParent(t[p], t[c], 0, t[n].q);
    UnderParent(t[p], t[t[p].c1], 1, t[r].q);
    forall m {:trigger IsLeaf(t, m)} | m in t && IsLeaf(t, m) && t[n].q < t[m].q
      ensures t[r].q <= t[m].q
    {
      if Under(t[p], t[m].q) {
        LeafSide(t, root, p, m);
      } else {
        Outside(t[p], t[n].q, t[r].q, t[m].q);
      }
    }
  }

  /** `r` is the leaf with the greatest key below that of the leaf `n`. */
  ghost predicate PrevLeaf(t: Shape, n: Node, r: Node) {
    && IsLeaf(t, n) && IsLeaf(t, r) && t[r].q < t[n].q
    && forall m {:trigger IsLeaf(t, m)} :: m in t && IsLeaf(t, m) && t[m].q < t[n].q ==> t[m].q <= t[r].q
  }

  lemma TurnPrev(t: Shape, root: Node, n: Node, c: Node, p: Node, r: Node)
    requires ShapeOk(t, root) && IsLeaf(t, n) && c in t && t[c].parent == p && p in t && t[p].c1 == c
    requires LeastUnder(t, c, n) && t[p].c0 in t && GreatestUnder(t, t[p].c0, r)
    ensures PrevLeaf(t, n, r)
  {
    Near(t, root, p);
    SidesOrdered(t, root, p, t[r].q, t[n].q);
    UnderParent(t[p], t[c], 1, t[n].q);
    UnderParent(t[p], t[t[p].c0], 0, t[r].q);
    forall m {:trigger IsLeaf(t, m)} | m in t && IsLeaf(t, m) && t[m].q < t[n].q
      ensures t[m].q <= t[r].q
    {
      if Under(t[p], t[m].q) {
        LeafSide(t, root, p, m);
      } else {
        Outside(t[p], t[n].q, t[r].q, t[m].q);
      }
    }
  }

  /** `key` runs along the edge above `r` and leaves it at level `d`. */
  ghost predicate Parting(t: Shape, root: Node, r: Node, d: nat, key: nat) {
    && r in t && r != root && t[r].parent in t && t[r].level < d < t[t[r].parent].level <= 64
    && Shr(key, d) == Shr(t[r].q, d - t[r].level)
    && Shr(key, d - 1) != Shr(t[r].q, d - 1 - t[r].level)
  }

  /** Whether the subtree of `r` goes on with bit 0 below level `d`. */
  ghost predicate ZeroSide(w: View, d: nat)
    requires w.level < d
  {
    Shr(w.q, d - 1 - w.level) % 2 == 0
  }

  /** The node `top` put above `r` with `r` and the new leaf `x` as its children. */
  ghost function Added(t: Shape, root: Node, r: Node, d: nat, key: nat, top: Node, x: Node): Shape
    requires Parting(t, root, r, d, key)
  {
    var p: Node := t[r].parent;
    var side := ZeroSide(t[r], d);
    t[p := if t[p].c0 == r then t[p].(c0 := top) else t[p].(c1 := top)]
     [r := t[r].(parent := top)]
     [top := View(d, Shr(key, d), p, if side then r else x, if side then x else r)]
     [x := View(0, key, top, null, null)]
  }

  /** The bits of the two sides at the parting. */
  lemma PartingBits(t: Shape, root: Node, r: Node, d: nat, key: nat)
    requires ShapeOk(t, root) && Parting(t, root, r, d, key)
    ensures var s := Shr(key, d);
      && (ZeroSide(t[r], d) ==> Shr(t[r].q, d - 1 - t[r].level) == 2 * s && Shr(key, d - 1) == 2 * s + 1)
      && (!ZeroSide(t[r], d) ==> Shr(t[r].q, d - 1 - t[r].level) == 2 * s + 1 && Shr(key, d - 1) == 2 * s)
  {
    ShrStep(key, d - 1);
    ShrStep(t[r].q, d - 1 - t[r].level);
  }

  /** The links that adding the leaf `x` leaves, `top` coming in between `r` and its parent. */
  ghost predicate Adding(t: Shape, t': Shape, root: Node, r: Node, d: nat, key: nat, top: Node, x: Node) {
    && Parting(t, root, r, d, key) && top !in t && x !in t && top != x && t'.Keys == t.Keys + {top, x}
    && var p: Node := t[r].parent;
    && p != r && (t[p].c0 == r || t[p].c1 == r)
    && t'[p] == (if t[p].c0 == r then t[p].(c0 := top) else t[p].(c1 := top))
    && t'[r] == t[r].(parent := top)
    && t'[top] == (if ZeroSide(t[r], d) then View(d, Shr(key, d), p, r, x) else View(d, Shr(key, d), p, x, r))
    && t'[x] == View(0, key, top, null, null)
    && (forall m {:trigger t'[m]} :: m in t && m != p && m != r ==> t'[m] == t[m])
  }

  lemma AddedLinks(t: Shape, root: Node, r: Node, d: nat, key: nat, top: Node, x: Node)
    requires ShapeOk(t, root) && Parting(t, root, r, d, key) && top !in t && x !in t && top != x
    ensures Adding(t, Added(t, root, r, d, key, top, x), root, r, d, key, top, x)
  {
    Near(t, root, r);
  }

  lemma AddedTop(t: Shape, t': Shape, root: Node, r: Node, d: nat, key: nat, top: Node, x: Node)
    requires ShapeOk(t, root) && Adding(t, t', root, r, d, key, top, x)
    ensures NodeOk(t', root, top) && NodeOk(t', root, x)
  {
    Near(t, root, r);
    PartingBits(t, root, r, d, key);
  }

  lemma AddedSide(t: Shape, t': Shape, root: Node, r: Node, d: nat, key: nat, top: Node, x: Node)
    requires ShapeOk(t, root) && Adding(t, t', root, r, d, key, top, x)
    ensures NodeOk(t', root, r)
  {
    Near(t, root, r);
    if t[r].level > 0 {
      assert t'[t[r].c0] == t[t[r].c0] && t'[t[r].c1] == t[t[r].c1];
    }
  }

  lemma AddedParent(t: Shape, t': Shape, root: Node, r: Node, d: nat, key: nat, top: Node, x: Node)
    requires ShapeOk(t, root) && Adding(t, t', root, r, d, key, top, x)
    ensures NodeOk(t', root, t[r].parent)
  {
    var p: Node := t[r].parent;
    Near(t, root, p);
    AddedExtends(t, root, r, d, key);
    assert t'[if t[p].c0 == r then t[p].c1 else t[p].c0] == t[if t[p].c0 == r then t[p].c1 else t[p].c0];
  }

  /** The new node goes on from its parent with the bit that the split one had. */
  lemma AddedExtends(t: Shape, root: Node, r: Node, d: nat, key: nat)
    requires ShapeOk(t, root) && Parting(t, root, r, d, key)
    ensures var p := t[r].parent;
      Shr(Shr(key, d), t[p].level - 1 - d) == Shr(t[r].q, t[p].level - 1 - t[r].level)
  {
    ShrShr(t[r].q, d - t[r].level, t[t[r].parent].level - 1 - d);
  }

  lemma AddedRest(t: Shape, t': Shape, root: Node, r: Node, d: nat, key: nat, top: Node, x: Node, m: Node)
    requires ShapeOk(t, root) && Adding(t, t', root, r, d, key, top, x)
    requires m in t && m != r && m != t[r].parent
    ensures NodeOk(t', root, m)
  {
    Near(t, root, m);
    Near(t, root, r);
  }

  lemma AddedKeys(t: Shape, t': Shape, root: Node, r: Node, d: nat, key: nat, top: Node, x: Node)
    requires ShapeOk(t, root) && Adding(t, t', root, r, d, key, top, x)
    ensures Keys(t') == Keys(t) + {key}
  {
    assert x in t' && t'[x].level == 0 && t'[x].q == key;
    forall m | m in t
      ensures t'[m].level == t[m].level && t'[m].q == t[m].q
    {
    }
    forall k
      ensures k in Keys(t') <==> k in Keys(t) + {key}
    {
      if k in Keys(t') {
        var m :| m in t' && t'[m].level == 0 && t'[m].q == k;
        assert m != top;
      }
      if k in Keys(t) {
        var m :| m in t && t[m].level == 0 && t[m].q == k;
        assert m in t';
      }
    }
  }

  lemma AddedOk(t: Shape, t': Shape, root: Node, r: Node, d: nat, key: nat, top: Node, x: Node)
    requires ShapeOk(t, root) && Adding(t, t', root, r, d, key, top, x)
    ensures ShapeOk(t', root)
  {
    AddedTop(t, t', root, r, d, key, top, x);
    AddedSide(t, t', root, r, d, key, top, x);
    AddedParent(t, t', root, r, d, key, top, x);
    forall m | m in t'
      ensures NodeOk(t', root, m)
    {
      if m in t && m != r && m != t[r].parent {
        AddedRest(t, t', root, r, d, key, top, x, m);
      }
    }
  }

  /** A key that parts from the trie is not in it. */
  lemma PartingIsNew(t: Shape, root: Node, r: Node, d: nat, key: nat)
    requires ShapeOk(t, root) && Parting(t, root, r, d, key)
    ensures key !in Keys(t)
  {
    if key in Keys(t) {
      var m :| m in t && t[m].level == 0 && t[m].q == key;
      PartingOutside(t, root, r, d, key, m);
    }
  }

  /** The descent for a key that parts above `r` goes through `r`. */
  lemma PartingFinds(t: Shape, root: Node, r: Node, d: nat, key: nat)
    requires ShapeOk(t, root) && Parting(t, root, r, d, key)
    ensures Find(t, root, root, key) == Find(t, root, r, key)
  {
    Near(t, root, r);
    var p: Node := t[r].parent;
    AddedExtends(t, root, r, d, key);
    ShrShr(key, d, t[p].level - 1 - d);
    ShrStep(key, t[p].level - 1);
    FindClimb(t, root, p, key);
  }

  lemma PartingOutside(t: Shape, root: Node, r: Node, d: nat, key: nat, m: Node)
    requires ShapeOk(t, root) && Parting(t, root, r, d, key) && IsLeaf(t, m)
    ensures t[m].q != key
  {
    FindsLeaf(t, root, m);
    PartingFinds(t, root, r, d, key);
    FindUnder(t, root, r, key);
    ShrShr(key, t[r].level, d - 1 - t[r].level);
  }
}
