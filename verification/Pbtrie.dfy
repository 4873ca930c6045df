/** The path-compressed trie of `src/pbtrie.c`: lookup, insertion and the walk from leaf to leaf. */
module Pbtrie {
  import opened Bits
  import opened Masks
  import opened PbtrieShape

  /** The fields of a node say what the view says. */
  ghost predicate Is(n: Node, w: View)
    reads n
  {
    && w.level <= 64 && n.xmask == Mask(w.level) && n.prefix == Widen(w.q, w.level)
    && n.parent == w.parent && n.child0 == w.c0 && n.child1 == w.c1
  }

  ghost predicate Ascending(t: Shape, leaves: seq<Node>) {
    forall i, j :: 0 <= i < j < |leaves| ==> leaves[i] in t && leaves[j] in t && t[leaves[i]].q < t[leaves[j]].q
  }

  ghost predicate Descending(t: Shape, leaves: seq<Node>) {
    forall i, j :: 0 <= i < j < |leaves| ==> leaves[i] in t && leaves[j] in t && t[leaves[i]].q > t[leaves[j]].q
  }

  function Min(a: Word, b: Word): Word { if a < b then a else b }

  /** A key that agrees with the prefix `q` above level `up - 1` goes on with it down to some level. */
  lemma PartAt(q: nat, l: nat, up: nat, key: nat)
    requires l < up && Shr(key, up - 1) == Shr(q, up - 1 - l)
    ensures var d := Level(Widen(q, l), key);
      && d < up
      && (d <= l ==> Shr(key, l) == q)
      && (d > l ==> Shr(key, d) == Shr(q, d - l) && Shr(key, d - 1) != Shr(q, d - 1 - l))
  {
    var pre := Widen(q, l);
    var d := Level(pre, key);
    WidenShr(q, l, up - 1);
    LevelShr(pre, key, up - 1);
    WidenShr(q, l, l);
    LevelShr(pre, key, l);
    if d > l {
      WidenShr(q, l, d);
      LevelShr(pre, key, d);
      WidenShr(q, l, d - 1);
      LevelShr(pre, key, d - 1);
    }
  }

  /** At an interior node the key goes to one side: there the common prefix is longer than on the other side, and the
      key is either under that child or leaves the trie on the way to it. */
  lemma Toward(t: Shape, root: Node, n: Node, c: Node, bit: nat, key: Word)
    requires ShapeOk(t, root) && n in t && t[n].level > 0 && Under(t[n], key) && bit <= 1
    requires c == (if bit == 0 then t[n].c0 else t[n].c1) && c in t && Shr(key, t[n].level - 1) == 2 * t[n].q + bit
    ensures var d := Level(Widen(t[c].q, t[c].level), key);
      && Max(d, t[c].level) < t[n].level
      && (d <= t[c].level ==> Under(t[c], key))
      && (d > t[c].level ==> Parting(t, root, c, d, key))
  {
    Near(t, root, n);
    PartAt(t[c].q, t[c].level, t[n].level, key);
  }

  lemma AwayFrom(t: Shape, root: Node, n: Node, c: Node, bit: nat, key: Word)
    requires ShapeOk(t, root) && n in t && t[n].level > 0 && Under(t[n], key) && bit <= 1
    requires c == (if bit == 0 then t[n].c0 else t[n].c1) && c in t && Shr(key, t[n].level - 1) != 2 * t[n].q + bit
    ensures Level(Widen(t[c].q, t[c].level), key) >= t[n].level
  {
    Near(t, root, n);
    WidenShr(t[c].q, t[c].level, t[n].level - 1);
    LevelShr(Widen(t[c].q, t[c].level), key, t[n].level - 1);
  }

  /** The prefix of the node put in at level `d`, and the side of `child` under it. */
  lemma SideBits(child: Word, key: Word, d: nat)
    requires 0 < d < 64 && Level(child, key) <= d
    ensures And(child, Mask(d)) == Widen(Shr(key, d), d) < WORD_LIMIT
    ensures ChildSel(Mask(d), Widen(Shr(key, d), d), child) <==> Shr(child, d - 1) % 2 != 0
  {
    LevelShr(child, key, d);
    AndWord(child, d);
    WidenTimes(Shr(key, d), d);
    ChildSelBit(d, child);
  }

  lemma BitIs(w: View, key: nat)
    requires w.level > 0 && Under(w, key)
    ensures Shr(key, w.level - 1) == 2 * w.q || Shr(key, w.level - 1) == 2 * w.q + 1
  {
    ShrStep(key, w.level - 1);
  }

  /** `head` and `tail` are the leaves of the least and the greatest word, and all leaves hold words. */
  ghost predicate Between(t: Shape, head: Node, tail: Node) {
    && IsLeaf(t, head) && t[head].q == 0
    && IsLeaf(t, tail) && t[tail].q == WORD_MAX
    && (forall n {:trigger IsLeaf(t, n)} :: n in t && IsLeaf(t, n) ==> t[n].q <= WORD_MAX)
  }

  /** Level and side of the node that comes in above `r`. */
  lemma SplitBits(t: Shape, root: Node, r: Node, d: nat, key: nat)
    requires ShapeOk(t, root) && Parting(t, root, r, d, key)
    ensures 0 < d < 64 && t[r].level <= 64 && Mask(d) < Mask(t[r].level)
    ensures Shr(Widen(t[r].q, t[r].level), d - 1) == Shr(t[r].q, d - 1 - t[r].level)
    ensures ZeroSide(t[r], d) <==> Shr(key, d - 1) % 2 != 0
  {
    PartingBits(t, root, r, d, key);
    WidenShr(t[r].q, t[r].level, d - 1);
    MaskOrder(d, t[r].level);
  }

  /** Every node of `t` is there in `t'` and stands for the same prefix. */
  ghost predicate Stay(t: Shape, t': Shape) {
    forall n {:trigger t'[n]} {:trigger t[n]} :: n in t ==> n in t' && t'[n].level == t[n].level && t'[n].q == t[n].q
  }

  /** `t'` is `t` with the leaf `x` added above `r`. */
  ghost predicate Grown(t: Shape, t': Shape, root: Node, r: Node, d: nat, key: nat, x: Node) {
    exists top :: top in t' && Adding(t, t', root, r, d, key, top, x)
  }

  /** What adding a leaf does to the shape as a whole. */
  lemma AddedAll(t: Shape, t': Shape, root: Node, head: Node, tail: Node, r: Node, d: nat, key: Word, x: Node)
    requires ShapeOk(t, root) && Between(t, head, tail) && Grown(t, t', root, r, d, key, x)
    ensures ShapeOk(t', root) && Between(t', head, tail) && Keys(t') == Keys(t) + {key} && Stay(t, t')
    ensures IsLeaf(t', x) && t'[x].q == key
  {
    var top :| top in t' && Adding(t, t', root, r, d, key, top, x);
    AddedOk(t, t', root, r, d, key, top, x);
    AddedKeys(t, t', root, r, d, key, top, x);
    forall n {:trigger IsLeaf(t', n)} | n in t' && IsLeaf(t', n) && n != x
      ensures IsLeaf(t, n) && t[n].q == t'[n].q
    {
      assert n != top;
    }
  }

  /** The words of the root and the two ends. */
  lemma FreshWords()
    ensures Mask(64) == 0 && Mask(0) == WORD_MAX
    ensures Widen(0, 64) == 0 && Widen(0, 0) == 0 && Widen(WORD_MAX, 0) == WORD_MAX
  {
    MaskOrder(0, 64);
    WidenTimes(0, 64);
  }

  lemma FreshShape(t: Shape, root: Node, head: Node, tail: Node)
    requires root != head && root != tail && head != tail
    requires t == map[root := View(64, 0, null, head, tail), head := View(0, 0, root, null, null),
      tail := View(0, WORD_MAX, root, null, null)]
    ensures ShapeOk(t, root) && Keys(t) == {0, WORD_MAX} && Between(t, head, tail)
  {
    TopBit();
    assert t[head].q == 0 && t[tail].q == WORD_MAX;
    assert NodeOk(t, root, root) && NodeOk(t, root, head) && NodeOk(t, root, tail);
    assert head in t && t[head].level == 0 && tail in t && t[tail].level == 0;
  }

  class Trie {
    var root: Node
    var head: Node
    var tail: Node
    ghost var t: Shape

    /** Every node is what `t` says; the ends are the leaves of the least and the greatest key. */
    ghost predicate Valid()
      reads this, t.Keys
    {
      && ShapeOk(t, root)
      && (forall n {:trigger t[n]} :: n in t ==> Is(n, t[n]))
      && Between(t, head, tail)
    }

    /** The root and the two ends, linked. */
    static method NewEnds() returns (r: Node, h: Node, l: Node)
      ensures fresh(r) && fresh(h) && fresh(l) && r != h && r != l && h != l
      ensures Is(r, View(64, 0, null, h, l)) && Is(h, View(0, 0, r, null, null))
      ensures Is(l, View(0, WORD_MAX, r, null, null))
    {
      FreshWords();
      r := new Node();
      r.xmask := 0;
      r.prefix := 0;
      h := new Node();
      r.child0 := h;
      h.parent := r;
      l := new Node();
      l.prefix := WORD_MAX;
      r.child1 := l;
      l.parent := r;
    }

    /** `pbtrie_init` */
    constructor ()
      ensures Valid() && Stored() == {0, WORD_MAX} && fresh(t.Keys)
    {
      var r, h, l := NewEnds();
      root, head, tail := r, h, l;
      t := map[r := View(64, 0, null, h, l), h := View(0, 0, r, null, null), l := View(0, WORD_MAX, r, null, null)];
      new;
      FreshShape(t, root, head, tail);
    }

    /** The keys added so far, and those of the two ends. */
    ghost function Stored(): set<nat>
      reads this
    {
      Keys(t)
    }

    /** The mask of the prefix that a child and a key share, within the child's own mask. */
    method SharedMask(child: Node?, key: Word) returns (xm: Word)
      requires child != null ==> child in t && Is(child, t[child])
      ensures child == null ==> xm == 0
      ensures child != null ==>
        Level(child.prefix, key) <= 64 && xm == Mask(Max(Level(child.prefix, key), t[child].level))
    {
      if child != null {
        LevelWord(child.prefix, key);
        MaskOrder(Level(child.prefix, key), t[child].level);
        xm := XMask(child.prefix, key);
        xm := Min(xm, child.xmask);
      } else {
        xm := 0;
      }
    }

    /** The comparison of the two masks takes the way of the key. */
    lemma Compare(node: Node, key: Word, xm0: Word, xm1: Word)
      requires Valid() && node in t && t[node].level > 0 && Under(t[node], key)
      requires node.child0 != null && Level(node.child0.prefix, key) <= 64 && node.child0 in t
      requires xm0 == Mask(Max(Level(node.child0.prefix, key), t[node.child0].level)) && t[node.child0].level <= 64
      requires node.child1 != null && Level(node.child1.prefix, key) <= 64 && node.child1 in t
      requires xm1 == Mask(Max(Level(node.child1.prefix, key), t[node.child1].level)) && t[node.child1].level <= 64
      ensures xm0 > xm1 <==> Shr(key, t[node].level - 1) == 2 * t[node].q
      ensures xm1 > xm0 <==> Shr(key, t[node].level - 1) == 2 * t[node].q + 1
    {
      assert Is(node, t[node]) && Is(node.child0, t[node.child0]) && Is(node.child1, t[node.child1]);
      BitIs(t[node], key);
      MaskOrder(Max(Level(node.child0.prefix, key), t[node.child0].level),
        Max(Level(node.child1.prefix, key), t[node.child1].level));
      if Shr(key, t[node].level - 1) == 2 * t[node].q {
        Toward(t, root, node, node.child0, 0, key);
        AwayFrom(t, root, node, node.child1, 1, key);
      } else {
        Toward(t, root, node, node.child1, 1, key);
        AwayFrom(t, root, node, node.child0, 0, key);
      }
    }

    /** The children of a node, as its fields. */
    lemma Children(node: Node)
      requires Valid() && node in t
      ensures if t[node].level == 0 then node.child0 == null && node.child1 == null
              else && node.child0 == t[node].c0 && node.child0 in t && Is(node.child0, t[node.child0])
                   && node.child1 == t[node].c1 && node.child1 in t && Is(node.child1, t[node.child1])
    {
      Near(t, root, node);
      assert Is(node, t[node]);
    }

    /** Under the child on the way of the key, or parting above it: the comparison with the mask of the child tells. */
    lemma Arrived(node: Node, c: Node, bit: nat, key: Word, xm: Word)
      requires Valid() && node in t && t[node].level > 0 && Under(t[node], key) && bit <= 1
      requires c == (if bit == 0 then t[node].c0 else t[node].c1) && c in t && Is(c, t[c])
      requires Shr(key, t[node].level - 1) == 2 * t[node].q + bit
      requires Level(c.prefix, key) <= 64 && t[c].level <= 64
      requires xm == Mask(Max(Level(c.prefix, key), t[c].level))
      ensures t[c].level < t[node].level
      ensures if c.xmask > xm then Parting(t, root, c, Level(c.prefix, key), key) else Under(t[c], key)
    {
      Toward(t, root, node, c, bit, key);
      MaskOrder(t[c].level, Max(Level(c.prefix, key), t[c].level));
    }

    /** One turn of `pbtrie_node_find_at`: the child that shares more with the key, and whether to stop there. */
    method Descend(node: Node, key: Word) returns (next: Node, stop: bool)
      requires Valid() && node in t && Under(t[node], key)
      ensures next in t
      ensures t[node].level == 0 ==> stop && next == node
      ensures t[node].level > 0 ==> t[next].level < t[node].level
      ensures t[node].level > 0 ==>
        if stop then Parting(t, root, next, Level(next.prefix, key), key) else Under(t[next], key)
    {
      Children(node);
      var xm0 := SharedMask(node.child0, key);
      var xm1 := SharedMask(node.child1, key);
      if t[node].level > 0 {
        Compare(node, key, xm0, xm1);
        BitIs(t[node], key);
        if xm0 > xm1 {
          Arrived(node, node.child0, 0, key, xm0);
        } else {
          Arrived(node, node.child1, 1, key, xm1);
        }
      }
      if xm0 > xm1 {
        next := node.child0;
        stop := next.xmask > xm0;
      } else if xm1 > xm0 {
        next := node.child1;
        stop := next.xmask > xm1;
      } else {
        assert node.child0 == null && node.child1 == null;
        next, stop := node, true;
      }
    }

    /** `pbtrie_node_find_at`: the leaf of the key, or the node above which the key leaves the trie. */
    method FindAt(from: Node, key: Word) returns (node: Node)
      requires Valid() && from in t && Under(t[from], key)
      ensures node in t
      ensures (IsLeaf(t, node) && t[node].q == key) || Parting(t, root, node, Level(node.prefix, key), key)
    {
      node := from;
      while true
        invariant node in t && Under(t[node], key)
        decreases t[node].level
      {
        var stop;
        node, stop := Descend(node, key);
        if stop {
          return;
        }
      }
    }

    /** `pbtrie_node_min` */
    method NodeMin(from: Node) returns (node: Node)
      requires Valid() && from in t
      ensures LeastUnder(t, from, node)
    {
      node := from;
      assert Is(node, t[node]);
      while node.child0 != null
        invariant node in t && Is(node, t[node])
        invariant forall r {:trigger LeastUnder(t, node, r)} :: r in t && LeastUnder(t, node, r) ==>
          LeastUnder(t, from, r)
        decreases t[node].level
      {
        Near(t, root, node);
        var c: Node := node.child0;
        forall r {:trigger LeastUnder(t, c, r)} | r in t && LeastUnder(t, c, r)
          ensures LeastUnder(t, node, r)
        {
          LeastStep(t, root, node, r);
        }
        node := c;
        assert Is(node, t[node]);
      }
      Near(t, root, node);
      assert LeastUnder(t, node, node);
    }

    /** `pbtrie_node_max` */
    method NodeMax(from: Node) returns (node: Node)
      requires Valid() && from in t
      ensures GreatestUnder(t, from, node)
    {
      node := from;
      assert Is(node, t[node]);
      while node.child1 != null
        invariant node in t && Is(node, t[node])
        invariant forall r {:trigger GreatestUnder(t, node, r)} :: r in t && GreatestUnder(t, node, r) ==>
          GreatestUnder(t, from, r)
        decreases t[node].level
      {
        Near(t, root, node);
        var c: Node := node.child1;
        forall r {:trigger GreatestUnder(t, c, r)} | r in t && GreatestUnder(t, c, r)
          ensures GreatestUnder(t, node, r)
        {
          GreatestStep(t, root, node, r);
        }
        node := c;
        assert Is(node, t[node]);
      }
      Near(t, root, node);
      assert GreatestUnder(t, node, node);
    }

    /** `pbtrie_node_next`; the root stands for the end. */
    method NodeNext(from: Node) returns (node: Node)
      requires Valid() && from in t
      ensures IsLeaf(t, from) ==> NextLeaf(t, from, node) || (node == root && GreatestUnder(t, root, from))
      ensures !IsLeaf(t, from) ==> from.child1 != null && LeastUnder(t, from.child1, node)
    {
      Near(t, root, from);
      assert Is(from, t[from]);
      if from.child1 != null {
        node := NodeMin(from.child1);
        return;
      }
      node := from;
      var parent := node.parent;
      while parent != null
        invariant node in t && parent == t[node].parent && GreatestUnder(t, node, from)
        decreases 64 - t[node].level
      {
        Near(t, root, node);
        Near(t, root, parent);
        assert Is(parent, t[parent]);
        if parent.child1 != null && parent.child1 != node {
          ghost var c := node;
          node := NodeMin(parent.child1);
          TurnNext(t, root, from, c, parent, node);
          return;
        } else {
          GreatestStep(t, root, parent, from);
          node := parent;
        }
        parent := node.parent;
      }
      Near(t, root, node);
    }

    /** `pbtrie_node_prev`; the root stands for the end. */
    method NodePrev(from: Node) returns (node: Node)
      requires Valid() && from in t
      ensures IsLeaf(t, from) ==> PrevLeaf(t, from, node) || (node == root && LeastUnder(t, root, from))
      ensures !IsLeaf(t, from) ==> from.child0 != null && GreatestUnder(t, from.child0, node)
    {
      Near(t, root, from);
      assert Is(from, t[from]);
      if from.child0 != null {
        node := NodeMax(from.child0);
        return;
      }
      node := from;
      var parent := node.parent;
      while parent != null
        invariant node in t && parent == t[node].parent && LeastUnder(t, node, from)
        decreases 64 - t[node].level
      {
        Near(t, root, node);
        Near(t, root, parent);
        assert Is(parent, t[parent]);
        if parent.child0 != null && parent.child0 != node {
          ghost var c := node;
          node := NodeMax(parent.child0);
          TurnPrev(t, root, from, c, parent, node);
          return;
        } else {
          LeastStep(t, root, parent, from);
          node := parent;
        }
        parent := node.parent;
      }
      Near(t, root, node);
    }

    /** Every key is under the root. */
    lemma AllUnderRoot()
      requires Valid()
      ensures forall m {:trigger IsLeaf(t, m)} :: m in t && IsLeaf(t, m) ==> Under(t[root], t[m].q)
    {
      Near(t, root, root);
      Pow2Word();
      forall m {:trigger IsLeaf(t, m)} | m in t && IsLeaf(t, m)
        ensures Under(t[root], t[m].q)
      {
        ShrBelow(t[m].q, 64);
      }
    }

    /** `pbtrie_traverse` with a callback that returns 0: visits every leaf once, in ascending order of the keys. */
    method Traverse() returns (visited: seq<Node>)
      requires Valid()
      ensures forall n :: n in visited <==> n in t && IsLeaf(t, n)
      ensures Ascending(t, visited)
    {
      visited := [];
      var node := head;
      AllUnderRoot();
      while node != tail
        invariant IsLeaf(t, node)
        invariant forall n :: n in visited ==> n in t && IsLeaf(t, n) && t[n].q < t[node].q
        invariant Ascending(t, visited)
        invariant forall n {:trigger IsLeaf(t, n)} :: n in t && IsLeaf(t, n) && t[n].q < t[node].q ==> n in visited
        decreases WORD_MAX - t[node].q
      {
        visited := visited + [node];
        ghost var last := node;
        node := NodeNext(node);
        LastIsTail(last, node);
        NothingBetween(last, node, visited);
      }
      forall n | n in t && IsLeaf(t, n) && n != tail
        ensures n in visited
      {
        if t[n].q == WORD_MAX {
          UniqueLeaf(t, root, n, tail);
        }
      }
      visited := visited + [node];
    }

    lemma LastIsTail(n: Node, r: Node)
      requires Valid() && IsLeaf(t, n) && n != tail
      requires NextLeaf(t, n, r) || (r == root && GreatestUnder(t, root, n))
      ensures NextLeaf(t, n, r)
    {
      AllUnderRoot();
      assert IsLeaf(t, tail) && IsLeaf(t, n);
      if t[n].q == WORD_MAX {
        UniqueLeaf(t, root, n, tail);
      }
    }

    lemma NothingBetween(n: Node, r: Node, visited: seq<Node>)
      requires Valid() && NextLeaf(t, n, r) && n in visited
      requires forall m {:trigger IsLeaf(t, m)} :: m in t && IsLeaf(t, m) && t[m].q < t[n].q ==> m in visited
      ensures forall m {:trigger IsLeaf(t, m)} :: m in t && IsLeaf(t, m) && t[m].q < t[r].q ==> m in visited
    {
      forall m {:trigger IsLeaf(t, m)} | m in t && IsLeaf(t, m) && t[m].q < t[r].q
        ensures m in visited
      {
        if t[m].q == t[n].q {
          UniqueLeaf(t, root, m, n);
        }
      }
    }

    /** `pbtrie_reverse` with a callback that returns 0: visits every leaf once, in descending order of the keys. */
    method Reverse() returns (visited: seq<Node>)
      requires Valid()
      ensures forall n :: n in visited <==> n in t && IsLeaf(t, n)
      ensures Descending(t, visited)
    {
      visited := [];
      var node := tail;
      AllUnderRoot();
      while node != head
        invariant IsLeaf(t, node)
        invariant forall n :: n in visited ==> n in t && IsLeaf(t, n) && t[n].q > t[node].q
        invariant Descending(t, visited)
        invariant forall n {:trigger IsLeaf(t, n)} :: n in t && IsLeaf(t, n) && t[n].q > t[node].q ==> n in visited
        decreases t[node].q
      {
        visited := visited + [node];
        ghost var last := node;
        node := NodePrev(node);
        FirstIsHead(last, node);
        NothingBelow(last, node, visited);
      }
      forall n | n in t && IsLeaf(t, n) && n != head
        ensures n in visited
      {
        if t[n].q == 0 {
          UniqueLeaf(t, root, n, head);
        }
      }
      visited := visited + [node];
    }

    lemma FirstIsHead(n: Node, r: Node)
      requires Valid() && IsLeaf(t, n) && n != head
      requires PrevLeaf(t, n, r) || (r == root && LeastUnder(t, root, n))
      ensures PrevLeaf(t, n, r)
    {
      AllUnderRoot();
      assert IsLeaf(t, head) && IsLeaf(t, n);
      if t[n].q == 0 {
        UniqueLeaf(t, root, n, head);
      }
    }

    lemma NothingBelow(n: Node, r: Node, visited: seq<Node>)
      requires Valid() && PrevLeaf(t, n, r) && n in visited
      requires forall m {:trigger IsLeaf(t, m)} :: m in t && IsLeaf(t, m) && t[m].q > t[n].q ==> m in visited
      ensures forall m {:trigger IsLeaf(t, m)} :: m in t && IsLeaf(t, m) && t[m].q > t[r].q ==> m in visited
    {
      forall m {:trigger IsLeaf(t, m)} | m in t && IsLeaf(t, m) && t[m].q > t[r].q
        ensures m in visited
      {
        if t[m].q == t[n].q {
          UniqueLeaf(t, root, m, n);
        }
      }
    }

    /** `pbtrie_find_exact`.  The caller has to look at the key: for a key that is not stored the node above which it
        leaves the trie comes back. */
    method FindExact(key: Word) returns (node: Node)
      requires Valid()
      ensures key in Stored() <==> IsLeaf(t, node) && t[node].q == key
      ensures key !in Stored() ==> Parting(t, root, node, Level(node.prefix, key), key)
    {
      Near(t, root, root);
      Pow2Word();
      ShrBelow(key, 64);
      node := FindAt(root, key);
      if key in Stored() {
        if Parting(t, root, node, Level(node.prefix, key), key) {
          PartingIsNew(t, root, node, Level(node.prefix, key), key);
        }
      }
    }

    /** `pbtrie_node_split`: a new node comes in above `split`, at the level where the key leaves the trie. */
    method Split(split: Node, key: Word, ghost d: nat) returns (top: Node)
      requires split.parent != null && split.parent != split
      requires split.parent.child0 == split || split.parent.child1 == split
      requires d == Level(split.prefix, key) && 0 < d < 64 && Mask(d) < split.xmask
      modifies split`parent, split.parent`child0, split.parent`child1
      ensures fresh(top) && split.parent == top
      ensures top.xmask == Mask(d) && top.prefix == Widen(Shr(key, d), d) && top.parent == old(split.parent)
      ensures Shr(split.prefix, d - 1) % 2 == 0 ==> top.child0 == split && top.child1 == null
      ensures Shr(split.prefix, d - 1) % 2 != 0 ==> top.child0 == null && top.child1 == split
      ensures var p := old(split.parent);
        if old(split.parent.child0) == split then p.child0 == top && p.child1 == old(p.child1)
        else p.child0 == old(p.child0) && p.child1 == top
    {
      SideBits(split.prefix, key, d);
      var xm := XMask(split.prefix, key);
      assert xm < split.xmask;
      var oldParent := split.parent;
      top := new Node();
      top.prefix := And(split.prefix, xm);
      top.xmask := xm;
      top.parent := oldParent;
      if oldParent.child0 == split {
        oldParent.child0 := top;
      } else {
        oldParent.child1 := top;
      }
      if ChildSel(top.xmask, top.prefix, split.prefix) {
        top.child1 := split;
      } else {
        top.child0 := split;
      }
      split.parent := top;
    }

    /** The second half of `pbtrie_add_node`: the leaf of the key goes to the free side of `top`. */
    method AddLeaf(top: Node, key: Word, ghost d: nat) returns (node: Node)
      requires 0 < d < 64 && top.xmask == Mask(d) && top.prefix == Widen(Shr(key, d), d)
      requires if Shr(key, d - 1) % 2 == 0 then top.child0 == null else top.child1 == null
      modifies top`child0, top`child1
      ensures fresh(node) && node.parent == top && node.prefix == key && node.xmask == WORD_MAX
      ensures node.child0 == null && node.child1 == null
      ensures if Shr(key, d - 1) % 2 == 0 then top.child0 == node && top.child1 == old(top.child1)
              else top.child1 == node && top.child0 == old(top.child0)
    {
      LevelWord(key, key);
      SideBits(key, key, d);
      node := new Node();
      node.parent := top;
      node.prefix := key;
      if ChildSel(top.xmask, top.prefix, key) {
        assert top.child1 == null;
        top.child1 := node;
      } else {
        assert top.child0 == null;
        top.child0 := node;
      }
    }

    /** The node that `pbtrie_add_node` splits for a new key. */
    lemma SplitPoint(split: Node, key: Word, d: nat)
      requires Valid() && Parting(t, root, split, d, key) && d == Level(split.prefix, key)
      ensures split.parent == t[split].parent && split.parent in t && split.parent != split
      ensures split.parent.child0 == split || split.parent.child1 == split
      ensures 0 < d < 64 && Mask(d) < split.xmask
      ensures Shr(split.prefix, d - 1) == Shr(t[split].q, d - 1 - t[split].level)
      ensures ZeroSide(t[split], d) <==> Shr(key, d - 1) % 2 != 0
    {
      SplitBits(t, root, split, d, key);
      assert Is(split, t[split]) && Is(t[split].parent, t[t[split].parent]);
      assert NodeOk(t, root, split);
    }

    /** The assignments of `pbtrie_add_node`. */
    method Wire(split: Node, p: Node, key: Word, ghost d: nat) returns (top: Node, node: Node)
      requires split in t && p in t && p != split && Is(split, t[split]) && Is(p, t[p]) && split.parent == p
      requires p.child0 == split || p.child1 == split
      requires d == Level(split.prefix, key) && 0 < d < 64 && t[split].level < d && Mask(d) < split.xmask
      requires Shr(split.prefix, d - 1) == Shr(t[split].q, d - 1 - t[split].level)
      requires ZeroSide(t[split], d) <==> Shr(key, d - 1) % 2 != 0
      modifies split`parent, p`child0, p`child1
      ensures fresh(top) && fresh(node) && top != node
      ensures Is(p, if t[p].c0 == split then t[p].(c0 := top) else t[p].(c1 := top))
      ensures Is(split, t[split].(parent := top))
      ensures Is(top, if ZeroSide(t[split], d) then View(d, Shr(key, d), p, split, node)
        else View(d, Shr(key, d), p, node, split))
      ensures Is(node, View(0, key, top, null, null))
    {
      top := Split(split, key, d);
      node := AddLeaf(top, key, d);
      MaskOrder(0, 64);
    }

    /** The same, seen from all nodes. */
    method WireAll(split: Node, key: Word, ghost d: nat) returns (node: Node, ghost t1: Shape)
      requires forall n {:trigger t[n]} :: n in t ==> Is(n, t[n])
      requires ShapeOk(t, root) && Parting(t, root, split, d, key) && d == Level(split.prefix, key)
      requires split.parent == t[split].parent && split.parent in t && split.parent != split
      requires split.parent.child0 == split || split.parent.child1 == split
      requires 0 < d < 64 && Mask(d) < split.xmask
      requires Shr(split.prefix, d - 1) == Shr(t[split].q, d - 1 - t[split].level)
      requires ZeroSide(t[split], d) <==> Shr(key, d - 1) % 2 != 0
      modifies t.Keys
      ensures fresh(node) && node.prefix == key && fresh(t1.Keys - t.Keys)
      ensures Grown(t, t1, root, split, d, key, node) && forall n {:trigger t1[n]} :: n in t1 ==> Is(n, t1[n])
    {
      ghost var p: Node := split.parent;
      assert Is(split, t[split]) && Is(p, t[p]);
      var top;
      top, node := Wire(split, split.parent, key, d);
      t1 := Added(t, root, split, d, key, top, node);
      AddedLinks(t, root, split, d, key, top, node);
    }

    method GrowShape(split: Node, key: Word, ghost d: nat) returns (node: Node, ghost t1: Shape)
      requires Valid() && Parting(t, root, split, d, key) && d == Level(split.prefix, key)
      modifies t.Keys
      ensures fresh(node) && node.prefix == key && fresh(t1.Keys - t.Keys)
      ensures Grown(t, t1, root, split, d, key, node) && forall n {:trigger t1[n]} :: n in t1 ==> Is(n, t1[n])
    {
      SplitPoint(split, key, d);
      node, t1 := WireAll(split, key, d);
    }

    /** Adds the leaf of the key above `split`. */
    method AddAbove(split: Node, key: Word, ghost d: nat) returns (node: Node)
      requires Valid() && Parting(t, root, split, d, key) && d == Level(split.prefix, key)
      modifies this`t, t.Keys
      ensures Valid() && Stored() == old(Stored()) + {key} && Stay(old(t), t)
      ensures fresh(t.Keys - old(t.Keys))
      ensures fresh(node) && IsLeaf(t, node) && t[node].q == key && node.prefix == key
    {
      ghost var t1;
      node, t1 := GrowShape(split, key, d);
      AddedAll(t, t1, root, head, tail, split, d, key, node);
      t := t1;
    }

    /** `pbtrie_add_node`: a new key is stored, and every node stays the node of its prefix. */
    method AddNode(key: Word) returns (node: Node)
      requires Valid() && key !in Stored()
      modifies this`t, t.Keys
      ensures Valid() && Stored() == old(Stored()) + {key} && Stay(old(t), t)
      ensures fresh(t.Keys - old(t.Keys))
      ensures fresh(node) && IsLeaf(t, node) && t[node].q == key && node.prefix == key
    {
      Near(t, root, root);
      Pow2Word();
      ShrBelow(key, 64);
      var split := FindAt(root, key);
      node := AddAbove(split, key, Level(split.prefix, key));
    }

    /** A node that was handed out for a key is what a later lookup finds, whatever was added in between. */
    lemma StillFound(before: Shape, n: Node, r: Node)
      requires Valid() && Stay(before, t) && IsLeaf(before, n) && IsLeaf(t, r) && t[r].q == before[n].q
      ensures r == n
    {
      UniqueLeaf(t, root, r, n);
    }
  }
}
