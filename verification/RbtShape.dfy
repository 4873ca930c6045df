/** Search trees over node objects, as plain values: what the pointers of `src/rbt.c` must say, and what rotations,
    splicing and replacing do to them.  Every node has ghost bounds, the open interval of the keys that may stand
    in its subtree; they make the order of the whole tree a property of each single link. */
module RbtShape {
  import opened Bits

  const BOTTOM: int := -1
  const TOP: int := WORD_LIMIT

  class Node {
    var parent: Node?
    var left: Node?
    var right: Node?
    var prev: Node?
    var next: Node?
    var red: bool
    const key: Word

    /** `rbt_node_init` */
    constructor (key: Word)
      ensures this.key == key && !red
      ensures parent == null && left == null && right == null && prev == null && next == null
    {
      this.key := key;
      parent, left, right := null, null, null;
      prev, next := null, null;
      red := false;
    }
  }

  /** The tree links of one node. */
  datatype Links = Links(parent: Node?, left: Node?, right: Node?)

  datatype Bounds = Bounds(lo: int, hi: int)

  const EVERYTHING := Bounds(BOTTOM, TOP)

  type Tree = map<Node, Links>
  type Thread = map<Node, Node?>
  type Ranges = map<Node, Bounds>

  ghost predicate LinksOk(t: Tree, b: Ranges, root: Node?, n: Node)
    requires n in t && b.Keys == t.Keys
  {
    && BOTTOM <= b[n].lo < n.key < b[n].hi <= TOP
    && (t[n].left != null ==> t[n].left in t && t[t[n].left].parent == n && b[t[n].left] == Bounds(b[n].lo, n.key))
    && (t[n].right != null ==> t[n].right in t && t[t[n].right].parent == n && b[t[n].right] == Bounds(n.key, b[n].hi))
    && (t[n].parent == null <==> n == root)
    && (t[n].parent == null ==> b[n] == EVERYTHING)
    && (t[n].parent != null ==> t[n].parent in t && (t[t[n].parent].left == n || t[t[n].parent].right == n))
  }

  /** A binary search tree with consistent parent links. */
  ghost predicate TreeOk(t: Tree, b: Ranges, root: Node?) {
    && b.Keys == t.Keys
    && (root == null ==> t == map[])
    && (root != null ==> root in t)
    && (forall n {:trigger LinksOk(t, b, root, n)} :: n in t ==> LinksOk(t, b, root, n))
  }

  /** `rbt_find` as a function: the descent for `key` from `n`. */
  ghost function Find(t: Tree, b: Ranges, root: Node?, n: Node?, key: int): (r: Node?)
    requires TreeOk(t, b, root) && (n != null ==> n in t)
    ensures r != null ==> r in t && r.key == key
    decreases if n == null then 0 else b[n].hi - b[n].lo
  {
    if n == null then null
    else
      Width(t, b, root, n);
      if key == n.key then n
      else if key < n.key then Find(t, b, root, t[n].left, key)
      else Find(t, b, root, t[n].right, key)
  }

  lemma Width(t: Tree, b: Ranges, root: Node?, n: Node)
    requires TreeOk(t, b, root) && n in t
    ensures LinksOk(t, b, root, n)
    ensures b[n].hi - b[n].lo >= 2
    ensures t[n].left != null ==> 2 <= b[t[n].left].hi - b[t[n].left].lo < b[n].hi - b[n].lo
    ensures t[n].right != null ==> 2 <= b[t[n].right].hi - b[t[n].right].lo < b[n].hi - b[n].lo
    ensures t[n].parent != null ==> b[n].hi - b[n].lo < b[t[n].parent].hi - b[t[n].parent].lo
  {
    assert LinksOk(t, b, root, n);
    if t[n].left != null {
      assert LinksOk(t, b, root, t[n].left);
    }
    if t[n].right != null {
      assert LinksOk(t, b, root, t[n].right);
    }
    if t[n].parent != null {
      assert LinksOk(t, b, root, t[n].parent);
    }
  }

  /** The descent for a key within the bounds of `n` passes through `n`. */
  lemma {:induction false} FindClimb(t: Tree, b: Ranges, root: Node?, n: Node, key: int)
    requires TreeOk(t, b, root) && n in t && b[n].lo < key < b[n].hi
    ensures Find(t, b, root, root, key) == Find(t, b, root, n, key)
    decreases TOP - BOTTOM - (b[n].hi - b[n].lo)
  {
    Width(t, b, root, n);
    if n != root {
      var p := t[n].parent;
      Width(t, b, root, p);
      FindClimb(t, b, root, p, key);
    }
  }

  /** The last node on the descent for `key` from `n`. */
  ghost function LastOn(t: Tree, b: Ranges, root: Node?, n: Node, key: int): (r: Node)
    requires TreeOk(t, b, root) && n in t
    ensures r in t
    decreases b[n].hi - b[n].lo
  {
    Width(t, b, root, n);
    if key < n.key && t[n].left != null then LastOn(t, b, root, t[n].left, key)
    else if key > n.key && t[n].right != null then LastOn(t, b, root, t[n].right, key)
    else n
  }

  lemma {:induction false} LastClimb(t: Tree, b: Ranges, root: Node?, n: Node, key: int)
    requires TreeOk(t, b, root) && n in t && b[n].lo < key < b[n].hi
    ensures root != null && LastOn(t, b, root, root, key) == LastOn(t, b, root, n, key)
    decreases TOP - BOTTOM - (b[n].hi - b[n].lo)
  {
    Width(t, b, root, n);
    if n != root {
      var p := t[n].parent;
      Width(t, b, root, p);
      LastClimb(t, b, root, p, key);
    }
  }

  /** The greatest key below `key` belongs to a node without right child. */
  ghost predicate OpenBelow(t: Tree, key: int) {
    exists m :: m in t && Predecessor(t, m, key) && t[m].right == null
  }

  ghost predicate Predecessor(t: Tree, m: Node, key: int) {
    m.key < key && forall x :: x in t ==> x.key <= m.key || x.key >= key
  }

  /** Of the two neighbours of a free key only one has room for it. */
  lemma OneOpen(t: Tree, b: Ranges, root: Node?, p: Node, q: Node, key: int)
    requires TreeOk(t, b, root) && p in t && q in t && Predecessor(t, p, key) && BOTTOM < key < TOP
    requires key < q.key && forall x :: x in t ==> x.key < key || x.key >= q.key
    ensures t[p].right != null || t[q].left != null
  {
    if t[p].right == null && t[q].left == null {
      Width(t, b, root, p);
      Width(t, b, root, q);
      BoundIsKey(t, b, root, p);
      BoundIsKey(t, b, root, q);
      LastClimb(t, b, root, p, key);
      LastClimb(t, b, root, q, key);
      assert false;
    }
  }

  /** Where a key is free on the right of its node, and where on the left. */
  lemma FreeRight(t: Tree, b: Ranges, root: Node?, n: Node, key: int)
    requires TreeOk(t, b, root) && n in t && t[n].right == null && n.key < key < b[n].hi
    ensures OpenBelow(t, key)
  {
    Gap(t, b, root, n);
    assert Predecessor(t, n, key);
  }

  lemma FreeLeft(t: Tree, b: Ranges, root: Node?, n: Node, key: int)
    requires TreeOk(t, b, root) && n in t && t[n].left == null && b[n].lo < key < n.key
    ensures !OpenBelow(t, key)
  {
    Gap(t, b, root, n);
    Width(t, b, root, n);
    forall m | m in t && Predecessor(t, m, key)
      ensures t[m].right != null
    {
      OneOpen(t, b, root, m, n, key);
    }
  }

  /** Every node of the tree is found from the root by its key, so keys are unique. */
  lemma FindsAll(t: Tree, b: Ranges, root: Node?, n: Node)
    requires TreeOk(t, b, root) && n in t
    ensures Find(t, b, root, root, n.key) == n
  {
    Width(t, b, root, n);
    FindClimb(t, b, root, n, n.key);
  }

  lemma UniqueKeys(t: Tree, b: Ranges, root: Node?)
    requires TreeOk(t, b, root)
    ensures forall m, n :: m in t && n in t && m.key == n.key ==> m == n
  {
    forall m, n | m in t && n in t && m.key == n.key
      ensures m == n
    {
      FindsAll(t, b, root, m);
      FindsAll(t, b, root, n);
    }
  }

  /** No key of the tree lies on a side of `n` where there is no child. */
  lemma Gap(t: Tree, b: Ranges, root: Node?, n: Node)
    requires TreeOk(t, b, root) && n in t
    ensures t[n].left == null ==> forall m :: m in t ==> m.key <= b[n].lo || m.key >= n.key
    ensures t[n].right == null ==> forall m :: m in t ==> m.key <= n.key || m.key >= b[n].hi
  {
    Width(t, b, root, n);
    forall m | m in t && b[n].lo < m.key < b[n].hi
      ensures t[n].left == null ==> m.key >= n.key
      ensures t[n].right == null ==> m.key <= n.key
    {
      FindsAll(t, b, root, m);
      FindClimb(t, b, root, n, m.key);
    }
  }

  /** A bound is the key of some node or the end of the key range. */
  lemma {:induction false} BoundIsKey(t: Tree, b: Ranges, root: Node?, n: Node)
    requires TreeOk(t, b, root) && n in t
    ensures b[n].lo == BOTTOM || exists m :: m in t && m.key == b[n].lo
    ensures b[n].hi == TOP || exists m :: m in t && m.key == b[n].hi
    decreases TOP - BOTTOM - (b[n].hi - b[n].lo)
  {
    Width(t, b, root, n);
    if n != root {
      var p := t[n].parent;
      Width(t, b, root, p);
      BoundIsKey(t, b, root, p);
      assert p.key == p.key as int;
    }
  }

  /** Child `n` of `p` replaced by `c`; no parent means that the root changes. */
  ghost function Relink(t: Tree, p: Node?, n: Node, c: Node?): Tree
    requires p != null ==> p in t
  {
    if p == null then t
    else if t[p].left == n then t[p := t[p].(left := c)]
    else t[p := t[p].(right := c)]
  }

  ghost function Reparent(t: Tree, c: Node?, p: Node?): Tree
    requires c != null ==> c in t
  {
    if c == null then t else t[c := t[c].(parent := p)]
  }

  /** `_rbt_rotate_left` on values. */
  ghost function RotatedLeft(t: Tree, n: Node): Tree
    requires n in t && t[n].right != null && t[n].right in t
    requires t[n].parent != null ==> t[n].parent in t
    requires t[t[n].right].left != null ==> t[t[n].right].left in t
  {
    var r := t[n].right;
    var p := t[n].parent;
    var c := t[r].left;
    var t1 := Reparent(Relink(t, p, n, r), c, n);
    var t2 := t1[r := t1[r].(parent := p, left := n)];
    t2[n := t2[n].(parent := r, right := c)]
  }

  ghost function RotatedRight(t: Tree, n: Node): Tree
    requires n in t && t[n].left != null && t[n].left in t
    requires t[n].parent != null ==> t[n].parent in t
    requires t[t[n].left].right != null ==> t[t[n].left].right in t
  {
    var l := t[n].left;
    var p := t[n].parent;
    var c := t[l].right;
    var t1 := Reparent(Relink(t, p, n, l), c, n);
    var t2 := t1[l := t1[l].(parent := p, right := n)];
    t2[n := t2[n].(parent := l, left := c)]
  }

  ghost function RotatedBounds(b: Ranges, n: Node, up: Node): Ranges
    requires n in b && up in b
  {
    b[up := b[n]][n := if up.key > n.key then Bounds(b[n].lo, up.key) else Bounds(up.key, b[n].hi)]
  }

  ghost function NewRoot(root: Node?, oldTop: Node, newTop: Node?): Node? {
    if root == oldTop then newTop else root
  }

  /** The links that a left rotation at `n` leaves, `u` coming up between `n` and its parent `p`, `c` changing sides. */
  ghost predicate LeftRotation(t: Tree, t': Tree, n: Node, u: Node, p: Node?, c: Node?) {
    && n in t && u in t && t'.Keys == t.Keys && t[n].right == u && t[n].parent == p && t[u].left == c
      && t[u].parent == n
    && n != u && n != p && n != c && u != p && u != c && (p == c ==> p == null)
    && t'[n] == t[n].(parent := u, right := c)
    && t'[u] == t[u].(parent := p, left := n)
    && (c != null ==> c in t && t[c].parent == u && t'[c] == t[c].(parent := n))
    && (p != null ==> p in t && t'[p] == if t[p].left == n then t[p].(left := u) else t[p].(right := u))
    && (forall m :: m in t && m != n && m != u && m != c && m != p ==> t'[m] == t[m])
  }

  lemma RotateLeftLinks(t: Tree, b: Ranges, root: Node?, n: Node)
    requires TreeOk(t, b, root) && n in t && t[n].right != null
    ensures t[n].right in t && (t[n].parent != null ==> t[n].parent in t)
    ensures t[t[n].right].left != null ==> t[t[n].right].left in t
    ensures LeftRotation(t, RotatedLeft(t, n), n, t[n].right, t[n].parent, t[t[n].right].left)
  {
    var u, p := t[n].right, t[n].parent;
    Width(t, b, root, n);
    Width(t, b, root, u);
    if p != null {
      Width(t, b, root, p);
    }
    if t[u].left != null {
      Width(t, b, root, t[u].left);
    }
  }

  lemma RotateLeftCore(t: Tree, t': Tree, b: Ranges, root: Node?, n: Node, u: Node, p: Node?, c: Node?)
    requires TreeOk(t, b, root) && LeftRotation(t, t', n, u, p, c)
    ensures LinksOk(t', RotatedBounds(b, n, u), NewRoot(root, n, u), n)
    ensures LinksOk(t', RotatedBounds(b, n, u), NewRoot(root, n, u), u)
  {
    Width(t, b, root, n);
    Width(t, b, root, u);
    if p != null {
      Width(t, b, root, p);
    }
  }

  lemma RotateLeftAbove(t: Tree, t': Tree, b: Ranges, root: Node?, n: Node, u: Node, p: Node, c: Node?)
    requires TreeOk(t, b, root) && LeftRotation(t, t', n, u, p, c)
    ensures p in t && LinksOk(t', RotatedBounds(b, n, u), NewRoot(root, n, u), p)
  {
    Width(t, b, root, n);
    Width(t, b, root, p);
    if t[p].parent != null {
      Width(t, b, root, t[p].parent);
    }
  }

  lemma RotateLeftInner(t: Tree, t': Tree, b: Ranges, root: Node?, n: Node, u: Node, p: Node?, c: Node)
    requires TreeOk(t, b, root) && LeftRotation(t, t', n, u, p, c)
    ensures c in t && LinksOk(t', RotatedBounds(b, n, u), NewRoot(root, n, u), c)
  {
    Width(t, b, root, n);
    Width(t, b, root, u);
    Width(t, b, root, c);
  }

  lemma RotateLeftRest(t: Tree, t': Tree, b: Ranges, root: Node?, n: Node, u: Node, p: Node?, c: Node?, m: Node)
    requires TreeOk(t, b, root) && LeftRotation(t, t', n, u, p, c)
    requires m in t && m != n && m != u && m != p && m != c
    ensures LinksOk(t', RotatedBounds(b, n, u), NewRoot(root, n, u), m)
  {
    Width(t, b, root, n);
    Width(t, b, root, u);
    Width(t, b, root, m);
    assert t[m].left != null ==> t[m].left != n && t[m].left != u && t[m].left != c;
    assert t[m].right != null ==> t[m].right != n && t[m].right != u && t[m].right != c;
  }

  lemma RotateLeftOk(t: Tree, b: Ranges, root: Node?, n: Node)
    requires TreeOk(t, b, root) && n in t && t[n].right != null
    ensures t[n].right in t && (t[n].parent != null ==> t[n].parent in t)
    ensures t[t[n].right].left != null ==> t[t[n].right].left in t
    ensures RotatedLeft(t, n).Keys == t.Keys
    ensures TreeOk(RotatedLeft(t, n), RotatedBounds(b, n, t[n].right), NewRoot(root, n, t[n].right))
  {
    RotateLeftLinks(t, b, root, n);
    var u, p := t[n].right, t[n].parent;
    var c := t[u].left;
    var t', b', root' := RotatedLeft(t, n), RotatedBounds(b, n, u), NewRoot(root, n, u);
    Width(t, b, root, n);
    RotateLeftCore(t, t', b, root, n, u, p, c);
    if p != null {
      RotateLeftAbove(t, t', b, root, n, u, p, c);
    }
    if c != null {
      RotateLeftInner(t, t', b, root, n, u, p, c);
    }
    forall m | m in t'
      ensures LinksOk(t', b', root', m)
    {
      if m != n && m != u && m != p && m != c {
        RotateLeftRest(t, t', b, root, n, u, p, c, m);
      }
    }
  }

  /** The links that a right rotation at `n` leaves: `u` comes up between `n` and its parent `p`, `c` changes sides. */
  ghost predicate RightRotation(t: Tree, t': Tree, n: Node, u: Node, p: Node?, c: Node?) {
    && n in t && u in t && t'.Keys == t.Keys && t[n].left == u && t[n].parent == p && t[u].right == c
      && t[u].parent == n
    && n != u && n != p && n != c && u != p && u != c && (p == c ==> p == null)
    && t'[n] == t[n].(parent := u, left := c)
    && t'[u] == t[u].(parent := p, right := n)
    && (c != null ==> c in t && t[c].parent == u && t'[c] == t[c].(parent := n))
    && (p != null ==> p in t && t'[p] == if t[p].left == n then t[p].(left := u) else t[p].(right := u))
    && (forall m :: m in t && m != n && m != u && m != c && m != p ==> t'[m] == t[m])
  }

  lemma RotateRightLinks(t: Tree, b: Ranges, root: Node?, n: Node)
    requires TreeOk(t, b, root) && n in t && t[n].left != null
    ensures t[n].left in t && (t[n].parent != null ==> t[n].parent in t)
    ensures t[t[n].left].right != null ==> t[t[n].left].right in t
    ensures RightRotation(t, RotatedRight(t, n), n, t[n].left, t[n].parent, t[t[n].left].right)
  {
    var u, p := t[n].left, t[n].parent;
    Width(t, b, root, n);
    Width(t, b, root, u);
    if p != null {
      Width(t, b, root, p);
    }
    if t[u].right != null {
      Width(t, b, root, t[u].right);
    }
  }

  lemma RotateRightCore(t: Tree, t': Tree, b: Ranges, root: Node?, n: Node, u: Node, p: Node?, c: Node?)
    requires TreeOk(t, b, root) && RightRotation(t, t', n, u, p, c)
    ensures LinksOk(t', RotatedBounds(b, n, u), NewRoot(root, n, u), n)
    ensures LinksOk(t', RotatedBounds(b, n, u), NewRoot(root, n, u), u)
  {
    Width(t, b, root, n);
    Width(t, b, root, u);
    if p != null {
      Width(t, b, root, p);
    }
  }

  lemma RotateRightAbove(t: Tree, t': Tree, b: Ranges, root: Node?, n: Node, u: Node, p: Node, c: Node?)
    requires TreeOk(t, b, root) && RightRotation(t, t', n, u, p, c)
    ensures p in t && LinksOk(t', RotatedBounds(b, n, u), NewRoot(root, n, u), p)
  {
    Width(t, b, root, n);
    Width(t, b, root, p);
    if t[p].parent != null {
      Width(t, b, root, t[p].parent);
    }
  }

  lemma RotateRightInner(t: Tree, t': Tree, b: Ranges, root: Node?, n: Node, u: Node, p: Node?, c: Node)
    requires TreeOk(t, b, root) && RightRotation(t, t', n, u, p, c)
    ensures c in t && LinksOk(t', RotatedBounds(b, n, u), NewRoot(root, n, u), c)
  {
    Width(t, b, root, n);
    Width(t, b, root, u);
    Width(t, b, root, c);
  }

  lemma RotateRightRest(t: Tree, t': Tree, b: Ranges, root: Node?, n: Node, u: Node, p: Node?, c: Node?, m: Node)
    requires TreeOk(t, b, root) && RightRotation(t, t', n, u, p, c)
    requires m in t && m != n && m != u && m != p && m != c
    ensures LinksOk(t', RotatedBounds(b, n, u), NewRoot(root, n, u), m)
  {
    Width(t, b, root, n);
    Width(t, b, root, u);
    Width(t, b, root, m);
    assert t[m].left != null ==> t[m].left != n && t[m].left != u && t[m].left != c;
    assert t[m].right != null ==> t[m].right != n && t[m].right != u && t[m].right != c;
  }

  lemma RotateRightOk(t: Tree, b: Ranges, root: Node?, n: Node)
    requires TreeOk(t, b, root) && n in t && t[n].left != null
    ensures t[n].left in t && (t[n].parent != null ==> t[n].parent in t)
    ensures t[t[n].left].right != null ==> t[t[n].left].right in t
    ensures RotatedRight(t, n).Keys == t.Keys
    ensures TreeOk(RotatedRight(t, n), RotatedBounds(b, n, t[n].left), NewRoot(root, n, t[n].left))
  {
    RotateRightLinks(t, b, root, n);
    var u, p := t[n].left, t[n].parent;
    var c := t[u].right;
    var t', b', root' := RotatedRight(t, n), RotatedBounds(b, n, u), NewRoot(root, n, u);
    Width(t, b, root, n);
    RotateRightCore(t, t', b, root, n, u, p, c);
    if p != null {
      RotateRightAbove(t, t', b, root, n, u, p, c);
    }
    if c != null {
      RotateRightInner(t, t', b, root, n, u, p, c);
    }
    forall m | m in t'
      ensures LinksOk(t', b', root', m)
    {
      if m != n && m != u && m != p && m != c {
        RotateRightRest(t, t', b, root, n, u, p, c, m);
      }
    }
  }


  /** `target` linked as a leaf below `source`, or as the root of an empty tree. */
  ghost function Inserted(t: Tree, source: Node?, target: Node): Tree
    requires source != null ==> source in t
  {
    if source == null then t[target := Links(null, null, null)]
    else if target.key < source.key then t[source := t[source].(left := target)][target := Links(source, null, null)]
    else t[source := t[source].(right := target)][target := Links(source, null, null)]
  }

  ghost function InsertedBounds(b: Ranges, source: Node?, target: Node): Ranges
    requires source != null ==> source in b
  {
    b[target :=
      if source == null then EVERYTHING
      else if target.key < source.key then Bounds(b[source].lo, source.key)
      else Bounds(source.key, b[source].hi)]
  }

  /** `source` has room for `target` on the side where its key belongs. */
  ghost predicate Room(t: Tree, b: Ranges, root: Node?, source: Node?, target: Node) {
    && (source == null <==> root == null)
    && (source != null ==>
          && source in t && source in b && b[source].lo < target.key < b[source].hi && target.key != source.key
          && (target.key < source.key ==> t[source].left == null)
          && (target.key > source.key ==> t[source].right == null))
  }

  lemma InsertOk(t: Tree, b: Ranges, root: Node?, source: Node?, target: Node)
    requires TreeOk(t, b, root) && target !in t && Room(t, b, root, source, target)
    ensures TreeOk(Inserted(t, source, target), InsertedBounds(b, source, target),
      if root == null then target else root)
  {
    var t', b', root' := Inserted(t, source, target), InsertedBounds(b, source, target),
      if root == null then target else root;
    if source != null {
      Width(t, b, root, source);
    }
    forall m | m in t'
      ensures LinksOk(t', b', root', m)
    {
      if m != target {
        Width(t, b, root, m);
      }
    }
  }

  /** `x` taken out of the tree, its only child in its place. */
  ghost function Spliced(t: Tree, x: Node, c: Node?): Tree
    requires x in t && (t[x].parent != null ==> t[x].parent in t) && (c != null ==> c in t)
  {
    Reparent(Relink(t, t[x].parent, x, c), c, t[x].parent) - {x}
  }

  /** The subtree of the only child takes over the bounds of `x` on the side where `x` had no child. */
  ghost function SplicedBounds(b: Ranges, x: Node, rightFree: bool): Ranges
    requires x in b
  {
    map m | m in b && m != x ::
      if rightFree && b[m].hi == x.key then Bounds(b[m].lo, b[x].hi)
      else if !rightFree && b[m].lo == x.key then Bounds(b[x].lo, b[m].hi)
      else b[m]
  }

  ghost predicate Splicing(t: Tree, t': Tree, x: Node, p: Node?, c: Node?) {
    && x in t && t'.Keys == t.Keys - {x} && t[x].parent == p && x != p && x != c && (p == c ==> p == null)
    && (c != null ==> c in t && t[c].parent == x && t'[c] == t[c].(parent := p))
    && (p != null ==> p in t && t'[p] == if t[p].left == x then t[p].(left := c) else t[p].(right := c))
    && (forall m :: m in t && m != x && m != c && m != p ==> t'[m] == t[m])
  }

  lemma SpliceLinks(t: Tree, b: Ranges, root: Node?, x: Node, rightFree: bool)
    requires TreeOk(t, b, root) && x in t && (if rightFree then t[x].right == null else t[x].left == null)
    ensures var c := if rightFree then t[x].left else t[x].right;
      && (t[x].parent != null ==> t[x].parent in t) && (c != null ==> c in t)
      && Splicing(t, Spliced(t, x, c), x, t[x].parent, c)
  {
    Width(t, b, root, x);
    var c := if rightFree then t[x].left else t[x].right;
    if c != null {
      Width(t, b, root, c);
    }
    if t[x].parent != null {
      Width(t, b, root, t[x].parent);
    }
  }

  lemma SpliceParent(t: Tree, t': Tree, b: Ranges, root: Node?, x: Node, rightFree: bool, p: Node, c: Node?)
    requires TreeOk(t, b, root) && Splicing(t, t', x, p, c)
    requires (if rightFree then t[x].right == null else t[x].left == null)
      && c == if rightFree then t[x].left else t[x].right
    requires p.key != x.key
    ensures p in t' && LinksOk(t', SplicedBounds(b, x, rightFree), if root == x then c else root, p)
  {
    Width(t, b, root, x);
    Width(t, b, root, p);
    if t[p].parent != null {
      Width(t, b, root, t[p].parent);
    }
  }

  lemma SpliceChild(t: Tree, t': Tree, b: Ranges, root: Node?, x: Node, rightFree: bool, p: Node?, c: Node)
    requires TreeOk(t, b, root) && Splicing(t, t', x, p, c)
    requires (if rightFree then t[x].right == null else t[x].left == null)
      && c == if rightFree then t[x].left else t[x].right
    requires c.key != x.key
    ensures c in t' && LinksOk(t', SplicedBounds(b, x, rightFree), if root == x then c else root, c)
  {
    Width(t, b, root, x);
    Width(t, b, root, c);
    if p != null {
      Width(t, b, root, p);
    }
  }

  lemma SpliceRest(t: Tree, t': Tree, b: Ranges, root: Node?, x: Node, rightFree: bool, p: Node?, c: Node?, m: Node)
    requires TreeOk(t, b, root) && Splicing(t, t', x, p, c)
    requires (if rightFree then t[x].right == null else t[x].left == null)
      && c == if rightFree then t[x].left else t[x].right
    requires m in t && m != x && m != p && m != c && m.key != x.key
    ensures LinksOk(t', SplicedBounds(b, x, rightFree), if root == x then c else root, m)
  {
    Width(t, b, root, x);
    Width(t, b, root, m);
    assert t[m].left != null ==> t[m].left != x && t[m].left != c;
    assert t[m].right != null ==> t[m].right != x && t[m].right != c;
  }

  lemma SpliceOk(t: Tree, b: Ranges, root: Node?, x: Node, rightFree: bool)
    requires TreeOk(t, b, root) && x in t && (if rightFree then t[x].right == null else t[x].left == null)
    ensures var c := if rightFree then t[x].left else t[x].right;
      && (t[x].parent != null ==> t[x].parent in t) && (c != null ==> c in t)
      && TreeOk(Spliced(t, x, c), SplicedBounds(b, x, rightFree), if root == x then c else root)
  {
    SpliceLinks(t, b, root, x, rightFree);
    UniqueKeys(t, b, root);
    var c := if rightFree then t[x].left else t[x].right;
    var p := t[x].parent;
    var t', b', root' := Spliced(t, x, c), SplicedBounds(b, x, rightFree), if root == x then c else root;
    Width(t, b, root, x);
    forall m | m in t'
      ensures LinksOk(t', b', root', m)
    {
      if m == p {
        SpliceParent(t, t', b, root, x, rightFree, m, c);
      } else if m == c {
        SpliceChild(t, t', b, root, x, rightFree, p, m);
      } else {
        SpliceRest(t, t', b, root, x, rightFree, p, c, m);
      }
    }
    if root' == null {
      OnlyRoot(t, b, root, x);
    }
  }

  /** A root without children is the whole tree. */
  lemma OnlyRoot(t: Tree, b: Ranges, root: Node?, x: Node)
    requires TreeOk(t, b, root) && x == root && x in t && t[x].left == null && t[x].right == null
    ensures t.Keys == {x}
  {
    Gap(t, b, root, x);
    UniqueKeys(t, b, root);
    Width(t, b, root, x);
    forall m | m in t
      ensures m == x
    {
      Width(t, b, root, m);
    }
  }

  /** A node with a bound on either side hangs below another. */
  lemma BelowRoot(t: Tree, b: Ranges, root: Node?, n: Node)
    requires TreeOk(t, b, root) && n in t && (b[n].lo != BOTTOM || b[n].hi != TOP)
    ensures t[n].parent != null && t[n].parent in t
  {
    Width(t, b, root, n);
  }

  /** `repl` put in the place of `n`, which leaves the tree. */
  ghost function Replaced(t: Tree, n: Node, repl: Node): Tree
    requires n in t && (t[n].parent != null ==> t[n].parent in t)
    requires (t[n].left != null ==> t[n].left in t) && (t[n].right != null ==> t[n].right in t)
  {
    var t1 := Reparent(Reparent(Relink(t, t[n].parent, n, repl), t[n].left, repl), t[n].right, repl);
    t1[repl := t[n]] - {n}
  }

  ghost function ReplacedBounds(b: Ranges, n: Node, repl: Node): Ranges
    requires n in b
  {
    map m | m in b.Keys + {repl} && m != n ::
      if m == repl then b[n]
      else Bounds(if b[m].lo == n.key then repl.key else b[m].lo, if b[m].hi == n.key then repl.key else b[m].hi)
  }

  /** `repl` stands next to `n` in the order of the keys. */
  ghost predicate Adjacent(s: set<Node>, n: Node, repl: Node) {
    forall m :: m in s && m != n ==> m.key != repl.key && (m.key < repl.key <==> m.key < n.key)
  }

  ghost predicate Replacing(t: Tree, t': Tree, n: Node, r: Node)
    requires n in t
  {
    var p, x, y := t[n].parent, t[n].left, t[n].right;
    && r !in t && n != r && t'.Keys == t.Keys - {n} + {r} && t'[r] == t[n]
    && n != p && n != x && n != y && (p == x ==> p == null) && (p == y ==> p == null) && (x == y ==> x == null)
    && (x != null ==> x in t && t[x].parent == n && t'[x] == t[x].(parent := r))
    && (y != null ==> y in t && t[y].parent == n && t'[y] == t[y].(parent := r))
    && (p != null ==> p in t && t'[p] == if t[p].left == n then t[p].(left := r) else t[p].(right := r))
    && (forall m :: m in t && m != n && m != p && m != x && m != y ==> t'[m] == t[m])
  }

  lemma ReplaceLinks(t: Tree, b: Ranges, root: Node?, n: Node, repl: Node)
    requires TreeOk(t, b, root) && n in t && repl !in t
    ensures (t[n].parent != null ==> t[n].parent in t)
    ensures (t[n].left != null ==> t[n].left in t) && (t[n].right != null ==> t[n].right in t)
    ensures Replacing(t, Replaced(t, n, repl), n, repl)
  {
    Width(t, b, root, n);
    if t[n].parent != null {
      Width(t, b, root, t[n].parent);
    }
    if t[n].left != null {
      Width(t, b, root, t[n].left);
    }
    if t[n].right != null {
      Width(t, b, root, t[n].right);
    }
  }

  lemma ReplaceParent(t: Tree, t': Tree, b: Ranges, root: Node?, n: Node, r: Node, m: Node)
    requires TreeOk(t, b, root) && n in t && Replacing(t, t', n, r) && Adjacent(t.Keys, n, r)
    requires m == t[n].parent && m in t && m != n && m.key != n.key
    ensures LinksOk(t', ReplacedBounds(b, n, r), if root == n then r else root, m)
  {
    Width(t, b, root, n);
    Width(t, b, root, m);
    if t[m].parent != null {
      Width(t, b, root, t[m].parent);
    }
  }

  lemma ReplaceChild(t: Tree, t': Tree, b: Ranges, root: Node?, n: Node, r: Node, m: Node)
    requires TreeOk(t, b, root) && n in t && Replacing(t, t', n, r) && Adjacent(t.Keys, n, r)
    requires (m == t[n].left || m == t[n].right) && m in t && m != n && m.key != n.key
    ensures LinksOk(t', ReplacedBounds(b, n, r), if root == n then r else root, m)
  {
    Width(t, b, root, n);
    Width(t, b, root, m);
  }

  lemma ReplaceRest(t: Tree, t': Tree, b: Ranges, root: Node?, n: Node, r: Node, m: Node)
    requires TreeOk(t, b, root) && n in t && Replacing(t, t', n, r) && Adjacent(t.Keys, n, r)
    requires m in t && m != n && m.key != n.key && m != t[n].parent && m != t[n].left && m != t[n].right
    ensures LinksOk(t', ReplacedBounds(b, n, r), if root == n then r else root, m)
  {
    Width(t, b, root, n);
    Width(t, b, root, m);
    assert t[m].left != null ==> t[m].left != n && t[m].left != t[n].left && t[m].left != t[n].right;
    assert t[m].right != null ==> t[m].right != n && t[m].right != t[n].left && t[m].right != t[n].right;
  }

  lemma ReplaceTop(t: Tree, t': Tree, b: Ranges, root: Node?, n: Node, r: Node)
    requires TreeOk(t, b, root) && n in t && Replacing(t, t', n, r) && Adjacent(t.Keys, n, r)
    ensures LinksOk(t', ReplacedBounds(b, n, r), if root == n then r else root, r)
  {
    Width(t, b, root, n);
    BoundIsKey(t, b, root, n);
    if t[n].parent != null {
      Width(t, b, root, t[n].parent);
    }
    if t[n].left != null {
      Width(t, b, root, t[n].left);
    }
    if t[n].right != null {
      Width(t, b, root, t[n].right);
    }
  }

  lemma ReplaceEach(t: Tree, t': Tree, b: Ranges, root: Node?, n: Node, r: Node, m: Node)
    requires TreeOk(t, b, root) && n in t && Replacing(t, t', n, r) && Adjacent(t.Keys, n, r) && m in t'
    ensures LinksOk(t', ReplacedBounds(b, n, r), if root == n then r else root, m)
  {
    if m == r {
      ReplaceTop(t, t', b, root, n, r);
    } else {
      UniqueKeys(t, b, root);
      if m == t[n].parent {
        ReplaceParent(t, t', b, root, n, r, m);
      } else if m == t[n].left || m == t[n].right {
        ReplaceChild(t, t', b, root, n, r, m);
      } else {
        ReplaceRest(t, t', b, root, n, r, m);
      }
    }
  }

  lemma ReplaceOk(t: Tree, b: Ranges, root: Node?, n: Node, repl: Node)
    requires TreeOk(t, b, root) && n in t && repl !in t && Adjacent(t.Keys, n, repl)
    ensures (t[n].parent != null ==> t[n].parent in t)
    ensures (t[n].left != null ==> t[n].left in t) && (t[n].right != null ==> t[n].right in t)
    ensures TreeOk(Replaced(t, n, repl), ReplacedBounds(b, n, repl), if root == n then repl else root)
  {
    ReplaceLinks(t, b, root, n, repl);
    var t', b', root' := Replaced(t, n, repl), ReplacedBounds(b, n, repl), if root == n then repl else root;
    forall m | m in t'
      ensures LinksOk(t', b', root', m)
    {
      ReplaceEach(t, t', b, root, n, repl, m);
    }
  }

  /** The in-order walk of the subtree of `n`. */
  ghost function InOrder(t: Tree, b: Ranges, root: Node?, n: Node?): seq<Node>
    requires TreeOk(t, b, root) && (n != null ==> n in t)
    decreases if n == null then 0 else b[n].hi - b[n].lo
  {
    if n == null then []
    else
      Width(t, b, root, n);
      InOrder(t, b, root, t[n].left) + [n] + InOrder(t, b, root, t[n].right)
  }

  ghost predicate Sorted(order: seq<Node>) {
    forall i, j :: 0 <= i < j < |order| ==> order[i].key < order[j].key
  }

  /** The walk lists exactly the nodes that the descent finds, in ascending order and within the bounds. */
  lemma {:induction false} InOrderSorted(t: Tree, b: Ranges, root: Node?, n: Node)
    requires TreeOk(t, b, root) && n in t
    ensures Sorted(InOrder(t, b, root, n))
    ensures forall m :: m in InOrder(t, b, root, n) ==> m in t && b[n].lo < m.key < b[n].hi
    decreases b[n].hi - b[n].lo
  {
    Width(t, b, root, n);
    if t[n].left != null {
      InOrderSorted(t, b, root, t[n].left);
    }
    if t[n].right != null {
      InOrderSorted(t, b, root, t[n].right);
    }
    SortedJoin(InOrder(t, b, root, t[n].left), n, InOrder(t, b, root, t[n].right));
  }

  lemma SortedJoin(l: seq<Node>, n: Node, r: seq<Node>)
    requires Sorted(l) && Sorted(r)
    requires forall m :: m in l ==> m.key < n.key
    requires forall m :: m in r ==> n.key < m.key
    ensures Sorted(l + [n] + r)
  {
    var s := l + [n] + r;
    forall i, j | 0 <= i < j < |s|
      ensures s[i].key < s[j].key
    {
      assert i < |l| ==> s[i] == l[i] && l[i] in l;
      assert i > |l| ==> s[i] == r[i - |l| - 1];
      assert j < |l| ==> s[j] == l[j];
      assert j > |l| ==> s[j] == r[j - |l| - 1] && r[j - |l| - 1] in r;
    }
  }

  lemma {:induction false} InOrderFinds(t: Tree, b: Ranges, root: Node?, n: Node, m: Node)
    requires TreeOk(t, b, root) && n in t && Find(t, b, root, n, m.key) == m
    ensures m in InOrder(t, b, root, n)
    decreases b[n].hi - b[n].lo
  {
    Width(t, b, root, n);
    if m.key < n.key {
      InOrderFinds(t, b, root, t[n].left, m);
    } else if m.key > n.key {
      InOrderFinds(t, b, root, t[n].right, m);
    }
  }

  /** The walk of the whole tree lists all its nodes, each once, in ascending order. */
  lemma InOrderAll(t: Tree, b: Ranges, root: Node?)
    requires TreeOk(t, b, root)
    ensures Sorted(InOrder(t, b, root, root))
    ensures forall m :: m in InOrder(t, b, root, root) <==> m in t
    ensures |InOrder(t, b, root, root)| == |t|
  {
    var walk := InOrder(t, b, root, root);
    if root != null {
      InOrderSorted(t, b, root, root);
      forall m | m in t
        ensures m in walk
      {
        FindsAll(t, b, root, m);
        InOrderFinds(t, b, root, root, m);
      }
    }
    SortedSize(walk, t.Keys);
    assert |t| == |t.Keys|;
  }

  lemma {:induction false} SortedSize(walk: seq<Node>, s: set<Node>)
    requires Sorted(walk) && forall m :: m in walk <==> m in s
    ensures |walk| == |s|
    decreases |walk|
  {
    if walk == [] {
      assert s == {};
    } else {
      var n := walk[|walk| - 1];
      var rest := walk[..|walk| - 1];
      assert walk == rest + [n];
      assert n in walk && n !in rest;
      assert forall m :: m in rest <==> m in s - {n};
      SortedSize(rest, s - {n});
    }
  }

  /** `w` lists the nodes of `s` in ascending order. */
  ghost predicate Lists(w: seq<Node>, s: set<Node>) {
    && Sorted(w)
    && (forall m :: m in w ==> m in s)
    && (forall m :: m in s ==> m in w)
  }

  /** The last node of a sorted walk has the greatest key and stands nowhere else. */
  lemma LastOfSorted(w: seq<Node>, s: set<Node>)
    requires Lists(w, s) && w != []
    ensures w[|w| - 1] in s && Lists(w[..|w| - 1], s - {w[|w| - 1]})
    ensures forall m :: m in s ==> m.key <= w[|w| - 1].key
  {
    var x, rest := w[|w| - 1], w[..|w| - 1];
    assert w == rest + [x] && x in w;
    forall m | m in rest
      ensures m in w && m.key < x.key
    {
      var i :| 0 <= i < |rest| && rest[i] == m;
      assert w[i] == m;
    }
    forall m | m in s
      ensures m in rest || m == x
    {
      assert m in w;
    }
  }

  lemma ListsNothing(w: seq<Node>, s: set<Node>)
    requires Lists(w, s)
    ensures w == [] <==> s == {}
  {
    if w != [] {
      assert w[0] in w;
    }
  }

  lemma WalkLists(t: Tree, b: Ranges, root: Node?, w: seq<Node>)
    requires TreeOk(t, b, root) && w == InOrder(t, b, root, root)
    ensures Lists(w, t.Keys) && UniqueIn(t.Keys)
  {
    InOrderAll(t, b, root);
    UniqueKeys(t, b, root);
  }

  lemma {:induction false} SortedUnique(v: seq<Node>, w: seq<Node>, s: set<Node>)
    requires Lists(v, s) && Lists(w, s) && UniqueIn(s)
    ensures v == w
    decreases |v|
  {
    ListsNothing(v, s);
    ListsNothing(w, s);
    if s != {} {
      var x, y := v[|v| - 1], w[|w| - 1];
      LastOfSorted(v, s);
      LastOfSorted(w, s);
      assert SameKey(x, y);
      SortedUnique(v[..|v| - 1], w[..|w| - 1], s - {x});
      assert v == v[..|v| - 1] + [x] && w == w[..|w| - 1] + [x];
    }
  }

  /** Two search trees over the same nodes have the same in-order walk, whatever their shapes. */
  lemma SameWalk(t: Tree, b: Ranges, root: Node?, t': Tree, b': Ranges, root': Node?)
    requires TreeOk(t, b, root) && TreeOk(t', b', root') && t.Keys == t'.Keys
    ensures InOrder(t, b, root, root) == InOrder(t', b', root', root')
  {
    var w, w' := InOrder(t, b, root, root), InOrder(t', b', root', root');
    WalkLists(t, b, root, w);
    WalkLists(t', b', root', w');
    SortedUnique(w, w', t.Keys);
  }

  ghost predicate Skipped(m: Node, k: int, n: Node?) { m.key <= k || (n != null && n.key <= m.key) }

  ghost predicate SkippedBack(m: Node, k: int, n: Node?) { m.key >= k || (n != null && n.key >= m.key) }

  /** `n` is the node of `s` with the least key above `k`, null when there is none. */
  ghost predicate After(s: set<Node>, k: int, n: Node?) {
    && (n != null ==> n in s && k < n.key)
    && forall m {:trigger Skipped(m, k, n)} :: m in s ==> Skipped(m, k, n)
  }

  /** `n` is the node of `s` with the greatest key below `k`, null when there is none. */
  ghost predicate Before(s: set<Node>, k: int, n: Node?) {
    && (n != null ==> n in s && n.key < k)
    && forall m {:trigger SkippedBack(m, k, n)} :: m in s ==> SkippedBack(m, k, n)
  }

  ghost predicate SameKey(m: Node, n: Node) { m.key == n.key }

  ghost predicate UniqueIn(s: set<Node>) {
    forall m, n {:trigger SameKey(m, n)} :: m in s && n in s && SameKey(m, n) ==> m == n
  }

  lemma AfterUnique(s: set<Node>, k: int, m: Node?, n: Node?)
    requires UniqueIn(s) && After(s, k, m) && After(s, k, n)
    ensures m == n
  {
    assert m != null ==> Skipped(m, k, n);
    assert n != null ==> Skipped(n, k, m);
    assert m != null && n != null ==> SameKey(m, n);
  }

  lemma BeforeUnique(s: set<Node>, k: int, m: Node?, n: Node?)
    requires UniqueIn(s) && Before(s, k, m) && Before(s, k, n)
    ensures m == n
  {
    assert m != null ==> SkippedBack(m, k, n);
    assert n != null ==> SkippedBack(n, k, m);
    assert m != null && n != null ==> SameKey(m, n);
  }

  /** A doubly linked thread through all nodes in the order of their keys. */
  ghost predicate ThreadOk(nx: Thread, pv: Thread, head: Node?, tail: Node?) {
    && pv.Keys == nx.Keys
    && After(nx.Keys, BOTTOM, head)
    && Before(nx.Keys, TOP, tail)
    && (forall n {:trigger After(nx.Keys, n.key, nx[n])} :: n in nx ==> After(nx.Keys, n.key, nx[n]))
    && (forall n {:trigger Before(nx.Keys, n.key, pv[n])} :: n in nx ==> Before(nx.Keys, n.key, pv[n]))
  }

  /** A thread without a head is empty. */
  lemma NoHead(nx: Thread, pv: Thread, tail: Node?)
    requires ThreadOk(nx, pv, null, tail)
    ensures nx.Keys == {} && tail == null
  {
    assert forall m :: m in nx ==> Skipped(m, BOTTOM, null);
  }

  lemma NeighboursInWalk(s: set<Node>, walk: seq<Node>, i: nat)
    requires Sorted(walk) && (forall m :: m in walk <==> m in s) && i < |walk|
    ensures After(s, walk[i].key, if i + 1 < |walk| then walk[i + 1] else null)
    ensures Before(s, walk[i].key, if i > 0 then walk[i - 1] else null)
  {
    forall m | m in s
      ensures Skipped(m, walk[i].key, if i + 1 < |walk| then walk[i + 1] else null)
      ensures SkippedBack(m, walk[i].key, if i > 0 then walk[i - 1] else null)
    {
      var j :| 0 <= j < |walk| && walk[j] == m;
    }
    assert i + 1 < |walk| ==> walk[i + 1] in walk;
    assert i > 0 ==> walk[i - 1] in walk;
  }

  lemma WalkLinks(t: Tree, b: Ranges, root: Node?, nx: Thread, pv: Thread, head: Node?, tail: Node?,
                  walk: seq<Node>, i: nat)
    requires TreeOk(t, b, root) && ThreadOk(nx, pv, head, tail) && nx.Keys == t.Keys
    requires Sorted(walk) && (forall m :: m in walk <==> m in t) && i < |walk|
    ensures walk[i] in t
    ensures nx[walk[i]] == if i + 1 < |walk| then walk[i + 1] else null
    ensures pv[walk[i]] == if i > 0 then walk[i - 1] else null
  {
    assert walk[i] in walk;
    UniqueKeys(t, b, root);
    NeighboursInWalk(t.Keys, walk, i);
    AfterUnique(t.Keys, walk[i].key, nx[walk[i]], if i + 1 < |walk| then walk[i + 1] else null);
    BeforeUnique(t.Keys, walk[i].key, pv[walk[i]], if i > 0 then walk[i - 1] else null);
  }

  lemma WalkEnds(t: Tree, b: Ranges, root: Node?, nx: Thread, pv: Thread, head: Node?, tail: Node?,
                 walk: seq<Node>)
    requires TreeOk(t, b, root) && ThreadOk(nx, pv, head, tail) && nx.Keys == t.Keys
    requires Sorted(walk) && (forall m :: m in walk <==> m in t)
    ensures head == if walk == [] then null else walk[0]
    ensures tail == if walk == [] then null else walk[|walk| - 1]
  {
    UniqueKeys(t, b, root);
    var first: Node? := if walk == [] then null else walk[0];
    var last: Node? := if walk == [] then null else walk[|walk| - 1];
    assert first != null ==> first in walk && last in walk;
    forall m | m in t
      ensures Skipped(m, BOTTOM, first) && SkippedBack(m, TOP, last)
    {
      var j :| 0 <= j < |walk| && walk[j] == m;
    }
    AfterUnique(t.Keys, BOTTOM, head, first);
    BeforeUnique(t.Keys, TOP, tail, last);
  }

  /** `x` is a new node next to `source`, below or above it. */
  ghost predicate Below(s: set<Node>, source: Node, x: Node) {
    && source in s && x !in s && x.key < source.key
    && forall m :: m in s ==> m.key != x.key && (m.key < x.key || m.key >= source.key)
  }

  ghost predicate Above(s: set<Node>, source: Node, x: Node) {
    && source in s && x !in s && x.key > source.key
    && forall m :: m in s ==> m.key != x.key && (m.key > x.key || m.key <= source.key)
  }

  /** To be the next above and to be the next below are converse relations. */
  lemma Converse(s: set<Node>, x: Node, y: Node?)
    requires x in s
    ensures Before(s, x.key, y) && y != null ==> After(s, y.key, x)
    ensures Before(s, x.key, y) && y == null ==> After(s, BOTTOM, x)
    ensures After(s, x.key, y) && y != null ==> Before(s, y.key, x)
    ensures After(s, x.key, y) && y == null ==> Before(s, TOP, x)
  {
    forall m
      ensures y != null && SkippedBack(m, x.key, y) ==> Skipped(m, y.key, x)
      ensures y == null && SkippedBack(m, x.key, y) ==> Skipped(m, BOTTOM, x)
      ensures y != null && Skipped(m, x.key, y) ==> SkippedBack(m, y.key, x)
      ensures y == null && Skipped(m, x.key, y) ==> SkippedBack(m, TOP, x)
    {
    }
  }

  /** The links next to a node point back at it. */
  lemma Around(nx: Thread, pv: Thread, head: Node?, tail: Node?, x: Node)
    requires ThreadOk(nx, pv, head, tail) && UniqueIn(nx.Keys) && x in nx
    ensures After(nx.Keys, x.key, nx[x]) && Before(nx.Keys, x.key, pv[x])
    ensures pv[x] != null ==> pv[x] in nx && pv[x] != x && nx[pv[x]] == x
    ensures nx[x] != null ==> nx[x] in nx && nx[x] != x && pv[nx[x]] == x
    ensures pv[x] == null ==> head == x
    ensures nx[x] == null ==> tail == x
  {
    assert After(nx.Keys, x.key, nx[x]) && Before(nx.Keys, x.key, pv[x]);
    Converse(nx.Keys, x, nx[x]);
    Converse(nx.Keys, x, pv[x]);
    if pv[x] != null {
      assert After(nx.Keys, pv[x].key, nx[pv[x]]);
      AfterUnique(nx.Keys, pv[x].key, nx[pv[x]], x);
    } else {
      AfterUnique(nx.Keys, BOTTOM, head, x);
    }
    if nx[x] != null {
      assert Before(nx.Keys, nx[x].key, pv[nx[x]]);
      BeforeUnique(nx.Keys, nx[x].key, pv[nx[x]], x);
    } else {
      BeforeUnique(nx.Keys, TOP, tail, x);
    }
  }

  /** The links that a new node below `source` gets. */
  lemma BelowLinks(s: set<Node>, source: Node, x: Node, y: Node?)
    requires Below(s, source, x) && Before(s, source.key, y)
    ensures y != null ==> y.key < x.key && After(s + {x}, y.key, x)
    ensures y == null ==> After(s + {x}, BOTTOM, x)
    ensures After(s + {x}, x.key, source)
    ensures Before(s + {x}, x.key, y) && Before(s + {x}, source.key, x)
  {
    assert forall m :: m in s ==> SkippedBack(m, source.key, y);
    forall m | m in s + {x}
      ensures y != null ==> Skipped(m, y.key, x)
      ensures y == null ==> Skipped(m, BOTTOM, x)
      ensures Skipped(m, x.key, source) && SkippedBack(m, x.key, y) && SkippedBack(m, source.key, x)
    {
    }
  }

  /** The links that a new node above `source` gets. */
  lemma AboveLinks(s: set<Node>, source: Node, x: Node, y: Node?)
    requires Above(s, source, x) && After(s, source.key, y)
    ensures y != null ==> y.key > x.key && Before(s + {x}, y.key, x)
    ensures y == null ==> Before(s + {x}, TOP, x)
    ensures Before(s + {x}, x.key, source)
    ensures After(s + {x}, x.key, y) && After(s + {x}, source.key, x)
  {
    assert forall m :: m in s ==> Skipped(m, source.key, y);
    forall m | m in s + {x}
      ensures y != null ==> SkippedBack(m, y.key, x)
      ensures y == null ==> SkippedBack(m, TOP, x)
      ensures SkippedBack(m, x.key, source) && Skipped(m, x.key, y) && Skipped(m, source.key, x)
    {
    }
  }

  /** Neighbours between which `x` does not come stay neighbours. */
  lemma StayNeighbours(s: set<Node>, k: int, n: Node?, x: Node)
    ensures After(s, k, n) && (x.key <= k || (n != null && n.key <= x.key)) ==> After(s + {x}, k, n)
    ensures Before(s, k, n) && (x.key >= k || (n != null && n.key >= x.key)) ==> Before(s + {x}, k, n)
  {
  }

  /** The thread links that putting `x` directly before `source` leaves, `y` having been before `source`. */
  ghost predicate ThreadedBefore(nx: Thread, pv: Thread, nx': Thread, pv': Thread, y: Node?, x: Node, source: Node) {
    && source in nx && x !in nx && pv.Keys == nx.Keys && nx'.Keys == nx.Keys + {x} && pv'.Keys == nx.Keys + {x}
    && pv[source] == y && y != source && y != x
    && nx'[x] == source && pv'[x] == y && pv'[source] == x && (y != null ==> y in nx && nx'[y] == x)
    && (forall m :: m in nx && m != y ==> nx'[m] == nx[m])
    && (forall m :: m in nx && m != source ==> pv'[m] == pv[m])
  }

  /** `_rbt_insert` on the thread, before `source`: the new values of `next`. */
  ghost function LinkedBefore(nx: Thread, y: Node?, x: Node, source: Node): Thread {
    if y == null then nx[x := source]
    else
      var z: Node := y;
      nx[z := x][x := source]
  }

  /** A node next to `source`, put into the thread on its low side. */
  lemma ThreadBeforeOk(nx: Thread, pv: Thread, head: Node?, tail: Node?, source: Node, x: Node)
    requires ThreadOk(nx, pv, head, tail) && UniqueIn(nx.Keys) && Below(nx.Keys, source, x)
    ensures pv[source] != null ==> pv[source] in nx && pv[source] != source
    ensures var nx', pv' := LinkedBefore(nx, pv[source], x, source), pv[x := pv[source]][source := x];
      ThreadOk(nx', pv', if pv[source] == null then x else head, tail)
        && ThreadedBefore(nx, pv, nx', pv', pv[source], x, source)
  {
    Around(nx, pv, head, tail, source);
    var before, s := pv[source], nx.Keys;
    var nx', pv' := LinkedBefore(nx, before, x, source), pv[x := before][source := x];
    assert nx'.Keys == s + {x};
    BelowLinks(s, source, x, before);
    assert before != null ==> Skipped(before, BOTTOM, head);
    assert SkippedBack(source, TOP, tail);
    StayNeighbours(s, BOTTOM, head, x);
    StayNeighbours(s, TOP, tail, x);
    forall n | n in nx'
      ensures After(s + {x}, n.key, nx'[n])
    {
      if n in nx && n != before {
        ThreadBeforeNext(nx, pv, head, tail, source, x, n);
      }
    }
    forall n | n in nx'
      ensures Before(s + {x}, n.key, pv'[n])
    {
      if n in nx && n != source {
        ThreadBeforePrev(nx, pv, head, tail, source, x, n);
      }
    }
  }

  lemma ThreadBeforePrev(nx: Thread, pv: Thread, head: Node?, tail: Node?, source: Node, x: Node, n: Node)
    requires ThreadOk(nx, pv, head, tail) && UniqueIn(nx.Keys) && Below(nx.Keys, source, x)
    requires n in nx && n != source
    ensures Before(nx.Keys + {x}, n.key, pv[n])
  {
    assert Before(nx.Keys, n.key, pv[n]);
    assert SkippedBack(source, n.key, pv[n]);
    assert SameKey(n, source) ==> n == source;
    StayNeighbours(nx.Keys, n.key, pv[n], x);
  }

  lemma ThreadAfterNext(nx: Thread, pv: Thread, head: Node?, tail: Node?, source: Node, x: Node, n: Node)
    requires ThreadOk(nx, pv, head, tail) && UniqueIn(nx.Keys) && Above(nx.Keys, source, x)
    requires n in nx && n != source
    ensures After(nx.Keys + {x}, n.key, nx[n])
  {
    assert After(nx.Keys, n.key, nx[n]);
    assert Skipped(source, n.key, nx[n]);
    assert SameKey(n, source) ==> n == source;
    StayNeighbours(nx.Keys, n.key, nx[n], x);
  }

  lemma ThreadBeforeNext(nx: Thread, pv: Thread, head: Node?, tail: Node?, source: Node, x: Node, n: Node)
    requires ThreadOk(nx, pv, head, tail) && UniqueIn(nx.Keys) && Below(nx.Keys, source, x)
    requires n in nx && n != pv[source]
    ensures After(nx.Keys + {x}, n.key, nx[n])
  {
    Around(nx, pv, head, tail, source);
    assert After(nx.Keys, n.key, nx[n]);
    if n.key < x.key {
      var before := pv[source];
      assert SkippedBack(n, source.key, before);
      assert SameKey(n, before) ==> n == before;
      assert Skipped(before, n.key, nx[n]);
    }
    StayNeighbours(nx.Keys, n.key, nx[n], x);
  }

  /** A node next to `source`, put into the thread on its high side. */
  lemma ThreadAfterOk(nx: Thread, pv: Thread, head: Node?, tail: Node?, source: Node, x: Node)
    requires ThreadOk(nx, pv, head, tail) && UniqueIn(nx.Keys) && Above(nx.Keys, source, x)
    ensures nx[source] != null ==> nx[source] in nx && nx[source] != source
    ensures var nx', pv' := nx[x := nx[source]][source := x], LinkedBefore(pv, nx[source], x, source);
      ThreadOk(nx', pv', head, if nx[source] == null then x else tail)
        && ThreadedBefore(pv, nx, pv', nx', nx[source], x, source)
  {
    Around(nx, pv, head, tail, source);
    var after, s := nx[source], nx.Keys;
    var pv' := LinkedBefore(pv, after, x, source);
    var nx' := nx[x := after][source := x];
    assert nx'.Keys == s + {x};
    AboveLinks(s, source, x, after);
    assert after != null ==> SkippedBack(after, TOP, tail);
    assert Skipped(source, BOTTOM, head);
    StayNeighbours(s, BOTTOM, head, x);
    StayNeighbours(s, TOP, tail, x);
    forall n | n in nx'
      ensures Before(s + {x}, n.key, pv'[n])
    {
      if n in nx && n != after {
        ThreadAfterPrev(nx, pv, head, tail, source, x, n);
      }
    }
    forall n | n in nx'
      ensures After(s + {x}, n.key, nx'[n])
    {
      if n in nx && n != source {
        ThreadAfterNext(nx, pv, head, tail, source, x, n);
      }
    }
  }

  lemma ThreadAfterPrev(nx: Thread, pv: Thread, head: Node?, tail: Node?, source: Node, x: Node, n: Node)
    requires ThreadOk(nx, pv, head, tail) && UniqueIn(nx.Keys) && Above(nx.Keys, source, x)
    requires n in nx && n != nx[source]
    ensures Before(nx.Keys + {x}, n.key, pv[n])
  {
    Around(nx, pv, head, tail, source);
    assert Before(nx.Keys, n.key, pv[n]);
    if n.key > x.key {
      var after := nx[source];
      assert Skipped(n, source.key, after);
      assert SameKey(n, after) ==> n == after;
      assert SkippedBack(after, n.key, pv[n]);
    }
    StayNeighbours(nx.Keys, n.key, pv[n], x);
  }

  /** Without `x`, its neighbours are neighbours. */
  lemma CloseGap(s: set<Node>, x: Node, k: int, n: Node?)
    requires x in s && UniqueIn(s)
    ensures After(s, k, n) && n != x ==> After(s - {x}, k, n)
    ensures Before(s, k, n) && n != x ==> Before(s - {x}, k, n)
    ensures After(s, k, x) && After(s, x.key, n) ==> After(s - {x}, k, n)
    ensures Before(s, k, x) && Before(s, x.key, n) ==> Before(s - {x}, k, n)
  {
    forall m | m in s - {x}
      ensures Skipped(m, k, x) && Skipped(m, x.key, n) ==> Skipped(m, k, n)
      ensures SkippedBack(m, k, x) && SkippedBack(m, x.key, n) ==> SkippedBack(m, k, n)
    {
      assert SameKey(m, x) ==> m == x;
    }
  }

  /** `y` made to point past `x`, which leaves the thread. */
  ghost function Unthreaded(nx: Thread, y: Node?, z: Node?, x: Node): Thread {
    if y == null then nx - {x}
    else
      var w: Node := y;
      nx[w := z] - {x}
  }

  /** A node taken out of the thread. */
  lemma ThreadRemoveOk(nx: Thread, pv: Thread, head: Node?, tail: Node?, x: Node)
    requires ThreadOk(nx, pv, head, tail) && UniqueIn(nx.Keys) && x in nx
    ensures pv[x] != null ==> pv[x] in nx && pv[x] != x
    ensures nx[x] != null ==> nx[x] in nx && nx[x] != x
    ensures ThreadOk(Unthreaded(nx, pv[x], nx[x], x), Unthreaded(pv, nx[x], pv[x], x),
      if pv[x] == null then nx[x] else head, if nx[x] == null then pv[x] else tail)
  {
    Around(nx, pv, head, tail, x);
    var before, after, s := pv[x], nx[x], nx.Keys;
    var nx' := Unthreaded(nx, before, after, x);
    var pv' := Unthreaded(pv, after, before, x);
    assert nx'.Keys == s - {x};
    forall n | n in nx'
      ensures After(s - {x}, n.key, nx'[n])
    {
      Around(nx, pv, head, tail, n);
      CloseGap(s, x, n.key, if n == before then after else nx[n]);
    }
    forall n | n in nx'
      ensures Before(s - {x}, n.key, pv'[n])
    {
      Around(nx, pv, head, tail, n);
      CloseGap(s, x, n.key, if n == after then before else pv[n]);
    }
    Ends(nx, pv, head, tail, x);
    Around(nx, pv, head, tail, x);
    CloseGap(s, x, BOTTOM, if before == null then after else head);
    CloseGap(s, x, TOP, if after == null then before else tail);
  }

  lemma Ends(nx: Thread, pv: Thread, head: Node?, tail: Node?, x: Node)
    requires ThreadOk(nx, pv, head, tail) && UniqueIn(nx.Keys) && x in nx
    ensures head == x <==> pv[x] == null
    ensures tail == x <==> nx[x] == null
  {
    Around(nx, pv, head, tail, x);
    assert pv[x] != null ==> Skipped(pv[x], BOTTOM, head);
    assert nx[x] != null ==> SkippedBack(nx[x], TOP, tail);
  }
}
