/** The threaded search tree of `src/rbt.c`: insertion, removal and the two colour fix-ups on linked nodes. */
module Rbt {
  import opened Bits
  import opened RbtShape

  predicate IsRed(n: Node?)
    reads n
  {
    n != null && n.red
  }

  predicate IsBlack(n: Node?)
    reads n
  {
    n == null || !n.red
  }

  function SiblingOf(node: Node, parent: Node): Node?
    reads parent`left, parent`right
  {
    if node == parent.left then parent.right else parent.left
  }

  ghost function LinksOf(n: Node): Links
    reads n`parent, n`left, n`right
  {
    Links(n.parent, n.left, n.right)
  }

  class Tree {
    var root: Node?
    var head: Node?
    var tail: Node?
    var nelem: int
    ghost var t: map<Node, Links>
    ghost var b: Ranges
    ghost var nx: Thread
    ghost var pv: Thread

    /** The tree links are those of a search tree over the nodes of `t`. */
    ghost predicate Linked()
      reads this`root, this`t, this`b, t.Keys`parent, t.Keys`left, t.Keys`right
    {
      && TreeOk(t, b, root)
      && forall n {:trigger t[n]} :: n in t ==> LinksOf(n) == t[n]
    }

    /** The thread: every `next` is the successor in the order of the keys, every `prev` the predecessor. */
    ghost predicate Threaded()
      reads this`head, this`tail, this`nx, this`pv, nx.Keys`prev, nx.Keys`next
    {
      && ThreadOk(nx, pv, head, tail)
      && forall n {:trigger nx[n]} {:trigger pv[n]} :: n in nx ==> n.next == nx[n] && n.prev == pv[n]
    }

    /** The assignments of `_rbt_rotate_left`. */
    method SwingLeft(n: Node, ghost t1: map<Node, Links>)
      requires n in t && n.right != null && (forall m {:trigger t[m]} :: m in t ==> LinksOf(m) == t[m])
      requires LeftRotation(t, t1, n, n.right, n.parent, n.right.left)
      modifies this`root, t.Keys`parent, t.Keys`left, t.Keys`right
      ensures root == if old(n.parent) == null then old(n.right) else old(root)
      ensures forall m {:trigger t1[m]} :: m in t ==> LinksOf(m) == t1[m]
    {
      assert t[n] == LinksOf(n) && t[n.right] == LinksOf(n.right);
      var p, up := n.parent, n.right;
      var inner := up.left;
      assert p != null ==> t[p] == LinksOf(p);
      assert inner != null ==> t[inner] == LinksOf(inner);
      if p == null {
        root := up;
      } else if n == p.left {
        p.left := up;
      } else {
        p.right := up;
      }
      up.parent := p;
      n.parent := up;
      up.left := n;
      if inner != null {
        inner.parent := n;
      }
      n.right := inner;
    }

    /** `_rbt_rotate_left` */
    method RotateLeft(n: Node)
      requires Linked() && n in t && n.right != null
      modifies this`root, this`t, this`b, t.Keys`parent, t.Keys`left, t.Keys`right
      ensures Linked() && old(n.right) in t && t.Keys == old(t.Keys)
      ensures LeftRotation(old(t), t, n, old(n.right), old(n.parent), old(n.right.left))
      ensures b == RotatedBounds(old(b), n, old(n.right))
    {
      RotateLeftOk(t, b, root, n);
      RotateLeftLinks(t, b, root, n);
      assert LinksOk(t, b, root, n) && LinksOf(n) == t[n] && LinksOf(n.right) == t[n.right];
      ghost var up := n.right;
      SwingLeft(n, RotatedLeft(t, n));
      t := RotatedLeft(t, n);
      b := RotatedBounds(b, n, up);
    }

    /** The assignments of `_rbt_rotate_right`. */
    method SwingRight(n: Node, ghost t1: map<Node, Links>)
      requires n in t && n.left != null && (forall m {:trigger t[m]} :: m in t ==> LinksOf(m) == t[m])
      requires RightRotation(t, t1, n, n.left, n.parent, n.left.right)
      modifies this`root, t.Keys`parent, t.Keys`left, t.Keys`right
      ensures root == if old(n.parent) == null then old(n.left) else old(root)
      ensures forall m {:trigger t1[m]} :: m in t ==> LinksOf(m) == t1[m]
    {
      assert t[n] == LinksOf(n) && t[n.left] == LinksOf(n.left);
      var p, up := n.parent, n.left;
      var inner := up.right;
      assert p != null ==> t[p] == LinksOf(p);
      assert inner != null ==> t[inner] == LinksOf(inner);
      if p == null {
        root := up;
      } else if n == p.left {
        p.left := up;
      } else {
        p.right := up;
      }
      up.parent := p;
      n.parent := up;
      up.right := n;
      if inner != null {
        inner.parent := n;
      }
      n.left := inner;
    }

    /** `_rbt_rotate_right` */
    method RotateRight(n: Node)
      requires Linked() && n in t && n.left != null
      modifies this`root, this`t, this`b, t.Keys`parent, t.Keys`left, t.Keys`right
      ensures Linked() && old(n.left) in t && t.Keys == old(t.Keys)
      ensures RightRotation(old(t), t, n, old(n.left), old(n.parent), old(n.left.right))
      ensures b == RotatedBounds(old(b), n, old(n.left))
    {
      RotateRightOk(t, b, root, n);
      RotateRightLinks(t, b, root, n);
      assert LinksOk(t, b, root, n) && LinksOf(n) == t[n] && LinksOf(n.left) == t[n.left];
      ghost var up := n.left;
      SwingRight(n, RotatedRight(t, n));
      t := RotatedRight(t, n);
      b := RotatedBounds(b, n, up);
    }

    /** Case 4 of the insertion fix-up: turns an inner grandchild outwards and looks the relatives up again. */
    method InsertCase4(node: Node, p0: Node, g0: Node) returns (p: Node, g: Node?)
      requires Linked() && node in t && p0 in t && g0 in t && node.parent == p0 && p0.parent == g0
      modifies this`root, this`t, this`b, t.Keys`parent, t.Keys`left, t.Keys`right
      ensures Linked() && t.Keys == old(t.Keys) && p in t && (g != null ==> g in t)
      ensures node.parent == p && p.parent == g
    {
      p, g := p0, g0;
      if node == p.right && p == g.left {
        RotateLeft(p);
        p := node.parent;
        assert LinksOk(t, b, root, p) && LinksOf(p) == t[p];
        g := p.parent;
      } else if node == p.left && p == g.right {
        RotateRight(p);
        p := node.parent;
        assert LinksOk(t, b, root, p) && LinksOf(p) == t[p];
        g := p.parent;
      }
    }

    /** The rotation of Case 5. */
    method RotateOuter(node: Node, p: Node, g: Node)
      requires Linked() && node in t && p in t && g in t && node.parent == p && p.parent == g
      modifies this`root, this`t, this`b, t.Keys`parent, t.Keys`left, t.Keys`right
      ensures Linked() && t.Keys == old(t.Keys)
    {
      if node == p.left && p == g.left {
        RotateRight(g);
      } else if node == p.right && p == g.right {
        RotateLeft(g);
      }
    }

    /** Case 5 of the insertion fix-up. */
    method InsertCase5(node: Node, p: Node, g: Node)
      requires Linked() && node in t && p in t && g in t && node.parent == p && p.parent == g
      modifies this`root, this`t, this`b, t.Keys`parent, t.Keys`left, t.Keys`right, t.Keys`red
      ensures Linked() && t.Keys == old(t.Keys)
    {
      RotateOuter(node, p, g);
      Recolour(p, g);
    }

    method Recolour(black: Node, red: Node)
      modifies black`red, red`red
      ensures red.red && (black != red ==> !black.red)
    {
      black.red := false;
      red.red := true;
    }

    /** The colours of Case 3. */
    method Repaint3(p: Node, u: Node, g: Node)
      requires p != u && p != g && u != g
      modifies p`red, u`red, g`red
      ensures !p.red && !u.red && g.red
    {
      p.red := false;
      u.red := false;
      g.red := true;
    }

    /** The grandparent of the children of `p`, and their uncle. */
    method Uncle(p: Node) returns (g: Node?, u: Node?)
      requires Linked() && p in t
      ensures g == p.parent
      ensures g != null ==> g in t && b[p].hi - b[p].lo < b[g].hi - b[g].lo <= TOP - BOTTOM
      ensures u != null ==> g != null && u in t && u != p && u != g && p != g
    {
      Relatives(p);
      g, u := p.parent, null;
      if g != null {
        Relatives(g);
        if g.left != p {
          u := g.left;
        } else {
          u := g.right;
        }
      }
    }

    /** `_rbt_adjust_on_insert`.  The bounds of the grandparent are wider, so the recursion ends. */
    method AdjustOnInsert(node: Node)
      requires Linked() && node in t
      modifies this`root, this`t, this`b, t.Keys`parent, t.Keys`left, t.Keys`right, t.Keys`red
      ensures Linked() && t.Keys == old(t.Keys)
      decreases TOP - BOTTOM - (b[node].hi - b[node].lo)
    {
      if node == root {
        node.red := false;
        return;
      }
      Relatives(node);
      if IsBlack(node.parent) {
        return;
      }
      var p: Node := node.parent;
      var g, u := Uncle(p);
      if IsRed(u) {
        Repaint3(p, u, g);
        AdjustOnInsert(g);
        return;
      }
      if g == null {
        return;
      }
      InsertCases45(node, p, g);
    }

    /** Cases 4 and 5 of the insertion fix-up. */
    method InsertCases45(node: Node, p0: Node, g0: Node)
      requires Linked() && node in t && p0 in t && g0 in t && node.parent == p0 && p0.parent == g0
      modifies this`root, this`t, this`b, t.Keys`parent, t.Keys`left, t.Keys`right, t.Keys`red
      ensures Linked() && t.Keys == old(t.Keys)
    {
      var p, g := InsertCase4(node, p0, g0);
      if g != null {
        InsertCase5(node, p, g);
      }
    }

    /** The relatives of a node are in the tree, and its parent has wider bounds. */
    lemma Relatives(n: Node)
      requires Linked() && n in t
      ensures n.parent == null <==> n == root
      ensures n.parent != null ==> n.parent in t && (n.parent.left == n || n.parent.right == n)
      ensures n.parent != null ==> b[n].hi - b[n].lo < b[n.parent].hi - b[n.parent].lo <= TOP - BOTTOM
      ensures n.left != null ==> n.left in t && n.left.parent == n && n.left != n
      ensures n.right != null ==> n.right in t && n.right.parent == n && n.right != n
      ensures n.left != null && n.right != null ==> n.left != n.right
    {
      Width(t, b, root, n);
      assert LinksOf(n) == t[n];
      if n.parent != null {
        Width(t, b, root, n.parent);
        assert LinksOf(n.parent) == t[n.parent];
      }
      if n.left != null {
        assert LinksOf(n.left) == t[n.left];
      }
      if n.right != null {
        assert LinksOf(n.right) == t[n.right];
      }
    }

    ghost predicate Siblings(node: Node, parent: Node, sibling: Node?)
      reads node`parent, parent`left, parent`right
    {
      && node.parent == parent
      && sibling == SiblingOf(node, parent)
      && (node == parent.left || node == parent.right)
    }

    /** Case 2 of the removal fix-up: a red sibling is rotated away, which leaves the parent red. */
    method RemoveCase2(node: Node) returns (parent: Node, sibling: Node?)
      requires Linked() && node in t && node.parent != null
      modifies this`root, this`t, this`b, t.Keys`parent, t.Keys`left, t.Keys`right, t.Keys`red
      ensures Linked() && t.Keys == old(t.Keys) && parent in t && Siblings(node, parent, sibling)
      ensures b == old(b) || parent.red
    {
      Relatives(node);
      parent := node.parent;
      Relatives(parent);
      if node == parent.left {
        sibling := parent.right;
        if IsRed(sibling) {
          Recolour(sibling, parent);
          RotateLeft(parent);
          Relatives(parent);
          parent := node.parent;
          sibling := SiblingOf(node, parent);
        }
      } else {
        sibling := parent.left;
        if IsRed(sibling) {
          Recolour(sibling, parent);
          RotateRight(parent);
          Relatives(parent);
          parent := node.parent;
          sibling := SiblingOf(node, parent);
        }
      }
    }

    /** Case 5 of the removal fix-up: the inner red child of the sibling is turned outwards. */
    method RemoveCase5(node: Node, parent0: Node, sibling0: Node) returns (parent: Node, sibling: Node)
      requires Linked() && node in t && parent0 in t && sibling0 in t && Siblings(node, parent0, sibling0)
      modifies this`root, this`t, this`b, t.Keys`parent, t.Keys`left, t.Keys`right, t.Keys`red
      ensures Linked() && t.Keys == old(t.Keys) && parent in t && sibling in t && Siblings(node, parent, sibling)
    {
      parent, sibling := parent0, sibling0;
      Relatives(parent);
      Relatives(sibling);
      var sl, sr := sibling.left, sibling.right;
      if IsBlack(sibling) {
        if node == parent.left && IsRed(sl) && IsBlack(sr) {
          Recolour(sl, sibling);
          RotateRight(sibling);
          Relatives(parent);
          parent := node.parent;
          sibling := SiblingOf(node, parent);
        } else if node == parent.right && IsRed(sr) && IsBlack(sl) {
          Recolour(sr, sibling);
          RotateLeft(sibling);
          Relatives(parent);
          parent := node.parent;
          sibling := SiblingOf(node, parent);
        }
      }
    }

    /** Case 6 of the removal fix-up. */
    method RemoveCase6(node: Node, parent: Node, sibling: Node)
      requires Linked() && node in t && parent in t && sibling in t && Siblings(node, parent, sibling)
      modifies this`root, this`t, this`b, t.Keys`parent, t.Keys`left, t.Keys`right, t.Keys`red
      ensures Linked() && t.Keys == old(t.Keys)
    {
      Relatives(sibling);
      if node == parent.left {
        Repaint(parent, sibling, sibling.right);
        RotateLeft(parent);
      } else {
        Repaint(parent, sibling, sibling.left);
        RotateRight(parent);
      }
    }

    /** The colours of Case 6: the sibling takes that of the parent, the parent and the outer child get black. */
    method Repaint(parent: Node, sibling: Node, outer: Node?)
      requires parent != sibling && outer != sibling
      modifies parent`red, sibling`red, (if outer == null then {} else {outer})`red
      ensures sibling.red == old(parent.red) && !parent.red && (outer != null ==> !outer.red)
    {
      sibling.red := parent.red;
      parent.red := false;
      if outer != null {
        outer.red := false;
      }
    }

    /** `_rbt_adjust_on_remove`.  Only a black parent is passed on to, so nothing was rotated before and its bounds are
        wider than those of `node`: the recursion ends on any search tree, balanced or not. */
    method AdjustOnRemove(node: Node)
      requires Linked() && node in t
      modifies this`root, this`t, this`b, t.Keys`parent, t.Keys`left, t.Keys`right, t.Keys`red
      ensures Linked() && t.Keys == old(t.Keys)
      decreases TOP - BOTTOM - (b[node].hi - b[node].lo)
    {
      if node.parent == null {
        return;
      }
      var parent, sibling := RemoveCase2(node);
      if sibling == null {
        return;
      }
      Relatives(node);
      Relatives(parent);
      Relatives(sibling);
      var sl, sr := sibling.left, sibling.right;
      if IsBlack(parent) && IsBlack(sibling) && IsBlack(sl) && IsBlack(sr) {
        sibling.red := true;
        AdjustOnRemove(parent);
        return;
      }
      RemoveCases456(node, parent, sibling);
    }

    /** Cases 4 to 6 of the removal fix-up, none of which goes further up. */
    method RemoveCases456(node: Node, parent0: Node, sibling0: Node)
      requires Linked() && node in t && parent0 in t && sibling0 in t && Siblings(node, parent0, sibling0)
      modifies this`root, this`t, this`b, t.Keys`parent, t.Keys`left, t.Keys`right, t.Keys`red
      ensures Linked() && t.Keys == old(t.Keys)
    {
      if IsRed(parent0) && IsBlack(sibling0) && IsBlack(sibling0.left) && IsBlack(sibling0.right) {
        Recolour(parent0, sibling0);
        return;
      }
      var parent, sibling := RemoveCase5(node, parent0, sibling0);
      RemoveCase6(node, parent, sibling);
    }

    /** The whole structure. */
    ghost predicate Valid()
      reads this, t.Keys, nx.Keys
    {
      && Linked()
      && Threaded()
      && nx.Keys == t.Keys
      && nelem == |t.Keys|
    }

    /** `rbt_init` */
    constructor ()
      ensures Valid() && t == map[]
    {
      root, head, tail := null, null, null;
      nelem := 0;
      t, b, nx, pv := map[], map[], map[], map[];
    }

    /** The thread from `head` to `tail` is the in-order walk of the tree, and its length is `nelem`. */
    lemma ThreadWalksTree() returns (walk: seq<Node>)
      requires Valid()
      ensures walk == InOrder(t, b, root, root) && |walk| == nelem
      ensures (forall m :: m in walk <==> m in t) && Sorted(walk)
      ensures head == (if walk == [] then null else walk[0])
      ensures tail == (if walk == [] then null else walk[|walk| - 1])
      ensures forall i :: 0 <= i < |walk| ==> walk[i].next == (if i + 1 < |walk| then walk[i + 1] else null)
      ensures forall i :: 0 <= i < |walk| ==> walk[i].prev == (if i > 0 then walk[i - 1] else null)
    {
      walk := InOrder(t, b, root, root);
      InOrderAll(t, b, root);
      forall i | 0 <= i < |walk|
        ensures walk[i].next == (if i + 1 < |walk| then walk[i + 1] else null)
        ensures walk[i].prev == (if i > 0 then walk[i - 1] else null)
      {
        WalkLinks(t, b, root, nx, pv, head, tail, walk, i);
      }
      WalkEnds(t, b, root, nx, pv, head, tail, walk);
    }

    /** `rbt_find` */
    method FindKey(key: Word) returns (rv: Node?)
      requires Linked()
      ensures rv == null ==> forall m :: m in t ==> m.key != key
      ensures rv != null ==> rv in t && rv.key == key
    {
      var tmp := root;
      while tmp != null
        invariant tmp != null ==> tmp in t
        invariant Find(t, b, root, tmp, key) == Find(t, b, root, root, key)
        decreases if tmp == null then 0 else b[tmp].hi - b[tmp].lo
      {
        Width(t, b, root, tmp);
        assert t[tmp] == LinksOf(tmp);
        if key == tmp.key {
          return tmp;
        } else if key < tmp.key {
          tmp := tmp.left;
        } else {
          tmp := tmp.right;
        }
      }
      forall m | m in t
        ensures m.key != key
      {
        FindsAll(t, b, root, m);
      }
      rv := tmp;
    }

    ghost function Neighbours(node: Node): set<Node>
      reads node
    {
      (if node.prev == null then {} else {node.prev}) + (if node.next == null then {} else {node.next})
    }

    /** The first half of `_rbt_remove_list`: both neighbours leave the node out, or the tail moves. */
    method BypassNext(node: Node)
      requires node.prev != node && node.next != node && (node.prev == node.next ==> node.next == null)
      modifies this`tail, Neighbours(node)`prev, Neighbours(node)`next
      ensures node.next != null ==> node.next.prev == node.prev && node.next.next == old(node.next.next)
      ensures node.prev != null ==> node.prev.next == node.next && node.prev.prev == old(node.prev.prev)
      ensures tail == if node.next == null then node.prev else old(tail)
    {
      if node.next != null {
        node.next.prev := node.prev;
        if node.prev != null {
          node.prev.next := node.next;
        }
      } else {
        tail := node.prev;
        if node.prev != null {
          node.prev.next := node.next;
        }
      }
    }

    /** The second half: the same once more, or the head moves. */
    method BypassPrev(node: Node)
      requires node.prev != node && node.next != node && (node.prev == node.next ==> node.next == null)
      modifies this`head, Neighbours(node)`prev, Neighbours(node)`next
      ensures node.next != null ==> node.next.prev == node.prev && node.next.next == old(node.next.next)
      ensures node.prev != null ==> node.prev.next == node.next && node.prev.prev == old(node.prev.prev)
      ensures head == if node.prev == null then node.next else old(head)
    {
      if node.prev != null {
        node.prev.next := node.next;
        if node.next != null {
          node.next.prev := node.prev;
        }
      } else {
        head := node.next;
        if node.next != null {
          node.next.prev := node.prev;
        }
      }
    }

    /** The neighbours of a node are not the same. */
    lemma Apart(x: Node)
      requires ThreadOk(nx, pv, head, tail) && x in nx && UniqueIn(nx.Keys)
      ensures nx[x] != null ==> nx[x] != pv[x]
    {
      assert After(nx.Keys, x.key, nx[x]) && Before(nx.Keys, x.key, pv[x]);
    }

    /** The assignments of `_rbt_remove_list`, seen from all nodes. */
    method Bypass(node: Node, ghost before: Node?, ghost after: Node?)
      requires node in nx && pv.Keys == nx.Keys && before == node.prev && after == node.next
      requires before != node && after != node && (before == after ==> after == null)
      requires (before != null ==> before in nx) && (after != null ==> after in nx)
      requires forall n {:trigger nx[n]} {:trigger pv[n]} :: n in nx ==> n.next == nx[n] && n.prev == pv[n]
      modifies this`head, this`tail, nx.Keys`prev, nx.Keys`next
      ensures head == (if before == null then after else old(head))
      ensures tail == (if after == null then before else old(tail))
      ensures node.prev == null && node.next == null
      ensures forall n {:trigger nx[n]} {:trigger pv[n]} :: n in nx && n != node ==>
        n.next == (if n == before then after else nx[n]) && n.prev == (if n == after then before else pv[n])
    {
      assert before != null ==> before.prev == pv[before] && before.next == nx[before];
      assert after != null ==> after.prev == pv[after] && after.next == nx[after];
      BypassNext(node);
      BypassPrev(node);
      node.prev := null;
      node.next := null;
    }

    /** `_rbt_remove_list` */
    method RemoveList(node: Node)
      requires Threaded() && node in nx && UniqueIn(nx.Keys)
      modifies this`head, this`tail, this`nx, this`pv, nx.Keys`prev, nx.Keys`next
      ensures Threaded() && nx.Keys == old(nx.Keys) - {node} && node.prev == null && node.next == null
    {
      ThreadRemoveOk(nx, pv, head, tail, node);
      assert node.next == nx[node] && node.prev == pv[node];
      ghost var before, after := node.prev, node.next;
      assert before != null && before == after ==> false by {
        Apart(node);
      }
      Bypass(node, before, after);
      nx := Unthreaded(nx, before, after, node);
      pv := Unthreaded(pv, after, before, node);
    }

    /** Where the descent for a new key stops, nothing lies between `source` and the new node. */
    lemma Place(source: Node, target: Node)
      requires Linked() && target !in t && Room(t, b, root, source, target)
      ensures target.key < source.key ==> Below(t.Keys, source, target)
      ensures target.key > source.key ==> Above(t.Keys, source, target)
      ensures UniqueIn(t.Keys)
      ensures forall m :: m in t ==> m.key != target.key
    {
      Gap(t, b, root, source);
      UniqueKeys(t, b, root);
    }

    lemma KeysUnique()
      requires Linked()
      ensures UniqueIn(t.Keys)
    {
      UniqueKeys(t, b, root);
    }

    /** The assignments of `_rbt_insert` that put `target` before `source` in the thread. */
    method ThreadBefore(source: Node, target: Node, ghost nx1: Thread, ghost pv1: Thread)
      requires pv.Keys == nx.Keys && ThreadedBefore(nx, pv, nx1, pv1, source.prev, target, source)
      requires forall m {:trigger nx[m]} {:trigger pv[m]} :: m in nx ==> m.next == nx[m] && m.prev == pv[m]
      modifies this`head, nx.Keys`prev, nx.Keys`next, target`prev, target`next
      ensures head == if old(source.prev) == null then target else old(head)
      ensures forall m {:trigger nx1[m]} {:trigger pv1[m]} :: m in nx1 ==> m.next == nx1[m] && m.prev == pv1[m]
    {
      target.prev := source.prev;
      if source.prev == null {
        head := target;
      } else {
        source.prev.next := target;
      }
      target.next := source;
      source.prev := target;
    }

    /** The assignments of `_rbt_insert` that put `target` after `source` in the thread. */
    method ThreadAfter(source: Node, target: Node, ghost nx1: Thread, ghost pv1: Thread)
      requires pv.Keys == nx.Keys && ThreadedBefore(pv, nx, pv1, nx1, source.next, target, source)
      requires forall m {:trigger nx[m]} {:trigger pv[m]} :: m in nx ==> m.next == nx[m] && m.prev == pv[m]
      modifies this`tail, nx.Keys`prev, nx.Keys`next, target`prev, target`next
      ensures tail == if old(source.next) == null then target else old(tail)
      ensures forall m {:trigger nx1[m]} {:trigger pv1[m]} :: m in nx1 ==> m.next == nx1[m] && m.prev == pv1[m]
    {
      target.next := source.next;
      if source.next == null {
        tail := target;
      } else {
        source.next.prev := target;
      }
      target.prev := source;
      source.next := target;
    }

    /** The assignments of `RBT_ASSIGN` and `_rbt_insert` at the free slot of `source` for the key of `target`. */
    method WireChild(source: Node, target: Node, ghost t1: map<Node, Links>)
      requires source in t && target !in t && LinksOf(target) == Links(null, null, null)
      requires t1 == Inserted(t, source, target) && forall m {:trigger t[m]} :: m in t ==> LinksOf(m) == t[m]
      modifies this`nelem, source`left, source`right, target`parent, target`red
      ensures nelem == old(nelem) + 1 && target.red
      ensures forall m {:trigger t1[m]} :: m in t1 ==> LinksOf(m) == t1[m]
    {
      assert LinksOf(source) == t[source];
      if target.key < source.key {
        source.left := target;
      } else {
        source.right := target;
      }
      target.red := true;
      nelem := nelem + 1;
      target.parent := source;
    }

    /** `target` is the child of `source` on its side. */
    ghost predicate HangsFrom(source: Node, target: Node)
      reads source`left, source`right, target`parent
    {
      target.parent == source && if target.key < source.key then source.left == target else source.right == target
    }

    /** `RBT_ASSIGN` at the free slot of `source` for the key of `target`. */
    method Assign(source: Node, target: Node)
      requires Linked() && Room(t, b, root, source, target) && target !in t
        && LinksOf(target) == Links(null, null, null)
      modifies this`t, this`b, this`nelem, source`left, source`right, target`parent, target`red
      ensures Linked() && t.Keys == old(t.Keys) + {target} && nelem == old(nelem) + 1 && target.red
      ensures HangsFrom(source, target)
    {
      InsertOk(t, b, root, source, target);
      ghost var t1 := Inserted(t, source, target);
      WireChild(source, target, t1);
      t, b := t1, InsertedBounds(b, source, target);
    }

    method LinkBefore(source: Node, target: Node)
      requires Threaded() && Below(nx.Keys, source, target) && UniqueIn(nx.Keys)
      modifies this`head, this`nx, this`pv, nx.Keys`prev, nx.Keys`next, target`prev, target`next
      ensures Threaded() && nx.Keys == old(nx.Keys) + {target}
    {
      ThreadBeforeOk(nx, pv, head, tail, source, target);
      assert source in pv && nx[source] == source.next && pv[source] == source.prev;
      ghost var nx1, pv1 := LinkedBefore(nx, pv[source], target, source), pv[target := pv[source]][source := target];
      ThreadBefore(source, target, nx1, pv1);
      nx, pv := nx1, pv1;
    }

    method LinkAfter(source: Node, target: Node)
      requires Threaded() && Above(nx.Keys, source, target) && UniqueIn(nx.Keys)
      modifies this`tail, this`nx, this`pv, nx.Keys`prev, nx.Keys`next, target`prev, target`next
      ensures Threaded() && nx.Keys == old(nx.Keys) + {target}
    {
      ThreadAfterOk(nx, pv, head, tail, source, target);
      assert source in pv && nx[source] == source.next && pv[source] == source.prev;
      ghost var nx1, pv1 := nx[target := nx[source]][source := target], LinkedBefore(pv, nx[source], target, source);
      ThreadAfter(source, target, nx1, pv1);
      nx, pv := nx1, pv1;
    }

    method AssignThreaded(source: Node, target: Node)
      requires Linked() && Room(t, b, root, source, target) && target !in t
        && LinksOf(target) == Links(null, null, null)
      requires Threaded() && target !in nx
      modifies this`t, this`b, this`nelem, t.Keys`left, t.Keys`right, target`parent, target`red
      ensures Linked() && t.Keys == old(t.Keys) + {target} && nelem == old(nelem) + 1 && target.red && Threaded()
      ensures HangsFrom(source, target)
    {
      Assign(source, target);
    }

    method LinkBeforeLinked(source: Node, target: Node)
      requires Linked() && Threaded() && Below(nx.Keys, source, target) && UniqueIn(nx.Keys)
      modifies this`head, this`nx, this`pv, nx.Keys`prev, nx.Keys`next, target`prev, target`next
      ensures Linked() && Threaded() && nx.Keys == old(nx.Keys) + {target}
      ensures old(HangsFrom(source, target)) ==> HangsFrom(source, target)
    {
      LinkBefore(source, target);
    }

    method LinkAfterLinked(source: Node, target: Node)
      requires Linked() && Threaded() && Above(nx.Keys, source, target) && UniqueIn(nx.Keys)
      modifies this`tail, this`nx, this`pv, nx.Keys`prev, nx.Keys`next, target`prev, target`next
      ensures Linked() && Threaded() && nx.Keys == old(nx.Keys) + {target}
      ensures old(HangsFrom(source, target)) ==> HangsFrom(source, target)
    {
      LinkAfter(source, target);
    }

    /** `_rbt_insert` at a free left slot. */
    method InsertLeft(source: Node, target: Node)
      requires Linked() && Threaded() && nx.Keys == t.Keys && LinksOf(target) == Links(null, null, null) && target !in t
      requires Room(t, b, root, source, target) && target.key < source.key && Below(nx.Keys, source, target)
      requires UniqueIn(nx.Keys)
      modifies this, t.Keys`left, t.Keys`right, t.Keys`prev, t.Keys`next
      modifies target`parent, target`red, target`prev, target`next
      ensures Linked() && Threaded()
      ensures t.Keys == old(t.Keys) + {target} && nx.Keys == old(t.Keys) + {target} && nelem == old(nelem) + 1
      ensures HangsFrom(source, target)
    {
      AssignThreaded(source, target);
      LinkBeforeLinked(source, target);
    }

    /** `_rbt_insert` at a free right slot. */
    method InsertRight(source: Node, target: Node)
      requires Linked() && Threaded() && nx.Keys == t.Keys && LinksOf(target) == Links(null, null, null) && target !in t
      requires Room(t, b, root, source, target) && target.key > source.key && Above(nx.Keys, source, target)
      requires UniqueIn(nx.Keys)
      modifies this, t.Keys`left, t.Keys`right, t.Keys`prev, t.Keys`next
      modifies target`parent, target`red, target`prev, target`next
      ensures Linked() && Threaded()
      ensures t.Keys == old(t.Keys) + {target} && nx.Keys == old(t.Keys) + {target} && nelem == old(nelem) + 1
      ensures HangsFrom(source, target)
    {
      AssignThreaded(source, target);
      LinkAfterLinked(source, target);
    }

    /** `_rbt_insert` into an empty tree. */
    method InsertFirst(target: Node)
      requires Linked() && root == null
      requires LinksOf(target) == Links(null, null, null) && target.prev == null && target.next == null
      modifies this, target`red
      ensures Linked() && Threaded() && t.Keys == {target} && nx.Keys == {target} && nelem == old(nelem) + 1
      ensures old(t.Keys) == {}
    {
      FirstNode(target);
      InsertOk(t, b, root, null, target);
      root := target;
      target.red := true;
      nelem := nelem + 1;
      head, tail := target, target;
      t, b := Inserted(t, null, target), InsertedBounds(b, null, target);
      nx, pv := map[target := null], map[target := null];
    }

    lemma FirstNode(target: Node)
      requires Linked() && root == null
      ensures t.Keys == {} && ThreadOk(map[target := null], map[target := null], target, target)
    {
      assert Skipped(target, BOTTOM, target) && SkippedBack(target, TOP, target);
      assert Skipped(target, target.key, null) && SkippedBack(target, target.key, null);
      assert map[target := null].Keys == {target};
    }

    /** `_rbt_insert`: descends from `source` to the place of `target` and links it there, unless its key is taken. */
    method InsertFrom(source: Node?, target: Node) returns (res: int, dup: Node?)
      requires Linked() && Threaded() && nx.Keys == t.Keys && target !in t && LinksOf(target) == Links(null, null, null)
      requires (source == null <==> root == null)
        && (source != null ==> source in t && b[source].lo < target.key < b[source].hi)
      requires target.prev == null && target.next == null
      modifies this, t.Keys`left, t.Keys`right, t.Keys`prev, t.Keys`next
      modifies target`parent, target`red, target`prev, target`next
      ensures res == 0 ==>
        unchanged(this) && unchanged(old(t.Keys)) && unchanged(target) && dup in t && dup.key == target.key
      ensures res != 0 ==> Linked() && Threaded() && dup == null && nelem == old(nelem) + 1
      ensures res != 0 ==> t.Keys == old(t.Keys) + {target} && nx.Keys == old(t.Keys) + {target}
      ensures res != 0 ==> forall m :: m in old(t) ==> m.key != target.key
      ensures res == -2 <==> source == null
      ensures res != 0 && res != -2 ==>
        && target.parent != null && HangsFrom(target.parent, target)
        && res == if target.key < target.parent.key then -1 else 1
      ensures res != 0 && res != -2 ==> (res == 1 <==> OpenBelow(old(t), target.key))
      decreases if source == null then 0 else b[source].hi - b[source].lo
    {
      if source == null {
        InsertFirst(target);
        return -2, null;
      }
      Width(t, b, root, source);
      assert t[source] == LinksOf(source);
      if target.key < source.key {
        if source.left != null {
          res, dup := InsertFrom(source.left, target);
          return;
        }
        Place(source, target);
        FreeLeft(t, b, root, source, target.key);
        InsertLeft(source, target);
        return -1, null;
      }
      if target.key > source.key {
        if source.right != null {
          res, dup := InsertFrom(source.right, target);
          return;
        }
        Place(source, target);
        FreeRight(t, b, root, source, target.key);
        InsertRight(source, target);
        return 1, null;
      }
      return 0, source;
    }

    /** The fix-up after an insertion changes neither the in-order walk nor the thread. */
    method AdjustThreaded(node: Node)
      requires Linked() && Threaded() && node in t
      modifies this`root, this`t, this`b, t.Keys`parent, t.Keys`left, t.Keys`right, t.Keys`red
      ensures Linked() && Threaded() && t.Keys == old(t.Keys)
      ensures InOrder(t, b, root, root) == old(InOrder(t, b, root, root))
    {
      ghost var t0, b0, root0 := t, b, root;
      AdjustOnInsert(node);
      SameWalk(t0, b0, root0, t, b, root);
    }

    /** What both runs of the thread and the tree agree on after an insertion. */
    lemma Whole(s0: set<Node>, x: Node)
      requires Linked() && Threaded() && t.Keys == s0 + {x} && nx.Keys == s0 + {x} && nelem == |s0| + 1 && x !in s0
      ensures Valid()
    {
    }

    method InsertAdjust(node: Node) returns (res: int, dup: Node?)
      requires Linked() && Threaded() && nx.Keys == t.Keys && node !in t && node.parent == null && node.left == null
        && node.right == null
      requires node.prev == null && node.next == null
      modifies this, t.Keys, node
      ensures res == 0 ==>
        unchanged(this) && unchanged(old(t.Keys)) && unchanged(node) && dup in t && dup.key == node.key
      ensures res != 0 ==> Linked() && Threaded() && dup == null && nelem == old(nelem) + 1
      ensures res != 0 ==> t.Keys == old(t.Keys) + {node} && nx.Keys == old(t.Keys) + {node}
      ensures res != 0 ==> forall m :: m in old(t) ==> m.key != node.key
      ensures -2 <= res <= 1 && (res == -2 <==> old(root) == null)
      ensures res != 0 && res != -2 ==> (res == 1 <==> OpenBelow(old(t), node.key))
    {
      if root != null {
        Width(t, b, root, root);
      }
      res, dup := InsertFrom(root, node);
      if res == 0 {
        return;
      }
      AdjustThreaded(node);
    }

    /** `rbt_insert` */
    method Insert(node: Node) returns (res: int, dup: Node?)
      requires Valid() && node !in t && node.parent == null && node.left == null && node.right == null
      requires node.prev == null && node.next == null
      modifies this, t.Keys, node
      ensures res == 0 ==>
        unchanged(this) && unchanged(old(t.Keys)) && unchanged(node) && dup in t && dup.key == node.key
      ensures res != 0 ==> Valid() && t.Keys == old(t.Keys) + {node} && dup == null
      ensures res == 0 <==> exists m :: m in old(t) && m.key == node.key
      ensures -2 <= res <= 1 && (res == -2 <==> old(root) == null)
      ensures res != 0 && res != -2 ==> (res == 1 <==> OpenBelow(old(t), node.key))
    {
      ghost var s0 := t.Keys;
      res, dup := InsertAdjust(node);
      if res != 0 {
        Whole(s0, node);
      }
    }

    /** The descent of `rbt_remove_node` for the neighbour of `node` below it. */
    method RightmostOfLeft(node: Node) returns (repl: Node)
      requires Linked() && node in t && node.left != null
      ensures repl in t && repl != node && repl.right == null && repl.parent != null
        && Adjacent(t.Keys - {repl}, node, repl)
    {
      Relatives(node);
      Width(t, b, root, node);
      repl := node.left;
      assert t[node] == LinksOf(node) && t[repl] == LinksOf(repl);
      while repl.right != null
        invariant repl in t && b[repl].hi == node.key && LinksOf(repl) == t[repl]
        decreases b[repl].hi - b[repl].lo
      {
        Width(t, b, root, repl);
        repl := repl.right;
        assert t[repl] == LinksOf(repl);
      }
      Width(t, b, root, repl);
      Gap(t, b, root, repl);
      UniqueKeys(t, b, root);
      BelowRoot(t, b, root, repl);
    }

    /** The descent of `rbt_remove_node` for the neighbour of `node` above it. */
    method LeftmostOfRight(node: Node) returns (repl: Node)
      requires Linked() && node in t && node.right != null
      ensures repl in t && repl != node && repl.left == null && repl.parent != null
        && Adjacent(t.Keys - {repl}, node, repl)
    {
      Relatives(node);
      Width(t, b, root, node);
      repl := node.right;
      assert t[node] == LinksOf(node) && t[repl] == LinksOf(repl);
      while repl.left != null
        invariant repl in t && b[repl].lo == node.key && LinksOf(repl) == t[repl]
        decreases b[repl].hi - b[repl].lo
      {
        Width(t, b, root, repl);
        repl := repl.left;
        assert t[repl] == LinksOf(repl);
      }
      Width(t, b, root, repl);
      Gap(t, b, root, repl);
      UniqueKeys(t, b, root);
      BelowRoot(t, b, root, repl);
    }

    /** The assignments that put the only child of `x` in its place. */
    method WireChildUp(x: Node, p: Node, c: Node?, ghost t1: map<Node, Links>)
      requires Splicing(t, t1, x, p, c)
      requires forall m {:trigger t[m]} :: m in t ==> LinksOf(m) == t[m]
      modifies p`left, p`right, (if c == null then {} else {c})`parent
      ensures forall m {:trigger t1[m]} :: m in t1 ==> LinksOf(m) == t1[m]
    {
      assert LinksOf(p) == t[p];
      assert c != null ==> LinksOf(c) == t[c];
      if x == p.left {
        p.left := c;
      } else {
        p.right := c;
      }
      if c != null {
        c.parent := p;
      }
    }

    /** Takes the replacement `repl` out of the tree; its own links are not touched. */
    method Unhook(repl: Node, replparent: Node, replchild: Node?, ghost rightFree: bool)
      requires Linked() && repl in t && repl.parent == replparent
      requires if rightFree then repl.right == null && repl.left == replchild
               else repl.left == null && repl.right == replchild
      modifies this`t, this`b, t.Keys`parent, t.Keys`left, t.Keys`right
      ensures Linked() && t.Keys == old(t.Keys) - {repl} && (replchild != null ==> replchild in t)
    {
      assert LinksOf(repl) == t[repl] && LinksOk(t, b, root, repl);
      SpliceOk(t, b, root, repl, rightFree);
      SpliceLinks(t, b, root, repl, rightFree);
      ghost var t1 := Spliced(t, repl, replchild);
      WireChildUp(repl, replparent, replchild, t1);
      t, b := t1, SplicedBounds(b, repl, rightFree);
    }

    /** The assignments that put `repl` in the place of `node`. */
    /** The slot that held `node` gets `repl`. */
    method FillSlot(node: Node, repl: Node)
      modifies this`root, (if node.parent == null then {} else {node.parent})`left,
        (if node.parent == null then {} else {node.parent})`right
      ensures root == if node.parent == null then repl else old(root)
      ensures node.parent != null ==>
        if old(node.parent.left) == node then node.parent.left == repl && node.parent.right == old(node.parent.right)
        else node.parent.right == repl && node.parent.left == old(node.parent.left)
    {
      var nodeparent := node.parent;
      if nodeparent == null {
        root := repl;
      } else if node == nodeparent.left {
        nodeparent.left := repl;
      } else {
        nodeparent.right := repl;
      }
    }

    /** The links of `node` pass to `repl`. */
    method PassLinks(node: Node, repl: Node, nodeparent: Node?)
      requires node != repl && node.left != node && node.right != node && node.left != repl && node.right != repl
      modifies repl`parent, repl`left, repl`right, repl`red, (if node.left == null then {} else {node.left})`parent,
        (if node.right == null then {} else {node.right})`parent
      ensures node.left != null ==> node.left.parent == repl
      ensures node.right != null ==> node.right.parent == repl
      ensures LinksOf(repl) == Links(nodeparent, node.left, node.right) && repl.red == node.red
    {
      if node.left != null {
        node.left.parent := repl;
      }
      if node.right != null {
        node.right.parent := repl;
      }
      repl.parent := nodeparent;
      repl.left := node.left;
      repl.right := node.right;
      repl.red := node.red;
    }

    method WireReplacement(node: Node, repl: Node, ghost t1: map<Node, Links>)
      requires node in t && Replacing(t, t1, node, repl)
      requires forall m {:trigger t[m]} :: m in t ==> LinksOf(m) == t[m]
      modifies this`root, t.Keys`parent, t.Keys`left, t.Keys`right, repl`parent, repl`left, repl`right, repl`red
      ensures root == if old(node.parent) == null then repl else old(root)
      ensures forall m {:trigger t1[m]} :: m in t1 ==> LinksOf(m) == t1[m]
    {
      assert LinksOf(node) == t[node];
      var nodeparent := node.parent;
      assert nodeparent != null ==> LinksOf(nodeparent) == t[nodeparent];
      assert node.left != null ==> LinksOf(node.left) == t[node.left];
      assert node.right != null ==> LinksOf(node.right) == t[node.right];
      FillSlot(node, repl);
      PassLinks(node, repl, nodeparent);
    }

    /** Puts the unhooked neighbour `repl` in the place of `node`. */
    method Replace(node: Node, repl: Node)
      requires Linked() && node in t && repl !in t && Adjacent(t.Keys, node, repl)
      modifies this`root, this`t, this`b, t.Keys`parent, t.Keys`left, t.Keys`right, repl`parent, repl`left,
        repl`right, repl`red
      ensures Linked() && t.Keys == old(t.Keys) - {node} + {repl}
    {
      assert LinksOf(node) == t[node] && LinksOk(t, b, root, node);
      ReplaceOk(t, b, root, node, repl);
      ReplaceLinks(t, b, root, node, repl);
      ghost var t1 := Replaced(t, node, repl);
      WireReplacement(node, repl, t1);
      t, b := t1, ReplacedBounds(b, node, repl);
    }

    /** A leaf is replaced by nothing. */
    method DropLeaf(node: Node)
      requires Linked() && node in t && node.left == null && node.right == null
      modifies this`root, this`t, this`b, t.Keys`left, t.Keys`right
      ensures Linked() && t.Keys == old(t.Keys) - {node}
    {
      assert LinksOf(node) == t[node] && LinksOk(t, b, root, node);
      SpliceOk(t, b, root, node, true);
      SpliceLinks(t, b, root, node, true);
      ghost var t1 := Spliced(t, node, null);
      var nodeparent := node.parent;
      if nodeparent == null {
        root := null;
      } else {
        WireChildUp(node, nodeparent, null, t1);
      }
      t, b := t1, SplicedBounds(b, node, true);
    }

    /** The adjustment of `rbt_remove_node`: a red child is blackened, any other child is handed to the fix-up.
        The in-order walk stays. */
    method Rebalance(repl: Node, replchild: Node?)
      requires Linked() && (replchild != null ==> replchild in t)
      modifies this`root, this`t, this`b, t.Keys`parent, t.Keys`left, t.Keys`right, t.Keys`red
      ensures Linked() && t.Keys == old(t.Keys)
      ensures InOrder(t, b, root, root) == old(InOrder(t, b, root, root))
    {
      ghost var t0, b0, root0 := t, b, root;
      if IsBlack(repl) {
        if IsRed(replchild) {
          replchild.red := false;
        } else if replchild != null {
          AdjustOnRemove(replchild);
        }
      }
      SameWalk(t0, b0, root0, t, b, root);
    }

    method UnhookBalanced(repl: Node, replchild: Node?, ghost rightFree: bool)
      requires Linked() && repl in t && repl.parent != null
      requires if rightFree then repl.right == null && repl.left == replchild
               else repl.left == null && repl.right == replchild
      modifies this`root, this`t, this`b, t.Keys`parent, t.Keys`left, t.Keys`right, t.Keys`red
      ensures Linked() && t.Keys == old(t.Keys) - {repl}
    {
      var replparent := repl.parent;
      Unhook(repl, replparent, replchild, rightFree);
      Rebalance(repl, replchild);
    }

    /** Swaps the neighbour `repl`, which has at most the child `replchild`, for `node`. */
    method Supplant(node: Node, repl: Node, replchild: Node?, ghost rightFree: bool)
      requires Linked() && node in t && repl in t && repl != node && repl.parent != null
      requires if rightFree then repl.right == null && repl.left == replchild
               else repl.left == null && repl.right == replchild
      requires Adjacent(t.Keys - {repl}, node, repl)
      modifies this`root, this`t, this`b, t.Keys`parent, t.Keys`left, t.Keys`right, t.Keys`red
      ensures Linked() && t.Keys == old(t.Keys) - {node}
    {
      UnhookBalanced(repl, replchild, rightFree);
      Replace(node, repl);
    }

    /** The part of `rbt_remove_node` that takes `node` out of the tree. */
    method RemoveFromTree(node: Node)
      requires Linked() && node in t
      modifies this`root, this`t, this`b, t.Keys`parent, t.Keys`left, t.Keys`right, t.Keys`red
      ensures Linked() && t.Keys == old(t.Keys) - {node}
    {
      if node.left != null {
        var repl := RightmostOfLeft(node);
        Supplant(node, repl, repl.left, true);
      } else if node.right != null {
        var repl := LeftmostOfRight(node);
        Supplant(node, repl, repl.right, false);
      } else {
        DropLeaf(node);
      }
    }

    /** `rbt_remove_node` up to the count. */
    method Detach(node: Node)
      requires Linked() && Threaded() && node in t && nx.Keys == t.Keys
      modifies this`root, this`head, this`tail, this`t, this`b, this`nx, this`pv, t.Keys
      ensures Linked() && Threaded() && t.Keys == old(t.Keys) - {node} && nx.Keys == old(t.Keys) - {node}
      ensures node.prev == null && node.next == null
    {
      KeysUnique();
      RemoveThreaded(node);
      RemoveListLinked(node);
    }

    method RemoveThreaded(node: Node)
      requires Linked() && Threaded() && node in t
      modifies this`root, this`t, this`b, t.Keys`parent, t.Keys`left, t.Keys`right, t.Keys`red
      ensures Linked() && Threaded() && t.Keys == old(t.Keys) - {node}
    {
      RemoveFromTree(node);
    }

    method RemoveListLinked(node: Node)
      requires Linked() && Threaded() && node in nx && UniqueIn(nx.Keys)
      modifies this`head, this`tail, this`nx, this`pv, nx.Keys`prev, nx.Keys`next
      ensures Linked() && Threaded() && nx.Keys == old(nx.Keys) - {node} && node.prev == null && node.next == null
    {
      RemoveList(node);
    }

    method Clear(node: Node)
      requires Linked() && Threaded() && node !in t && node !in nx
      modifies this`nelem, node`parent, node`left, node`right
      ensures Linked() && Threaded() && LinksOf(node) == Links(null, null, null) && nelem == old(nelem) - 1
    {
      node.parent := null;
      node.left := null;
      node.right := null;
      nelem := nelem - 1;
    }

    method Take(node: Node)
      requires Linked() && Threaded() && node in t && nx.Keys == t.Keys
      modifies this, t.Keys
      ensures Linked() && Threaded() && t.Keys == old(t.Keys) - {node} && nx.Keys == old(t.Keys) - {node}
      ensures LinksOf(node) == Links(null, null, null) && node.prev == null && node.next == null
        && nelem == old(nelem) - 1
    {
      Detach(node);
      Clear(node);
    }

    lemma WholeLess(s0: set<Node>, x: Node)
      requires Linked() && Threaded() && t.Keys == s0 - {x} && nx.Keys == s0 - {x} && nelem == |s0| - 1 && x in s0
      ensures Valid()
    {
    }

    /** `rbt_remove_node`: the node leaves the tree and the thread with all its links reset, and nothing else leaves. */
    method RemoveNode(node: Node)
      requires Valid() && node in t
      modifies this, t.Keys
      ensures Valid() && t.Keys == old(t.Keys) - {node}
      ensures LinksOf(node) == Links(null, null, null) && node.prev == null && node.next == null
    {
      ghost var s0 := t.Keys;
      Take(node);
      WholeLess(s0, node);
    }

    /** `rbt_remove_key` */
    method RemoveKey(key: Word) returns (res: int, ghost gone: Node?)
      requires Valid()
      modifies this, t.Keys
      ensures Valid()
      ensures res == 1 ==> gone == null && unchanged(this) && unchanged(t.Keys) && forall m :: m in t ==> m.key != key
      ensures res != 1 ==>
        res == 0 && gone != null && gone.key == key && gone in old(t) && t.Keys == old(t.Keys) - {gone}
    {
      var node := FindKey(key);
      gone := node;
      if node == null {
        return 1, null;
      }
      RemoveNode(node);
      return 0, node;
    }

    /** `rbt_fini` */
    method Fini()
      requires Valid()
      modifies this, t.Keys
      ensures Valid() && t == map[] && root == null && head == null && tail == null && nelem == 0
    {
      var e := head;
      while e != null
        invariant Valid() && t.Keys <= old(t.Keys) && e == head
        decreases t.Keys
      {
        RemoveNode(e);
        e := head;
      }
      NoHead(nx, pv, tail);
    }
  }
}
