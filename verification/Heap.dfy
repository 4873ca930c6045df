/** The binary heap of `src/heap.c`, on a growable array with a comparator that is a total preorder. */
module Heap {
  import opened Options

  /** What a comparator promises: its sign is antisymmetric, and being at most is transitive. */
  ghost predicate TotalPreorder<T(!new)>(cmp: (T, T) -> int) {
    && (forall a, b {:trigger Antisymmetric(cmp, a, b)} :: Antisymmetric(cmp, a, b))
    && (forall a, b, c {:trigger Transitive(cmp, a, b, c)} :: Transitive(cmp, a, b, c))
  }

  predicate Antisymmetric<T>(cmp: (T, T) -> int, a: T, b: T) {
    cmp(a, b) > 0 <==> cmp(b, a) < 0
  }

  predicate Transitive<T>(cmp: (T, T) -> int, a: T, b: T, c: T) {
    cmp(a, b) <= 0 && cmp(b, c) <= 0 ==> cmp(a, c) <= 0
  }

  function Parent(i: nat): nat
    requires i > 0
  {
    (i - 1) / 2
  }

  /** The order holds between the node `i` and its children. */
  ghost predicate OrderAt<T>(cmp: (T, T) -> int, s: seq<T>, i: nat) {
    && (2 * i + 1 < |s| ==> cmp(s[i], s[2 * i + 1]) <= 0)
    && (2 * i + 2 < |s| ==> cmp(s[i], s[2 * i + 2]) <= 0)
  }

  /** The order holds at all nodes from `k` on. */
  ghost predicate OrderFrom<T>(cmp: (T, T) -> int, s: seq<T>, k: nat) {
    forall i {:trigger OrderAt(cmp, s, i)} :: k <= i < |s| ==> OrderAt(cmp, s, i)
  }

  ghost predicate IsHeap<T>(cmp: (T, T) -> int, s: seq<T>) {
    OrderFrom(cmp, s, 0)
  }

  /** The node `j` is `i` or below it. */
  ghost predicate Within(i: nat, j: nat)
    decreases j
  {
    j == i || (j > i && Within(i, Parent(j)))
  }

  /** All elements below a node are at least as great. */
  lemma {:induction false} LeastAbove<T(!new)>(cmp: (T, T) -> int, s: seq<T>, i: nat, j: nat)
    requires TotalPreorder(cmp) && IsHeap(cmp, s) && j < |s| && Within(i, j)
    ensures i < |s| && cmp(s[i], s[j]) <= 0
    decreases j
  {
    if j != i {
      var p := Parent(j);
      LeastAbove(cmp, s, i, p);
      assert OrderAt(cmp, s, p);
      assert Transitive(cmp, s[i], s[p], s[j]);
    } else {
      assert Antisymmetric(cmp, s[i], s[i]);
    }
  }

  lemma {:induction false} AllWithinRoot(j: nat)
    ensures Within(0, j)
    decreases j
  {
    if j > 0 {
      AllWithinRoot(Parent(j));
    }
  }

  /** Below a node is below one of its children. */
  lemma {:induction false} WithinChild(i: nat, j: nat)
    requires Within(i, j) && j != i
    ensures Within(2 * i + 1, j) || Within(2 * i + 2, j)
    decreases j
  {
    if Parent(j) != i {
      WithinChild(i, Parent(j));
      WithinGrows(i, Parent(j));
    }
  }

  lemma {:induction false} WithinGrows(i: nat, j: nat)
    requires Within(i, j)
    ensures j >= i
    ensures Within(2 * i + 1, j) ==> j >= 2 * i + 1
    ensures Within(2 * i + 2, j) ==> j >= 2 * i + 2
    decreases j
  {
  }

  /** The heap order from `k` on, except perhaps between the node `i` and its children, which are all at least as great
      as the parent of `i`. */
  ghost predicate OrderBut<T>(cmp: (T, T) -> int, s: seq<T>, k: nat, i: nat) {
    && k <= i
    && (forall j {:trigger OrderAt(cmp, s, j)} :: k <= j < |s| && j != i ==> OrderAt(cmp, s, j))
    && (i > 0 && Parent(i) >= k ==>
          && (2 * i + 1 < |s| ==> cmp(s[Parent(i)], s[2 * i + 1]) <= 0)
          && (2 * i + 2 < |s| ==> cmp(s[Parent(i)], s[2 * i + 2]) <= 0))
  }

  ghost function Swapped<T>(s: seq<T>, i: nat, j: nat): seq<T>
    requires i < |s| && j < |s|
  {
    s[i := s[j]][j := s[i]]
  }

  /** Swapping a node with its least child moves the exception down. */
  lemma SwapDown<T>(cmp: (T, T) -> int, s: seq<T>, k: nat, i: nat, c: nat)
    requires OrderBut(cmp, s, k, i) && i < c < |s| && (c == 2 * i + 1 || c == 2 * i + 2)
    requires cmp(s[c], s[i]) <= 0
    requires LeastOfChildren(cmp, s, i, c)
    ensures OrderBut(cmp, Swapped(s, i, c), k, c)
  {
    var t := Swapped(s, i, c);
    forall j {:trigger OrderAt(cmp, t, j)} | k <= j < |t| && j != c && j != i
      ensures OrderAt(cmp, t, j)
    {
      SwapElsewhere(cmp, s, i, c, j);
    }
    assert c != k ==> OrderAt(cmp, s, c);
  }

  /** A node other than the two swapped ones keeps its order. */
  lemma SwapElsewhere<T>(cmp: (T, T) -> int, s: seq<T>, i: nat, c: nat, j: nat)
    requires i < c < |s| && (c == 2 * i + 1 || c == 2 * i + 2) && j < |s| && j != i && j != c && OrderAt(cmp, s, j)
    requires i > 0 && j == Parent(i) ==> cmp(s[j], s[c]) <= 0
    ensures OrderAt(cmp, Swapped(s, i, c), j)
  {
    var t := Swapped(s, i, c);
    assert t[j] == s[j];
    if 2 * j + 1 < |s| && 2 * j + 1 != i {
      assert t[2 * j + 1] == s[2 * j + 1];
    }
    if 2 * j + 2 < |s| && 2 * j + 2 != i {
      assert t[2 * j + 2] == s[2 * j + 2];
    }
  }

  lemma SwapContents<T>(s: seq<T>, i: nat, j: nat)
    requires i < |s| && j < |s|
    ensures multiset(Swapped(s, i, j)) == multiset(s)
  {
  }

  /** The child `c` of `i` is at most the other one. */
  ghost predicate LeastOfChildren<T>(cmp: (T, T) -> int, s: seq<T>, i: nat, c: nat)
    requires c < |s|
  {
    && (2 * i + 1 < |s| ==> cmp(s[c], s[2 * i + 1]) <= 0)
    && (2 * i + 2 < |s| ==> cmp(s[c], s[2 * i + 2]) <= 0)
  }

  /** A node that is at most its least child closes the exception. */
  lemma Settled<T(!new)>(cmp: (T, T) -> int, s: seq<T>, k: nat, i: nat, c: nat)
    requires TotalPreorder(cmp) && OrderBut(cmp, s, k, i)
    requires 2 * i + 1 >= |s| || (c < |s| && LeastOfChildren(cmp, s, i, c) && cmp(s[i], s[c]) <= 0)
    ensures OrderFrom(cmp, s, k)
  {
    if 2 * i + 1 < |s| {
      assert Transitive(cmp, s[i], s[c], s[2 * i + 1]);
      if 2 * i + 2 < |s| {
        assert Transitive(cmp, s[i], s[c], s[2 * i + 2]);
      }
    }
  }

  /** What is greater than something greater than `a` does not equal `a`. */
  lemma Beyond<T(!new)>(cmp: (T, T) -> int, a: T, x: T, y: T)
    requires TotalPreorder(cmp) && cmp(a, x) < 0 && cmp(x, y) <= 0
    ensures cmp(a, y) != 0
  {
    assert Antisymmetric(cmp, x, a) && Antisymmetric(cmp, y, a) && Transitive(cmp, x, y, a);
  }

  class Heap<T(!new)> {
    const cmp: (T, T) -> int
    var data: seq<T>

    /** `heap_init` */
    constructor (cmp: (T, T) -> int)
      ensures this.cmp == cmp && data == []
    {
      this.cmp := cmp;
      data := [];
    }

    ghost predicate Valid()
      reads this
    {
      TotalPreorder(cmp) && IsHeap(cmp, data)
    }

    /** The least of the children of `i`. */
    method LeastChild(i: nat) returns (minj: nat)
      requires TotalPreorder(cmp) && 2 * i + 1 < |data|
      ensures i < minj < |data| && (minj == 2 * i + 1 || minj == 2 * i + 2)
      ensures LeastOfChildren(cmp, data, i, minj)
    {
      minj := i * 2 + 1;
      var j := 2 * i + 2;
      assert Antisymmetric(cmp, data[minj], data[minj]);
      if j < |data| {
        assert Antisymmetric(cmp, data[minj], data[j]) && Antisymmetric(cmp, data[j], data[j]);
        if cmp(data[minj], data[j]) > 0 {
          minj := j;
        }
      }
    }

    /** `siftdown`: repairs the order at the node `i`. */
    method SiftDown(i: nat, ghost k: nat) returns (res: int)
      requires TotalPreorder(cmp) && OrderBut(cmp, data, k, i)
      modifies this`data
      ensures OrderFrom(cmp, data, k) && multiset(data) == multiset(old(data)) && |data| == |old(data)|
      ensures res == 0 ==> data == old(data)
      decreases |data| - i
    {
      if i * 2 + 1 >= |data| {
        Settled(cmp, data, k, i, i);
        return 0;
      }
      var minj := LeastChild(i);
      if cmp(data[i], data[minj]) > 0 {
        assert Antisymmetric(cmp, data[i], data[minj]);
        SwapDown(cmp, data, k, i, minj);
        SwapContents(data, i, minj);
        data := data[i := data[minj]][minj := data[i]];
        var r := SiftDown(minj, k);
        return 1;
      }
      Settled(cmp, data, k, i, minj);
      return 0;
    }

    /** The loop of `heap_ify` and `heap_push`: repairs the order from the node `top` down to the root. */
    method Repair(top: int)
      requires TotalPreorder(cmp) && -1 <= top && OrderFrom(cmp, data, top + 1)
      modifies this`data
      ensures Valid() && multiset(data) == multiset(old(data))
    {
      var i := top;
      while i >= 0
        invariant -1 <= i && OrderFrom(cmp, data, i + 1) && multiset(data) == multiset(old(data))
      {
        var r := SiftDown(i, i);
        i := i - 1;
      }
    }

    /** `heap_ify` */
    method Heapify()
      requires TotalPreorder(cmp)
      modifies this`data
      ensures Valid() && multiset(data) == multiset(old(data))
    {
      Repair(|data| / 2 - 1);
    }

    /** `heap_push` */
    method Push(v: T)
      requires Valid()
      modifies this`data
      ensures Valid() && multiset(data) == multiset(old(data)) + multiset{v}
    {
      ghost var s := data;
      data := data + [v];
      if |data| > 1 {
        forall j {:trigger OrderAt(cmp, data, j)} | Parent(|data| - 1) < j < |data|
          ensures OrderAt(cmp, data, j)
        {
          assert j < |s| ==> OrderAt(cmp, s, j);
        }
        Repair(Parent(|data| - 1));
      }
    }

    /** `heap_pop`: takes out a least element. */
    method Pop() returns (res: int, rv: Option<T>)
      requires Valid()
      modifies this`data
      ensures Valid() && (res == -1 <==> old(data) == []) && (res == -1 || res == 0)
      ensures res == -1 ==> rv == None && data == old(data)
      ensures res == 0 ==> rv.Some? && multiset(old(data)) == multiset(data) + multiset{rv.value}
      ensures res == 0 ==> forall x :: x in old(data) ==> cmp(rv.value, x) <= 0
    {
      if data == [] {
        return -1, None;
      }
      rv := Some(data[0]);
      ghost var s := data;
      HeadIsLeast();
      var last := |data| - 1;
      if last != 0 {
        data := data[0 := data[last]][last := data[0]];
        data := data[..last];
        PopOrder(cmp, s, data);
        PopContents(s, data);
        var r := SiftDown(0, 0);
      } else {
        data := data[..last];
        PopContents(s, data);
      }
      res := 0;
    }

    lemma HeadIsLeast()
      requires Valid() && data != []
      ensures forall x :: x in data ==> cmp(data[0], x) <= 0
    {
      forall x | x in data
        ensures cmp(data[0], x) <= 0
      {
        var j :| 0 <= j < |data| && data[j] == x;
        AllWithinRoot(j);
        LeastAbove(cmp, data, 0, j);
      }
    }

    /** `heap_pushpop`: puts in `v` and takes out what was a least element before; on an empty heap it is a push. */
    method PushPop(v: T) returns (res: int, rv: T)
      requires Valid()
      modifies this`data
      ensures Valid() && (res == -1 <==> old(data) == []) && (res == -1 || res == 0)
      ensures res == -1 ==> rv == v && multiset(data) == multiset{v}
      ensures res == 0 ==> multiset(data) + multiset{rv} == multiset(old(data)) + multiset{v}
      ensures res == 0 ==> forall x :: x in old(data) ==> cmp(rv, x) <= 0
    {
      if data == [] {
        Push(v);
        return -1, v;
      }
      rv := data[0];
      ghost var s := data;
      HeadIsLeast();
      var last := |data| - 1;
      if last != 0 {
        data := data[0 := data[last]][last := data[0]];
        data := data[last := v];
        PushPopOrder(cmp, s, data);
        PushPopContents(s, data, v);
        Repair(Parent(|data| - 1));
      } else {
        data := data[last := v];
        PushPopContents(s, data, v);
      }
      res := 0;
    }

    /** `heap_get_at`: searches below the node `i`, leaving out what hangs below a greater element. */
    method GetAt(i: nat, a: T) returns (b: Option<nat>)
      requires Valid()
      ensures b.Some? ==> b.value < |data| && cmp(a, data[b.value]) == 0
      ensures b.None? ==> forall j: nat {:trigger Within(i, j)} :: i < j < |data| && Within(i, j) ==>
        cmp(a, data[j]) != 0
      decreases |data| - i
    {
      b := None;
      var d := 1;
      while d <= 2
        invariant 1 <= d <= 3
        invariant d > 1 ==> NoneWithin(2 * i + 1, a)
        invariant d > 2 ==> NoneWithin(2 * i + 2, a)
      {
        var c := i * 2 + d;
        if c < |data| {
          var diff := cmp(a, data[c]);
          if diff == 0 {
            return Some(c);
          } else if diff > 0 {
            b := GetAt(c, a);
            if b.Some? {
              return;
            }
          }
          Ruled(c, a);
        }
        d := d + 1;
      }
      forall j: nat {:trigger Within(i, j)} | i < j < |data| && Within(i, j)
        ensures cmp(a, data[j]) != 0
      {
        WithinChild(i, j);
      }
      b := None;
    }

    ghost predicate NoneWithin(c: nat, a: T)
      reads this
    {
      forall j: nat {:trigger Within(c, j)} :: j < |data| && Within(c, j) ==> cmp(a, data[j]) != 0
    }

    /** A greater element, or one whose proper descendants have been searched, rules out all that is below it. */
    lemma Ruled(c: nat, a: T)
      requires Valid() && c < |data| && cmp(a, data[c]) != 0
      requires cmp(a, data[c]) > 0 ==> forall j: nat {:trigger Within(c, j)} :: c < j < |data| && Within(c, j) ==>
        cmp(a, data[j]) != 0
      ensures NoneWithin(c, a)
    {
      forall j: nat {:trigger Within(c, j)} | j < |data| && Within(c, j)
        ensures cmp(a, data[j]) != 0
      {
        LeastAbove(cmp, data, c, j);
        if cmp(a, data[c]) < 0 {
          Beyond(cmp, a, data[c], data[j]);
        }
      }
    }

    /** `heap_get`: finds an equal element just when there is one. */
    method Get(a: T) returns (res: int, rv: Option<T>)
      requires Valid()
      ensures res == 0 || res == -1
      ensures res == 0 <==> exists x :: x in data && cmp(a, x) == 0
      ensures res == 0 ==> rv.Some? && rv.value in data && cmp(a, rv.value) == 0
    {
      if |data| > 0 {
        var diff := cmp(a, data[0]);
        if diff == 0 {
          return 0, Some(data[0]);
        } else if diff < 0 {
          HeadIsLeast();
          forall x | x in data
            ensures cmp(a, x) != 0
          {
            Beyond(cmp, a, data[0], x);
          }
          return -1, None;
        }
        var b := GetAt(0, a);
        if b.Some? {
          return 0, Some(data[b.value]);
        }
        forall x | x in data
          ensures cmp(a, x) != 0
        {
          var j :| 0 <= j < |data| && data[j] == x;
          AllWithinRoot(j);
        }
      }
      return -1, None;
    }

    /** Popping until the heap is empty gives all its elements in order. */
    method Drain() returns (out: seq<T>)
      requires Valid()
      modifies this`data
      ensures data == [] && multiset(out) == multiset(old(data))
      ensures forall i, j :: 0 <= i < j < |out| ==> cmp(out[i], out[j]) <= 0
    {
      out := [];
      while data != []
        invariant Valid() && multiset(out) + multiset(data) == multiset(old(data))
        invariant forall i, j :: 0 <= i < j < |out| ==> cmp(out[i], out[j]) <= 0
        invariant forall x, y :: x in out && y in data ==> cmp(x, y) <= 0
        decreases |data|
      {
        ghost var s := data;
        var res, rv := Pop();
        Smaller(s, data, rv.value);
        out := out + [rv.value];
      }
    }
  }

  lemma Smaller<T>(s: seq<T>, t: seq<T>, x: T)
    requires multiset(s) == multiset(t) + multiset{x}
    ensures |t| < |s| && x in s && forall y :: y in t ==> y in s
  {
    assert |multiset(s)| == |s| && |multiset(t)| == |t|;
    assert x in multiset(s);
    forall y | y in t
      ensures y in s
    {
      assert y in multiset(t);
      assert y in multiset(s);
    }
  }

  /** What is left when the last element has taken the place of the head. */
  lemma PopContents<T>(s: seq<T>, t: seq<T>)
    requires s != [] && t == Swapped(s, 0, |s| - 1)[..|s| - 1]
    ensures multiset(s) == multiset(t) + multiset{s[0]}
  {
    var last := |s| - 1;
    var w := Swapped(s, 0, last);
    assert multiset(w) == multiset(s);
    assert w == w[..last] + [s[0]];
  }

  lemma PushPopContents<T>(s: seq<T>, t: seq<T>, v: T)
    requires s != [] && t == Swapped(s, 0, |s| - 1)[|s| - 1 := v]
    ensures multiset(t) + multiset{s[0]} == multiset(s) + multiset{v}
  {
    var w := Swapped(s, 0, |s| - 1);
    assert multiset(w) == multiset(s);
    assert w[|s| - 1] == s[0];
  }

  /** Only the first and the last element have changed, so the order holds behind the parent of the last. */
  lemma PushPopOrder<T>(cmp: (T, T) -> int, s: seq<T>, t: seq<T>)
    requires IsHeap(cmp, s) && |s| > 1 && |t| == |s| && forall j :: 0 < j < |s| - 1 ==> t[j] == s[j]
    ensures OrderFrom(cmp, t, Parent(|t| - 1) + 1)
  {
    forall j {:trigger OrderAt(cmp, t, j)} | Parent(|t| - 1) < j < |t|
      ensures OrderAt(cmp, t, j)
    {
      assert OrderAt(cmp, s, j);
    }
  }

  /** Without the head, and with the last element in its place, only the order at the head is open. */
  lemma PopOrder<T(!new)>(cmp: (T, T) -> int, s: seq<T>, t: seq<T>)
    requires IsHeap(cmp, s) && |s| > 1 && |t| == |s| - 1 && forall j :: 0 < j < |t| ==> t[j] == s[j]
    ensures OrderBut(cmp, t, 0, 0)
  {
    forall j {:trigger OrderAt(cmp, t, j)} | 0 < j < |t|
      ensures OrderAt(cmp, t, j)
    {
      assert OrderAt(cmp, s, j);
    }
  }
}
