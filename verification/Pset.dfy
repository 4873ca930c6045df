/** The priority set of `src/cm.c`: a filter that keeps the greatest items of a stream. */
module Pset {
  import opened Options

  const CMMAX: int := 0x7FFF_FFFF_FFFF_FFFF

  /** An item: what it is about, and its weight.  The hash tells items apart by what they are about. */
  datatype Item = Item(v: int, cmprop: int)

  predicate Distinct(d: seq<Item>) {
    forall i, j :: 0 <= i < j < |d| ==> d[i].v != d[j].v
  }

  ghost function Elements(d: seq<Item>): set<Item> {
    set k | k in d
  }

  /** The items with a weight above `x`. */
  ghost function Above(s: set<Item>, x: int): set<Item> {
    set k | k in s && k.cmprop > x
  }

  /** `kept` is a choice of at most `limit` greatest ones among the items of `pushed` above `floor`. */
  ghost predicate Greatest(kept: set<Item>, pushed: set<Item>, limit: nat, floor: int) {
    && kept <= Above(pushed, floor)
    && |kept| <= limit
    && (forall p, k :: p in pushed && p !in kept && k in kept ==> p.cmprop <= k.cmprop)
    && (kept != Above(pushed, floor) ==> |kept| == limit)
  }

  /** Such a choice is determined up to items of equal weight: above any bound it has as many items as there are, or as
      it may have. */
  lemma GreatestCount(kept: set<Item>, pushed: set<Item>, limit: nat, floor: int, x: int)
    requires Greatest(kept, pushed, limit, floor) && x >= floor
    ensures |Above(kept, x)| == if |Above(pushed, x)| <= limit then |Above(pushed, x)| else limit
  {
    if Above(pushed, x) <= kept {
      assert Above(kept, x) == Above(pushed, x);
      Fewer(Above(pushed, x), kept);
    } else {
      var p :| p in Above(pushed, x) && p !in kept;
      assert p in Above(pushed, floor);
      assert Above(kept, x) == kept;
      Fewer(kept + {p}, Above(pushed, x));
    }
  }

  lemma {:induction false} Fewer<T>(s: set<T>, t: set<T>)
    requires s <= t
    ensures |s| <= |t|
    decreases |s|
  {
    if s != {} {
      var x :| x in s;
      Fewer(s - {x}, t - {x});
    }
  }

  /** So two runs over the same items keep the same weights. */
  lemma SameWeights(a: set<Item>, b: set<Item>, pushed: set<Item>, limit: nat, floor: int, x: int)
    requires Greatest(a, pushed, limit, floor) && Greatest(b, pushed, limit, floor) && x >= floor
    ensures |Above(a, x)| == |Above(b, x)|
  {
    GreatestCount(a, pushed, limit, floor, x);
    GreatestCount(b, pushed, limit, floor, x);
  }

  class PrioritySet {
    var nleft: int
    /** The items of the hash, in the order in which a traversal meets them. */
    var d: seq<Item>
    const minthresh: int
    var fastPopThresh: int
    ghost const limit: nat
    /** All items pushed so far. */
    ghost var pushed: set<Item>

    /** The fast threshold separates what was rejected from what is kept. */
    ghost predicate Valid()
      reads this
    {
      && 0 <= minthresh <= fastPopThresh && 0 <= nleft && |d| + nleft == limit && Distinct(d)
      && (forall p, q :: p in pushed && q in pushed && p.v == q.v ==> p == q)
      && (forall k :: k in d ==> k in pushed && minthresh < k.cmprop < CMMAX && fastPopThresh <= k.cmprop)
      && (forall p :: p in pushed && p !in d ==> p.cmprop <= fastPopThresh)
      && (fastPopThresh > minthresh ==> nleft == 0)
    }

    /** `pset_init` */
    constructor (thresh: nat, minthresh: int)
      requires minthresh >= 0
      ensures Valid() && d == [] && pushed == {} && limit == thresh && this.minthresh == minthresh
    {
      nleft := thresh;
      d := [];
      this.minthresh := minthresh;
      fastPopThresh := minthresh;
      limit := thresh;
      pushed := {};
    }

    /** In every reachable state the set holds a choice of the greatest items pushed so far. */
    lemma KeepsGreatest()
      requires Valid()
      ensures Greatest(Elements(d), pushed, limit, minthresh)
    {
      SizeOf(d);
      assert Elements(d) <= Above(pushed, minthresh);
      if Elements(d) != Above(pushed, minthresh) {
        var p :| p in Above(pushed, minthresh) && p !in Elements(d);
        assert p.cmprop <= fastPopThresh;
      }
    }

    /** The traversal with `pset_mingen_fast`, which stops at weight 1. */
    method Least() returns (it: Item)
      requires forall k :: k in d ==> 1 <= k.cmprop < CMMAX
      ensures d != [] ==> it in d && forall k :: k in d ==> it.cmprop <= k.cmprop
    {
      it := Item(0, CMMAX);
      var i := 0;
      while i < |d|
        invariant 0 <= i <= |d|
        invariant i > 0 ==> it in d
        invariant i == 0 ==> it.cmprop == CMMAX
        invariant forall j :: 0 <= j < i ==> it.cmprop <= d[j].cmprop
      {
        if d[i].cmprop < it.cmprop {
          it := d[i];
        }
        if it.cmprop == 1 {
          return;
        }
        i := i + 1;
      }
    }

    /** `hash_remove_item` */
    method RemoveItem(it: Item)
      requires it in d && Distinct(d)
      modifies this`d
      ensures Distinct(d) && |d| == |old(d)| - 1 && Elements(d) == Elements(old(d)) - {it}
    {
      var i := 0;
      while d[i].v != it.v
        invariant d == old(d) && 0 <= i < |d| && forall j :: 0 <= j < i ==> d[j] != it
        decreases |d| - i
      {
        Find(d, it, i + 1);
        i := i + 1;
      }
      Same(d, it, i);
      Cut(d, i);
      d := d[..i] + d[i + 1..];
    }

    /** `hash_set_item` of an item that is not in the hash: where a traversal will meet it is up to the hash. */
    method SetItem(it: Item)
      requires Distinct(d) && forall k :: k in d ==> k.v != it.v
      modifies this`d
      ensures Distinct(d) && |d| == |old(d)| + 1 && Elements(d) == Elements(old(d)) + {it}
    {
      var i :| 0 <= i <= |d|;
      ghost var s := d;
      d := d[..i] + [it] + d[i..];
      Pasted(s, it, i, d);
    }

    /** `pset_pop` of a set that is not empty. */
    method Pop() returns (res: Item)
      requires d != [] && Distinct(d) && forall k :: k in d ==> 1 <= k.cmprop < CMMAX
      modifies this`d, this`nleft, this`fastPopThresh
      ensures nleft == old(nleft) + 1 && Distinct(d) && |d| == |old(d)| - 1
      ensures res in old(d) && Elements(d) == Elements(old(d)) - {res}
      ensures forall k :: k in old(d) ==> res.cmprop <= k.cmprop
      ensures fastPopThresh == if nleft <= 0 && res.cmprop > minthresh then res.cmprop else minthresh
    {
      res := Least();
      RemoveItem(res);
      nleft := nleft + 1;
      if nleft <= 0 {
        fastPopThresh := if res.cmprop > minthresh then res.cmprop else minthresh;
      } else {
        fastPopThresh := minthresh;
      }
    }

    /** `pset_push`: an item that does not rise above the fast threshold comes back at once, and an overfull set gives
        up a least item. */
    method Push(it: Item) returns (res: Option<Item>)
      requires Valid() && it.cmprop < CMMAX && forall p :: p in pushed && p.v == it.v ==> p == it
      modifies this
      ensures Valid() && pushed == old(pushed) + {it}
      ensures res.Some? ==> res.value in pushed && res.value.cmprop <= fastPopThresh
      ensures Elements(d) + (if res.Some? then {res.value} else {}) == Elements(old(d)) + {it}
      ensures if it.cmprop <= old(fastPopThresh) then res == Some(it) && d == old(d)
              else if it in old(d) then res == None && d == old(d)
              else if old(nleft) > 0 then res == None
              else res.Some? && res.value !in d && forall k :: k in old(d) || k == it ==> res.value.cmprop <= k.cmprop
    {
      pushed := pushed + {it};
      if it.cmprop <= fastPopThresh {
        return Some(it);
      }
      if forall k :: k in d ==> k.v != it.v {
        ghost var before := Elements(d);
        SetItem(it);
        nleft := nleft - 1;
        Members(d, before, it);
      }
      if nleft < 0 {
        ghost var full := Elements(d);
        var r := Pop();
        AfterPop(d, full, r);
        return Some(r);
      }
      return None;
    }
  }

  lemma {:induction false} SizeOf(d: seq<Item>)
    requires Distinct(d)
    ensures |Elements(d)| == |d|
    decreases |d|
  {
    if d == [] {
      assert Elements(d) == {};
    } else {
      var k := d[|d| - 1];
      var e := d[..|d| - 1];
      assert d == e + [k];
      assert k !in e;
      assert Elements(d) == Elements(e) + {k};
      SizeOf(e);
    }
  }

  lemma Find(d: seq<Item>, it: Item, i: nat)
    requires it in d && 0 < i && i - 1 < |d| && d[i - 1] != it && forall j :: 0 <= j < i - 1 ==> d[j] != it
    ensures i < |d|
  {
  }

  lemma Same(d: seq<Item>, it: Item, i: nat)
    requires Distinct(d) && it in d && i < |d| && d[i].v == it.v
    ensures d[i] == it
  {
  }

  lemma Cut(d: seq<Item>, i: nat)
    requires Distinct(d) && i < |d|
    ensures Distinct(d[..i] + d[i + 1..]) && Elements(d[..i] + d[i + 1..]) == Elements(d) - {d[i]}
  {
    var e := d[..i] + d[i + 1..];
    forall j | 0 <= j < |e|
      ensures e[j] == d[if j < i then j else j + 1]
    {
    }
    forall k
      ensures k in e <==> k in d && k != d[i]
    {
      if k in d && k != d[i] {
        var j :| 0 <= j < |d| && d[j] == k;
        assert e[if j < i then j else j - 1] == k;
      }
    }
  }

  lemma Pasted(s: seq<Item>, it: Item, i: nat, d: seq<Item>)
    requires Distinct(s) && (forall k :: k in s ==> k.v != it.v) && i <= |s| && d == s[..i] + [it] + s[i..]
    ensures Distinct(d) && Elements(d) == Elements(s) + {it}
  {
    forall j | 0 <= j < |d|
      ensures d[j] == if j < i then s[j] else if j == i then it else s[j - 1]
    {
    }
    forall k
      ensures k in d <==> k in s || k == it
    {
      if k in s {
        var j :| 0 <= j < |s| && s[j] == k;
        assert d[if j < i then j else j + 1] == k;
      }
      if k == it {
        assert d[i] == k;
      }
    }
  }

  lemma Members(d: seq<Item>, before: set<Item>, it: Item)
    requires Elements(d) == before + {it}
    ensures forall k :: k in d <==> k in before || k == it
  {
    forall k
      ensures k in d <==> k in before || k == it
    {
      assert k in d <==> k in Elements(d);
    }
  }

  lemma AfterPop(d: seq<Item>, full: set<Item>, r: Item)
    requires Elements(d) == full - {r}
    ensures forall k :: k in d <==> k in full && k != r
  {
    forall k
      ensures k in d <==> k in full && k != r
    {
      assert k in d <==> k in Elements(d);
    }
  }
}
