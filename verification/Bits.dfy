/** Keys as bit strings: right shift, bit length and the order of keys that share a prefix. */
module Bits {
  const WORD_BITS: nat := 64
  const WORD_LIMIT: nat := 0x1_0000_0000_0000_0000

  /** A machine word: `uintmax_t`, `uint64_t` and `uintptr_t` are 64 bits wide. */
  type Word = x: nat | x < WORD_LIMIT

  function Max(a: nat, b: nat): nat { if a < b then b else a }

  /** `x >> d` on an unsigned word. */
  function Shr(x: nat, d: nat): nat
    decreases d
  {
    if d == 0 then x else Shr(x / 2, d - 1)
  }

  /** `flsl`: the position of the highest one bit, counted from 1; 0 for 0. */
  function Flsl(x: nat): nat {
    if x == 0 then 0 else 1 + Flsl(x / 2)
  }

  function Pow2(n: nat): nat {
    if n == 0 then 1 else 2 * Pow2(n - 1)
  }

  lemma {:induction false} ShrZero(d: nat)
    ensures Shr(0, d) == 0
    decreases d
  {
    if d > 0 {
      ShrZero(d - 1);
    }
  }

  lemma {:induction false} ShrStep(x: nat, d: nat)
    ensures Shr(x, d + 1) == Shr(x, d) / 2
    decreases d
  {
    if d == 0 {
      assert Shr(x, 1) == Shr(x / 2, 0);
    } else {
      ShrStep(x / 2, d - 1);
    }
  }

  lemma {:induction false} ShrShr(x: nat, a: nat, b: nat)
    ensures Shr(Shr(x, a), b) == Shr(x, a + b)
    decreases a
  {
    if a == 0 {
    } else {
      ShrShr(x / 2, a - 1, b);
    }
  }

  lemma {:induction false} ShrMonotone(x: nat, y: nat, d: nat)
    requires x <= y
    ensures Shr(x, d) <= Shr(y, d)
    decreases d
  {
    if d == 0 {
    } else {
      ShrMonotone(x / 2, y / 2, d - 1);
    }
  }

  /** Keys whose prefixes differ are ordered as their prefixes. */
  lemma ShrLess(x: nat, y: nat, d: nat)
    requires Shr(x, d) < Shr(y, d)
    ensures x < y
  {
    if y <= x {
      ShrMonotone(y, x, d);
    }
  }

  lemma {:induction false} FlslTop(x: nat)
    requires x > 0
    ensures Flsl(x) > 0 && Shr(x, Flsl(x) - 1) == 1
  {
    if x == 1 {
      assert Flsl(1) == 1 + Flsl(0);
    } else {
      FlslTop(x / 2);
    }
  }

  /** The bit length is the only shift that leaves the leading one. */
  lemma {:induction false} FlslUnique(x: nat, d: nat)
    requires Shr(x, d) == 1
    ensures x > 0 && Flsl(x) == d + 1
    decreases d
  {
    if d == 0 {
      assert Flsl(1) == 1 + Flsl(0);
    } else {
      FlslUnique(x / 2, d - 1);
    }
  }

  lemma {:induction false} FlslBound(x: nat, n: nat)
    requires x < Pow2(n)
    ensures Flsl(x) <= n
    decreases n
  {
    if n == 0 || x == 0 {
    } else {
      FlslBound(x / 2, n - 1);
    }
  }

  lemma Pow2Word()
    ensures Pow2(64) == WORD_LIMIT
  {
    assert Pow2(4) == 0x10;
    assert Pow2(8) == 0x100;
    assert Pow2(12) == 0x1000;
    assert Pow2(16) == 0x10000;
    assert Pow2(20) == 0x100000;
    assert Pow2(24) == 0x1000000;
    assert Pow2(28) == 0x10000000;
    assert Pow2(32) == 0x100000000;
    assert Pow2(36) == 0x1000000000;
    assert Pow2(40) == 0x10000000000;
    assert Pow2(44) == 0x100000000000;
    assert Pow2(48) == 0x1000000000000;
    assert Pow2(52) == 0x10000000000000;
    assert Pow2(56) == 0x100000000000000;
    assert Pow2(60) == 0x1000000000000000;
    assert Pow2(64) == 0x10000000000000000;
  }

  lemma FlslWord(x: Word)
    ensures Flsl(x) <= WORD_BITS
  {
    Pow2Word();
    FlslBound(x, 64);
  }

  lemma {:induction false} ShrBelow(x: nat, n: nat)
    requires x < Pow2(n)
    ensures Shr(x, n) == 0
    decreases n
  {
    if n == 0 {
    } else {
      ShrBelow(x / 2, n - 1);
    }
  }
}
