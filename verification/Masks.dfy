/** The word operations of `src/pbtrie.c`: exclusive or, and, shifts of masks, and what they say of common prefixes. */
module Masks {
  import opened Bits

  function Xor(a: nat, b: nat): nat
    decreases a + b
  {
    if a == 0 && b == 0 then 0 else (if a % 2 == b % 2 then 0 else 1) + 2 * Xor(a / 2, b / 2)
  }

  function And(a: nat, b: nat): nat {
    if a == 0 then 0 else (if a % 2 == 1 && b % 2 == 1 then 1 else 0) + 2 * And(a / 2, b / 2)
  }

  /** `x << f` on an unsigned word: what moves past the top is lost. */
  function Shl(x: Word, f: nat): Word
    decreases f
  {
    if f == 0 then x else Shl((2 * x) % 0x1_0000_0000_0000_0000, f - 1)
  }

  /** `(uint64_t)((int64_t)x >> 1)`: the sign bit stays. */
  function SignedHalf(x: Word): Word {
    if x < 0x8000_0000_0000_0000 then x / 2 else x / 2 + 0x8000_0000_0000_0000
  }

  const WORD_MAX: Word := 0xFFFF_FFFF_FFFF_FFFF

  /** The number of low bits that it takes to make the keys equal. */
  function Level(a: nat, b: nat): nat {
    Flsl(Xor(a, b))
  }

  /** The word with all ones above the lowest `f` bits. */
  function Mask(f: nat): (m: nat)
    requires f <= 64
    ensures m < 0x1_0000_0000_0000_0000
  {
    Pow2Word();
    Pow2Monotone(f, 64);
    0x1_0000_0000_0000_0000 - Pow2(f)
  }

  lemma {:induction false} Pow2Monotone(a: nat, b: nat)
    requires a <= b
    ensures 1 <= Pow2(a) <= Pow2(b)
    ensures a < b ==> Pow2(a) < Pow2(b)
    decreases b
  {
    if b == 0 {
    } else if a == b {
      Pow2Monotone(a - 1, b - 1);
    } else {
      Pow2Monotone(a, b - 1);
    }
  }

  /** A longer prefix has the greater mask. */
  lemma MaskOrder(f: nat, g: nat)
    requires f <= 64 && g <= 64
    ensures Mask(f) < Mask(g) <==> g < f
    ensures Mask(f) == Mask(g) <==> f == g
    ensures Mask(64) == 0 && Mask(0) == WORD_MAX
  {
    Pow2Word();
    Pow2Monotone(if f < g then f else g, if f < g then g else f);
  }

  /** Keys agree above their level and nowhere below it. */
  lemma {:induction false} LevelShr(a: nat, b: nat, f: nat)
    ensures Shr(a, f) == Shr(b, f) <==> f >= Level(a, b)
    decreases f + a + b
  {
    if a == 0 && b == 0 {
      ShrZero(f);
    } else if f == 0 {
      XorZero(a, b);
    } else {
      LevelShr(a / 2, b / 2, f - 1);
      XorZero(a / 2, b / 2);
      XorZero(a, b);
    }
  }

  lemma {:induction false} XorZero(a: nat, b: nat)
    ensures Xor(a, b) == 0 <==> a == b
    decreases a + b
  {
    if a == 0 && b == 0 {
    } else {
      XorZero(a / 2, b / 2);
    }
  }

  lemma LevelWord(a: Word, b: Word)
    ensures Level(a, b) <= 64 && Level(a, a) == 0
  {
    Pow2Word();
    ShrBelow(a, 64);
    ShrBelow(b, 64);
    LevelShr(a, b, 64);
    XorZero(a, a);
  }

  lemma {:induction false} ShlMask(a: nat, f: nat)
    requires a + f <= 64
    ensures Mask(a) < 0x1_0000_0000_0000_0000 && Shl(Mask(a), f) == Mask(a + f)
    decreases f
  {
    Pow2Word();
    if f > 0 {
      Pow2Monotone(a + 1, 64);
      assert Pow2(a + 1) == 2 * Pow2(a);
      assert (2 * Mask(a)) % 0x1_0000_0000_0000_0000 == Mask(a + 1);
      ShlMask(a + 1, f - 1);
    }
  }

  /** `xmask` */
  function XMask(prefix: Word, key: Word): (m: Word)
    ensures Level(prefix, key) <= 64
    ensures m == Mask(Level(prefix, key))
  {
    LevelWord(prefix, key);
    var x := Xor(prefix, key);
    var f := Flsl(x);
    if f >= 64 then
      MaskOrder(64, 64);
      0
    else
      MaskOrder(0, 0);
      ShlMask(0, f);
      Shl(WORD_MAX, f)
  }

  /** `q` followed by `l` zero bits. */
  function Widen(q: nat, l: nat): nat
    decreases l
  {
    if l == 0 then q else Widen(2 * q, l - 1)
  }

  lemma {:induction false} WidenDouble(q: nat, l: nat)
    ensures Widen(2 * q, l) == 2 * Widen(q, l)
    decreases l
  {
    if l > 0 {
      WidenDouble(2 * q, l - 1);
    }
  }

  lemma {:induction false} AndOnes(x: nat, w: nat)
    requires x < Pow2(w)
    ensures And(x, Pow2(w) - 1) == x
    decreases w
  {
    if x > 0 {
      AndOnes(x / 2, w - 1);
      assert (Pow2(w) - 1) / 2 == Pow2(w - 1) - 1;
    }
  }

  lemma AndEven(x: nat, m: nat)
    ensures And(x, 2 * m) == 2 * And(x / 2, m)
  {
    if x == 0 {
      assert And(0, m) == 0;
    }
  }

  lemma {:induction false} AndMask(x: nat, w: nat, f: nat)
    requires x < Pow2(w) && f <= w
    ensures Pow2(f) <= Pow2(w) && And(x, Pow2(w) - Pow2(f)) == Widen(Shr(x, f), f)
    decreases w
  {
    Pow2Monotone(f, w);
    if f == 0 {
      AndOnes(x, w);
    } else {
      AndMask(x / 2, w - 1, f - 1);
      AndEven(x, Pow2(w - 1) - Pow2(f - 1));
      WidenDouble(Shr(x, f), f - 1);
    }
  }

  lemma Double(a: nat, b: nat)
    ensures 2 * (a * b) == a * (2 * b)
  {
  }

  /** `x & mask` clears the low bits. */
  lemma AndWord(x: Word, f: nat)
    requires f <= 64
    ensures And(x, Mask(f)) == Shr(x, f) * Pow2(f)
  {
    Pow2Word();
    AndMask(x, 64, f);
    WidenTimes(Shr(x, f), f);
  }

  lemma SignedHalfMask(f: nat)
    requires 0 < f < 64
    ensures SignedHalf(Mask(f)) == Mask(f - 1)
  {
    Pow2Word();
    assert Pow2(64) == 2 * Pow2(63);
    Pow2Monotone(f, 63);
    assert Pow2(f) == 2 * Pow2(f - 1);
  }

  lemma {:induction false} ShrShift(q: nat, l: nat)
    ensures Shr(q * Pow2(l), l) == q
    decreases l
  {
    if l > 0 {
      assert Pow2(l) == 2 * Pow2(l - 1);
      Double(q, Pow2(l - 1));
      assert q * Pow2(l) == 2 * (q * Pow2(l - 1));
      ShrShift(q, l - 1);
    }
  }

  /** Of two keys with a common prefix of level `l`, the shifted prefix is the lower bound. */
  lemma {:induction false} ShrBound(x: nat, l: nat)
    ensures Shr(x, l) * Pow2(l) <= x < (Shr(x, l) + 1) * Pow2(l)
    decreases l
  {
    if l > 0 {
      ShrBound(x / 2, l - 1);
      var s, p := Shr(x, l), Pow2(l - 1);
      assert Pow2(l) == 2 * p;
      Double(s, p);
      Double(s + 1, p);
    }
  }

  /** `childsel`: 0 when the bit below the mask of `child` is 0, for a parent prefix that `child` shares. */
  function ChildSel(mask: Word, parent: Word, child: Word): bool {
    And(child, SignedHalf(mask)) > parent
  }

  lemma BitCompare(c: nat, s: nat, p: nat)
    requires p >= 1 && (c == 2 * s || c == 2 * s + 1)
    ensures c * p > s * (2 * p) <==> c == 2 * s + 1
  {
    Double(s, p);
    if c == 2 * s {
      assert (2 * s) * p == 2 * (s * p);
    } else {
      assert (2 * s + 1) * p == 2 * (s * p) + p;
    }
  }

  lemma ChildSelBit(f: nat, child: Word)
    requires 0 < f < 64
    ensures Shr(child, f) * Pow2(f) <= child
    ensures ChildSel(Mask(f), Shr(child, f) * Pow2(f), child) <==> Shr(child, f - 1) == 2 * Shr(child, f) + 1
    ensures Shr(child, f - 1) == 2 * Shr(child, f) || Shr(child, f - 1) == 2 * Shr(child, f) + 1
  {
    ShrBound(child, f);
    SignedHalfMask(f);
    AndWord(child, f - 1);
    ShrStep(child, f - 1);
    Pow2Monotone(f - 1, f);
    assert Pow2(f) == 2 * Pow2(f - 1);
    BitCompare(Shr(child, f - 1), Shr(child, f), Pow2(f - 1));
  }

  lemma {:induction false} WidenTimes(q: nat, l: nat)
    ensures Widen(q, l) == q * Pow2(l)
    decreases l
  {
    if l > 0 {
      WidenTimes(2 * q, l - 1);
      Double(q, Pow2(l - 1));
      assert (2 * q) * Pow2(l - 1) == 2 * (q * Pow2(l - 1));
    }
  }

  /** What is above bit `f` of a prefix of level `l`. */
  lemma WidenShr(q: nat, l: nat, f: nat)
    requires l <= f
    ensures Shr(Widen(q, l), f) == Shr(q, f - l)
  {
    WidenTimes(q, l);
    ShrShift(q, l);
    ShrShr(Widen(q, l), l, f - l);
  }

  lemma TopBit()
    ensures Shr(WORD_MAX, 63) == 1 && Shr(0, 63) == 0
  {
    Pow2Word();
    assert Pow2(64) == 2 * Pow2(63);
    ShrBound(WORD_MAX, 63);
    ShrZero(63);
  }
}
