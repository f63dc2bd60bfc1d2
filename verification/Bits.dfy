/** Bitwise operations on unsigned integers of any width, and what masks mean in ordinary arithmetic. */
module Bits {

  function Pow2(n: nat): (p: nat)
    ensures p > 0
  {
    if n == 0 then 1 else 2 * Pow2(n - 1)
  }

  lemma Pow2Of32()
    ensures Pow2(32) == 0x1_0000_0000
  {
    assert Pow2(8) == 0x100;
    assert Pow2(16) == 0x1_0000;
    assert Pow2(24) == 0x100_0000;
  }

  function And(a: nat, b: nat): nat
    decreases a
  {
    if a == 0 then 0 else (if a % 2 == 1 && b % 2 == 1 then 1 else 0) + 2 * And(a / 2, b / 2)
  }

  function Or(a: nat, b: nat): nat
    decreases a + b
  {
    if a == 0 && b == 0 then 0 else (if a % 2 == 1 || b % 2 == 1 then 1 else 0) + 2 * Or(a / 2, b / 2)
  }

  function Not(a: nat, width: nat): nat
    requires a < Pow2(width)
  {
    Pow2(width) - 1 - a
  }

  lemma {:induction false} Pow2Monotone(a: nat, b: nat)
    requires a <= b
    ensures Pow2(a) <= Pow2(b)
    decreases b
  {
    if a < b {
      Pow2Monotone(a, b - 1);
    }
  }

  /** The start of the block of 2^s consecutive numbers that `a` lies in. */
  function BlockStart(a: nat, s: nat): nat { if s == 0 then a else 2 * BlockStart(a / 2, s - 1) }

  lemma {:induction false} BlockContains(a: nat, s: nat)
    ensures BlockStart(a, s) <= a < BlockStart(a, s) + Pow2(s)
    decreases s
  {
    if s > 0 {
      BlockContains(a / 2, s - 1);
    }
  }

  /** Blocks are aligned: every number of a block has the same start. */
  lemma {:induction false} BlockAligned(a: nat, b: nat, s: nat)
    requires BlockStart(a, s) <= b < BlockStart(a, s) + Pow2(s)
    ensures BlockStart(b, s) == BlockStart(a, s)
    decreases s
  {
    if s > 0 {
      BlockAligned(a / 2, b / 2, s - 1);
    }
  }

  function BlockIndex(a: nat, s: nat): nat { if s == 0 then a else BlockIndex(a / 2, s - 1) }

  lemma {:induction false} BlockIsMultiple(a: nat, s: nat)
    ensures BlockStart(a, s) == BlockIndex(a, s) * Pow2(s)
    decreases s
  {
    if s > 0 {
      BlockIsMultiple(a / 2, s - 1);
      Doubled(BlockIndex(a / 2, s - 1), Pow2(s - 1));
    }
  }

  lemma Doubled(q: nat, p: nat)
    ensures 2 * (q * p) == q * (2 * p)
  {
  }

  /** In ordinary arithmetic: the number less its remainder by the size of the block. */
  lemma BlockStartIsArithmetic(a: nat, s: nat)
    ensures BlockStart(a, s) == a - a % Pow2(s)
  {
    BlockIsMultiple(a, s);
    BlockContains(a, s);
    RemainderIs(a, BlockIndex(a, s), Pow2(s));
  }

  lemma RemainderIs(a: nat, q: nat, p: nat)
    requires p > 0 && q * p <= a < q * p + p
    ensures a % p == a - q * p
  {
    var d := a / p;
    assert a == d * p + a % p;
    if d < q {
      Ordered(d + 1, q, p);
    } else if d > q {
      Ordered(q + 1, d, p);
    }
  }

  lemma Ordered(x: nat, y: nat, p: nat)
    requires x <= y
    ensures x * p <= y * p
  {
  }

  /** Masking off the low `s` bits moves down to the start of the block. */
  lemma {:induction false} MaskIsBlockStart(a: nat, s: nat, width: nat)
    requires s <= width && a < Pow2(width)
    ensures Pow2(s) <= Pow2(width) && And(a, Pow2(width) - Pow2(s)) == BlockStart(a, s)
    decreases width
  {
    Pow2Monotone(s, width);
    if width > 0 && a > 0 {
      var m := Pow2(width) - Pow2(s);
      if s == 0 {
        MaskIsBlockStart(a / 2, 0, width - 1);
        assert m / 2 == Pow2(width - 1) - 1 && m % 2 == 1;
      } else {
        MaskIsBlockStart(a / 2, s - 1, width - 1);
        assert m == 2 * (Pow2(width - 1) - Pow2(s - 1));
      }
    } else {
      ZeroStart(s);
    }
  }

  lemma {:induction false} ZeroStart(s: nat)
    ensures BlockStart(0, s) == 0
  {
    if s > 0 {
      ZeroStart(s - 1);
    }
  }

  /** Setting the low `s` bits of a block's start moves up to its last number. */
  lemma {:induction false} FillIsBlockEnd(a: nat, s: nat)
    ensures Or(BlockStart(a, s), Pow2(s) - 1) == BlockStart(a, s) + Pow2(s) - 1
    decreases s
  {
    if s == 0 {
      OrZero(a);
    } else {
      FillIsBlockEnd(a / 2, s - 1);
      var b, m := BlockStart(a, s), Pow2(s) - 1;
      assert b / 2 == BlockStart(a / 2, s - 1) && b % 2 == 0;
      assert m / 2 == Pow2(s - 1) - 1 && m % 2 == 1;
    }
  }

  lemma {:induction false} OrZero(a: nat)
    ensures Or(a, 0) == a
  {
    if a > 0 {
      OrZero(a / 2);
    }
  }
}
