/**
 Single bits of natural numbers: what the C operators do when their right operand has
 one bit set.
 */
module Bits {
  function Pow2(n: nat): (p: nat)
    ensures p > 0
  {
    if n == 0 then 1 else 2 * Pow2(n - 1)
  }

  /** (x >> k) & 1 */
  predicate Bit(x: nat, k: nat) {
    if k == 0 then x % 2 == 1 else Bit(x / 2, k - 1)
  }

  /** x | (1 << k) */
  function SetBit(x: nat, k: nat): nat {
    if k == 0 then x / 2 * 2 + 1 else 2 * SetBit(x / 2, k - 1) + x % 2
  }

  /** x & ~(1 << k) */
  function ClearBit(x: nat, k: nat): nat {
    if k == 0 then x / 2 * 2 else 2 * ClearBit(x / 2, k - 1) + x % 2
  }

  lemma Halve(h: nat, b: nat)
    requires b < 2
    ensures (2 * h + b) / 2 == h && (2 * h + b) % 2 == b
  {
  }

  lemma {:induction false} SetOne(x: nat, i: nat, j: nat)
    ensures Bit(SetBit(x, i), j) == (i == j || Bit(x, j))
  {
    if i == 0 {
      Halve(x / 2, 1);
    } else {
      Halve(SetBit(x / 2, i - 1), x % 2);
      if j > 0 { SetOne(x / 2, i - 1, j - 1); }
    }
  }

  lemma {:induction false} ClearOne(x: nat, i: nat, j: nat)
    ensures Bit(ClearBit(x, i), j) == (i != j && Bit(x, j))
  {
    if i == 0 {
      Halve(x / 2, 0);
    } else {
      Halve(ClearBit(x / 2, i - 1), x % 2);
      if j > 0 { ClearOne(x / 2, i - 1, j - 1); }
    }
  }

  lemma {:induction false} Range(x: nat, k: nat, n: nat)
    requires k < n && x < Pow2(n)
    ensures SetBit(x, k) < Pow2(n) && ClearBit(x, k) < Pow2(n)
  {
    var q := Pow2(n - 1);
    assert Pow2(n) == 2 * q;
    HalfBelow(x, q);
    if k > 0 {
      Range(x / 2, k - 1, n - 1);
      TwiceBelow(SetBit(x / 2, k - 1), x % 2, q);
      TwiceBelow(ClearBit(x / 2, k - 1), x % 2, q);
    }
  }

  lemma HalfBelow(x: nat, q: nat)
    requires x < 2 * q
    ensures x / 2 < q && x / 2 * 2 + 1 < 2 * q
  {
  }

  lemma TwiceBelow(y: nat, b: nat, q: nat)
    requires y < q && b < 2
    ensures 2 * y + b < 2 * q
  {
  }

  lemma {:induction false} AllOnes(k: nat, n: nat)
    requires k < n
    ensures Bit(Pow2(n) - 1, k)
  {
    assert (Pow2(n) - 1) / 2 == Pow2(n - 1) - 1;
    if k > 0 {
      AllOnes(k - 1, n - 1);
    }
  }
}
