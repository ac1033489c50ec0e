/** Powers of two and the logarithm to the base two, in whole numbers. */
module Powers {
  function Pow2(n: nat): nat {
    if n == 0 then 1 else 2 * Pow2(n - 1)
  }

  lemma {:induction false} Pow2Add(a: nat, b: nat)
    ensures Pow2(a + b) == Pow2(a) * Pow2(b)
  {
    if a > 0 { Pow2Add(a - 1, b); }
  }

  lemma {:induction false} Pow2Monotone(a: nat, b: nat)
    requires a <= b
    ensures Pow2(a) <= Pow2(b)
  {
    if a < b { Pow2Monotone(a, b - 1); }
  }

  lemma SmallerPower(a: nat, b: nat)
    requires Pow2(a) < Pow2(b)
    ensures a < b
  {
    if b <= a { Pow2Monotone(b, a); }
  }

  lemma SquareMonotone(x: nat, y: nat)
    requires x <= y
    ensures x * x <= y * y
  {
    assert x * x <= x * y <= y * y;
  }

  // ---------- The logarithm ----------

  ghost predicate IsLog(k: nat, n: nat) {
    Pow2(k) <= n < Pow2(k + 1)
  }

  /** The logarithm to the base two, rounded down; 0 for 0. */
  ghost function Log2(n: nat): nat {
    if n == 0 then 0
    else
      LogExists(n);
      var k: nat :| IsLog(k, n);
      k
  }

  lemma {:induction false} LogExists(n: nat)
    requires n > 0
    ensures exists k: nat :: IsLog(k, n)
  {
    if n == 1 {
      assert IsLog(0, 1);
    } else {
      LogExists(n - 1);
      var k: nat :| IsLog(k, n - 1);
      assert IsLog(k, n) || IsLog(k + 1, n);
    }
  }

  lemma LogIs(n: nat)
    requires n > 0
    ensures IsLog(Log2(n), n)
  {
    LogExists(n);
  }

  lemma LogMonotone(a: nat, b: nat)
    requires a <= b
    ensures Log2(a) <= Log2(b)
  {
    if a > 0 {
      LogIs(a);
      LogIs(b);
      SmallerPower(Log2(a), Log2(b) + 1);
    }
  }

  /** Two numbers that are not 0 cannot both have the logarithm of their sum. */
  lemma LogOfSum(a: nat, b: nat, n: nat)
    requires a > 0 && b > 0 && a + b <= n
    ensures Log2(a) < Log2(n) || Log2(b) < Log2(n)
  {
    LogIs(a);
    LogIs(b);
    LogIs(n);
    LogMonotone(a, n);
    LogMonotone(b, n);
  }

  /** The logarithm is the largest exponent that fits. */
  lemma LogIsLargest(k: nat, n: nat)
    requires Pow2(k) <= n
    ensures k <= Log2(n)
  {
    Pow2Monotone(0, k);
    LogIs(n);
    SmallerPower(k, Log2(n) + 1);
  }
}
