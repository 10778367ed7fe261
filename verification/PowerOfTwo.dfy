/** `pow2gt`: the smallest power of two that is not below a number, by smearing its highest bit (wifi/cJSON.c:118). */
module PowerOfTwo {
  /** Bitwise or of natural numbers. */
  function Or(a: nat, b: nat): (r: nat)
    ensures r >= a && r >= b
  {
    if a == 0 then b else if b == 0 then a
    else 2 * Or(a / 2, b / 2) + if a % 2 == 1 || b % 2 == 1 then 1 else 0
  }

  function Shr(x: nat, k: nat): (r: nat)
    ensures r <= x
  {
    if k == 0 then x else Shr(x / 2, k - 1)
  }

  function Smear(x: nat, k: nat): (r: nat)
    ensures r >= x
  {
    Or(x, Shr(x, k))
  }

  function Pow2Gt(x: nat): (r: nat)
    requires x > 0
    ensures r >= x
  {
    Smear(Smear(Smear(Smear(Smear(x - 1, 1), 2), 4), 8), 16) + 1
  }

  // ----- The result is a power of two, and the smallest one -----

  function Pow2(n: nat): (r: nat)
    ensures r > 0
  {
    if n == 0 then 1 else 2 * Pow2(n - 1)
  }

  function BitLen(x: nat): nat {
    if x == 0 then 0 else 1 + BitLen(x / 2)
  }

  /** The `k` highest bits of `x`, or all if there are fewer, are ones. */
  predicate Filled(x: nat, k: nat) {
    if BitLen(x) <= k then x == Pow2(BitLen(x)) - 1 else x > 0 && Filled(x / 2, k)
  }

  lemma {:induction false} OrLen(a: nat, b: nat)
    ensures BitLen(Or(a, b)) == if BitLen(a) < BitLen(b) then BitLen(b) else BitLen(a)
  {
    if a != 0 && b != 0 {
      OrLen(a / 2, b / 2);
    }
  }

  lemma {:induction false} ShrFacts(x: nat, k: nat)
    ensures Shr(x / 2, k) == Shr(x, k) / 2
    ensures BitLen(Shr(x, k)) == if BitLen(x) < k then 0 else BitLen(x) - k
    decreases k
  {
    if k > 0 {
      ShrFacts(x / 2, k - 1);
    }
  }

  lemma {:induction false} HighBit(x: nat, k: nat, j: nat)
    requires Filled(x, k) && BitLen(x) - k <= j < BitLen(x)
    ensures Shr(x, j) % 2 == 1
    decreases j
  {
    if j > 0 {
      HighBit(x / 2, k, j - 1);
    }
  }

  lemma {:induction false} AllOnes(x: nat, k: nat)
    requires Filled(x, k) && BitLen(x) <= 2 * k
    ensures Smear(x, k) == Pow2(BitLen(x)) - 1
  {
    ShrFacts(x, k);
    if x != 0 && Shr(x, k) != 0 {
      AllOnes(x / 2, k);
      HighBit(x, k, k);
    }
  }

  /** One smearing step doubles the number of high bits known to be ones. */
  lemma {:induction false} SmearDoubles(x: nat, k: nat)
    requires Filled(x, k) && k > 0
    ensures Filled(Smear(x, k), 2 * k) && BitLen(Smear(x, k)) == BitLen(x)
  {
    ShrFacts(x, k);
    OrLen(x, Shr(x, k));
    if BitLen(x) <= 2 * k {
      AllOnes(x, k);
    } else {
      SmearDoubles(x / 2, k);
      assert Smear(x, k) / 2 == Smear(x / 2, k);
    }
  }

  lemma {:induction false} FilledOne(x: nat)
    ensures Filled(x, 1)
  {
    if x > 1 {
      FilledOne(x / 2);
    }
  }

  lemma {:induction false} BitLenBounds(x: nat)
    ensures x < Pow2(BitLen(x)) && (x > 0 ==> Pow2(BitLen(x)) <= 2 * x)
  {
    if x > 0 {
      BitLenBounds(x / 2);
    }
  }

  lemma {:induction false} BitLenBelow(x: nat, n: nat)
    requires x < Pow2(n)
    ensures BitLen(x) <= n
  {
    if x > 0 {
      BitLenBelow(x / 2, n - 1);
    }
  }

  /** For every size a C `int` can hold, `pow2gt` gives a power of two that is at least `x` and less than twice `x`. */
  lemma Pow2GtIsLeastPower(x: nat)
    requires 0 < x <= Pow2(32)
    ensures Pow2Gt(x) == Pow2(BitLen(x - 1)) && x <= Pow2Gt(x)
    ensures x > 1 ==> Pow2Gt(x) < 2 * x
  {
    var a := x - 1;
    var b := Smear(a, 1);
    var c := Smear(b, 2);
    var d := Smear(c, 4);
    var e := Smear(d, 8);
    FilledOne(a);
    SmearDoubles(a, 1);
    SmearDoubles(b, 2);
    SmearDoubles(c, 4);
    SmearDoubles(d, 8);
    BitLenBelow(a, 32);
    AllOnes(e, 16);
    BitLenBounds(a);
  }
}
