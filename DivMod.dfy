/** Facts about Dafny's `/` and `%` on non-negative integers with a positive
    divisor. JavaScript's `~~(x / d)` and `x % d` agree with them on such
    operands, which is all the helpers in this project ever see. */
module DivMod {

  /** The quotient and remainder are the only pair that rebuild `x`. */
  lemma DivModUnique(x: int, d: int, q: int, r: int)
    requires 0 < d && 0 <= r < d && x == q * d + r
    ensures x / d == q && x % d == r
  {
    var q', r' := x / d, x % d;
    assert x == q' * d + r';
    if q' < q {
      assert (q - q') * d >= d by { MulAtLeast(q - q', d); }
      assert false;
    } else if q < q' {
      assert (q' - q) * d >= d by { MulAtLeast(q' - q, d); }
      assert false;
    }
  }

  lemma MulAtLeast(k: int, d: int)
    requires 1 <= k && 0 < d
    ensures k * d >= d
  {
  }

  /** Adding one divisor moves to the next quotient and keeps the remainder. */
  lemma DivModStep(x: nat, d: nat)
    requires 0 < d
    ensures (x + d) / d == x / d + 1 && (x + d) % d == x % d
  {
    DivModUnique(x + d, d, x / d + 1, x % d);
  }

  /** A number below the divisor is its own remainder. */
  lemma DivModSmall(x: nat, d: nat)
    requires x < d
    ensures x / d == 0 && x % d == x
  {
    DivModUnique(x, d, 0, x);
  }

  /** A multiple of the divisor leaves no remainder. */
  lemma DivModMultiple(k: nat, d: nat)
    requires 0 < d
    ensures (k * d) / d == k && (k * d) % d == 0
  {
    DivModUnique(k * d, d, k, 0);
  }

  /** Rounding up: `(x + d - 1) / d` is the number of d-sized chunks that
      hold x items, one more than `x / d` exactly when a partial chunk is left. */
  lemma CeilDiv(x: nat, d: nat)
    requires 0 < d
    ensures x % d == 0 ==> (x + d - 1) / d == x / d
    ensures x % d != 0 ==> (x + d - 1) / d == x / d + 1
  {
    if x % d == 0 {
      DivModUnique(x + d - 1, d, x / d, d - 1);
    } else {
      DivModUnique(x + d - 1, d, x / d + 1, x % d - 1);
    }
  }

  /** The quotient rounds down: `x` lies in `[q * d, q * d + d)`. */
  lemma DivBounds(x: nat, d: nat)
    requires 0 < d
    ensures (x / d) * d <= x < (x / d) * d + d
  {
  }

  /** Multiplying by a natural number keeps the order. */
  lemma MulMonotone(x: nat, y: nat, z: nat)
    requires x <= y
    ensures x * z <= y * z
  {
  }

  /** One more factor adds the multiplier once. */
  lemma MulSucc(x: nat, z: nat)
    ensures (x + 1) * z == x * z + z
  {
  }
}
