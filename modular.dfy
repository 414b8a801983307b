/** Integer remainders: the truncating remainder of the source's `%`
    operator and the facts about Euclidean `%` that the rotor arithmetic needs. */
module Modular {

  /** The remainder of `p / n` rounded toward zero, as the source's `%`
      computes it: it takes the sign of `p`. */
  function TruncRem(p: int, n: int): (r: int)
    requires n > 0
    ensures -n < r < n
    ensures p >= 0 ==> r >= 0
    ensures p < 0 ==> r <= 0
  {
    if p >= 0 then p % n else -((-p) % n)
  }

  /** Quotient and remainder are unique. */
  lemma DivModUnique(x: int, n: int, q: int, r: int)
    requires n > 0 && 0 <= r < n && x == n * q + r
    ensures x % n == r && x / n == q
  {
    var d := q - x / n;
    assert n * d == x % n - r;
  }

  /** Adding a multiple of `n` does not change the remainder. */
  lemma ModShift(x: int, n: int, k: int)
    requires n > 0
    ensures (x + n * k) % n == x % n
  {
    DivModUnique(x + n * k, n, x / n + k, x % n);
  }

  /** Reducing one summand first does not change the remainder of a sum. */
  lemma ModAddLeft(x: int, y: int, n: int)
    requires n > 0
    ensures (x % n + y) % n == (x + y) % n
  {
    ModShift(x % n + y, n, x / n);
  }

  /** The truncating remainder, corrected to be non-negative, is the Euclidean remainder. */
  lemma TruncRemCorrected(p: int, n: int)
    requires n > 0
    ensures (if TruncRem(p, n) < 0 then TruncRem(p, n) + n else TruncRem(p, n)) == p % n
  {
    if p < 0 {
      var m := -p;
      var t := m % n;
      var q := m / n;
      assert m == n * q + t;
      if t == 0 {
        DivModUnique(p, n, -q, 0);
      } else {
        DivModUnique(p, n, -q - 1, n - t);
      }
    }
  }
}
