/** Facts about Euclidean quotient and remainder that the cursor proofs rely on. */
module ModArith {

  /** A positive multiple of a positive number is at least that number. */
  lemma MultipleAtLeast(d: int, c: nat)
    requires c > 0 && d >= 1
    ensures d * c >= c
  {}

  /** Quotient and remainder are the only pair that splits `x` this way. */
  lemma Unique(x: int, q: int, r: int, c: nat)
    requires c > 0 && x == q * c + r && 0 <= r < c
    ensures x % c == r && x / c == q
  {
    var q', r' := x / c, x % c;
    assert x == q' * c + r';
    assert (q - q') * c == r' - r;
    if q > q' {
      MultipleAtLeast(q - q', c);
    } else if q < q' {
      MultipleAtLeast(q' - q, c);
    }
  }

  /** Reducing the first summand first gives the same remainder. */
  lemma AddMod(a: nat, b: nat, c: nat)
    requires c > 0
    ensures ((a % c) + b) % c == (a + b) % c
  {
    var q, r := a / c, a % c;
    var q2, r2 := (r + b) / c, (r + b) % c;
    assert a == q * c + r;
    assert r + b == q2 * c + r2;
    assert a + b == (q + q2) * c + r2;
    Unique(a + b, q + q2, r2, c);
  }

  /** A number below twice the modulus loses at most one modulus. */
  lemma Small(x: nat, c: nat)
    requires c > 0 && x < 2 * c
    ensures x % c == if x < c then x else x - c
  {
    if x >= c {
      Unique(x, 1, x - c, c);
    }
  }
}
