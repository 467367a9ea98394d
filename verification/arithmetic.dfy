/**
 Quotient and remainder facts for Python's `//` and `%` on naturals, which
 agree with Dafny's Euclidean `/` and `%` there. Kept apart from the other
 modules so that no unrelated definitions are in scope of these nonlinear
 proofs.
 */
module Arithmetic {

  /** The quotient and remainder of `a` by `L` are the unique `q`, `r` with
      `a == q * L + r` and `0 <= r < L`. */
  lemma DivModUnique(a: nat, L: nat, q: nat, r: nat)
    requires L > 0 && r < L && a == q * L + r
    ensures a / L == q && a % L == r
  {
    var q' := a / L;
    var r' := a % L;
    assert a == q' * L + r';
    if q' < q {
      MulStep(q', q, L);
      assert false;
    } else if q' > q {
      MulStep(q, q', L);
      assert false;
    }
  }

  /** A larger multiplier adds at least one more `L`. */
  lemma {:induction false} MulStep(a: nat, b: nat, L: nat)
    requires a < b
    ensures a * L + L <= b * L
    decreases b
  {
    assert b * L == (b - 1) * L + L;
    if a + 1 < b {
      MulStep(a, b - 1, L);
    }
  }

  /** Adding `L` keeps the remainder and adds one to the quotient. */
  lemma NextCycle(slot: nat, L: nat)
    requires L > 0
    ensures (slot + L) % L == slot % L
    ensures (slot + L) / L == slot / L + 1
  {
    var q := slot / L;
    var r := slot % L;
    assert slot == q * L + r;
    assert slot + L == (q + 1) * L + r;
    DivModUnique(slot + L, L, q + 1, r);
  }

  /** A natural number is determined by its quotient and remainder. */
  lemma QuotientRemainder(a: nat, b: nat, L: nat)
    requires L > 0 && a % L == b % L && a / L == b / L
    ensures a == b
  {
    assert a == (a / L) * L + a % L;
    assert b == (b / L) * L + b % L;
  }
}
