/** The few facts about multiplication and division the proofs need. */
module Arith {

  lemma MulMono(a: int, b: int, c: int)
    requires a <= b && c >= 0
    ensures a * c <= b * c
  {
    assert (b - a) * c >= 0;
  }

  lemma DivUnique(t: int, d: int, q: int)
    requires d > 0
    ensures q * d <= t < q * d + d ==> t / d == q
  {
    var p := t / d;
    assert t == p * d + t % d;
    if p < q {
      MulMono(p + 1, q, d);
      assert (p + 1) * d == p * d + d;
    } else if p > q {
      MulMono(q + 1, p, d);
      assert (q + 1) * d == q * d + d;
    }
  }

  lemma DivModUnique(t: int, d: int, q: int, r: int)
    requires d > 0 && 0 <= r < d && t == q * d + r
    ensures t / d == q && t % d == r
  {
    DivUnique(t, d, q);
    assert t == (t / d) * d + t % d;
  }

  lemma DivMono(s: int, t: int, d: int)
    requires d > 0
    ensures s <= t ==> s / d <= t / d
  {
    var p, q := s / d, t / d;
    assert s == p * d + s % d && t == q * d + t % d;
    if q + 1 <= p {
      MulMono(q + 1, p, d);
      assert (q + 1) * d == q * d + d;
    }
  }
}
