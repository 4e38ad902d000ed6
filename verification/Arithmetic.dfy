/** Division facts that the solver does not find by itself. */
module Arithmetic {
  lemma MultipleOutside(d: int, e: int)
    requires d >= 0
    ensures e >= 1 ==> d * e >= d
    ensures e <= -1 ==> d * e <= -d
  {
    if e >= 1 {
      assert d * e == d * (e - 1) + d;
    } else {
      assert d * e == d * (e + 1) - d;
    }
  }

  lemma DivModUnique(k: int, d: nat, q: int, c: nat)
    requires c < d && k == q * d + c
    ensures k / d == q && k % d == c
  {
    var e := k / d - q;
    assert d * e == c - k % d by {
      assert k == d * (k / d) + k % d;
      assert d * e == d * (k / d) - d * q;
    }
    MultipleOutside(d, e);
  }

  lemma MultipleMod(q: int, d: nat)
    requires d > 0
    ensures q * d % d == 0
  {
    DivModUnique(q * d, d, q, 0);
  }

  lemma Sum8(a: int, b: int)
    requires a % 8 == 0 && b % 8 == 0
    ensures (a + b) % 8 == 0 && (b - a) % 8 == 0
    ensures b - a > 0 ==> b - a >= 8
  {
    var q, r := a / 8, b / 8;
    assert a == 8 * q && b == 8 * r;
    assert a + b == 8 * (q + r) && b - a == 8 * (r - q);
  }

  lemma Shift4(a: int, k: int)
    ensures (a + 4 * k) % 4 == a % 4
    ensures (a + 4 * k) % 2 == a % 2
  {
    SameRest4(a + 4 * k, a, k);
    SameRest2(a + 4 * k, a, 2 * k);
  }

  lemma SameRest4(a: int, b: int, k: int)
    requires a == b + 4 * k
    ensures a % 4 == b % 4
  {
  }

  lemma SameRest2(a: int, b: int, k: int)
    requires a == b + 2 * k
    ensures a % 2 == b % 2
  {
  }
}
