/** Products of integers: the few steps the solver should not have to search for. */
module Products {

  lemma MulMonotone(a: int, b: int, c: nat)
    requires a <= b
    ensures a * c <= b * c
  {
  }

  lemma MulAssoc(a: int, b: int, c: int)
    ensures a * (b * c) == (a * b) * c
  {
  }

  lemma MulSwap(a: int, b: int, c: int)
    ensures a * (b * c) == (a * c) * b
  {
  }

  lemma MulSum(a: int, b: int, c: int)
    ensures (a + b) * c == a * c + b * c
  {
  }

  lemma CancelOrder(a: int, b: int, c: nat)
    requires a * c < b * c
    ensures a < b
  {
    if b <= a {
      MulMonotone(b, a, c);
    }
  }

  lemma CancelRight(a: int, b: int, c: nat)
    requires c > 0 && a * c == b * c
    ensures a == b
  {
    if a < b {
      MulMonotone(a + 1, b, c);
      MulSum(a, 1, c);
    } else if b < a {
      MulMonotone(b + 1, a, c);
      MulSum(b, 1, c);
    }
  }

  lemma MultipleMod(q: nat, p: nat)
    requires p > 0
    ensures (q * p) % p == 0
  {
    var d, r := (q * p) / p, (q * p) % p;
    assert q * p == d * p + r;
    MulSum(q - d, d, p);
    if q - d > 0 {
      MulMonotone(1, q - d, p);
    } else if q - d < 0 {
      MulMonotone(q - d, -1, p);
    }
  }

  lemma DivModUnique(w: nat, m: nat, q: nat, r: nat)
    requires m > 0 && w == q * m + r && r < m
    ensures w % m == r && w / m == q
  {
    var q', r' := w / m, w % m;
    assert w == q' * m + r';
    if q' < q {
      MulMonotone(q' + 1, q, m);
      MulSum(q', 1, m);
    } else if q < q' {
      MulMonotone(q + 1, q', m);
      MulSum(q, 1, m);
    }
  }

  /** Quotient of naturals. */
  function Quotient(w: nat, m: nat): (q: nat)
    requires m > 0
    ensures q * m <= w < q * m + m
  {
    w / m
  }

  lemma ScaleBounds(v: nat, u: nat, c: nat, b: nat, d: nat, p: nat)
    requires v * u + c < b && c < 9 * d && p > 0
    ensures v * (u * p) + c * p < b * p
    ensures c * p < 9 * (d * p)
  {
    MulAssoc(v, u, p);
    MulSum(v * u, c, p);
    MulMonotone(v * u + c + 1, b, p);
    MulSum(v * u + c, 1, p);
    MulMonotone(c + 1, 9 * d, p);
    MulSum(c, 1, p);
    MulAssoc(9, d, p);
  }
}
