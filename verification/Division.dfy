/** Facts about integer division with positive divisors. */
module Division {

  lemma MulAtLeast(k: int, c: int)
    requires k >= 1 && c >= 1
    ensures k * c >= c
  {
  }

  lemma ModUnique(a: int, c: int, q: int, r: int)
    requires 0 <= r < c && a == q * c + r
    ensures a / c == q && a % c == r
  {
    var q', r' := a / c, a % c;
    assert (q - q') * c == r' - r;
    if q > q' {
      assert (q - q') * c >= c by { MulAtLeast(q - q', c); }
    } else if q < q' {
      assert (q' - q) * c >= c by { MulAtLeast(q' - q, c); }
    }
  }

  lemma ModStep(a: nat, c: nat)
    requires c > 0
    ensures (a + 1) % c == if a % c + 1 < c then a % c + 1 else 0
  {
    var q, r := a / c, a % c;
    assert a == q * c + r;
    if r + 1 < c {
      ModUnique(a + 1, c, q, r + 1);
    } else {
      assert a + 1 == (q + 1) * c;
      ModUnique(a + 1, c, q + 1, 0);
    }
  }

  lemma ModAddIff(a: nat, s: nat, c: nat)
    requires c > 0
    ensures (a + s) % c == a % c <==> s % c == 0
  {
    var q, r := a / c, a % c;
    var q2, r2 := s / c, s % c;
    assert a == q * c + r && s == q2 * c + r2;
    assert a + s == (q + q2) * c + (r + r2);
    if r + r2 < c {
      ModUnique(a + s, c, q + q2, r + r2);
    } else {
      assert a + s == (q + q2 + 1) * c + (r + r2 - c);
      ModUnique(a + s, c, q + q2 + 1, r + r2 - c);
    }
  }
}
