/** The few facts about multiplication and division that the time wheel, the node chain and the round
    robin of the server need. */
module Arithmetic {
  lemma DivModUnique(x: int, n: int, q: int, r: int)
    requires 0 <= r < n && x == q * n + r
    ensures x / n == q && x % n == r
  {
    var d := q - x / n;
    assert d * n == x % n - r;
    assert d >= 1 ==> d * n >= n;
    assert d <= -1 ==> d * n <= -n;
  }

  lemma ModAdd(a: nat, b: nat, n: nat)
    requires n > 0
    ensures (a + b) % n == (a % n + b) % n
  {
    var c := a % n + b;
    assert a + b == (a / n) * n + (c / n) * n + c % n;
    assert (a / n) * n + (c / n) * n == (a / n + c / n) * n;
    DivModUnique(a + b, n, a / n + c / n, c % n);
  }

  lemma AddTurns(a: nat, r: nat, n: nat)
    requires a < n && r % n == 0
    ensures (a + r) % n == a
  {
    DivModUnique(a + r, n, r / n, a);
  }

  lemma Distribute(n: nat, m: nat, g: nat)
    ensures (n + m) * g == n * g + m * g
  {
  }

  lemma Multiple(n: nat, g: nat)
    ensures n * g >= 0
  {
  }

  lemma Less(n: nat, m: nat, g: nat)
    requires n * g < m * g
    ensures n < m
  {
    assert n >= m ==> n * g >= m * g;
  }

  lemma Quotient(n: nat, rest: nat, g: nat)
    requires g > 0
    ensures n <= (n * g + rest) / g
    ensures n == (n * g + rest) / g <==> rest < g
  {
    Distribute(n, rest / g, g);
    DivModUnique(n * g + rest, g, n + rest / g, rest % g);
    assert rest == (rest / g) * g + rest % g;
    assert rest >= g ==> rest / g >= 1;
  }

  /** A product under a name, so that a proof can hide it. */
  function Times(n: nat, m: nat): nat {
    n * m
  }

  lemma TimesAdd(n: nat, m: nat, g: nat)
    ensures Times(n + m, g) == Times(n, g) + Times(m, g)
    ensures Times(0, g) == 0 && Times(1, g) == g
  {
  }

  /** Quotient and remainder under names, so that a proof can hide them. */
  function Quot(pos: nat, base: nat): nat
    requires base > 0
  {
    pos / base
  }

  function Rem(pos: nat, base: nat): (r: nat)
    requires base > 0
    ensures r < base
  {
    pos % base
  }

  lemma QuotRem(pos: nat, base: nat)
    requires base > 0
    ensures pos == Times(Quot(pos, base), base) + Rem(pos, base)
  {
  }

  lemma QuotUnique(pos: nat, base: nat, q: nat, r: nat)
    requires r < base && pos == Times(q, base) + r
    ensures Quot(pos, base) == q && Rem(pos, base) == r
  {
    DivModUnique(pos, base, q, r);
  }

  lemma TimesMono(q: nat, w: nat, g: nat)
    requires q <= w
    ensures Times(q, g) <= Times(w, g)
  {
    Distribute(q, w - q, g);
    Multiple(w - q, g);
  }
}
