/**
 * Multiplication and division by a symbolic size, as repeated addition and subtraction.
 * Specifications use Times, Quot and Rest, which stay linear; AsProduct and AsQuotient tie them to * / and %.
 */
module Arith {

  function Times(q: nat, n: nat): nat
  {
    if q == 0 then 0 else Times(q - 1, n) + n
  }

  function Quot(x: nat, n: nat): nat
    requires n > 0
  {
    if x < n then 0 else Quot(x - n, n) + 1
  }

  function Rest(x: nat, n: nat): (r: nat)
    requires n > 0
    ensures r < n
  {
    if x < n then x else Rest(x - n, n)
  }

  lemma {:induction false} AsProduct(q: nat, n: nat)
    ensures Times(q, n) == q * n
  {
    if q > 0 {
      AsProduct(q - 1, n);
      assert q * n == (q - 1) * n + n;
    }
  }

  /** The machine's product of two unsigned numbers. */
  method Product(a: nat, b: nat) returns (r: nat)
    ensures r == Times(a, b) == Times(b, a)
  {
    AsProduct(a, b);
    AsProduct(b, a);
    r := a * b;
  }

  lemma {:induction false} QuotRest(x: nat, n: nat)
    requires n > 0
    ensures Times(Quot(x, n), n) + Rest(x, n) == x
  {
    if x >= n {
      QuotRest(x - n, n);
    }
  }

  lemma {:induction false} QuotRestOf(q: nat, r: nat, n: nat)
    requires r < n
    ensures Quot(Times(q, n) + r, n) == q && Rest(Times(q, n) + r, n) == r
  {
    if q > 0 {
      QuotRestOf(q - 1, r, n);
    }
  }

  lemma {:induction false} TimesMono(a: nat, b: nat, n: nat)
    requires a <= b
    ensures Times(a, n) <= Times(b, n)
    decreases b
  {
    if a < b {
      TimesMono(a, b - 1, n);
    }
  }

  lemma TimesOrder(a: nat, b: nat, n: nat)
    requires Times(a, n) < Times(b, n)
    ensures a < b
  {
    if b <= a {
      TimesMono(b, a, n);
    }
  }

  lemma {:induction false} TimesAdd(a: nat, b: nat, n: nat)
    ensures Times(a + b, n) == Times(a, n) + Times(b, n)
    decreases b
  {
    if b > 0 {
      TimesAdd(a, b - 1, n);
    }
  }

  /** A quotient and a remainder below the divisor are the only ones. */
  lemma {:induction false} Unique(n: nat, q: nat, r: nat, p: nat, s: nat)
    requires r < n && s < n && Times(q, n) + r == Times(p, n) + s
    ensures q == p && r == s
  {
    if q > 0 && p > 0 {
      Unique(n, q - 1, r, p - 1, s);
    }
  }

  lemma Euclid(x: nat, n: nat)
    requires n > 0
    ensures x == Times(x / n, n) + x % n
  {
    AsProduct(x / n, n);
  }

  lemma AsQuotient(x: nat, n: nat)
    requires n > 0
    ensures x / n == Quot(x, n) && x % n == Rest(x, n)
  {
    Euclid(x, n);
    QuotRest(x, n);
    Unique(n, x / n, x % n, Quot(x, n), Rest(x, n));
  }

  /** The machine's quotient of two unsigned numbers. */
  method Quotient(x: nat, n: nat) returns (q: nat)
    requires n > 0
    ensures q == Quot(x, n)
  {
    AsQuotient(x, n);
    q := x / n;
  }

  // ---- rounding to a multiple -------------------------------------------

  function Down(x: nat, n: nat): (r: nat)
    requires n > 0
    ensures r <= x < r + n
  {
    QuotRest(x, n);
    Times(Quot(x, n), n)
  }

  function Up(x: nat, n: nat): (r: nat)
    requires n > 0
    ensures x <= r < x + n
  {
    Down(x + n - 1, n)
  }

  lemma AsRounding(x: nat, n: nat)
    requires n > 0
    ensures x / n * n == Down(x, n)
  {
    AsQuotient(x, n);
    AsProduct(x / n, n);
  }

  lemma Multiple(q: nat, n: nat)
    requires n > 0
    ensures Times(q, n) % n == 0 && Down(Times(q, n), n) == Times(q, n) && Quot(Times(q, n), n) == q
  {
    QuotRestOf(q, 0, n);
    AsQuotient(Times(q, n), n);
  }

  lemma IsMultiple(x: nat, n: nat)
    requires n > 0
    ensures x % n == 0 <==> x == Down(x, n)
  {
    QuotRest(x, n);
    AsQuotient(x, n);
  }

  /** Rounding up never passes a multiple that is already at or above x. */
  lemma UpBelow(x: nat, n: nat, q: nat)
    requires n > 0 && x <= Times(q, n)
    ensures Up(x, n) <= Times(q, n)
  {
    var p := Quot(x + n - 1, n);
    assert Up(x, n) == Times(p, n) && Times(q + 1, n) == Times(q, n) + n;
    TimesOrder(p, q + 1, n);
    TimesMono(p, q, n);
  }

  function Min(a: nat, b: nat): nat { if a < b then a else b }

  function Pow(b: nat, k: nat): (p: nat)
    ensures b > 0 ==> p > 0
  {
    if k == 0 then 1 else b * Pow(b, k - 1)
  }
}
