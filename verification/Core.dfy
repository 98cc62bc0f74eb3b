/** Result types shared by every module, and the few facts about powers and remainders they rest on. */
module Wrappers {

  datatype Option<+T> = None | Some(value: T)

  /** Stands for a JavaScript call that either returns a value or throws. */
  datatype Result<+T, +E> = Ok(value: T) | Err(error: E)
}

module Arith {

  function Pow(b: int, n: nat): int {
    if n == 0 then 1 else b * Pow(b, n - 1)
  }

  lemma {:induction false} PowAdd(b: int, m: nat, n: nat)
    ensures Pow(b, m + n) == Pow(b, m) * Pow(b, n)
  {
    if m > 0 {
      PowAdd(b, m - 1, n);
      assert b * (Pow(b, m - 1) * Pow(b, n)) == (b * Pow(b, m - 1)) * Pow(b, n);
    }
  }

  lemma {:induction false} PowMul(b: int, m: nat, n: nat)
    ensures m * n >= 0 && Pow(b, m * n) == Pow(Pow(b, m), n)
  {
    if n > 0 {
      PowMul(b, m, n - 1);
      assert m * n == m + m * (n - 1);
      PowAdd(b, m, m * (n - 1));
    }
  }

  lemma {:induction false} PowPositive(b: int, n: nat)
    requires b > 0
    ensures Pow(b, n) > 0
  {
    if n > 0 { PowPositive(b, n - 1); }
  }

  lemma {:induction false} PowMonotone(b: int, m: nat, n: nat)
    requires b > 1 && m < n
    ensures b * Pow(b, m) <= Pow(b, n)
    decreases n
  {
    if m == n - 1 {
    } else {
      PowMonotone(b, m, n - 1);
      PowPositive(b, n - 1);
      assert b * Pow(b, n - 1) >= Pow(b, n - 1);
    }
  }

  /** Quotient and remainder are the only decomposition of x by m. */
  lemma DivModUnique(x: int, m: int, q: int, r: int)
    requires m > 0 && 0 <= r < m && x == m * q + r
    ensures x / m == q && x % m == r
  {
    var e := q - x / m;
    assert m * e == x % m - r by { assert x == m * (x / m) + x % m; }
    assert e >= 1 ==> m * e >= m;
    assert e <= -1 ==> m * e <= -m;
  }

  lemma MultipleMod(k: int, m: int)
    requires m > 0
    ensures (m * k) % m == 0 && (k * m) % m == 0 && (m * k) / m == k
  {
    DivModUnique(m * k, m, k, 0);
  }

  lemma ModMultiple(x: int, k: int, m: int)
    requires m > 0 && x % m == 0
    ensures (k * x) % m == 0 && (x * k) % m == 0
  {
    var q := x / m;
    assert k * x == m * (q * k);
    assert x * k == k * x;
    MultipleMod(q * k, m);
  }

  lemma ModSum(x: int, y: int, m: int)
    requires m > 0 && x % m == 0 && y % m == 0
    ensures (x + y) % m == 0 && (x - y) % m == 0
  {
    var p, q := x / m, y / m;
    assert x + y == m * (p + q) && x - y == m * (p - q);
    MultipleMod(p + q, m);
    MultipleMod(p - q, m);
  }

  /** Two numbers have the same remainder exactly when m divides their difference. */
  lemma SameMod(x: int, y: int, m: int)
    requires m > 0
    ensures x % m == y % m <==> (x - y) % m == 0
  {
    var p, q := x / m, y / m;
    assert x - y == m * (p - q) + (x % m - y % m);
    if x % m == y % m {
      MultipleMod(p - q, m);
    } else if x % m > y % m {
      DivModUnique(x - y, m, p - q, x % m - y % m);
    } else {
      assert x - y == m * (p - q - 1) + (m + x % m - y % m);
      DivModUnique(x - y, m, p - q - 1, m + x % m - y % m);
    }
  }

  lemma ScaledMod(a: int, m: int, t: int)
    requires a > 0 && m > 0
    ensures a * m > 0 && ((a * t) % (a * m) == 0 <==> t % m == 0)
  {
    var q, r := t / m, t % m;
    assert t == m * q + r;
    assert 0 <= a * r < a * m;
    assert a * t == (a * m) * q + a * r by { assert a * (m * q) == (a * m) * q; }
    DivModUnique(a * t, a * m, q, a * r);
  }
}
