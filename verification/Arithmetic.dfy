/** Products, quotients and remainders of natural numbers. */
module Arithmetic {
  lemma MulStep(a: nat, n: nat)
    requires a > 0
    ensures a * n == (a - 1) * n + n
  {
  }

  lemma {:induction false} MulMono(a: nat, b: nat, n: nat)
    requires a < b
    ensures a * n + n <= b * n
  {
    if a + 1 < b {
      MulMono(a, b - 1, n);
    }
  }

  lemma MulLe(a: nat, b: nat, n: nat)
    requires a <= b
    ensures a * n <= b * n
  {
    if a < b { MulMono(a, b, n); }
  }

  /** A digit and a remainder below the radix are determined by the number they make,
      and the number is in range. */
  lemma Radix(hi: nat, hi': nat, top: nat, n: nat, lo: nat, lo': nat)
    requires lo < n && lo' < n && hi < top
    ensures hi * n + lo < top * n
    ensures hi * n + lo == hi' * n + lo' ==> hi == hi' && lo == lo'
  {
    MulMono(hi, top, n);
    if hi < hi' {
      MulMono(hi, hi', n);
    } else if hi' < hi {
      MulMono(hi', hi, n);
    }
  }

  /** Quotient and remainder are unique. */
  lemma DivUnique(x: nat, n: nat, q: nat, r: nat)
    requires n > 0 && r < n && x == q * n + r
    ensures x / n == q && x % n == r
  {
    Radix(q, x / n, q + 1, n, r, x % n);
  }

  lemma DivMono(a: nat, b: nat, n: nat)
    requires n > 0 && a <= b
    ensures a / n <= b / n
  {
    if a / n > b / n {
      MulLe(b / n + 1, a / n, n);
    }
  }

  lemma DivLess(a: nat, b: nat)
    requires b > 0 && a >= b
    ensures (a - b) / b == a / b - 1
  {
    var (q, r) := (a / b, a % b);
    assert a - b == (q - 1) * b + r;
    DivUnique(a - b, b, q - 1, r);
  }

  lemma ModAdd(x: nat, n: nat)
    requires n > 0
    ensures (x + n) % n == x % n && (x + n) / n == x / n + 1
  {
    MulStep(x / n + 1, n);
    DivUnique(x + n, n, x / n + 1, x % n);
  }

  /** Two numbers with the same remainder are equal or at least `n` apart. */
  lemma ModGap(x: nat, y: nat, n: nat)
    requires n > 0 && x < y && x % n == y % n
    ensures x + n <= y
  {
    var (q, p) := (x / n, y / n);
    if p <= q {
      MulLe(p, q, n);
    } else {
      MulMono(q, p, n);
    }
  }

  /** The remainder of a number below twice the divisor. */
  lemma Below2(x: nat, n: nat)
    requires n > 0 && x < 2 * n
    ensures x % n == if x < n then x else x - n
  {
    if x < n {
      DivUnique(x, n, 0, x);
    } else {
      DivUnique(x, n, 1, x - n);
    }
  }

  /** Rows of one-shot pages: how the row of a page number changes when the number grows by one. */
  lemma RowStep(x: nat, n: nat)
    requires n > 0
    ensures (x + 1) % n != 0 ==> (x + 1) / n == x / n && x % n + 1 < n
    ensures (x + 1) % n == 0 ==> x % n == n - 1 && x + 1 >= n && (x + 1 - n) / n == x / n && (x + 1) / n == x / n + 1
    ensures (x + 1) % n == 0 ==> (x + 1 - n) % n == 0
  {
    var (q, r) := (x / n, x % n);
    if r + 1 < n {
      DivUnique(x + 1, n, q, r + 1);
    } else {
      MulStep(q + 1, n);
      DivUnique(x + 1, n, q + 1, 0);
      DivUnique(x + 1 - n, n, q, 0);
    }
  }

  lemma NextInRow(a: nat, n: nat)
    requires n > 0
    ensures (a + 1) % n == if a % n + 1 == n then 0 else a % n + 1
  {
    RowStep(a, n);
    var (q, r) := (a / n, a % n);
    if r + 1 < n {
      assert a + 1 == q * n + (r + 1);
      DivUnique(a + 1, n, q, r + 1);
    }
  }

  /** Two page numbers of one row: the later one is not the first of its row,
      and nothing of the row comes after its last number. */
  lemma SameRow(x: nat, y: nat, n: nat)
    requires n > 0 && x / n == y / n
    ensures y % n == 0 ==> x >= y
    ensures y % n == n - 1 ==> x <= y
  {
  }

  lemma RowUp(s: nat, q: nat, i: nat, parts: nat)
    requires i < parts && s == q * parts + parts + i
    ensures s % parts == i
  {
    MulStep(q + 1, parts);
    DivUnique(s, parts, q + 1, i);
  }

  /** Division that rounds up. */
  function CeilDiv(a: nat, b: nat): nat
    requires b > 0
  {
    (a + b - 1) / b
  }

  lemma CeilCovers(a: nat, b: nat)
    requires b > 0
    ensures CeilDiv(a, b) * b >= a
    ensures a > 0 ==> CeilDiv(a, b) > 0
  {
    var x := a + b - 1;
    assert x == x / b * b + x % b;
  }
}
