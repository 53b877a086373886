/** Division by a size that is not a literal. */
module Division {

  lemma MulAtLeast(a: int, size: nat)
    requires a >= 1
    ensures a * size >= size
  {
    assert a * size == (a - 1) * size + size;
    assert (a - 1) * size >= 0;
  }

  /** Quotient and remainder are unique. */
  lemma DivMod(size: nat, g: nat, i: nat)
    requires i < size
    ensures (g * size + i) / size == g && (g * size + i) % size == i
  {
    var x := g * size + i;
    var q, r := x / size, x % size;
    assert x == q * size + r;
    assert (g - q) * size == g * size - q * size;
    assert (q - g) * size == q * size - g * size;
    if q < g {
      MulAtLeast(g - q, size);
    } else if q > g {
      MulAtLeast(q - g, size);
    }
  }

  lemma DivModBack(size: nat, n: nat)
    requires size > 0
    ensures n / size * size + n % size == n && 0 <= n % size < size && n / size >= 0
  {}

  lemma MulMono(a: nat, b: nat, size: nat)
    requires a <= b
    ensures a * size <= b * size
  {
    assert (b - a) * size >= 0;
    assert (b - a) * size == b * size - a * size;
  }

  lemma SignOfProduct(a: int, size: nat)
    requires a * size < 0
    ensures a < 0
  {}

  lemma DivBelow(size: nat, g: nat, n: nat)
    requires size > 0 && n < (g + 1) * size
    ensures n / size <= g
  {
    DivModBack(size, n);
    assert (n / size - (g + 1)) * size == n / size * size - (g + 1) * size;
    SignOfProduct(n / size - (g + 1), size);
  }

  /** A number below `g * size + i` is in an earlier row, or earlier in row `g`. */
  lemma BelowPair(size: nat, g: nat, i: nat, n: nat)
    requires 0 < size && i <= size && n < g * size + i
    ensures n / size < g || (n / size == g && n % size < i)
  {
    assert (g + 1) * size == g * size + size;
    DivBelow(size, g, n);
    DivModBack(size, n);
  }

  lemma RoundedUp(size: nat, n: nat)
    requires 0 < size && 0 < n
    ensures var q := (n + size - 1) / size; 0 < q && (q - 1) * size < n <= q * size
  {
    var x := n + size - 1;
    var q := x / size;
    DivModBack(size, x);
    assert (q - 1) * size == q * size - size;
    assert q == 0 ==> q * size == 0;
  }

  lemma DivMono(size: nat, m: nat, n: nat)
    requires size > 0 && m <= n
    ensures m / size <= n / size
  {
    DivModBack(size, n);
    assert (n / size + 1) * size == n / size * size + size;
    DivBelow(size, n / size, m);
  }

  lemma Ceiling(size: nat, n: nat)
    requires size > 0 && n > 0
    ensures (n + size - 1) / size == (n - 1) / size + 1
  {
    var q, r := (n - 1) / size, (n - 1) % size;
    DivModBack(size, n - 1);
    assert (q + 1) * size == q * size + size;
    DivMod(size, q + 1, r);
  }

  lemma CeilingZero(size: nat)
    requires size > 0
    ensures (0 + size - 1) / size == 0
  {
    assert 0 * size == 0;
    DivMod(size, 0, size - 1);
  }

  /** Positions that do not leave the block of `pos`. */
  lemma SameBlock(size: nat, pos: nat, i: nat)
    requires size > 0 && pos % size + i < size
    ensures (pos + i) / size == pos / size && (pos + i) % size == pos % size + i
  {
    DivModBack(size, pos);
    DivMod(size, pos / size, pos % size + i);
  }
}
