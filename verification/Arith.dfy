/** The few facts about products and quotients with a symbolic factor that the layers above call by name. */
module Arith {

  lemma DivMod(a: nat, c: nat)
    requires 0 < c
    ensures a == a / c * c + a % c && a % c < c
    ensures a / c * c <= a
  {
  }

  lemma MulMono(a: int, b: int, c: nat)
    requires a <= b
    ensures a * c <= b * c
  {
  }

  /** Products of different quotients are at least one factor apart. */
  lemma MulGap(a: int, b: int, c: nat)
    requires a < b
    ensures a * c + c <= b * c
  {
    MulMono(a + 1, b, c);
    assert (a + 1) * c == a * c + c;
  }

  lemma MulAtLeast(q: nat, c: nat)
    requires 0 < c
    ensures q <= q * c
  {
    MulMono(1, c, q);
  }

  /** Quotient and remainder are determined by the division equation. */
  lemma DivUnique(a: nat, c: nat, q: nat, r: nat)
    requires 0 < c && r < c && a == q * c + r
    ensures a / c == q && a % c == r
  {
    DivMod(a, c);
    if a / c < q {
      MulGap(a / c, q, c);
    }
    if q < a / c {
      MulGap(q, a / c, c);
    }
  }

  lemma SameQuotient(a: nat, b: nat, c: nat)
    requires 0 < c && a / c == b / c && a % c == b % c
    ensures a == b
  {
    DivMod(a, c);
    DivMod(b, c);
  }

  lemma DivMono(a: nat, b: nat, c: nat)
    requires 0 < c && a <= b
    ensures a / c <= b / c
  {
    DivMod(a, c);
    DivMod(b, c);
    if b / c < a / c {
      MulGap(b / c, a / c, c);
    }
  }

  /** a / c < n exactly when a < n * c. */
  lemma DivBelow(a: nat, c: nat, n: nat)
    requires 0 < c
    ensures a / c < n <==> a < n * c
  {
    DivMod(a, c);
    if a / c < n {
      MulGap(a / c, n, c);
    } else {
      MulMono(n, a / c, c);
    }
  }

  /** Inside a block, adding j keeps the quotient. */
  lemma DivInside(k: nat, c: nat, j: nat)
    requires 0 < c && k % c + j < c
    ensures (k + j) / c == k / c && (k + j) % c == k % c + j
  {
    DivMod(k, c);
    DivUnique(k + j, c, k / c, k % c + j);
  }

  /** One step forward either stays in the block or starts the next one. */
  lemma DivStep(k: nat, c: nat)
    requires 0 < c
    ensures k % c + 1 < c ==> (k + 1) / c == k / c && (k + 1) % c == k % c + 1
    ensures k % c + 1 == c ==> (k + 1) / c == k / c + 1 && (k + 1) % c == 0
    ensures k % c < c
  {
    DivMod(k, c);
    if k % c + 1 < c {
      DivInside(k, c, 1);
    } else {
      assert (k / c + 1) * c == k / c * c + c;
      DivUnique(k + 1, c, k / c + 1, 0);
    }
  }

  /** Dividing by k and then by c is dividing by c * k: bytes, sectors and clusters, or slots, sectors and clusters. */
  lemma DivTwice(a: nat, k: nat, c: nat)
    requires 0 < k && 0 < c
    ensures a / k / c == a / (c * k)
    ensures a % (c * k) == a / k % c * k + a % k
  {
    var n := a / k;
    DivMod(a, k);
    DivMod(n, c);
    var r := n % c * k + a % k;
    MulGap(n % c, c, k);
    assert n * k == n / c * (c * k) + n % c * k by {
      TimesThree(n / c, c, k);
      assert n * k == (n / c * c + n % c) * k;
    }
    DivUnique(a, c * k, n / c, r);
  }

  lemma TimesThree(a: int, b: int, c: int)
    ensures a * b * c == a * (b * c)
  {
  }
}
