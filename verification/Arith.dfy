/** The facts about products, quotients and remainders of naturals that the other modules use. */
module Arith {

  function Square(n: nat): (s: nat)
    ensures n > 0 ==> s > 0
  {
    n * n
  }

  function Quot(i: nat, d: nat): nat
    requires d > 0
  {
    i / d
  }

  function Rem(i: nat, d: nat): nat
    requires d > 0
  {
    i % d
  }

  lemma MulMono(a: int, b: int, d: nat)
    ensures a <= b ==> a * d <= b * d
  {
    if a <= b {
      assert (b - a) * d >= 0;
    }
  }

  lemma Distribute(a: int, b: int, d: int)
    ensures (a + b) * d == a * d + b * d
  {
  }

  lemma DivMod(i: nat, d: nat)
    requires d > 0
    ensures Quot(i, d) * d + Rem(i, d) == i && Rem(i, d) < d
  {
  }

  lemma QuotientIsUnique(i: nat, d: nat, q: nat, r: nat)
    requires i == q * d + r && r < d
    ensures Quot(i, d) == q && Rem(i, d) == r
  {
    hide Quot, Rem;
    var q' := Quot(i, d);
    DivMod(i, d);
    MulMono(q' + 1, q, d);
    MulMono(q + 1, q', d);
    Distribute(q', 1, d);
    Distribute(q, 1, d);
  }

  lemma DivBound(i: nat, d: nat, n: nat)
    requires d > 0
    ensures Quot(i, d) < n <==> i < n * d
  {
    hide Quot, Rem;
    var q := Quot(i, d);
    DivMod(i, d);
    MulMono(q + 1, n, d);
    Distribute(q, 1, d);
    MulMono(n, q, d);
  }

  lemma MulAssoc(a: int, b: int, c: int)
    ensures (a * b) * c == a * (b * c)
  {
  }

  lemma DivDiv(i: nat, d: nat)
    requires d > 0
    ensures Quot(i, Square(d)) == Quot(Quot(i, d), d)
  {
    hide Quot, Rem;
    var q, r := Quot(i, d), Rem(i, d);
    DivMod(i, d);
    var q2, r2 := Quot(q, d), Rem(q, d);
    DivMod(q, d);
    Distribute(q2 * d, r2, d);
    MulAssoc(q2, d, d);
    MulMono(r2 + 1, d, d);
    Distribute(r2, 1, d);
    QuotientIsUnique(i, Square(d), q2, r2 * d + r);
  }

  function Times(n: nat, d: nat): nat {
    n * d
  }

  lemma TimesIsProduct(a: nat, b: nat)
    ensures Times(a, b) == a * b
  {
  }

  lemma TimesAdd(n: nat, m: nat, d: nat)
    ensures Times(n + m, d) == Times(n, d) + m * d && m * d >= 0
  {
    Distribute(n, m, d);
    MulMono(0, m, d);
  }

  lemma TimesNext(n: nat, d: nat)
    ensures Times(n + 1, d) == Times(n, d) + d
  {
    Distribute(n, 1, d);
  }

  // ---------- remainders by constants ----------

  lemma TwoDivides(n: int, q: int)
    requires n == 2 * q
    ensures n % 2 == 0
  {
    var x := q - n / 2;
    assert n % 2 == 2 * x;
  }

  lemma TwoLeavesOne(n: int, q: int)
    requires n == 2 * q + 1
    ensures n % 2 == 1
  {
    var x := q - n / 2;
    assert n % 2 == 2 * x + 1;
  }

  lemma FourDivides(n: int, q: int)
    requires n == 4 * q
    ensures n % 4 == 0
  {
    var x := q - n / 4;
    assert n % 4 == 4 * x;
  }

  lemma EightDivides(n: int, q: int)
    requires n == 8 * q
    ensures n % 8 == 0
  {
    var x := q - n / 8;
    assert n % 8 == 8 * x;
  }

  function Eighth(n: int): (q: int)
    requires n % 8 == 0
    ensures n == 8 * q
  {
    n / 8
  }
}
