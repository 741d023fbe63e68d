/** Multiplication and division by variables, kept out of sight of the proofs that use them. */
module Arithmetic {
  function Mul(a: nat, b: nat): nat { a * b }

  function Div(a: nat, b: nat): nat
    requires b > 0
  {
    a / b
  }

  function Mod(a: nat, b: nat): nat
    requires b > 0
  {
    a % b
  }

  lemma MulComm(a: nat, b: nat)
    ensures Mul(a, b) == Mul(b, a)
  {
  }

  lemma MulZero(a: nat)
    ensures Mul(a, 0) == 0 && Mul(0, a) == 0 && Mul(a, 1) == a && Mul(1, a) == a
  {
  }

  lemma MulAssoc(a: nat, b: nat, c: nat)
    ensures Mul(Mul(a, b), c) == Mul(a, Mul(b, c))
  {
  }

  lemma MulAdd(a: nat, b: nat, c: nat)
    ensures Mul(a, b + c) == Mul(a, b) + Mul(a, c) && Mul(b + c, a) == Mul(b, a) + Mul(c, a)
  {
  }

  lemma MulMono(a: nat, b: nat, c: nat)
    requires b <= c
    ensures Mul(a, b) <= Mul(a, c)
  {
  }

  lemma MulPositive(a: nat, b: nat)
    requires a > 0 && b > 0
    ensures Mul(a, b) > 0 && Mul(a, b) >= a && Mul(a, b) >= b
  {
  }

  lemma DivMod(v: nat, p: nat)
    requires p > 0
    ensures v == Mul(p, Div(v, p)) + Mod(v, p) && Mod(v, p) < p
  {
  }

  lemma DivIs(v: nat, p: nat, q: nat, r: nat)
    requires p > 0 && v == Mul(p, q) + r && r < p
    ensures Div(v, p) == q && Mod(v, p) == r
  {
    hide Mul, Div, Mod;
    DivMod(v, p);
    var d := Div(v, p);
    if d > q { MulMono(p, q + 1, d); MulAdd(p, q, 1); MulZero(p); }
    if d < q { MulMono(p, d + 1, q); MulAdd(p, d, 1); MulZero(p); }
  }

  lemma DivSmall(v: nat, p: nat)
    requires p > 0
    ensures Div(v, p) == 0 <==> v < p
    ensures Div(v, p) == 0 ==> Mod(v, p) == v
    ensures Div(v, 1) == v && Mod(v, 1) == 0
  {
    hide Mul, Div, Mod;
    MulZero(p);
    MulZero(v);
    DivMod(v, p);
    DivIs(v, 1, v, 0);
    if v < p { DivIs(v, p, 0, v); }
  }

  /** p goes into v at least k times exactly if k * p fits. */
  lemma DivAtLeast(v: nat, p: nat, k: nat)
    requires p > 0
    ensures Div(v, p) >= k <==> Mul(p, k) <= v
  {
    hide Mul, Div, Mod;
    DivMod(v, p);
    var d := Div(v, p);
    if d >= k { MulMono(p, k, d); } else { MulMono(p, d + 1, k); MulAdd(p, d, 1); MulZero(p); }
  }

  lemma DivLess(v: nat, p: nat)
    requires p >= 2 && v > 0
    ensures Div(v, p) < v
  {
    hide Mul, Div, Mod;
    DivMod(v, p);
    MulComm(p, Div(v, p));
    MulMono(Div(v, p), 2, p);
    MulAdd(Div(v, p), 1, 1);
    MulZero(Div(v, p));
  }

  lemma DivTwice(v: nat, r: nat, p: nat)
    requires r > 0 && p > 0
    ensures Mul(r, p) > 0 && Div(v, Mul(r, p)) == Div(Div(v, r), p)
    ensures Mod(v, Mul(r, p)) == Mul(r, Mod(Div(v, r), p)) + Mod(v, r)
  {
    hide Mul, Div, Mod;
    var q := Div(v, r);
    DivMod(v, r);
    DivMod(q, p);
    MulPositive(r, p);
    MulAssoc(r, p, Div(q, p));
    MulAdd(r, Mul(p, Div(q, p)), Mod(q, p));
    MulMono(r, Mod(q, p) + 1, p);
    MulAdd(r, Mod(q, p), 1);
    MulZero(r);
    DivIs(v, Mul(r, p), Div(q, p), Mul(r, Mod(q, p)) + Mod(v, r));
  }

  /** A factor may be reduced before multiplying. */
  lemma ModMul(a: nat, p: nat, m: nat)
    requires m > 0
    ensures Mod(Mul(a, Mod(p, m)), m) == Mod(Mul(a, p), m)
  {
    hide Mul, Div, Mod;
    var k, r := Div(p, m), Mod(p, m);
    DivMod(p, m);
    MulAdd(a, Mul(m, k), r);
    MulAssoc(a, m, k);
    MulComm(a, m);
    MulAssoc(m, a, k);
    ModShift(Mul(a, r), m, Mul(a, k));
  }

  lemma ModShift(x: nat, m: nat, k: nat)
    requires m > 0
    ensures Mod(Mul(m, k) + x, m) == Mod(x, m)
  {
    hide Mul, Div, Mod;
    DivMod(x, m);
    MulAdd(m, k, Div(x, m));
    DivIs(Mul(m, k) + x, m, k + Div(x, m), Mod(x, m));
  }

  /** A summand may be reduced before adding. */
  lemma ModAdd(a: nat, b: nat, m: nat)
    requires m > 0
    ensures Mod(Mod(a, m) + b, m) == Mod(a + b, m)
  {
    hide Mul, Div, Mod;
    DivMod(a, m);
    ModShift(Mod(a, m) + b, m, Div(a, m));
  }
}
