/** The few facts about division the other modules lean on. */
module Arith {

  lemma MulSign(k: int, d: int)
    requires d >= 0
    ensures k >= 1 ==> k * d >= d
    ensures k <= -1 ==> k * d <= -d
  {
    if k >= 1 {
      assert k * d == d + (k - 1) * d;
    } else if k <= -1 {
      assert k * d == -d + (k + 1) * d;
    }
  }

  lemma MulSucc(k: int, d: int)
    ensures (k + 1) * d == k * d + d
  {
  }

  lemma DivUnique(x: nat, d: nat, q: nat, rem: nat)
    requires d > 0 && rem < d && x == q * d + rem
    ensures x / d == q && x % d == rem
  {
    var k := x / d - q;
    assert k * d == (x / d) * d - q * d;
    assert k * d == rem - x % d;
    MulSign(k, d);
  }

  lemma DivStep(x: nat, d: nat)
    requires d > 0 && x >= d
    ensures x / d == (x - d) / d + 1
    ensures x % d == (x - d) % d
  {
    var q, rem := (x - d) / d, (x - d) % d;
    assert (q + 1) * d == q * d + d;
    DivUnique(x, d, q + 1, rem);
  }

  lemma DivSmall(x: nat, d: nat)
    requires x < d
    ensures x / d == 0 && x % d == x
  {
    DivUnique(x, d, 0, x);
  }

  lemma MulComm(a: int, b: int)
    ensures a * b == b * a
  {
  }

  lemma MulAdd(a: int, b: int, d: int)
    ensures (a + b) * d == a * d + b * d
  {
  }

  lemma DivMod(x: nat, d: nat) returns (q: nat, rem: nat)
    requires d > 0
    ensures q == x / d && rem == x % d && rem < d && x == q * d + rem
  {
    q, rem := x / d, x % d;
  }

  lemma MulNat(a: int, b: int)
    requires a >= 0 && b >= 0
    ensures a * b >= 0
  {
  }

  // Division and product of naturals, for places that need no more than that the result is one.

  function Div(x: nat, d: nat): nat
    requires d > 0
  {
    x / d
  }

  function Mod(x: nat, d: nat): (rem: nat)
    requires d > 0
    ensures rem < d
  {
    x % d
  }

  function Times(a: nat, b: nat): nat {
    MulNat(a, b);
    a * b
  }

  lemma DivModTimes(x: nat, d: nat)
    requires d > 0
    ensures x == Times(Div(x, d), d) + Mod(x, d)
  {
    var q, rem := DivMod(x, d);
  }
}
