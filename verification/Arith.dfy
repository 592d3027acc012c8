/** Division and remainder of natural numbers. */
module Arith {

  lemma Divided(a: nat, b: nat, q: nat, r: nat)
    requires a == b * q + r && r < b
    ensures a / b == q && a % b == r
  {
    var d := a / b - q;
    assert b * d == r - a % b by {
      assert a == b * (a / b) + a % b;
      assert b * d == b * (a / b) - b * q;
    }
    FarMultiple(b, d);
  }

  lemma FarMultiple(b: int, d: int)
    requires b >= 0
    ensures d > 0 ==> b * d >= b
    ensures d < 0 ==> b * d <= -b
    ensures d == 0 ==> b * d == 0
  {}

  lemma DivMonotone(a: nat, b: nat, g: nat)
    requires a <= b && g > 0
    ensures a / g <= b / g
  {
    var d := b / g - a / g;
    assert g * d == b - a - (b % g - a % g) by {
      assert a == g * (a / g) + a % g;
      assert b == g * (b / g) + b % g;
      assert g * d == g * (b / g) - g * (a / g);
    }
    FarMultiple(g, d);
  }

  lemma MultipleMod(c: nat, g: nat)
    requires g > 0
    ensures c * g % g == 0 && c * g / g == c
  {
    assert c * g == g * c + 0;
    Divided(c * g, g, c, 0);
  }

  lemma AddMultiple(a: nat, k: nat, g: nat)
    requires g > 0 && a % g == 0
    ensures (a + g * k) % g == 0
  {
    assert a == g * (a / g);
    assert a + g * k == g * (a / g + k) + 0;
    Divided(a + g * k, g, a / g + k, 0);
  }
}
