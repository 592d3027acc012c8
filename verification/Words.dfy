/** Machine words in memory, least significant byte first. */
module Words {
  import opened Arith
  import opened Common

  /** The number of values of w bytes. */
  function Span(w: nat): (n: nat)
    ensures n > 0
  {
    if w == 0 then 1 else 256 * Span(w - 1)
  }

  function Le(n: nat, w: nat): (b: Bytes)
    ensures |b| == w
  {
    if w == 0 then [] else [n % 256] + Le(n / 256, w - 1)
  }

  function FromLe(b: Bytes): (n: nat)
    ensures n < Span(|b|)
  {
    if b == [] then 0 else b[0] + 256 * FromLe(b[1..])
  }

  lemma {:induction false} LeRoundTrip(n: nat, w: nat)
    requires n < Span(w)
    ensures FromLe(Le(n, w)) == n
  {
    if w > 0 {
      LeRoundTrip(n / 256, w - 1);
      assert Le(n, w)[1..] == Le(n / 256, w - 1);
    }
  }

  /** Byte i of a word is worth 256^i. */
  lemma {:induction false} LeByte(n: nat, w: nat, i: nat)
    requires i < w
    ensures Le(n, w)[i] == n / Span(i) % 256
    decreases w
  {
    if i > 0 {
      LeByte(n / 256, w - 1, i - 1);
      DivideTwice(n, 256, Span(i - 1));
    }
  }

  lemma DivideTwice(n: nat, a: nat, b: nat)
    requires a > 0 && b > 0
    ensures a * b > 0 && n / a / b == n / (a * b)
  {
    var q, r := n / a, n % a;
    var p, s := q / b, q % b;
    Nested(n, a, b, q, r, p, s);
    Divided(n, a * b, p, a * s + r);
  }

  lemma Nested(n: nat, a: nat, b: nat, q: nat, r: nat, p: nat, s: nat)
    requires n == a * q + r && q == b * p + s && r < a && s < b
    ensures a * b > 0 && n == a * b * p + (a * s + r) && a * s + r < a * b
  {
    calc {
      a * q;
      a * (b * p + s);
      a * (b * p) + a * s;
      { Associate(a, b, p); }
      a * b * p + a * s;
    }
    assert a * (b - 1 - s) == a * b - a - a * s;
    FarMultiple(a, b - 1 - s);
  }

  lemma Associate(a: nat, b: nat, c: nat)
    ensures a * (b * c) == a * b * c
  {}

  /** The signed number that w bytes with value n stand for. */
  function Signed(n: nat, w: nat): int {
    if 2 * n < Span(w) then n else n - Span(w)
  }

  predicate Fits(i: int, w: nat) {
    0 - Span(w) <= 2 * i < Span(w)
  }

  /** Two's complement. */
  function Unsigned(i: int, w: nat): (n: nat)
    requires Fits(i, w)
    ensures n < Span(w) && Signed(n, w) == i
  {
    if i >= 0 then i else i + Span(w)
  }
}
