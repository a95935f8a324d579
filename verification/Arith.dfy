// Multiplication and division facts, kept away from everything else.
module Arith {

  lemma Above(b: nat, p: nat, q: nat)
    requires p < q
    ensures b * p + b <= b * q
  {
    var d := q - p;
    assert b * d == b * (d - 1) + b;
    assert b * q == b * p + b * d;
  }

  lemma Divides(a: nat, b: nat, q: nat, r: nat)
    requires b > 0 && a == b * q + r && r < b
    ensures a / b == q && a % b == r
  {
    var p := a / b;
    assert b * p <= a < b * p + b;
    if p < q { Above(b, p, q); }
    if p > q { Above(b, q, p); }
  }

  lemma DivideMonotone(a: nat, b: nat, d: nat)
    requires a <= b && d > 0
    ensures a / d <= b / d
  {
    if b / d < a / d { Above(d, b / d, a / d); }
  }
}
