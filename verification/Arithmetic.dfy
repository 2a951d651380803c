/** Laws of the product of integers. */
module Arithmetic {

  lemma {:induction false} Associates(a: int, b: int, c: int)
    ensures a * b * c == a * (b * c)
    decreases if c < 0 then -c else c
  {
    if c > 0 {
      Associates(a, b, c - 1);
      Steps(a, b, c - 1, 1);
    } else if c < 0 {
      Associates(a, b, c + 1);
      Steps(a, b, c + 1, -1);
    }
  }

  lemma Steps(a: int, b: int, c: int, d: int)
    ensures a * b * (c + d) == a * b * c + a * b * d
    ensures a * (b * (c + d)) == a * (b * c) + a * (b * d)
  {
    Distributes(a * b, c, d);
    Distributes(b, c, d);
    Distributes(a, b * c, b * d);
  }

  lemma Distributes(a: int, b: int, c: int)
    ensures a * (b + c) == a * b + a * c && (b + c) * a == b * a + c * a
    ensures a * (b - c) == a * b - a * c && (b - c) * a == b * a - c * a
  {}

  lemma {:induction false} Monotonic(a: int, b: int, c: nat)
    requires a <= b
    ensures a * c <= b * c
    decreases c
  {
    if c > 0 {
      Monotonic(a, b, c - 1);
      Distributes(a, c - 1, 1);
      Distributes(b, c - 1, 1);
    }
  }

  /** A multiple of `q` that lies between `-q` and `q` is zero. */
  lemma SmallMultiple(q: nat, d: int)
    requires 0 - q < q * d < q
    ensures d == 0
  {
    if d >= 1 {
      Monotonic(1, d, q);
    } else if d <= -1 {
      Monotonic(d, -1, q);
    }
  }
}
