/** The C++ integer types that the casts are instantiated with. */
module Integers {

  datatype Width = W8 | W16 | W32 | W64 {
    function Modulus(): nat {
      match this
      case W8 => 0x100
      case W16 => 0x1_0000
      case W32 => 0x1_0000_0000
      case W64 => 0x1_0000_0000_0000_0000
    }
  }

  datatype IntType = IntType(signed: bool, width: Width) {
    function Min(): int {
      if signed then -(width.Modulus() / 2) else 0
    }

    function Max(): int {
      if signed then width.Modulus() / 2 - 1 else width.Modulus() - 1
    }

    predicate Holds(x: int) {
      Min() <= x <= Max()
    }

    function Clamp(x: int): int {
      if x < Min() then Min() else if Max() < x then Max() else x
    }

    /** The value an arithmetic result takes in this type (two's complement). */
    function Wrap(x: int): int {
      var r := x % width.Modulus();
      if signed && width.Modulus() / 2 <= r then r - width.Modulus() else r
    }
  }

  const INTMAX := IntType(true, W64)
  const UINTMAX := IntType(false, W64)

  /** C++ division rounds toward zero, unlike Dafny's. */
  function TruncDiv(a: int, b: int): (q: int)
    requires 0 < b
    ensures 0 <= a ==> 0 <= a - q * b < b && 0 <= q
    ensures a <= 0 ==> -b < a - q * b <= 0 && q <= 0
  {
    if 0 <= a then a / b else -((-a) / b)
  }

  // ------------------------------------------------------------- arithmetic

  lemma MulAtLeast(k: int, m: int)
    requires 0 < k && 0 <= m
    ensures m <= k * m
  {
  }

  /** Quotient and remainder are determined by their defining equation. */
  lemma ModUnique(q: int, m: int, r: int)
    requires 0 <= r < m
    ensures (q * m + r) / m == q && (q * m + r) % m == r
  {
    var n := q * m + r;
    var k := n / m - q;
    assert k * m == r - n % m;
    if k != 0 {
      MulAtLeast(Abs(k), m);
    }
  }

  function Abs(x: int): nat {
    if x < 0 then -x else x
  }

  /** Clamping gives the nearest value that the type holds. */
  lemma ClampNearest(t: IntType, x: int)
    ensures t.Holds(t.Clamp(x))
    ensures forall w :: t.Holds(w) ==> Abs(t.Clamp(x) - x) <= Abs(w - x)
    ensures t.Holds(x) ==> t.Clamp(x) == x
  {
    match t.width case W8 => case W16 => case W32 => case W64 =>
  }

  lemma DivMod(n: nat, b: nat)
    requires 1 < b
    ensures n == (n / b) * b + n % b && n % b < b
    ensures b <= n ==> 0 < n / b < n
    ensures n < b ==> n / b == 0 && n % b == n
  {
    var q, r := n / b, n % b;
    assert n == q * b + r;
    if n < b {
      ModUnique(0, b, n);
    } else {
      assert q != 0;
      assert q * b == q + q * (b - 1);
      MulAtLeast(b - 1, q);
    }
  }

  /** Wrapping picks the one representable value congruent to its argument. */
  lemma WrapUnique(t: IntType, x: int, y: int, k: int)
    requires t.Holds(y) && x == y + k * t.width.Modulus()
    ensures t.Wrap(x) == y
  {
    var m := t.width.Modulus();
    if 0 <= y {
      ModUnique(k, m, y);
    } else {
      ModUnique(k - 1, m, y + m);
      assert x == (k - 1) * m + (y + m);
    }
  }

  lemma WrapCongruent(t: IntType, x: int) returns (k: int)
    ensures t.Wrap(x) == x + k * t.width.Modulus()
  {
    var m := t.width.Modulus();
    k := -(x / m);
    if t.Wrap(x) != x % m {
      k := k - 1;
    }
  }
}
