/** Python's integer and float rounding operators, stated over exact
    rationals: `int()` truncation, `math.ceil` of a true division, and the
    floor division `//` with its companion `%`. */
module PyMath {
  import Arith

  /** `math.floor` of an exact rational. */
  function Floor(x: real): (r: int)
    ensures r as real <= x < r as real + 1.0
  {
    x.Floor
  }

  /** `math.ceil` of an exact rational. */
  function Ceil(x: real): (r: int)
    ensures r as real - 1.0 < x <= r as real
  {
    -Floor(-x)
  }

  /** Python's `int(x)` on a number: truncation toward zero. */
  function Trunc(x: real): (r: int)
    ensures 0.0 <= x ==> 0 <= r && r as real <= x < r as real + 1.0
    ensures x < 0.0 ==> r <= 0 && r as real - 1.0 < x <= r as real
  {
    if x >= 0.0 then Floor(x) else -Floor(-x)
  }

  /** Python's `a // b`: the floor of the exact quotient. */
  function FloorDiv(a: int, b: int): int
    requires b != 0
  {
    Floor(a as real / b as real)
  }

  /** Python's `a % b`, defined from `//` as Python defines it. */
  function Mod(a: int, b: int): int
    requires b != 0
  {
    a - b * FloorDiv(a, b)
  }

  /** `math.ceil(a / b)`, with `a / b` taken as the exact rational quotient.
      Python's `/` rounds the quotient to a double first, which agrees with
      the exact quotient while the operands stay below 2^53. */
  function CeilOfQuotient(a: int, b: int): int
    requires b != 0
  {
    Ceil(a as real / b as real)
  }

  /** The `a // b` followed by "add one if `a % b != 0`" form of the same count. */
  function CeilByFloorMod(a: int, b: int): int
    requires b != 0
  {
    FloorDiv(a, b) + (if Mod(a, b) != 0 then 1 else 0)
  }

  /** Python's remainder is zero exactly when the quotient is an integer. */
  lemma ModZeroIffIntegralQuotient(a: int, b: int)
    requires b != 0
    ensures Mod(a, b) == 0 <==> a as real / b as real == FloorDiv(a, b) as real
  {
    var f := FloorDiv(a, b);
    var x := a as real / b as real;
    assert x * (b as real) == a as real;
    if Mod(a, b) == 0 {
      assert a == b * f;
      assert a as real == (b as real) * (f as real);
    }
    if x == f as real {
      assert a as real == (f as real) * (b as real);
      assert (a - b * f) as real == 0.0;
    }
  }

  /** Ceiling is floor, plus one unless the argument is an integer. */
  lemma CeilFromFloor(x: real)
    ensures Ceil(x) == Floor(x) + (if x == Floor(x) as real then 0 else 1)
  {
  }

  /** The two grid-count forms agree for every nonzero divisor: `math.ceil`
      of the true quotient equals `//` plus the remainder correction. */
  lemma CeilFormsAgree(a: int, b: int)
    requires b != 0
    ensures CeilOfQuotient(a, b) == CeilByFloorMod(a, b)
  {
    ModZeroIffIntegralQuotient(a, b);
    CeilFromFloor(a as real / b as real);
  }

  /** For a positive divisor Python's `//` and `%` coincide with Dafny's
      Euclidean `/` and `%`. */
  lemma FloorDivPositive(a: int, b: int)
    requires b > 0
    ensures FloorDiv(a, b) == a / b
    ensures Mod(a, b) == a % b
  {
    var q, r := a / b, a % b;
    assert a == q * b + r && 0 <= r < b;
    var x := a as real / b as real;
    assert a as real == (q as real) * (b as real) + r as real;
    assert x == q as real + (r as real) / (b as real);
    assert 0.0 <= (r as real) / (b as real) < 1.0;
  }

  /** Ceiling division on Dafny's Euclidean operators, the integer form the
      rest of the model reasons with. */
  function CeilDiv(a: int, b: int): int
    requires b > 0
  {
    a / b + (if a % b != 0 then 1 else 0)
  }

  /** For `b > 0` the source's `math.ceil(a / b)` is `CeilDiv(a, b)`. */
  lemma CeilOfQuotientIsCeilDiv(a: int, b: int)
    requires b > 0
    ensures CeilOfQuotient(a, b) == CeilDiv(a, b)
    ensures CeilByFloorMod(a, b) == CeilDiv(a, b)
  {
    CeilFormsAgree(a, b);
    FloorDivPositive(a, b);
  }

  /** `CeilDiv(a, b)` is the least `k` with `k * b >= a`. */
  lemma CeilDivIsLeastMultiple(a: int, b: int)
    requires b > 0
    ensures CeilDiv(a, b) * b >= a
    ensures (CeilDiv(a, b) - 1) * b < a
  {
    var q, r := a / b, a % b;
    Arith.DivBounds(a, b);
    Arith.MulSucc(q, b);
    assert a == q * b + r;
  }
}
