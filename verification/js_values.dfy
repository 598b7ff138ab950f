/** The few JavaScript run-time values and operators whose exact behaviour the
    matching engine depends on: numbers that may be non-finite, values that may
    or may not be arrays, the truncating `%`, the engine's `mod` helper and the
    bitwise `& 3` used to reduce rotations. */
module JsValues {

  /** A value the source may leave undefined (or null, or NaN where it is tested). */
  datatype Option<T> = None | Some(value: T)

  /** A JavaScript number, as far as the engine tells numbers apart. */
  datatype Num = Finite(val: real) | PosInf | NegInf | NaN {

    /** JavaScript `<` on numbers: NaN compares false with everything. */
    predicate Less(that: Num) {
      match this
      case NaN => false
      case PosInf => false
      case NegInf => !that.NaN? && !that.NegInf?
      case Finite(a) => that.PosInf? || (that.Finite? && a < that.val)
    }

    /** JavaScript `+` on numbers. */
    function Add(that: Num): Num {
      match (this, that)
      case (Finite(a), Finite(b)) => Finite(a + b)
      case (NaN, _) => NaN
      case (_, NaN) => NaN
      case (PosInf, NegInf) => NaN
      case (NegInf, PosInf) => NaN
      case (PosInf, _) => PosInf
      case (_, PosInf) => PosInf
      case (NegInf, _) => NegInf
      case (_, NegInf) => NegInf
    }
  }

  /** A value that is either a JavaScript array (with its elements) or not an
      array at all (undefined, null, a hole of a sparse array, an object). */
  datatype Arr<T> = NotArray | Array(items: seq<T>)

  function Abs(x: int): nat { if x < 0 then -x else x }

  /** JavaScript `%` on integers: the remainder truncates toward zero, so it
      takes the sign of the dividend (Dafny's `%` is Euclidean). */
  function Rem(a: int, b: int): (r: int)
    requires b != 0
    ensures Abs(r) < Abs(b)
    ensures a >= 0 ==> r == a % Abs(b)
    ensures a < 0 ==> r <= 0
  {
    if a >= 0 then a % Abs(b) else -((-a) % Abs(b))
  }

  /** `Math.floor(a / b)` for integers and a positive divisor, which is Dafny's
      `/` on `int`. */
  function FloorDiv(a: int, b: int): (q: int)
    requires b > 0
    ensures q as real <= (a as real) / (b as real) < q as real + 1.0
  {
    FloorDivLemma(a, b);
    a / b
  }

  lemma FloorDivLemma(a: int, b: int)
    requires b > 0
    ensures (a / b) as real <= (a as real) / (b as real) < (a / b) as real + 1.0
  {
    var q, m := a / b, a % b;
    assert a == q * b + m;
    assert a as real == (q as real) * (b as real) + m as real;
    assert (a as real) / (b as real) == q as real + (m as real) / (b as real);
  }

  /** The `mod(value, divisor)` helper of metrics.js and arrangements.js:
      `((value % d) + d) % d` with `d = divisor || 1`, built from the
      truncating remainder. */
  function Mod(value: int, divisor: int): (r: int)
    ensures divisor > 0 ==> 0 <= r < divisor && r == value % divisor
    ensures divisor == 0 ==> r == 0
    ensures divisor < 0 ==> divisor < r <= 0
  {
    var d := if divisor == 0 then 1 else divisor;
    var inner := Rem(value, d);
    if d > 0 then
      RemShiftLemma(value, d);
      Rem(inner + d, d)
    else
      Rem(inner + d, d)
  }

  /** Division with a positive divisor has a unique quotient and remainder. */
  lemma DivModUnique(a: int, d: int, q: int, m: int)
    requires d > 0 && 0 <= m < d && a == q * d + m
    ensures a / d == q && a % d == m
  {
    var q', m' := a / d, a % d;
    assert a == q' * d + m';
    var k := q - q';
    assert k * d == m' - m by {
      assert q * d - q' * d == (q - q') * d;
    }
  }

  /** For a positive divisor, shifting the truncated remainder by the divisor
      and taking the remainder again gives the Euclidean remainder. */
  lemma RemShiftLemma(value: int, d: int)
    requires d > 0
    ensures 0 <= Rem(value, d) + d
    ensures Rem(Rem(value, d) + d, d) == value % d
  {
    var inner := Rem(value, d);
    if value >= 0 {
      assert inner == value % d;
      DivModUnique(inner + d, d, 1, inner);
    } else {
      var q, m := (-value) / d, (-value) % d;
      assert inner == -m;
      assert -value == q * d + m;
      if m == 0 {
        DivModUnique(value, d, -q, 0);
        DivModUnique(inner + d, d, 1, 0);
      } else {
        DivModUnique(value, d, -q - 1, d - m);
        DivModUnique(inner + d, d, 0, d - m);
      }
    }
  }

  /** ECMAScript ToInt32: the integer wrapped into the signed 32-bit range. */
  function ToInt32(x: int): (r: int)
    ensures -0x8000_0000 <= r < 0x8000_0000
  {
    var m := x % 0x1_0000_0000;
    if m >= 0x8000_0000 then m - 0x1_0000_0000 else m
  }

  /** `x & 3` on an integer-valued number: ToInt32, then the two low bits of
      the two's-complement form. The two low bits of a signed 32-bit value `n`
      read as an unsigned number are `n` modulo 4 (Euclidean), because the
      two's-complement encoding adds a multiple of 2^32 to negative values. */
  function And3(x: int): (r: int)
    ensures 0 <= r < 4
    ensures r == x % 4
  {
    ToInt32Mod4Lemma(x);
    ToInt32(x) % 4
  }

  lemma ToInt32Mod4Lemma(x: int)
    ensures ToInt32(x) % 4 == x % 4
  {
    var q, m := x / 0x1_0000_0000, x % 0x1_0000_0000;
    var r := m % 4;
    DivModUnique(m, 4, m / 4, r);
    DivModUnique(x, 4, q * 0x4000_0000 + m / 4, r);
    if m >= 0x8000_0000 {
      DivModUnique(m - 0x1_0000_0000, 4, m / 4 - 0x4000_0000, r);
    }
  }
}
