/**
  value_utils.hpp: overflow-checked 64-bit arithmetic, comparison and formatting of
  SQL values. Every guard the code computes is held in an int64 variable, which proves
  that the guards themselves stay in range.
 */
module CheckedArithmetic {
  import opened Common

  // C++ integer division truncates toward zero; Dafny's is Euclidean.
  function TruncDiv(a: int, b: int): (q: int)
    requires b != 0
  {
    if a >= 0 then a / b else -((-a) / b)
  }

  // Truncation stated without division: the remainder has a's sign and is smaller than b.
  ghost predicate IsTruncatedQuotient(a: int, b: int, q: int) {
    IsRemainder(a, b, a - q * b)
  }

  ghost predicate IsRemainder(a: int, b: int, r: int) {
    && (if b > 0 then -b < r < b else b < r < -b)
    && (a >= 0 ==> r >= 0)
    && (a <= 0 ==> r <= 0)
  }

  lemma TruncDivTruncates(a: int, b: int)
    requires b != 0
    ensures IsTruncatedQuotient(a, b, TruncDiv(a, b))
  {
    var n := if a >= 0 then a else -a;
    EuclideanDivision(n, b);
    if a < 0 {
      NegateProduct(n / b, b);
    }
  }

  lemma EuclideanDivision(n: int, b: int)
    requires n >= 0 && b != 0
    ensures IsRemainder(n, b, n - (n / b) * b) && n - (n / b) * b >= 0
  {
    assert n == (n / b) * b + n % b;
  }

  lemma NegateProduct(x: int, y: int)
    ensures (-x) * y == -(x * y)
  {
  }

  lemma TruncatedQuotientIsUnique(a: int, b: int, p: int, q: int)
    requires b != 0 && IsTruncatedQuotient(a, b, p) && IsTruncatedQuotient(a, b, q)
    ensures p == q
  {
    var m := if b > 0 then b else -b;
    var d := p - q;
    assert p * b - q * b == d * b;
    assert -m < d * b < m;
    assert d * b == d * m || d * b == -(d * m);
    assert -m < d * m < m;
    if d >= 1 {
      MulLe(1, d, m);
      assert false;
    }
    if d <= -1 {
      MulLe(d, -1, m);
      assert false;
    }
  }

  // For positive d: the integers x with x * d <= m are those with x <= m / d.
  lemma DivBound(x: int, d: int, m: int)
    requires d > 0
    ensures x * d <= m <==> x <= m / d
  {
    var q := m / d;
    assert m == q * d + m % d;
    if x <= q {
      MulLe(x, q, d);
    } else {
      MulLe(q + 1, x, d);
      assert (q + 1) * d == q * d + d;
    }
  }

  lemma MulLe(x: int, y: int, d: int)
    requires x <= y && d >= 0
    ensures x * d <= y * d
  {
    assert (y - x) * d >= 0;
    assert (y - x) * d == y * d - x * d;
  }

  function Negate(value: int64): (r: Result<int64>)
    ensures r == if InInt64(0 - value) then Ok(0 - value) else Err(ExecutionError)
  {
    if value == INT64_MIN then Err(ExecutionError) else Ok(-value)
  }

  function Add(left: int64, right: int64): (r: Result<int64>)
    ensures r == if InInt64(left + right) then Ok(left + right) else Err(ExecutionError)
  {
    if right > 0 && (var guard: int64 := INT64_MAX - right; left > guard) then
      Err(ExecutionError)
    else if right < 0 && (var guard: int64 := INT64_MIN - right; left < guard) then
      Err(ExecutionError)
    else
      Ok(left + right)
  }

  function Subtract(left: int64, right: int64): (r: Result<int64>)
    ensures r == if InInt64(left - right) then Ok(left - right) else Err(ExecutionError)
  {
    if right > 0 && (var guard: int64 := INT64_MIN + right; left < guard) then
      Err(ExecutionError)
    else if right < 0 && (var guard: int64 := INT64_MAX + right; left > guard) then
      Err(ExecutionError)
    else
      Ok(left - right)
  }

  // The four quotient guards of the multiplication, by the signs of the operands.
  predicate ProductOverflows(left: int64, right: int64)
    requires left != 0 && right != 0 && left != -1 && right != -1
  {
    if left > 0 then
      || (right > 0 && (var guard: int64 := GuardQuotient(INT64_MAX, right); left > guard))
      || (right < 0 && (var guard: int64 := GuardQuotient(INT64_MIN, left); right < guard))
    else
      || (right > 0 && (var guard: int64 := GuardQuotient(INT64_MIN, right); left < guard))
      || (right < 0 && (var guard: int64 := GuardQuotient(INT64_MAX, right); left < guard))
  }

  // C++ division of an int64 limit by a divisor other than 0 and -1 cannot overflow.
  function GuardQuotient(limit: int64, divisor: int64): (q: int64)
    requires divisor != 0 && divisor != -1
  {
    QuotientInRange(limit, divisor);
    TruncDiv(limit, divisor)
  }

  lemma QuotientInRange(a: int64, b: int64)
    requires b != 0
    requires !(a == INT64_MIN && b == -1)
    ensures InInt64(TruncDiv(a, b))
  {
    var n := if a >= 0 then a as int else 0 - a;
    var m := if b > 0 then b as int else 0 - b;
    DivNegDivisor(n, m);
    QuotientShrinks(n, m);
  }

  lemma QuotientShrinks(n: int, m: int)
    requires n >= 0 && m > 0
    ensures 0 <= n / m <= n
    ensures m >= 2 ==> 2 * (n / m) <= n
  {
    var q := n / m;
    assert n == q * m + n % m;
    assert q >= 0;
    MulLe(1, m, q);
    if m >= 2 {
      MulLe(2, m, q);
    }
  }

  lemma DivNegDivisor(n: int, m: int)
    requires n >= 0 && m > 0
    ensures n / (-m) == -(n / m)
  {
  }

  lemma ProductOverflowsExactly(left: int64, right: int64)
    requires left != 0 && right != 0 && left != -1 && right != -1
    ensures ProductOverflows(left, right) <==> !InInt64(left * right)
  {
    var l: int, r: int := left, right;
    if l > 0 && r > 0 {
      DivBound(l, r, INT64_MAX);
      MulLe(0, l, r);
    } else if l > 0 {
      NegativeQuotient(INT64_MIN, l, r);
      MulLe(r, 0, l);
    } else if r > 0 {
      NegativeQuotient(INT64_MIN, r, l);
      MulLe(l, 0, r);
    } else {
      DivNegDivisor(INT64_MAX, -r);
      DivBound(-l, -r, INT64_MAX);
      MulLe(0, -l, -r);
      assert (-l) * (-r) == l * r;
    }
  }

  // x < trunc(low / d) exactly when x * d < low, for a negative limit.
  lemma NegativeQuotient(low: int, d: int, x: int)
    requires low < 0 && d > 0
    ensures x < TruncDiv(low, d) <==> x * d < low
  {
    DivBound(-x, d, -low);
    assert (-x) * d == -(x * d);
  }

  function Multiply(left: int64, right: int64): (r: Result<int64>)
    ensures r == if InInt64(left * right) then Ok(left * right) else Err(ExecutionError)
  {
    if left == 0 || right == 0 then
      Ok(0)
    else if left == -1 then
      Negate(right)
    else if right == -1 then
      Negate(left)
    else
      ProductOverflowsExactly(left, right);
      if ProductOverflows(left, right) then Err(ExecutionError) else Ok(left * right)
  }

  function Divide(left: int64, right: int64): (r: Result<int64>)
    ensures r.Ok? <==> right != 0 && InInt64(TruncDiv(left, right))
    ensures r.Ok? ==> IsTruncatedQuotient(left, right, r.value)
    ensures r.Err? ==> r.error == ExecutionError
  {
    if right == 0 then Err(ExecutionError)
    else if left == INT64_MIN && right == -1 then
      assert TruncDiv(left, right) == 0 - left;
      Err(ExecutionError)
    else
      QuotientInRange(left, right);
      TruncDivTruncates(left, right);
      Ok(TruncDiv(left, right))
  }

  function RequireInteger(v: Value): Result<int64> {
    if v.Int? then Ok(v.i) else Err(TypeMismatch)
  }

  function RequireBoolean(v: Value): Result<bool> {
    if v.Bool? then Ok(v.b) else Err(TypeMismatch)
  }

  // Booleans compare as 0 and 1, so TRUE equals 1.
  function IntegralValue(v: Value): Option<int64> {
    match v
    case Int(i) => Some(i)
    case Bool(b) => Some(if b then 1 else 0)
    case _ => None
  }

  // std::string's order: lexicographic on unsigned characters.
  predicate TextLess(a: Text, b: Text) {
    if b == [] then false
    else if a == [] then true
    else a[0] < b[0] || (a[0] == b[0] && TextLess(a[1..], b[1..]))
  }

  function CompareValues(left: Value, right: Value): Result<int> {
    if left.Null? || right.Null? then
      Err(ExecutionError)
    else if IntegralValue(left).Some? && IntegralValue(right).Some? then
      var l, r := IntegralValue(left).value, IntegralValue(right).value;
      Ok(if l < r then -1 else if r < l then 1 else 0)
    else if left.Str? && right.Str? then
      Ok(if TextLess(left.s, right.s) then -1 else if TextLess(right.s, left.s) then 1 else 0)
    else
      Err(TypeMismatch)
  }

  lemma {:induction false} TextLessTrichotomy(a: Text, b: Text)
    ensures TextLess(a, b) ==> !TextLess(b, a) && a != b
    ensures !TextLess(a, b) && !TextLess(b, a) ==> a == b
  {
    if a != [] && b != [] {
      TextLessTrichotomy(a[1..], b[1..]);
      assert a == [a[0]] + a[1..] && b == [b[0]] + b[1..];
    }
  }

  lemma {:induction false} TextLessTransitive(a: Text, b: Text, c: Text)
    requires TextLess(a, b) && TextLess(b, c)
    ensures TextLess(a, c)
  {
    if a != [] && a[0] == b[0] && b[0] == c[0] {
      TextLessTransitive(a[1..], b[1..], c[1..]);
    }
  }

  // The first difference decides: at it the smaller character, or the end of the shorter text.
  ghost predicate FirstDifference(a: Text, b: Text, k: nat) {
    && k <= |a| && k < |b| && a[..k] == b[..k]
    && (k == |a| || a[k] < b[k])
  }

  lemma {:induction false} TextLessExactly(a: Text, b: Text)
    ensures TextLess(a, b) <==> exists k :: FirstDifference(a, b, k)
  {
    if a == [] || b == [] {
      assert b != [] ==> FirstDifference(a, b, 0);
    } else {
      TextLessExactly(a[1..], b[1..]);
      if a[0] < b[0] {
        assert FirstDifference(a, b, 0);
      }
      if a[0] == b[0] {
        forall k: nat | FirstDifference(a[1..], b[1..], k) ensures FirstDifference(a, b, k + 1) {
          assert a[..k + 1] == [a[0]] + a[1..][..k] && b[..k + 1] == [b[0]] + b[1..][..k];
        }
      }
      forall k: nat | FirstDifference(a, b, k)
        ensures a[0] < b[0] || (a[0] == b[0] && FirstDifference(a[1..], b[1..], k - 1))
      {
        if k > 0 {
          assert a[..k][0] == a[0] && b[..k][0] == b[0];
          assert a[1..][..k - 1] == a[..k][1..] && b[1..][..k - 1] == b[..k][1..];
        }
      }
    }
  }

  // The sign says which operand is smaller: numerically with FALSE as 0 and TRUE as 1, or as text.
  lemma ComparisonFollowsOrder(left: Value, right: Value)
    requires CompareValues(left, right).Ok?
    ensures IntegralValue(left).Some? ==>
              && IntegralValue(right).Some?
              && (CompareValues(left, right).value < 0 <==> IntegralValue(left).value < IntegralValue(right).value)
    ensures left.Str? ==> right.Str? && (CompareValues(left, right).value < 0 <==> exists k :: FirstDifference(left.s, right.s, k))
  {
    if left.Str? && right.Str? {
      TextLessExactly(left.s, right.s);
    }
  }

  // CompareValues is a total order on each comparable family: zero only for equal values
  // (up to TRUE = 1 and FALSE = 0), and swapping the operands swaps the sign or the error.
  lemma ComparisonIsAntisymmetric(left: Value, right: Value)
    ensures CompareValues(left, right).Ok? <==> CompareValues(right, left).Ok?
    ensures CompareValues(left, right).Err? ==> CompareValues(right, left) == CompareValues(left, right)
    ensures CompareValues(left, right).Ok? ==>
              && CompareValues(right, left).value == -CompareValues(left, right).value
              && (CompareValues(left, right).value == 0 <==>
                    left == right || (IntegralValue(left).Some? && IntegralValue(left) == IntegralValue(right)))
  {
    if left.Str? && right.Str? {
      TextLessTrichotomy(left.s, right.s);
      TextLessTrichotomy(right.s, left.s);
    }
  }
}
