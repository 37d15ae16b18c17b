/** The part of JavaScript's number semantics the scripts rely on: division by zero
    yields NaN or an infinity, NaN poisons arithmetic, and every comparison with NaN
    is false. Finite values are exact rationals, so rounding to doubles and the sign
    of zero are not represented. */
module JsNumber {

  datatype Num = NaN | PosInf | NegInf | Fin(v: real)

  function FromInt(i: int): Num {
    Fin(i as real)
  }

  /** -1, 0 or 1 for a non-NaN number. */
  function Sign(a: Num): int
    requires !a.NaN?
  {
    match a
    case PosInf => 1
    case NegInf => -1
    case Fin(x) => if x > 0.0 then 1 else if x < 0.0 then -1 else 0
  }

  function InfOfSign(s: int): Num {
    if s >= 0 then PosInf else NegInf
  }

  /** JavaScript `a / b`. A zero divisor is taken as +0. */
  function Div(a: Num, b: Num): (r: Num)
    ensures a.Fin? && b.Fin? && b.v != 0.0 ==> r == Fin(a.v / b.v)
    ensures a.NaN? || b.NaN? ==> r.NaN?
  {
    if a.NaN? || b.NaN? then NaN
    else if a.Fin? && b.Fin? then
      if b.v != 0.0 then Fin(a.v / b.v)
      else if a.v == 0.0 then NaN
      else InfOfSign(Sign(a))
    else if a.Fin? then Fin(0.0)
    else if b.Fin? then InfOfSign(if b.v < 0.0 then -Sign(a) else Sign(a))
    else NaN
  }

  /** JavaScript `a * b`. */
  function Mul(a: Num, b: Num): (r: Num)
    ensures a.Fin? && b.Fin? ==> r == Fin(a.v * b.v)
    ensures a.NaN? || b.NaN? ==> r.NaN?
  {
    if a.NaN? || b.NaN? then NaN
    else if a.Fin? && b.Fin? then Fin(a.v * b.v)
    else if Sign(a) == 0 || Sign(b) == 0 then NaN
    else InfOfSign(Sign(a) * Sign(b))
  }

  /** JavaScript `a + b` on numbers. */
  function Add(a: Num, b: Num): (r: Num)
    ensures a.Fin? && b.Fin? ==> r == Fin(a.v + b.v)
    ensures a.NaN? || b.NaN? ==> r.NaN?
  {
    if a.NaN? || b.NaN? then NaN
    else if a.Fin? && b.Fin? then Fin(a.v + b.v)
    else if a.Fin? then b
    else if b.Fin? || a == b then a
    else NaN
  }

  /** JavaScript `a < b`. */
  predicate Lt(a: Num, b: Num) {
    if a.NaN? || b.NaN? then false
    else if a.Fin? && b.Fin? then a.v < b.v
    else (a.NegInf? && !b.NegInf?) || (b.PosInf? && !a.PosInf?)
  }

  /** JavaScript `a > b`. */
  predicate Gt(a: Num, b: Num) {
    Lt(b, a)
  }

  lemma NaNIncomparable(a: Num)
    ensures !Lt(NaN, a) && !Lt(a, NaN) && !Gt(NaN, a) && !Gt(a, NaN)
  {
  }

  lemma PosMul(x: real, y: real)
    requires x > 0.0 && y > 0.0
    ensures x * y > 0.0
  {
  }

  /** Comparing a quotient with c is comparing the dividend with c times the divisor. */
  lemma RatioCompare(a: real, b: real, c: real)
    requires b > 0.0
    ensures a / b > c <==> a > c * b
    ensures a / b < c <==> a < c * b
  {
    var q := a / b;
    assert q * b == a;
    if q > c {
      PosMul(q - c, b);
      assert (q - c) * b == q * b - c * b;
    } else if q < c {
      PosMul(c - q, b);
      assert (c - q) * b == c * b - q * b;
    }
  }

  /** The percentage (n / t) * 100 of two integers with t > 0 is the finite rational
      100 n / t, so comparing it with a bound compares integers. */
  lemma Percent(n: int, t: int)
    requires t > 0
    ensures Mul(Div(FromInt(n), FromInt(t)), FromInt(100)) == Fin(100.0 * (n as real) / (t as real))
  {
    assert (n as real / t as real) * 100.0 == 100.0 * (n as real) / (t as real);
  }
}
