/** Values shared by every part of the model: optional values, exact sums and means,
    powers, and the extended reals that numpy float arithmetic produces on a zero divisor. */
module Common {

  /** An optional value: a missing quote field, a failed lookup, a computation that returned None. */
  datatype Option<+T> = None | Some(value: T) {
    /** Python's `d.get(key, default)` once the key lookup has been turned into an Option. */
    function GetOr(default: T): T {
      match this
      case Some(v) => v
      case None => default
    }
  }

  /** Python truthiness of an optional number: present and non-zero. */
  predicate Truthy(o: Option<real>) {
    o.Some? && o.value != 0.0
  }

  function Abs(x: real): (r: real)
    ensures r >= 0.0 && (r == x || r == -x)
    ensures r == 0.0 <==> x == 0.0
  {
    if x < 0.0 then -x else x
  }

  function Min(a: int, b: int): int {
    if a <= b then a else b
  }

  /** Python's `sum(xs)`, adding from the left. */
  function Sum(xs: seq<real>): real {
    if xs == [] then 0.0 else Sum(xs[..|xs| - 1]) + xs[|xs| - 1]
  }

  /** `sum(xs) / len(xs)`, or None for an empty list. */
  function Mean(xs: seq<real>): (r: Option<real>)
    ensures r.None? <==> xs == []
    ensures r.Some? ==> r.value * |xs| as real == Sum(xs)
  {
    if xs == [] then None else Some(Sum(xs) / |xs| as real)
  }

  lemma {:induction false} SumBounds(xs: seq<real>, lo: real, hi: real)
    requires forall i :: 0 <= i < |xs| ==> lo <= xs[i] <= hi
    ensures |xs| as real * lo <= Sum(xs) <= |xs| as real * hi
  {
    if xs != [] {
      SumBounds(xs[..|xs| - 1], lo, hi);
    }
  }

  /** The mean of a non-empty list lies between any lower and upper bound of its elements. */
  lemma MeanWithinBounds(xs: seq<real>, lo: real, hi: real)
    requires xs != []
    requires forall i :: 0 <= i < |xs| ==> lo <= xs[i] <= hi
    ensures lo <= Mean(xs).value <= hi
  {
    SumBounds(xs, lo, hi);
    var n := |xs| as real;
    var m := Mean(xs).value;
    assert m * n == Sum(xs);
  }

  /** Multiplying by a positive number keeps the sign. */
  lemma ProductSign(a: real, d: real)
    requires d > 0.0
    ensures a < 0.0 <==> a * d < 0.0
    ensures a > 0.0 <==> a * d > 0.0
  {
    if a < 0.0 { assert a * d < 0.0; } else if a > 0.0 { assert a * d > 0.0; } else { assert a * d == 0.0; }
  }

  /** A product is negative exactly when its factors have opposite signs. */
  lemma NegativeProduct(a: real, b: real)
    ensures a * b < 0.0 <==> (a < 0.0 && b > 0.0) || (a > 0.0 && b < 0.0)
  {
    if b > 0.0 {
      ProductSign(a, b);
    } else if b < 0.0 {
      ProductSign(-a, -b);
      assert (-a) * (-b) == a * b;
    } else {
      assert a * b == 0.0;
    }
  }

  /** The present values of a list of optional values, in order (NaN entries dropped). */
  function Present(xs: seq<Option<real>>): seq<real> {
    if xs == [] then []
    else
      var last := xs[|xs| - 1];
      Present(xs[..|xs| - 1]) + (if last.Some? then [last.value] else [])
  }

  /** Every element of a list of numbers, as present optional values. */
  function Lift(xs: seq<real>): (r: seq<Option<real>>)
    ensures |r| == |xs|
  {
    seq(|xs|, i requires 0 <= i < |xs| => Some(xs[i]))
  }

  lemma {:induction false} PresentOfLift(xs: seq<real>)
    ensures Present(Lift(xs)) == xs
  {
    if xs != [] {
      assert Lift(xs)[..|xs| - 1] == Lift(xs[..|xs| - 1]);
      PresentOfLift(xs[..|xs| - 1]);
    }
  }

  /** x to the natural power n, as Python's `x ** n` for a whole exponent. */
  function Pow(x: real, n: nat): real {
    if n == 0 then 1.0 else Pow(x, n - 1) * x
  }

  /** A power is zero exactly when its base is zero and its exponent positive. */
  lemma {:induction false} PowZeroIff(x: real, n: nat)
    ensures Pow(x, n) == 0.0 <==> x == 0.0 && n >= 1
  {
    if n > 0 {
      PowZeroIff(x, n - 1);
    }
  }

  lemma {:induction false} PowPositive(x: real, n: nat)
    requires x > 0.0
    ensures Pow(x, n) > 0.0
  {
    if n > 0 {
      PowPositive(x, n - 1);
    }
  }

  /** A Python dictionary: the keys in insertion order, and the value of each. */
  datatype Dict<K(==,!new), V> = Dict(keys: seq<K>, values: map<K, V>)

  ghost predicate WellFormed<K(!new), V>(d: Dict<K, V>) {
    (forall i, j :: 0 <= i < j < |d.keys| ==> d.keys[i] != d.keys[j]) &&
    (forall k :: k in d.keys <==> k in d.values)
  }

  /** `d[key] = value`: a new key goes to the end, an existing key keeps its place and takes
      the new value. */
  function Put<K(==,!new), V>(d: Dict<K, V>, key: K, value: V): (r: Dict<K, V>)
    requires WellFormed(d)
    ensures WellFormed(r)
    ensures r.values == d.values[key := value]
    ensures key in d.values ==> r.keys == d.keys
    ensures key !in d.values ==> r.keys == d.keys + [key]
  {
    if key in d.values then Dict(d.keys, d.values[key := value])
    else Dict(d.keys + [key], d.values[key := value])
  }

  /** A double-precision result that may be infinite or not-a-number. The finite values are
      modelled exactly; rounding is not modelled. */
  datatype Extended = Finite(value: real) | PosInf | NegInf | NaN

  /** numpy's `a / b` on float64: the exact quotient when b is non-zero, otherwise an infinity
      signed like a, or NaN for 0 / 0 (signed zeros are not modelled). */
  function Quotient(a: real, b: real): (r: Extended)
    ensures r.Finite? <==> b != 0.0
    ensures r.Finite? ==> r.value * b == a
    ensures r == NaN <==> a == 0.0 && b == 0.0
    ensures b == 0.0 ==> (r == PosInf <==> a > 0.0) && (r == NegInf <==> a < 0.0)
  {
    if b != 0.0 then Finite(a / b)
    else if a > 0.0 then PosInf
    else if a < 0.0 then NegInf
    else NaN
  }

  function Negate(e: Extended): (r: Extended)
    ensures r.Finite? <==> e.Finite?
  {
    match e
    case Finite(v) => Finite(-v)
    case PosInf => NegInf
    case NegInf => PosInf
    case NaN => NaN
  }

  /** c + e for a finite c. */
  function Plus(c: real, e: Extended): (r: Extended)
    ensures r.Finite? <==> e.Finite?
  {
    match e
    case Finite(v) => Finite(c + v)
    case _ => e
  }

  /** a * e for a finite a: an infinity times zero is NaN. */
  function Times(a: real, e: Extended): (r: Extended)
    ensures r.Finite? <==> e.Finite?
  {
    match e
    case Finite(v) => Finite(a * v)
    case NaN => NaN
    case _ => if a > 0.0 then e else if a < 0.0 then Negate(e) else NaN
  }

  /** e / b for a finite b. */
  function Over(e: Extended, b: real): (r: Extended)
    ensures r.Finite? <==> e.Finite? && b != 0.0
  {
    match e
    case Finite(v) => Quotient(v, b)
    case NaN => NaN
    case _ => if b < 0.0 then Negate(e) else e
  }
}
