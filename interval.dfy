/**
 * Closed parameter ranges `[min, max]` (src/interval.rs). The source's bounds
 * are `f64` values that may be infinite, so a bound is an extended real.
 */
module Intervals {

  datatype Bound = NegInf | Finite(value: real) | PosInf

  /** `a <= b` in the extended reals, as IEEE comparison behaves on non-NaN values. */
  predicate Le(a: Bound, b: Bound)
  {
    match a
    case NegInf => true
    case PosInf => b.PosInf?
    case Finite(x) => b.PosInf? || (b.Finite? && x <= b.value)
  }

  /** `a < b` in the extended reals. */
  predicate Lt(a: Bound, b: Bound)
  {
    Le(a, b) && a != b
  }

  datatype Interval = Interval(min: Bound, max: Bound) {

    predicate Contains(x: real)
    {
      Le(min, Finite(x)) && Le(Finite(x), max)
    }

    predicate Surrounds(x: real)
    {
      Lt(min, Finite(x)) && Lt(Finite(x), max)
    }
  }

  const Empty: Interval := Interval(PosInf, NegInf)

  const Universe: Interval := Interval(NegInf, PosInf)

  /** `Interval::new()`: the whole line. */
  function New(): (i: Interval)
    ensures i == Universe
    ensures forall x: real :: i.Contains(x) && i.Surrounds(x)
  {
    Interval(NegInf, PosInf)
  }

  function WithBounds(min: Bound, max: Bound): (i: Interval)
    ensures i.min == min && i.max == max
  {
    Interval(min, max)
  }

  /** On finite bounds, `contains` is `a <= x <= b` and `surrounds` is `a < x < b`. */
  lemma FiniteBoundsMeaning(a: real, b: real, x: real)
    ensures WithBounds(Finite(a), Finite(b)).Contains(x) <==> a <= x <= b
    ensures WithBounds(Finite(a), Finite(b)).Surrounds(x) <==> a < x < b
  {
  }

  /** A missing bound (infinite) constrains nothing on its side. */
  lemma InfiniteBoundsMeaning(i: Interval, x: real)
    ensures i.min.NegInf? ==> (i.Contains(x) <==> Le(Finite(x), i.max))
    ensures i.max.PosInf? ==> (i.Contains(x) <==> Le(i.min, Finite(x)))
    ensures i.min.PosInf? || i.max.NegInf? ==> !i.Contains(x)
  {
  }

  lemma SurroundsImpliesContains(i: Interval, x: real)
    ensures i.Surrounds(x) ==> i.Contains(x)
  {
  }

  /** `surrounds` is false at a finite endpoint, where `contains` may hold. */
  lemma SurroundsExcludesEndpoints(i: Interval)
    ensures i.min.Finite? ==> !i.Surrounds(i.min.value)
    ensures i.max.Finite? ==> !i.Surrounds(i.max.value)
    ensures i.min.Finite? && Le(i.min, i.max) ==> i.Contains(i.min.value)
  {
  }

  lemma EmptyContainsNothing(x: real)
    ensures !Empty.Contains(x)
    ensures !Empty.Surrounds(x)
  {
  }

  lemma UniverseContainsEverything(x: real)
    ensures Universe.Contains(x) && Universe.Surrounds(x)
    ensures New() == Universe
  {
  }

  /** `Le` is a total order on bounds; the window reasoning of the scene relies on it. */
  lemma LeTotalOrder(a: Bound, b: Bound, c: Bound)
    ensures Le(a, a)
    ensures Le(a, b) && Le(b, a) ==> a == b
    ensures Le(a, b) && Le(b, c) ==> Le(a, c)
    ensures Le(a, b) || Le(b, a)
    ensures Lt(a, b) <==> !Le(b, a)
  {
  }
}
