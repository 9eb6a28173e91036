/**
 * JavaScript numbers as the search uses them: integer scores together with
 * -Infinity and Infinity, the initial maxEval/minEval, alpha and beta.
 */
module ExtInts {
  datatype ExtInt = NegInf | Fin(n: int) | PosInf

  /** a <= b on the extended line. */
  predicate Le(a: ExtInt, b: ExtInt) {
    a.NegInf? || b.PosInf? || (a.Fin? && b.Fin? && a.n <= b.n)
  }

  /** a < b on the extended line. */
  predicate Lt(a: ExtInt, b: ExtInt) {
    !Le(b, a)
  }

  /** Math.max. */
  function Max(a: ExtInt, b: ExtInt): (m: ExtInt)
    ensures Le(a, m) && Le(b, m)
    ensures m == a || m == b
  {
    if Le(a, b) then b else a
  }

  /** Math.min. */
  function Min(a: ExtInt, b: ExtInt): (m: ExtInt)
    ensures Le(m, a) && Le(m, b)
    ensures m == a || m == b
  {
    if Le(a, b) then a else b
  }

  /** Le is a total order. */
  lemma LeTotalOrder(a: ExtInt, b: ExtInt, c: ExtInt)
    ensures Le(a, a)
    ensures Le(a, b) || Le(b, a)
    ensures Le(a, b) && Le(b, a) ==> a == b
    ensures Le(a, b) && Le(b, c) ==> Le(a, c)
    ensures Lt(a, b) <==> Le(a, b) && a != b
  {
  }

  /** Max is the least upper bound and Min the greatest lower bound. */
  lemma MaxMinBounds(a: ExtInt, b: ExtInt, c: ExtInt)
    ensures Le(Max(a, b), c) <==> Le(a, c) && Le(b, c)
    ensures Le(c, Min(a, b)) <==> Le(c, a) && Le(c, b)
    ensures Lt(c, Max(a, b)) <==> Lt(c, a) || Lt(c, b)
    ensures Lt(Min(a, b), c) <==> Lt(a, c) || Lt(b, c)
  {
  }
}
