/** A point of the represented function and the two orders the container keeps points in. */
module Points {

  /** One (argument, value) pair; the argument and value types are instantiated as `int`. */
  datatype Point = Point(arg: int, value: int)

  /** The comparator of the point store: ascending argument, values ignored. */
  predicate ArgBefore(p: Point, q: Point)
  {
    p.arg < q.arg
  }

  /** The store order is a strict weak order whose equivalent points are exactly the points
      with the same argument: the store's `find` looks a point up by its argument alone. */
  lemma ArgBeforeIsStrictWeakOrder(p: Point, q: Point, r: Point)
    ensures !ArgBefore(p, p)
    ensures ArgBefore(p, q) ==> !ArgBefore(q, p)
    ensures ArgBefore(p, q) && ArgBefore(q, r) ==> ArgBefore(p, r)
    ensures !ArgBefore(p, q) && !ArgBefore(q, p) <==> p.arg == q.arg
    ensures p.arg == q.arg ==> (ArgBefore(p, r) <==> ArgBefore(q, r))
  {
  }

  /** The comparator of the maxima index: when the values differ, the larger value comes
      first; otherwise the smaller argument comes first. */
  predicate MaximaBefore(p: Point, q: Point): (b: bool)
    ensures b <==> p.value > q.value || (p.value == q.value && p.arg < q.arg)
  {
    if p.value < q.value || q.value < p.value then q.value < p.value
    else p.arg < q.arg
  }

  /** The maxima order is "value descending, then argument ascending", and it is a strict
      total order on points: two points that neither precedes are the same point. */
  lemma MaximaBeforeIsStrictTotalOrder(p: Point, q: Point, r: Point)
    ensures MaximaBefore(p, q) <==> p.value > q.value || (p.value == q.value && p.arg < q.arg)
    ensures !MaximaBefore(p, p)
    ensures MaximaBefore(p, q) ==> !MaximaBefore(q, p)
    ensures MaximaBefore(p, q) && MaximaBefore(q, r) ==> MaximaBefore(p, r)
    ensures p != q ==> MaximaBefore(p, q) || MaximaBefore(q, p)
  {
  }
}
