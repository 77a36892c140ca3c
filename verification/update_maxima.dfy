/** The decision half of `update_maxima`: which maxima entries a single-point mutation
    adds and removes, and why applying exactly those changes restores the index.

    `update_maxima(it, ignore)` runs on a store in one of three shapes:
    - `erase`: the store at rest, `it == ignore` is the point about to be removed;
    - `set_value` of a new argument: the new point at `it` is already in, `ignore` is end;
    - `set_value` of a present argument: the stale point sits at `ignore == it - 1`,
      right before its replacement at `it`. */
module MaximaUpdate {
  import opened Points
  import opened Seqs
  import opened PointStore
  import opened LocalMaxima
  import opened MaximaIndex

  /** The three shapes of the store that `update_maxima` is called on. */
  ghost predicate Transient(t: seq<Point>, it: nat, ignore: nat)
  {
    && it < |t| && ignore <= |t|
    && ( (ignore == it && Sorted(t))
      || (ignore == |t| && Sorted(t))
      || (ignore + 1 == it && t[ignore].arg == t[it].arg
          && Sorted(RemoveAt(t, ignore)) && Sorted(RemoveAt(t, it))))
  }

  /** The store as it was before the mutation began. */
  function Before(t: seq<Point>, it: nat, ignore: nat): seq<Point>
    requires it < |t|
  {
    if it == ignore then t else RemoveAt(t, it)
  }

  /** Whether `update_maxima` runs a lookup or a value comparison that can throw before its
      first insertion: the `find` of the ignored point in the index, or the comparisons of
      `check_if_maxima` and `find` for a neighbour that `get_left` or `get_right` finds. */
  function LooksUp(t: seq<Point>, it: nat, ignore: nat): bool
    requires it < |t| && ignore <= |t|
  {
    ignore < |t| || GetLeft(t, it, ignore) < |t| || GetRight(t, it, ignore) < |t|
  }

  /** Such a lookup or comparison runs exactly when the store before the mutation holds a
      point: without one there is no ignored point and no neighbour. */
  lemma LooksUpIffNonEmpty(t: seq<Point>, it: nat, ignore: nat)
    requires it < |t| && (ignore == it || ignore == |t| || ignore + 1 == it)
    ensures LooksUp(t, it, ignore) <==> Before(t, it, ignore) != []
  {
    NeighboursAreNearest(t, it, ignore);
  }

  /** Before and after the mutation the store differs in at most one point, between a
      common prefix and a common suffix; the ends of those are the neighbours that
      `get_left` and `get_right` find. */
  lemma TransientShape(t: seq<Point>, it: nat, ignore: nat)
      returns (pre: seq<Point>, x: seq<Point>, y: seq<Point>, suf: seq<Point>)
    requires it < |t| && (ignore == it || ignore == |t| || ignore + 1 == it)
    ensures Before(t, it, ignore) == pre + x + suf
    ensures Without(t, ignore) == pre + y + suf
    ensures x == (if ignore < |t| then [t[ignore]] else [])
    ensures y == (if it != ignore then [t[it]] else [])
    ensures GetLeft(t, it, ignore) < |t| <==> pre != []
    ensures pre != [] ==> t[GetLeft(t, it, ignore)] == pre[|pre| - 1]
    ensures GetRight(t, it, ignore) < |t| <==> suf != []
    ensures suf != [] ==> t[GetRight(t, it, ignore)] == suf[0]
  {
    pre, x, y, suf := ShapeSplit(t, it, ignore);
    ShapeNeighbours(t, it, ignore, pre, suf);
  }

  /** The prefix, the changed point before and after, and the suffix, one case per shape. */
  lemma ShapeSplit(t: seq<Point>, it: nat, ignore: nat)
      returns (pre: seq<Point>, x: seq<Point>, y: seq<Point>, suf: seq<Point>)
    requires it < |t| && (ignore == it || ignore == |t| || ignore + 1 == it)
    ensures Before(t, it, ignore) == pre + x + suf
    ensures Without(t, ignore) == pre + y + suf
    ensures x == (if ignore < |t| then [t[ignore]] else [])
    ensures y == (if it != ignore then [t[it]] else [])
    ensures pre == t[..if ignore + 1 == it then it - 1 else it] && suf == t[it + 1..]
  {
    if ignore == it {
      pre, x, y, suf := ShapeOfErase(t, it);
    } else if ignore == |t| {
      pre, x, y, suf := ShapeOfNew(t, it);
    } else {
      pre, x, y, suf := ShapeOfReplace(t, it);
    }
  }

  /** The ends of the common prefix and suffix are the positions `get_left` and
      `get_right` find. */
  lemma ShapeNeighbours(t: seq<Point>, it: nat, ignore: nat, pre: seq<Point>, suf: seq<Point>)
    requires it < |t| && (ignore == it || ignore == |t| || ignore + 1 == it)
    requires pre == t[..if ignore + 1 == it then it - 1 else it] && suf == t[it + 1..]
    ensures GetLeft(t, it, ignore) < |t| <==> pre != []
    ensures pre != [] ==> t[GetLeft(t, it, ignore)] == pre[|pre| - 1]
    ensures GetRight(t, it, ignore) < |t| <==> suf != []
    ensures suf != [] ==> t[GetRight(t, it, ignore)] == suf[0]
  {
  }

  /** Before and after the mutation the store is at rest. */
  lemma TransientOrder(t: seq<Point>, it: nat, ignore: nat)
    requires Transient(t, it, ignore)
    ensures Sorted(Before(t, it, ignore)) && Sorted(Without(t, ignore))
  {
    if ignore == it || ignore == |t| {
      RemoveKeepsOrder(t, it);
    }
  }

  lemma ShapeOfErase(t: seq<Point>, it: nat)
      returns (pre: seq<Point>, x: seq<Point>, y: seq<Point>, suf: seq<Point>)
    requires it < |t|
    ensures t == pre + x + suf && RemoveAt(t, it) == pre + y + suf
    ensures x == [t[it]] && y == [] && pre == t[..it] && suf == t[it + 1..]
  {
    pre, x, y, suf := t[..it], [t[it]], [], t[it + 1..];
    assert t == pre + x + suf;
  }

  lemma ShapeOfNew(t: seq<Point>, it: nat)
      returns (pre: seq<Point>, x: seq<Point>, y: seq<Point>, suf: seq<Point>)
    requires it < |t|
    ensures RemoveAt(t, it) == pre + x + suf && t == pre + y + suf
    ensures x == [] && y == [t[it]] && pre == t[..it] && suf == t[it + 1..]
  {
    pre, x, y, suf := t[..it], [], [t[it]], t[it + 1..];
    assert t == pre + y + suf;
  }

  lemma ShapeOfReplace(t: seq<Point>, it: nat)
      returns (pre: seq<Point>, x: seq<Point>, y: seq<Point>, suf: seq<Point>)
    requires 0 < it < |t|
    ensures RemoveAt(t, it) == pre + x + suf && RemoveAt(t, it - 1) == pre + y + suf
    ensures x == [t[it - 1]] && y == [t[it]] && pre == t[..it - 1] && suf == t[it + 1..]
  {
    pre, x, y, suf := t[..it - 1], [t[it - 1]], [t[it]], t[it + 1..];
    assert t[..it] == pre + x;
    assert RemoveAt(t, it) == pre + x + suf;
    assert t[..it - 1] + t[it..] == pre + y + suf;
  }

  /** What `update_maxima` decides before touching the index: whether the ignored point is
      indexed, whether to index the new point, and for each of the two neighbours whether
      to index it or to drop it. */
  datatype Plan = Plan(
    oldIn: bool, addNew: bool,
    left: nat, leftAdd: bool, leftRemove: bool,
    right: nat, rightAdd: bool, rightRemove: bool)

  /** What each decision of a plan means: membership of the index as `find` reports it,
      local-maximum status as `check_if_maxima` reports it for the store without the
      ignored point. */
  ghost predicate Decided(t: seq<Point>, it: nat, ignore: nat, m: seq<Point>, plan: Plan)
    requires it < |t| && ignore <= |t|
  {
    && plan.left == GetLeft(t, it, ignore) && plan.right == GetRight(t, it, ignore)
    && (plan.oldIn <==> ignore < |t| && t[ignore] in m)
    && (plan.addNew <==> it != ignore && CheckIfMaxima(t, it, ignore))
    && (plan.leftAdd <==>
          plan.left < |t| && t[plan.left] !in m && CheckIfMaxima(t, plan.left, ignore))
    && (plan.leftRemove <==>
          plan.left < |t| && t[plan.left] in m && !CheckIfMaxima(t, plan.left, ignore))
    && (plan.rightAdd <==>
          plan.right < |t| && t[plan.right] !in m && CheckIfMaxima(t, plan.right, ignore))
    && (plan.rightRemove <==>
          plan.right < |t| && t[plan.right] in m && !CheckIfMaxima(t, plan.right, ignore))
  }

  /** The decision part of `update_maxima(it, ignore)` on the store `t` and the index `m`:
      membership is looked up with `find`, status with `check_if_maxima`. */
  function PlanUpdate(t: seq<Point>, it: nat, ignore: nat, m: seq<Point>): (plan: Plan)
    requires it < |t| && ignore <= |t|
    ensures Decided(t, it, ignore, m, plan)
  {
    var oldIn := ignore != |t| && IndexOf(m, t[ignore]) != |m|;
    var addNew := if it == ignore then false else CheckIfMaxima(t, it, ignore);
    var l := GetLeft(t, it, ignore);
    var r := GetRight(t, it, ignore);
    var lIn := l != |t| && IndexOf(m, t[l]) != |m|;
    var rIn := r != |t| && IndexOf(m, t[r]) != |m|;
    Plan(oldIn, addNew,
      l, l != |t| && !lIn && CheckIfMaxima(t, l, ignore),
         l != |t| && lIn && !CheckIfMaxima(t, l, ignore),
      r, r != |t| && !rIn && CheckIfMaxima(t, r, ignore),
         r != |t| && rIn && !CheckIfMaxima(t, r, ignore))
  }

  /** The positions a plan touches are positions of the store. */
  ghost predicate InRange(t: seq<Point>, it: nat, ignore: nat, plan: Plan)
  {
    && it < |t| && ignore <= |t|
    && (plan.oldIn ==> ignore < |t|)
    && (plan.leftAdd || plan.leftRemove ==> plan.left < |t|)
    && (plan.rightAdd || plan.rightRemove ==> plan.right < |t|)
  }

  /** The entries a plan inserts into the index, in the order it inserts them. */
  function Insertions(t: seq<Point>, it: nat, ignore: nat, plan: Plan): seq<Point>
    requires InRange(t, it, ignore, plan)
  {
    (if plan.addNew then [t[it]] else []) +
    (if plan.leftAdd then [t[plan.left]] else []) +
    (if plan.rightAdd then [t[plan.right]] else [])
  }

  /** The entries a plan erases from the index, in the order it erases them. */
  function Removals(t: seq<Point>, it: nat, ignore: nat, plan: Plan): seq<Point>
    requires InRange(t, it, ignore, plan)
  {
    (if plan.oldIn then [t[ignore]] else []) +
    (if plan.leftRemove then [t[plan.left]] else []) +
    (if plan.rightRemove then [t[plan.right]] else [])
  }

  /** The index a plan leaves behind, counted point by point. */
  ghost function Applied(t: seq<Point>, it: nat, ignore: nat, m: seq<Point>, plan: Plan): multiset<Point>
    requires InRange(t, it, ignore, plan)
  {
    multiset(m) + multiset(Insertions(t, it, ignore, plan)) - multiset(Removals(t, it, ignore, plan))
  }

  /** Correctness of the decision: applying the plan to an index of the store before the
      mutation yields, point by point, exactly the local maxima of the store after it. */
  lemma PlanCount(t: seq<Point>, it: nat, ignore: nat, m: seq<Point>, p: Point)
    requires Transient(t, it, ignore) && IndexesMaxima(m, Before(t, it, ignore))
    ensures var plan := PlanUpdate(t, it, ignore, m);
      InRange(t, it, ignore, plan) &&
      Applied(t, it, ignore, m, plan)[p] == if p in MaximaSet(Without(t, ignore)) then 1 else 0
  {
    var plan := PlanUpdate(t, it, ignore, m);
    var pre, x, y, suf := PlanOnShape(t, it, ignore, m);
    StrictCounts(m, p);
    assert p in m <==> p in MaximaSet(pre + x + suf);
    PlanCountShaped(t, it, ignore, m, plan, p, pre, x, y, suf);
  }

  /** The plan of a mutation, read on the points around the change. */
  lemma PlanOnShape(t: seq<Point>, it: nat, ignore: nat, m: seq<Point>)
      returns (pre: seq<Point>, x: seq<Point>, y: seq<Point>, suf: seq<Point>)
    requires Transient(t, it, ignore)
    ensures Before(t, it, ignore) == pre + x + suf && Without(t, ignore) == pre + y + suf
    ensures Shaped(t, it, ignore, m, PlanUpdate(t, it, ignore, m), pre, x, y, suf)
  {
    pre, x, y, suf := TransientShape(t, it, ignore);
    TransientOrder(t, it, ignore);
    Statuses(t, it, ignore, pre, x, y, suf);
    PlanShaped(t, it, ignore, m, pre, x, y, suf);
  }

  /** `PlanCount` on the points around the change, one case per kind of point. */
  lemma PlanCountShaped(t: seq<Point>, it: nat, ignore: nat, m: seq<Point>, plan: Plan, p: Point,
                        pre: seq<Point>, x: seq<Point>, y: seq<Point>, suf: seq<Point>)
    requires Shaped(t, it, ignore, m, plan, pre, x, y, suf)
    requires multiset(m)[p] == if p in m then 1 else 0
    requires p in m <==> p in MaximaSet(pre + x + suf)
    ensures InRange(t, it, ignore, plan)
    ensures Applied(t, it, ignore, m, plan)[p] == if p in MaximaSet(pre + y + suf) then 1 else 0
  {
    if p in x || p in y {
      PlanCountChanged(t, it, ignore, m, plan, p, pre, x, y, suf);
    } else if pre != [] && p == pre[|pre| - 1] {
      PlanCountLeft(t, it, ignore, m, plan, pre, x, y, suf);
    } else if suf != [] && p == suf[0] {
      PlanCountRight(t, it, ignore, m, plan, pre, x, y, suf);
    } else {
      PlanCountOther(t, it, ignore, m, plan, p, pre, x, y, suf);
    }
  }

  /** What `check_if_maxima` reports for the changed point and its two neighbours, in
      terms of the store after the mutation. */
  lemma Statuses(t: seq<Point>, it: nat, ignore: nat,
                 pre: seq<Point>, x: seq<Point>, y: seq<Point>, suf: seq<Point>)
    requires it < |t| && ignore <= |t| && Sorted(Without(t, ignore))
    requires Without(t, ignore) == pre + y + suf
    requires GetLeft(t, it, ignore) < |t| <==> pre != []
    requires pre != [] ==> t[GetLeft(t, it, ignore)] == pre[|pre| - 1]
    requires GetRight(t, it, ignore) < |t| <==> suf != []
    requires suf != [] ==> t[GetRight(t, it, ignore)] == suf[0]
    ensures it != ignore ==>
      (CheckIfMaxima(t, it, ignore) <==> t[it] in MaximaSet(pre + y + suf))
    ensures pre != [] ==>
      (CheckIfMaxima(t, GetLeft(t, it, ignore), ignore) <==> pre[|pre| - 1] in MaximaSet(pre + y + suf))
    ensures suf != [] ==>
      (CheckIfMaxima(t, GetRight(t, it, ignore), ignore) <==> suf[0] in MaximaSet(pre + y + suf))
  {
    if it != ignore { NeighbourStatus(t, it, ignore); }
    if pre != [] { NeighbourStatus(t, GetLeft(t, it, ignore), ignore); }
    if suf != [] { NeighbourStatus(t, GetRight(t, it, ignore), ignore); }
  }

  /** For a point other than the ignored one, `check_if_maxima` decides membership of the
      maxima set of the store without the ignored point. */
  lemma NeighbourStatus(t: seq<Point>, i: nat, ignore: nat)
    requires i < |t| && ignore <= |t| && i != ignore && Sorted(Without(t, ignore))
    ensures CheckIfMaxima(t, i, ignore) <==> t[i] in MaximaSet(Without(t, ignore))
  {
    NeighboursWithout(t, i, ignore);
    SortedMaximaAt(Without(t, ignore), Shifted(i, ignore));
  }

  /** The plan seen on the points around the change: `x` is the point the mutation takes
      away, `y` the point it adds, `pre` and `suf` the unchanged rest of the store. */
  ghost predicate Shaped(t: seq<Point>, it: nat, ignore: nat, m: seq<Point>, plan: Plan,
                         pre: seq<Point>, x: seq<Point>, y: seq<Point>, suf: seq<Point>)
  {
    var after := MaximaSet(pre + y + suf);
    && InRange(t, it, ignore, plan)
    && Sorted(pre + x + suf) && Sorted(pre + y + suf) && |x| <= 1 && |y| <= 1
    && (plan.oldIn <==> x != [] && x[0] in m)
    && (plan.oldIn ==> t[ignore] == x[0])
    && (plan.addNew <==> y != [] && y[0] in after)
    && (plan.addNew ==> t[it] == y[0])
    && (plan.leftAdd <==> pre != [] && pre[|pre| - 1] !in m && pre[|pre| - 1] in after)
    && (plan.leftRemove <==> pre != [] && pre[|pre| - 1] in m && pre[|pre| - 1] !in after)
    && (plan.leftAdd || plan.leftRemove ==> t[plan.left] == pre[|pre| - 1])
    && (plan.rightAdd <==> suf != [] && suf[0] !in m && suf[0] in after)
    && (plan.rightRemove <==> suf != [] && suf[0] in m && suf[0] !in after)
    && (plan.rightAdd || plan.rightRemove ==> t[plan.right] == suf[0])
  }

  /** The decisions of `PlanUpdate` read on the points around the change. */
  lemma PlanShaped(t: seq<Point>, it: nat, ignore: nat, m: seq<Point>,
                   pre: seq<Point>, x: seq<Point>, y: seq<Point>, suf: seq<Point>)
    requires Sorted(pre + x + suf) && Sorted(pre + y + suf)
    requires it < |t| && ignore <= |t|
    requires x == (if ignore < |t| then [t[ignore]] else [])
    requires y == (if it != ignore then [t[it]] else [])
    requires GetLeft(t, it, ignore) < |t| <==> pre != []
    requires pre != [] ==> t[GetLeft(t, it, ignore)] == pre[|pre| - 1]
    requires GetRight(t, it, ignore) < |t| <==> suf != []
    requires suf != [] ==> t[GetRight(t, it, ignore)] == suf[0]
    requires it != ignore ==>
      (CheckIfMaxima(t, it, ignore) <==> t[it] in MaximaSet(pre + y + suf))
    requires pre != [] ==>
      (CheckIfMaxima(t, GetLeft(t, it, ignore), ignore) <==> pre[|pre| - 1] in MaximaSet(pre + y + suf))
    requires suf != [] ==>
      (CheckIfMaxima(t, GetRight(t, it, ignore), ignore) <==> suf[0] in MaximaSet(pre + y + suf))
    ensures Shaped(t, it, ignore, m, PlanUpdate(t, it, ignore, m), pre, x, y, suf)
  {
  }

  /** Distinct positions of a store at rest hold distinct points. */
  lemma SortedDistinct(s: seq<Point>, i: nat, j: nat)
    requires Sorted(s) && i < |s| && j < |s| && i != j
    ensures s[i] != s[j]
  {
  }

  /** A point of the maxima set is a point of the store. */
  lemma MaximaInStore(s: seq<Point>, p: Point)
    requires p in MaximaSet(s)
    ensures p in s
  {
    var i := MaximaSetAt(s, p);
  }

  /** How often a point is in the index a plan leaves behind. */
  lemma AppliedCount(t: seq<Point>, it: nat, ignore: nat, m: seq<Point>, plan: Plan, p: Point)
    requires InRange(t, it, ignore, plan)
    ensures var n := multiset(m)[p] as int +
      (if plan.addNew && t[it] == p then 1 else 0) +
      (if plan.leftAdd && t[plan.left] == p then 1 else 0) +
      (if plan.rightAdd && t[plan.right] == p then 1 else 0) -
      (if plan.oldIn && t[ignore] == p then 1 else 0) -
      (if plan.leftRemove && t[plan.left] == p then 1 else 0) -
      (if plan.rightRemove && t[plan.right] == p then 1 else 0);
      Applied(t, it, ignore, m, plan)[p] == if n < 0 then 0 else n
  {
    InsertionCount(t, it, ignore, plan, p);
    RemovalCount(t, it, ignore, plan, p);
  }

  /** How often a plan inserts a given point. */
  lemma InsertionCount(t: seq<Point>, it: nat, ignore: nat, plan: Plan, p: Point)
    requires InRange(t, it, ignore, plan)
    ensures multiset(Insertions(t, it, ignore, plan))[p] ==
      (if plan.addNew && t[it] == p then 1 else 0) +
      (if plan.leftAdd && t[plan.left] == p then 1 else 0) +
      (if plan.rightAdd && t[plan.right] == p then 1 else 0)
  {
  }

  /** How often a plan erases a given point. */
  lemma RemovalCount(t: seq<Point>, it: nat, ignore: nat, plan: Plan, p: Point)
    requires InRange(t, it, ignore, plan)
    ensures multiset(Removals(t, it, ignore, plan))[p] ==
      (if plan.oldIn && t[ignore] == p then 1 else 0) +
      (if plan.leftRemove && t[plan.left] == p then 1 else 0) +
      (if plan.rightRemove && t[plan.right] == p then 1 else 0)
  {
  }

  /** Every point other than the changed one and its two neighbours keeps its count: the
      plan neither inserts nor erases it, and its status does not change. */
  lemma PlanCountOther(t: seq<Point>, it: nat, ignore: nat, m: seq<Point>, plan: Plan, p: Point,
                       pre: seq<Point>, x: seq<Point>, y: seq<Point>, suf: seq<Point>)
    requires Shaped(t, it, ignore, m, plan, pre, x, y, suf)
    requires p !in x && p !in y
    requires pre != [] ==> p != pre[|pre| - 1]
    requires suf != [] ==> p != suf[0]
    requires multiset(m)[p] == if p in m then 1 else 0
    requires p in m <==> p in MaximaSet(pre + x + suf)
    ensures InRange(t, it, ignore, plan)
    ensures Applied(t, it, ignore, m, plan)[p] == if p in MaximaSet(pre + y + suf) then 1 else 0
  {
    AppliedCount(t, it, ignore, m, plan, p);
    WindowLocality(pre, x, y, suf, p);
  }

  /** The count of the left neighbour: indexed afterwards exactly when it is a local
      maximum of the store after the mutation. */
  lemma PlanCountLeft(t: seq<Point>, it: nat, ignore: nat, m: seq<Point>, plan: Plan,
                      pre: seq<Point>, x: seq<Point>, y: seq<Point>, suf: seq<Point>)
    requires Shaped(t, it, ignore, m, plan, pre, x, y, suf)
    requires pre != []
    requires var p := pre[|pre| - 1]; multiset(m)[p] == if p in m then 1 else 0
    ensures InRange(t, it, ignore, plan)
    ensures var p := pre[|pre| - 1];
      Applied(t, it, ignore, m, plan)[p] == if p in MaximaSet(pre + y + suf) then 1 else 0
  {
    LeftApart(pre, x, y, suf);
    AppliedCount(t, it, ignore, m, plan, pre[|pre| - 1]);
  }

  /** The count of the right neighbour, symmetric to the left one. */
  lemma PlanCountRight(t: seq<Point>, it: nat, ignore: nat, m: seq<Point>, plan: Plan,
                       pre: seq<Point>, x: seq<Point>, y: seq<Point>, suf: seq<Point>)
    requires Shaped(t, it, ignore, m, plan, pre, x, y, suf)
    requires suf != []
    requires var p := suf[0]; multiset(m)[p] == if p in m then 1 else 0
    ensures InRange(t, it, ignore, plan)
    ensures var p := suf[0];
      Applied(t, it, ignore, m, plan)[p] == if p in MaximaSet(pre + y + suf) then 1 else 0
  {
    RightApart(pre, x, y, suf);
    if pre != [] { LeftApart(pre, x, y, suf); }
    AppliedCount(t, it, ignore, m, plan, suf[0]);
  }

  /** The left neighbour is neither the changed point nor the right neighbour. */
  lemma LeftApart(pre: seq<Point>, x: seq<Point>, y: seq<Point>, suf: seq<Point>)
    requires Sorted(pre + x + suf) && Sorted(pre + y + suf) && |x| <= 1 && |y| <= 1
    requires pre != []
    ensures var p := pre[|pre| - 1];
      p !in x && p !in y && (suf != [] ==> p != suf[0])
  {
    var a, b := pre + y + suf, pre + x + suf;
    if x != [] { SortedDistinct(b, |pre| - 1, |pre|); }
    if y != [] { SortedDistinct(a, |pre| - 1, |pre|); }
    if suf != [] { SortedDistinct(a, |pre| - 1, |pre| + |y|); }
  }

  /** The right neighbour is not the changed point. */
  lemma RightApart(pre: seq<Point>, x: seq<Point>, y: seq<Point>, suf: seq<Point>)
    requires Sorted(pre + x + suf) && Sorted(pre + y + suf) && |x| <= 1 && |y| <= 1
    requires suf != []
    ensures suf[0] !in x && suf[0] !in y
  {
    var a, b := pre + y + suf, pre + x + suf;
    if x != [] { SortedDistinct(b, |pre|, |pre| + 1); }
    if y != [] { SortedDistinct(a, |pre|, |pre| + 1); }
  }

  /** The changed point occurs only once in its store. */
  lemma MiddleApart(pre: seq<Point>, mid: seq<Point>, suf: seq<Point>)
    requires Sorted(pre + mid + suf) && |mid| == 1
    ensures mid[0] !in pre && mid[0] !in suf
  {
    var s := pre + mid + suf;
    if mid[0] in pre {
      var i :| 0 <= i < |pre| && pre[i] == mid[0];
      SortedDistinct(s, i, |pre|);
    }
    if mid[0] in suf {
      var i :| 0 <= i < |suf| && suf[i] == mid[0];
      SortedDistinct(s, |pre| + 1 + i, |pre|);
    }
  }

  /** The count of the point that changed: the ignored one is dropped if it was indexed,
      the new one is indexed exactly when it is a local maximum afterwards. */
  lemma PlanCountChanged(t: seq<Point>, it: nat, ignore: nat, m: seq<Point>, plan: Plan, p: Point,
                         pre: seq<Point>, x: seq<Point>, y: seq<Point>, suf: seq<Point>)
    requires Shaped(t, it, ignore, m, plan, pre, x, y, suf)
    requires p in x || p in y
    requires multiset(m)[p] == if p in m then 1 else 0
    requires p in m <==> p in MaximaSet(pre + x + suf)
    ensures InRange(t, it, ignore, plan)
    ensures Applied(t, it, ignore, m, plan)[p] == if p in MaximaSet(pre + y + suf) then 1 else 0
  {
    if pre != [] { LeftApart(pre, x, y, suf); }
    if suf != [] { RightApart(pre, x, y, suf); }
    if p in x {
      PlanCountTakenAway(t, it, ignore, m, plan, p, pre, x, y, suf);
    } else {
      PlanCountBrought(t, it, ignore, m, plan, p, pre, x, y, suf);
    }
  }

  /** The count of the point the mutation brings in (when it is not also taken away). */
  lemma PlanCountBrought(t: seq<Point>, it: nat, ignore: nat, m: seq<Point>, plan: Plan, p: Point,
                         pre: seq<Point>, x: seq<Point>, y: seq<Point>, suf: seq<Point>)
    requires Shaped(t, it, ignore, m, plan, pre, x, y, suf)
    requires p in y && p !in x
    requires pre != [] ==> pre[|pre| - 1] != p
    requires suf != [] ==> suf[0] != p
    requires multiset(m)[p] == if p in m then 1 else 0
    requires p in m <==> p in MaximaSet(pre + x + suf)
    ensures InRange(t, it, ignore, plan)
    ensures Applied(t, it, ignore, m, plan)[p] == if p in MaximaSet(pre + y + suf) then 1 else 0
  {
    MiddleApart(pre, y, suf);
    assert p !in pre + x + suf;
    if p in MaximaSet(pre + x + suf) {
      MaximaInStore(pre + x + suf, p);
    }
    assert multiset(m)[p] == 0;
    assert plan.addNew <==> p in MaximaSet(pre + y + suf);
    assert plan.oldIn || plan.leftAdd || plan.leftRemove || plan.rightAdd || plan.rightRemove ==>
      (plan.oldIn ==> t[ignore] != p) && (plan.leftAdd || plan.leftRemove ==> t[plan.left] != p) &&
      (plan.rightAdd || plan.rightRemove ==> t[plan.right] != p);
    AppliedCount(t, it, ignore, m, plan, p);
  }

  /** The count of the point the mutation takes away. */
  lemma PlanCountTakenAway(t: seq<Point>, it: nat, ignore: nat, m: seq<Point>, plan: Plan, p: Point,
                           pre: seq<Point>, x: seq<Point>, y: seq<Point>, suf: seq<Point>)
    requires Shaped(t, it, ignore, m, plan, pre, x, y, suf)
    requires p in x
    requires pre != [] ==> p != pre[|pre| - 1]
    requires suf != [] ==> p != suf[0]
    requires multiset(m)[p] == if p in m then 1 else 0
    ensures InRange(t, it, ignore, plan)
    ensures Applied(t, it, ignore, m, plan)[p] == if p in MaximaSet(pre + y + suf) then 1 else 0
  {
    MiddleApart(pre, x, suf);
    var after := MaximaSet(pre + y + suf);
    if p !in y {
      assert p !in after by {
        if p in after {
          MaximaInStore(pre + y + suf, p);
        }
      }
    }
    ChangedCount(t, it, ignore, m, plan, p, p in after);
  }

  /** The count of a point that neither neighbour is: the entry of the ignored point goes,
      the entry of the new point comes. */
  lemma ChangedCount(t: seq<Point>, it: nat, ignore: nat, m: seq<Point>, plan: Plan, p: Point, want: bool)
    requires InRange(t, it, ignore, plan)
    requires !(plan.leftAdd && t[plan.left] == p) && !(plan.leftRemove && t[plan.left] == p)
    requires !(plan.rightAdd && t[plan.right] == p) && !(plan.rightRemove && t[plan.right] == p)
    requires plan.oldIn ==> t[ignore] == p
    requires multiset(m)[p] == if plan.oldIn then 1 else 0
    requires (plan.addNew && t[it] == p) == want
    ensures Applied(t, it, ignore, m, plan)[p] == if want then 1 else 0
  {
    AppliedCount(t, it, ignore, m, plan, p);
  }


  /** Applying the plan of `update_maxima` to an index of the store before the mutation,
      in any order a multiset allows, gives the index of the store after it. */
  lemma PlanRestoresIndex(t: seq<Point>, it: nat, ignore: nat, m: seq<Point>, m2: seq<Point>)
    requires Transient(t, it, ignore) && IndexesMaxima(m, Before(t, it, ignore))
    requires InRange(t, it, ignore, PlanUpdate(t, it, ignore, m))
    requires MaxWeaklySorted(m2)
    requires multiset(m2) == Applied(t, it, ignore, m, PlanUpdate(t, it, ignore, m))
    ensures IndexesMaxima(m2, Without(t, ignore))
  {
    var plan, w := PlanUpdate(t, it, ignore, m), Without(t, ignore);
    forall p ensures Applied(t, it, ignore, m, plan)[p] == if p in MaximaSet(w) then 1 else 0 {
      PlanCount(t, it, ignore, m, p);
    }
    CountsIndex(m2, w);
  }

  /** Every entry the plan erases is in the index, and the entries it erases are distinct,
      so each erasure finds its entry even after the ones before it. */
  lemma PlanRemovalsPresent(t: seq<Point>, it: nat, ignore: nat, m: seq<Point>)
    requires Transient(t, it, ignore) && IndexesMaxima(m, Before(t, it, ignore))
    ensures var plan := PlanUpdate(t, it, ignore, m);
      InRange(t, it, ignore, plan) && multiset(Removals(t, it, ignore, plan)) <= multiset(m)
  {
    var plan := PlanUpdate(t, it, ignore, m);
    var pre, x, y, suf := TransientShape(t, it, ignore);
    TransientOrder(t, it, ignore);
    Statuses(t, it, ignore, pre, x, y, suf);
    PlanShaped(t, it, ignore, m, pre, x, y, suf);
    if pre != [] { LeftApart(pre, x, y, suf); }
    if suf != [] { RightApart(pre, x, y, suf); }
    RemovalsFit(t, it, ignore, m, plan);
  }

  /** Erasures of distinct entries of the index fit in the index. */
  lemma RemovalsFit(t: seq<Point>, it: nat, ignore: nat, m: seq<Point>, plan: Plan)
    requires InRange(t, it, ignore, plan)
    requires plan.oldIn ==> t[ignore] in m
    requires plan.leftRemove ==> t[plan.left] in m && (plan.oldIn ==> t[plan.left] != t[ignore])
    requires plan.rightRemove ==>
      && t[plan.right] in m
      && (plan.oldIn ==> t[plan.right] != t[ignore])
      && (plan.leftRemove ==> t[plan.right] != t[plan.left])
    ensures multiset(Removals(t, it, ignore, plan)) <= multiset(m)
  {
    RemovalsMultiset(t, it, ignore, plan);
  }

  /** The entries a plan erases, as a multiset. */
  lemma RemovalsMultiset(t: seq<Point>, it: nat, ignore: nat, plan: Plan)
    requires InRange(t, it, ignore, plan)
    ensures multiset(Removals(t, it, ignore, plan)) ==
      (if plan.oldIn then multiset{t[ignore]} else multiset{}) +
      (if plan.leftRemove then multiset{t[plan.left]} else multiset{}) +
      (if plan.rightRemove then multiset{t[plan.right]} else multiset{})
  {
  }

  /** Locality of a mutation: every point other than the changed one and the neighbours
      `get_left` and `get_right` find keeps its maxima status. */
  lemma UpdateIsLocal(t: seq<Point>, it: nat, ignore: nat, p: Point)
    requires Transient(t, it, ignore)
    requires p != t[it] && (ignore < |t| ==> p != t[ignore])
    requires GetLeft(t, it, ignore) < |t| ==> p != t[GetLeft(t, it, ignore)]
    requires GetRight(t, it, ignore) < |t| ==> p != t[GetRight(t, it, ignore)]
    ensures p in MaximaSet(Before(t, it, ignore)) <==> p in MaximaSet(Without(t, ignore))
  {
    var pre, x, y, suf := TransientShape(t, it, ignore);
    assert p !in x && p !in y;
    WindowLocality(pre, x, y, suf, p);
  }

  /** The plan leaves every other entry of the index alone: it neither inserts nor erases
      any point but the changed one, the stale one and the two neighbours. */
  lemma PlanKeepsOthers(t: seq<Point>, it: nat, ignore: nat, m: seq<Point>, p: Point)
    requires it < |t| && ignore <= |t|
    requires p != t[it] && (ignore < |t| ==> p != t[ignore])
    requires GetLeft(t, it, ignore) < |t| ==> p != t[GetLeft(t, it, ignore)]
    requires GetRight(t, it, ignore) < |t| ==> p != t[GetRight(t, it, ignore)]
    ensures var plan := PlanUpdate(t, it, ignore, m);
      InRange(t, it, ignore, plan) && Applied(t, it, ignore, m, plan)[p] == multiset(m)[p]
  {
    var plan := PlanUpdate(t, it, ignore, m);
    AppliedCount(t, it, ignore, m, plan, p);
  }
}
