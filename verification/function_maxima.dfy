/** The container: a finite function from arguments to values together with the index of
    its local maxima, both updated in place and with the strong exception guarantee.

    The source's exceptions (an allocation or a comparison that throws inside an ordered
    multiset operation, or a comparison that throws in a lookup) are modelled by a `Fault`
    parameter naming which fallible step of the call throws. Every public mutating method
    (`SetValue`, `Erase`, `Assign`) reports `ok == false` exactly when that step is one the
    call performs, and in that case leaves both collections exactly as they were. */
module Container {
  import opened Points
  import opened Seqs
  import opened PointStore
  import opened LocalMaxima
  import opened MaximaIndex
  import opened MaximaUpdate

  /** Which fallible step of a call throws. `FailAt(k)` makes the `k`-th insertion into one
      of the two ordered multisets, counted from 0 within the call, throw. `FailLookup(k)`
      makes a lookup throw. In `operator=`, `k` picks the index lookup of the `k`-th copied
      point. In `update_maxima` (and so in `set_value` and `erase`), `k` is not used: the
      fault hits the first of its index lookups and value comparisons, which all come
      before its first insertion, so which one throws does not change the outcome. A fault
      at a step the call does not perform does not fire. */
  datatype Fault = NoFault | FailAt(step: nat) | FailLookup(step: nat)

  /** The outcome of `value_at`: the stored value, or the `InvalidArg` error. */
  datatype Lookup = Found(value: int) | InvalidArg

  class FunctionMaxima {
    /** The points, ordered by argument (the source's `function` multiset). */
    var points: seq<Point>
    /** The local maxima, by value descending then argument ascending (`maxima`). */
    var maxima: seq<Point>

    /** The class invariant between calls: one point per argument, and the index holds
        exactly the local maxima, in order. */
    ghost predicate Valid()
      reads this
    {
      Sorted(points) && IndexesMaxima(maxima, points)
    }

    /** The function the container represents. */
    ghost function Function(): map<int, int>
      reads this
      requires Valid()
    {
      Graph(points)
    }

    /** The default constructor: the empty function. */
    constructor ()
      ensures Valid() && points == [] && maxima == []
    {
      points := [];
      maxima := [];
    }

    /** The copy constructor: the same points and the same index as `src`. */
    constructor Copy(src: FunctionMaxima)
      requires src.Valid()
      ensures Valid() && points == src.points && maxima == src.maxima
    {
      points := src.points;
      maxima := src.maxima;
    }

    /** `size`: the number of arguments in the domain. */
    function Size(): (n: nat)
      reads this
      requires Valid()
      ensures n == |Function()|
    {
      GraphSize(points);
      |points|
    }

    /** `value_at(a)`: the value at `a`, or `InvalidArg` exactly when `a` is outside the
        domain. */
    function ValueAt(a: int): (r: Lookup)
      reads this
      requires Valid()
      ensures r.Found? <==> a in Function()
      ensures r.Found? ==> r.value == Function()[a]
    {
      var i := PointStore.Find(points, a);
      if i < |points| then
        GraphAt(points, i);
        Found(points[i].value)
      else
        assert a !in Function() by {
          if a in Function() { var j := GraphHas(points, a); }
        }
        InvalidArg
    }

    /** `find(a)`: the position of the point with argument `a`, or `|points|` (`end()`)
        when `a` is outside the domain. */
    function Find(a: int): (i: nat)
      reads this
      requires Valid()
      ensures i <= |points|
      ensures i < |points| <==> a in Function()
      ensures i < |points| ==> points[i] == Point(a, Function()[a])
    {
      var i := PointStore.Find(points, a);
      if i < |points| then
        GraphAt(points, i);
        i
      else
        assert a !in Function() by {
          if a in Function() { var j := GraphHas(points, a); }
        }
        i
    }

    /** `update_maxima(it, ignore)`: brings the index from the store before the mutation to
        the store after it. Its lookups and value comparisons decide the flags first; there
        are some exactly when the store before the mutation is not empty, and if one throws
        (`FailLookup`), nothing has changed yet. The insertions it decides on
        run next, numbered from `first` on for the fault; if one throws, those already done
        are erased again. The erasures, which cannot throw, run last. */
    method UpdateMaxima(it: nat, ignore: nat, fault: Fault, first: nat) returns (ok: bool)
      requires Transient(points, it, ignore) && IndexesMaxima(maxima, Before(points, it, ignore))
      modifies this
      ensures points == old(points)
      ensures ok ==> IndexesMaxima(maxima, Without(points, ignore))
      ensures !ok ==> maxima == old(maxima)
      ensures fault.FailLookup? ==> (ok <==> Before(points, it, ignore) == [])
      ensures !fault.FailLookup? ==>
        (ok <==> !(fault.FailAt? && first <= fault.step <
                   first + |Insertions(points, it, ignore, PlanUpdate(points, it, ignore, old(maxima)))|))
    {
      var t, m := points, maxima;
      LooksUpIffNonEmpty(t, it, ignore);
      if fault.FailLookup? && LooksUp(t, it, ignore) {
        // A lookup or a comparison throws while the flags are computed: nothing is changed yet.
        return false;
      }
      var plan := PlanUpdate(t, it, ignore, m);
      ok, m := ApplyPlan(t, it, ignore, m, plan, fault, first);
      maxima := m;
    }

    /** `set_value(a, v)`: the new point is inserted after any point with argument `a`,
        the index is brought up to date while the stale point is ignored, and only then
        is the stale point erased. Its fallible steps are the insertion of the point
        (step 0) and the index insertions of `update_maxima` (from step 1 on); a lookup of
        `update_maxima` that throws makes the new point be erased again. */
    method SetValue(a: int, v: int, fault: Fault) returns (ok: bool)
      requires Valid()
      modifies this
      ensures Valid()
      ensures ok ==> points == Assigned(old(points), a, v)
      ensures ok ==> Function() == old(Function())[a := v]
      ensures !ok ==> points == old(points) && maxima == old(maxima)
      ensures fault == NoFault ==> ok
      ensures fault.FailLookup? ==> (ok <==> old(points) == [])
      ensures fault.FailAt? ==> (ok <==> fault.step > SetValueInsertions(old(points), old(maxima), a, v))
    {
      ok := AssignPoint(a, v, fault);
    }

    /** The steps of `set_value(a, v)` on the store and the index. */
    method AssignPoint(a: int, v: int, fault: Fault) returns (ok: bool)
      requires Valid()
      modifies this
      ensures ok ==> points == Assigned(old(points), a, v) && IndexesMaxima(maxima, points)
      ensures !ok ==> points == old(points) && maxima == old(maxima)
      ensures fault.FailLookup? ==> (ok <==> old(points) == [])
      ensures !fault.FailLookup? ==>
        (ok <==> !(fault.FailAt? && fault.step <= SetValueInsertions(old(points), old(maxima), a, v)))
    {
      var s := points;
      var oldPos := PointStore.Find(s, a);
      var k := UpperBound(s, a);
      var t := Insert(s, Point(a, v));
      var ignore := if oldPos < |s| then oldPos else |t|;
      SetValueStates(s, a, v, k, t, ignore);
      ghost var n := SetValueCount(s, maxima, a, v, k, t, ignore);
      ok := InsertThenUpdate(k, t, ignore, fault, n);
    }

    /** The store `points` receives the new point at position `k`, which makes it `t`;
        `update_maxima` then runs with the stale point at `ignore` ignored. If the
        insertion throws, nothing has changed; if `update_maxima` throws, the new point is
        erased again (the catch in `set_value`); otherwise the stale point, if any, is. */
    method InsertThenUpdate(k: nat, t: seq<Point>, ignore: nat, fault: Fault, ghost n: nat)
      returns (ok: bool)
      requires Transient(t, k, ignore) && points == RemoveAt(t, k)
      requires IndexesMaxima(maxima, Before(t, k, ignore))
      requires n == |Insertions(t, k, ignore, PlanUpdate(t, k, ignore, maxima))|
      modifies this
      ensures ok ==> points == Without(t, ignore) && IndexesMaxima(maxima, points)
      ensures !ok ==> points == old(points) && maxima == old(maxima)
      ensures fault.FailLookup? ==> (ok <==> Before(t, k, ignore) == [])
      ensures !fault.FailLookup? ==> (ok <==> !(fault.FailAt? && fault.step <= n))
    {
      if fault == FailAt(0) {
        return false;
      }
      points := t;
      ok := UpdateMaxima(k, ignore, fault, 1);
      points := if ok then Without(t, ignore) else RemoveAt(t, k);
    }

    /** `operator=`: the points of `src` are inserted next to the current ones, then the
        entries of `src`'s index, and only then are the previous points and entries
        erased. The insertions are the fallible steps: first the points, then the index
        entries. Assigning an object to itself does nothing. */
    method Assign(src: FunctionMaxima, fault: Fault) returns (ok: bool)
      requires Valid() && src.Valid()
      modifies this
      ensures Valid()
      ensures ok ==> points == old(src.points) && maxima == old(src.maxima)
      ensures !ok ==> points == old(points) && maxima == old(maxima)
      ensures ok <==> src == this || fault == NoFault ||
                      (fault.FailAt? && fault.step >= |old(src.points)| + |old(src.maxima)|) ||
                      (fault.FailLookup? && fault.step >= |old(src.points)|)
    {
      if src == this {
        return true;
      }
      var prevPoints, prevMaxima := points, maxima;
      var srcPoints, srcMaxima := src.points, src.maxima;
      MarkedIsIndex(srcPoints, srcMaxima);
      var p, marked;
      ok, p, marked := CopyPoints(prevPoints, srcPoints, srcMaxima, fault);
      points := p;
      if !ok {
        return;
      }
      assert |marked| == |srcMaxima| by {
        assert |multiset(marked)| == |multiset(srcMaxima)|;
      }
      var m;
      ok, m := CopyMaxima(prevMaxima, marked, fault, |srcPoints|);
      maxima := m;
      if !ok {
        points := UndoPoints(p, srcPoints, prevPoints);
        return;
      }
      points, maxima := DropPrevious(p, m, prevPoints, prevMaxima, srcPoints, srcMaxima);
    }

    /** `erase(a)`: when `a` is in the domain, the index is brought up to date while its
        point is ignored, and then the point is erased; otherwise nothing happens. Its
        fallible steps are the index insertions of `update_maxima`, from step 0 on, and its
        lookups. */
    method Erase(a: int, fault: Fault) returns (ok: bool)
      requires Valid()
      modifies this
      ensures Valid()
      ensures ok ==> points == Erased(old(points), a)
      ensures ok ==> Function() == old(Function()) - {a}
      ensures !ok ==> points == old(points) && maxima == old(maxima)
      ensures fault == NoFault ==> ok
      ensures fault.FailLookup? ==> (ok <==> a !in old(Function()))
      ensures fault.FailAt? ==> (ok <==> fault.step >= EraseInsertions(old(points), old(maxima), a))
      ensures a !in old(Function()) ==> ok && points == old(points) && maxima == old(maxima)
    {
      var i := PointStore.Find(points, a);
      if i < |points| {
        GraphAt(points, i);
        ok := UpdateMaxima(i, i, fault, 0);
        if ok {
          points := RemoveAt(points, i);
        }
      } else {
        ok := true;
      }
    }
  }

  /** How many index insertions `set_value(a, v)` makes on the store `s` with the index `m`:
      the ones `update_maxima` plans once the new point is in. Its store insertion is step
      0, so a fault at any step up to this number makes it fail. */
  function SetValueInsertions(s: seq<Point>, m: seq<Point>, a: int, v: int): (n: nat)
    requires Sorted(s)
    ensures n <= 3
  {
    var t, k, i := Insert(s, Point(a, v)), UpperBound(s, a), PointStore.Find(s, a);
    var ignore := if i < |s| then i else |t|;
    |Insertions(t, k, ignore, PlanUpdate(t, k, ignore, m))|
  }

  /** How many index insertions `erase(a)` makes on the store `s` with the index `m`: the
      point being erased is never inserted, only its neighbours can be. */
  function EraseInsertions(s: seq<Point>, m: seq<Point>, a: int): (n: nat)
    requires Sorted(s)
    ensures n <= 2
  {
    var i := PointStore.Find(s, a);
    if i < |s| then |Insertions(s, i, i, PlanUpdate(s, i, i, m))| else 0
  }

  /** The points of `ps`, in order, that the index `m` holds: the entries `operator=`
      collects for the index while it copies the points. */
  function Marked(ps: seq<Point>, m: seq<Point>): (r: seq<Point>)
    ensures |r| <= |ps|
  {
    if ps == [] then []
    else
      var n := |ps| - 1;
      Marked(ps[..n], m) + if ps[n] in m then [ps[n]] else []
  }

  /** The marked points are the points of `ps` that `m` holds, and no others. */
  lemma {:induction false} MarkedMembers(ps: seq<Point>, m: seq<Point>, q: Point)
    ensures q in Marked(ps, m) <==> q in ps && q in m
  {
    if ps != [] {
      var n := |ps| - 1;
      MarkedMembers(ps[..n], m, q);
      DropLast(ps, q);
    }
  }

  /** Each point of a store at rest is marked at most once. */
  lemma {:induction false} MarkedCount(ps: seq<Point>, m: seq<Point>, q: Point)
    requires Sorted(ps)
    ensures multiset(Marked(ps, m))[q] == if q in ps && q in m then 1 else 0
  {
    if ps != [] {
      var n := |ps| - 1;
      var init, last := ps[..n], ps[n];
      assert Sorted(init);
      MarkedCount(init, m, q);
      var r, e := Marked(init, m), if last in m then [last] else [];
      assert Marked(ps, m) == r + e;
      assert multiset(r + e)[q] == multiset(r)[q] + multiset(e)[q];
      LastIsNew(ps);
      DropLast(ps, q);
    }
  }

  /** The last point of a store at rest is not among the ones before it. */
  lemma LastIsNew(ps: seq<Point>)
    requires Sorted(ps) && ps != []
    ensures ps[|ps| - 1] !in ps[..|ps| - 1]
  {
  }

  /** The marked points of a store are exactly the entries of its index. */
  lemma MarkedIsIndex(ps: seq<Point>, m: seq<Point>)
    requires Sorted(ps) && IndexesMaxima(m, ps)
    ensures multiset(Marked(ps, m)) == multiset(m)
  {
    forall q ensures multiset(Marked(ps, m))[q] == multiset(m)[q] {
      MarkedCount(ps, m, q);
      StrictCounts(m, q);
      if q in m {
        MaximaInStore(ps, q);
      }
    }
  }

  /** The first phase of `operator=`: every point of `src` is inserted into the store `s`
      (the `j`-th insertion is step `j`), and the ones the index `srcMaxima` holds are
      collected. When an insertion, or the index lookup that follows the `j`-th insertion,
      throws, the insertions already made are erased again. */
  method CopyPoints(s: seq<Point>, src: seq<Point>, srcMaxima: seq<Point>, fault: Fault)
    returns (ok: bool, r: seq<Point>, marked: seq<Point>)
    requires Sorted(s)
    ensures ok <==> !((fault.FailAt? || fault.FailLookup?) && fault.step < |src|)
    ensures ok ==> WeaklySorted(r) && multiset(r) == multiset(s) + multiset(src)
    ensures ok ==> marked == Marked(src, srcMaxima)
    ensures !ok ==> r == s
  {
    r, marked := s, [];
    for j := 0 to |src|
      invariant WeaklySorted(r) && multiset(r) == multiset(s) + multiset(src[..j])
      invariant marked == Marked(src[..j], srcMaxima)
      invariant !((fault.FailAt? || fault.FailLookup?) && fault.step < j)
    {
      PrefixStep(src, j);
      MarkedStep(src, j, srcMaxima);
      ok, r, marked := CopyPoint(r, marked, src[j], srcMaxima, s, src[..j],
                                 fault == FailAt(j), fault == FailLookup(j));
      if !ok {
        return;
      }
    }
    assert src[..|src|] == src;
    ok := true;
  }

  /** Marking one more point of `ps`. */
  lemma MarkedStep(ps: seq<Point>, j: nat, m: seq<Point>)
    requires j < |ps|
    ensures Marked(ps[..j + 1], m) == Marked(ps[..j], m) + if ps[j] in m then [ps[j]] else []
  {
    PrefixStep(ps, j);
  }

  /** One round of the first loop of `operator=`: `p` is inserted into the store `r`, which
      holds `s` and the points `done` inserted before, and then collected for the index
      when the copied index holds it. When the insertion (`insertFails`) or the lookup
      (`lookupFails`) throws, every point inserted so far is erased again. */
  method CopyPoint(r: seq<Point>, marked: seq<Point>, p: Point, srcMaxima: seq<Point>,
                   ghost s: seq<Point>, done: seq<Point>, insertFails: bool, lookupFails: bool)
    returns (ok: bool, r': seq<Point>, marked': seq<Point>)
    requires Sorted(s) && WeaklySorted(r) && multiset(r) == multiset(s) + multiset(done)
    ensures ok <==> !insertFails && !lookupFails
    ensures ok ==> WeaklySorted(r') && multiset(r') == multiset(r) + multiset{p}
    ensures ok ==> marked' == marked + if p in srcMaxima then [p] else []
    ensures !ok ==> r' == s
  {
    marked' := marked;
    if insertFails {
      r' := UndoPoints(r, done, s);
      return false, r', marked';
    }
    r' := Insert(r, p);
    if lookupFails {
      r' := UndoPoints(r', done + [p], s);
      return false, r', marked';
    }
    if IndexOf(srcMaxima, p) < |srcMaxima| {
      marked' := marked + [p];
    }
    ok := true;
  }

  /** Undoing the insertions `done` made into the store `s` gives back `s`. */
  method UndoPoints(r: seq<Point>, done: seq<Point>, ghost s: seq<Point>) returns (back: seq<Point>)
    requires Sorted(s) && WeaklySorted(r)
    requires multiset(r) == multiset(s) + multiset(done)
    ensures back == s
  {
    back := EraseEachPoint(r, done);
    WeakEqualsSorted(back, s);
  }

  /** One more element of `src` taken. */
  lemma PrefixStep(src: seq<Point>, j: nat)
    requires j < |src|
    ensures src[..j + 1] == src[..j] + [src[j]]
    ensures src[..j + 1][..j] == src[..j] && src[..j + 1][j] == src[j]
    ensures multiset(src[..j + 1]) == multiset(src[..j]) + multiset{src[j]}
  {
    assert src[..j + 1] == src[..j] + [src[j]];
  }

  /** The last phase of `operator=`: erasing the previous points and entries, which
      cannot throw, leaves exactly the copied ones, in their order. */
  method DropPrevious(p: seq<Point>, m: seq<Point>, prevPoints: seq<Point>, prevMaxima: seq<Point>,
                      ghost srcPoints: seq<Point>, ghost srcMaxima: seq<Point>)
    returns (p': seq<Point>, m': seq<Point>)
    requires Sorted(srcPoints) && WeaklySorted(p)
    requires multiset(p) == multiset(prevPoints) + multiset(srcPoints)
    requires MaxSorted(srcMaxima) && MaxWeaklySorted(m)
    requires multiset(m) == multiset(prevMaxima) + multiset(srcMaxima)
    ensures p' == srcPoints && m' == srcMaxima
  {
    p' := EraseEachPoint(p, prevPoints);
    m' := EraseEach(m, prevMaxima);
    WeakEqualsSorted(p', srcPoints);
    WeakEqualsStrict(m', srcMaxima);
  }

  /** The second phase of `operator=`: the collected entries are inserted into the index
      `m` (the `k`-th insertion is step `base + k`). When an insertion throws, those
      already made are erased again. */
  method CopyMaxima(m: seq<Point>, marked: seq<Point>, fault: Fault, base: nat)
    returns (ok: bool, r: seq<Point>)
    requires MaxSorted(m)
    ensures ok <==> !(fault.FailAt? && base <= fault.step < base + |marked|)
    ensures ok ==> MaxWeaklySorted(r) && multiset(r) == multiset(m) + multiset(marked)
    ensures !ok ==> r == m
  {
    r := m;
    for k := 0 to |marked|
      invariant MaxWeaklySorted(r) && multiset(r) == multiset(m) + multiset(marked[..k])
      invariant !(fault.FailAt? && base <= fault.step < base + k)
    {
      if fault == FailAt(base + k) {
        r := Rollback(r, marked[..k], m);
        return false, r;
      }
      assert marked[..k + 1] == marked[..k] + [marked[k]];
      r := MxInsert(r, marked[k]);
    }
    assert marked[..|marked|] == marked;
    ok := true;
  }

  /** The stores `set_value(a, v)` passes through: `t` with the new point inserted at
      `k`, whose stale point (if any) sits at `ignore` just before it. Undoing the
      insertion gives back `s`; erasing the stale point gives the assigned store. */
  lemma SetValueStates(s: seq<Point>, a: int, v: int, k: nat, t: seq<Point>, ignore: nat)
    requires Sorted(s) && k == UpperBound(s, a) && t == Insert(s, Point(a, v))
    requires ignore == if PointStore.Find(s, a) < |s| then PointStore.Find(s, a) else |t|
    ensures Transient(t, k, ignore)
    ensures Before(t, k, ignore) == s && RemoveAt(t, k) == s
    ensures Without(t, ignore) == Assigned(s, a, v)
  {
    var p, i := Point(a, v), PointStore.Find(s, a);
    AssignedAt(s, a, v);
    if i < |s| {
      UpperBoundAfterFound(s, i, a);
      ReplacingStates(s, i, p, t);
    } else {
      AddingStates(s, p, k, t);
    }
  }

  /** Ghost bookkeeping for `set_value`: the count `SetValueInsertions` names, written
      with the stores the method has computed, as `InsertThenUpdate` expects it. */
  lemma SetValueCount(s: seq<Point>, m: seq<Point>, a: int, v: int, k: nat, t: seq<Point>, ignore: nat)
      returns (n: nat)
    requires Sorted(s) && k == UpperBound(s, a) && t == Insert(s, Point(a, v))
    requires ignore == if PointStore.Find(s, a) < |s| then PointStore.Find(s, a) else |t|
    ensures n == SetValueInsertions(s, m, a, v)
    ensures k < |t| && ignore <= |t| && n == |Insertions(t, k, ignore, PlanUpdate(t, k, ignore, m))|
  {
    n := SetValueInsertions(s, m, a, v);
  }

  /** A new point goes right after the stale point with the same argument. */
  lemma UpperBoundAfterFound(s: seq<Point>, i: nat, a: int)
    requires Sorted(s) && i < |s| && s[i].arg == a
    ensures UpperBound(s, a) == i + 1
  {
  }

  /** The adding case of `set_value`: the new point lands in order and nothing is stale. */
  lemma AddingStates(s: seq<Point>, p: Point, k: nat, t: seq<Point>)
    requires Sorted(s) && PointStore.Find(s, p.arg) == |s|
    requires k == UpperBound(s, p.arg) && t == Insert(s, p)
    ensures Transient(t, k, |t|)
    ensures Before(t, k, |t|) == s && RemoveAt(t, k) == s && Without(t, |t|) == t
  {
    InsertKeepsSorted(s, p);
    RemoveInserted(s, k, p);
  }

  /** The replacing case of `set_value`: the stale point at `i`, the new one right after. */
  lemma ReplacingStates(s: seq<Point>, i: nat, p: Point, t: seq<Point>)
    requires Sorted(s) && i < |s| && s[i].arg == p.arg
    requires t == InsertAt(s, i + 1, p)
    ensures Transient(t, i + 1, i)
    ensures Before(t, i + 1, i) == s && RemoveAt(t, i + 1) == s && Without(t, i) == s[i := p]
  {
    RemoveInserted(s, i + 1, p);
    RemoveBeforeInserted(s, i, p);
    GraphOfReplace(s, i, p);
  }

  /** The execution half of `update_maxima` on the store `t` and the index `m`: the
      planned insertions, each of which may throw and then has the ones before it undone,
      followed by the planned erasures. */
  method ApplyPlan(t: seq<Point>, it: nat, ignore: nat, m: seq<Point>, plan: Plan,
                   fault: Fault, first: nat) returns (ok: bool, r: seq<Point>)
    requires Transient(t, it, ignore) && IndexesMaxima(m, Before(t, it, ignore))
    requires plan == PlanUpdate(t, it, ignore, m)
    ensures ok ==> IndexesMaxima(r, Without(t, ignore))
    ensures !ok ==> r == m
    ensures ok <==> !(fault.FailAt? && first <= fault.step < first + |Insertions(t, it, ignore, plan)|)
  {
    PlanRemovalsPresent(t, it, ignore, m);
    ok, r := InsertPlanned(t, it, ignore, m, plan, fault, first);
    if !ok {
      return;
    }
    r := ErasePlanned(t, it, ignore, m, plan, r);
    PlanRestoresIndex(t, it, ignore, m, r);
  }

  /** The insertion phase: on success the index holds the planned insertions on top of `m`;
      when an insertion throws, the ones this call already made are erased again. */
  method InsertPlanned(t: seq<Point>, it: nat, ignore: nat, m: seq<Point>, plan: Plan,
                       fault: Fault, first: nat) returns (ok: bool, r: seq<Point>)
    requires InRange(t, it, ignore, plan) && MaxSorted(m)
    ensures ok ==> MaxWeaklySorted(r)
    ensures ok ==> multiset(r) == multiset(m) + multiset(Insertions(t, it, ignore, plan))
    ensures !ok ==> r == m
    ensures ok <==> !(fault.FailAt? && first <= fault.step < first + |Insertions(t, it, ignore, plan)|)
  {
    var done: seq<Point> := [];
    var step := first;
    r := m;
    if plan.addNew {
      ok, r, done := InsertStep(r, done, t[it], m, fault == FailAt(step));
      if !ok {
        return;
      }
      step := step + 1;
    }
    assert done == if plan.addNew then [t[it]] else [];
    if plan.leftAdd {
      ok, r, done := InsertStep(r, done, t[plan.left], m, fault == FailAt(step));
      if !ok {
        return;
      }
      step := step + 1;
    }
    assert done == (if plan.addNew then [t[it]] else []) +
                   (if plan.leftAdd then [t[plan.left]] else []);
    if plan.rightAdd {
      ok, r, done := InsertStep(r, done, t[plan.right], m, fault == FailAt(step));
      if !ok {
        return;
      }
    }
    assert done == Insertions(t, it, ignore, plan);
    ok := true;
  }

  /** One insertion of `p` into the index, which began as `m` and has since received
      `done`. When it throws, the insertions `done` are erased again. */
  method InsertStep(r: seq<Point>, done: seq<Point>, p: Point, ghost m: seq<Point>, fails: bool)
    returns (ok: bool, r': seq<Point>, done': seq<Point>)
    requires MaxSorted(m) && MaxWeaklySorted(r)
    requires multiset(r) == multiset(m) + multiset(done)
    ensures ok == !fails
    ensures ok ==> done' == done + [p] && MaxWeaklySorted(r')
    ensures ok ==> multiset(r') == multiset(m) + multiset(done')
    ensures !ok ==> r' == m
  {
    if fails {
      r' := Rollback(r, done, m);
      return false, r', done;
    }
    r', done' := MxInsert(r, p), done + [p];
    ok := true;
  }

  /** Undoing the insertions `done` made into the index `m` gives back `m`. */
  method Rollback(r: seq<Point>, done: seq<Point>, ghost m: seq<Point>) returns (back: seq<Point>)
    requires MaxSorted(m) && MaxWeaklySorted(r)
    requires multiset(r) == multiset(m) + multiset(done)
    ensures back == m
  {
    back := EraseEach(r, done);
    WeakEqualsStrict(back, m);
  }

  /** The erasure phase, which cannot throw: the planned erasures, in order. */
  method ErasePlanned(t: seq<Point>, it: nat, ignore: nat, m: seq<Point>, plan: Plan,
                      m1: seq<Point>) returns (r: seq<Point>)
    requires InRange(t, it, ignore, plan)
    requires MaxWeaklySorted(m1)
    requires multiset(m1) == multiset(m) + multiset(Insertions(t, it, ignore, plan))
    requires multiset(Removals(t, it, ignore, plan)) <= multiset(m)
    ensures MaxWeaklySorted(r) && multiset(r) == Applied(t, it, ignore, m, plan)
  {
    r := EraseEach(m1, Removals(t, it, ignore, plan));
  }
}
