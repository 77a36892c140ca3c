/** The point store: every point of the function, ordered by ascending argument.
    The source keeps it in an ordered multiset, so between an insertion and the removal
    that follows it inside one call two points may share an argument; at every moment a
    caller can observe, the arguments are strictly ascending. */
module PointStore {
  import opened Points
  import opened Seqs

  /** Strictly ascending arguments: the store at rest, one point per argument. */
  ghost predicate Sorted(s: seq<Point>)
  {
    forall i, j :: 0 <= i < j < |s| ==> ArgBefore(s[i], s[j])
  }

  /** Non-descending arguments: the store as an ordered multiset, also inside a call. */
  ghost predicate WeaklySorted(s: seq<Point>)
  {
    forall i, j :: 0 <= i < j < |s| ==> !ArgBefore(s[j], s[i])
  }

  /** The finite function the store represents. */
  ghost function Graph(s: seq<Point>): map<int, int>
    requires Sorted(s)
  {
    map i | 0 <= i < |s| :: s[i].arg := s[i].value
  }

  /** The store's `find`: the position of the point with argument `a`, or `|s|` (end). */
  function Find(s: seq<Point>, a: int): (i: nat)
    ensures i <= |s|
    ensures i < |s| ==> s[i].arg == a
    ensures forall j :: 0 <= j < i ==> s[j].arg != a
    ensures i == |s| <==> forall j :: 0 <= j < |s| ==> s[j].arg != a
  {
    if s == [] then 0
    else if s[0].arg == a then 0
    else 1 + Find(s[1..], a)
  }

  /** Where the ordered multiset inserts a point with argument `a`: after every point whose
      argument is not greater (the upper bound of the equal range). */
  function UpperBound(s: seq<Point>, a: int): (k: nat)
    requires WeaklySorted(s)
    ensures k <= |s|
    ensures forall j :: 0 <= j < k ==> s[j].arg <= a
    ensures forall j :: k <= j < |s| ==> a < s[j].arg
  {
    if s == [] || a < s[0].arg then 0
    else 1 + UpperBound(s[1..], a)
  }

  /** The store's `insert`: `p` is added after all points with the same argument, and the
      points already there keep their places relative to each other. */
  function Insert(s: seq<Point>, p: Point): (r: seq<Point>)
    requires WeaklySorted(s)
    ensures WeaklySorted(r) && |r| == |s| + 1
    ensures multiset(r) == multiset(s) + multiset{p}
    ensures r[UpperBound(s, p.arg)] == p
    ensures forall j :: 0 <= j < UpperBound(s, p.arg) ==> r[j] == s[j]
    ensures forall j :: UpperBound(s, p.arg) < j < |r| ==> r[j] == s[j - 1]
  {
    InsertAt(s, UpperBound(s, p.arg), p)
  }

  /** Removing any point keeps the order. */
  lemma RemoveKeepsOrder(s: seq<Point>, i: nat)
    requires i < |s|
    ensures WeaklySorted(s) ==> WeaklySorted(RemoveAt(s, i))
    ensures Sorted(s) ==> Sorted(RemoveAt(s, i))
  {
  }

  /** In a store at rest the point with a given argument is unique. */
  lemma FindIsUnique(s: seq<Point>, a: int, j: nat)
    requires Sorted(s) && j < |s| && s[j].arg == a
    ensures Find(s, a) == j
  {
  }

  /** A store at rest holds as many points as its function has arguments. */
  lemma {:induction false} GraphSize(s: seq<Point>)
    requires Sorted(s)
    ensures |Graph(s)| == |s|
  {
    if s != [] {
      var n := |s| - 1;
      var t := s[..n];
      assert Sorted(t);
      GraphSize(t);
      assert s[n].arg !in Graph(t);
      assert Graph(s) == Graph(t)[s[n].arg := s[n].value];
    }
  }

  /** Where a point of the store shows up in its function. */
  lemma GraphAt(s: seq<Point>, j: nat)
    requires Sorted(s) && j < |s|
    ensures s[j].arg in Graph(s) && Graph(s)[s[j].arg] == s[j].value
  {
  }

  /** Every argument of the function is the argument of some point. */
  lemma GraphHas(s: seq<Point>, b: int) returns (j: nat)
    requires Sorted(s) && b in Graph(s)
    ensures j < |s| && s[j].arg == b
  {
    j :| 0 <= j < |s| && s[j].arg == b;
  }

  /** Two maps that agree on every key are equal. */
  lemma MapsAgree(m1: map<int, int>, m2: map<int, int>)
    requires forall b :: b in m1 ==> b in m2 && m1[b] == m2[b]
    requires forall b :: b in m2 ==> b in m1
    ensures m1 == m2
  {
    forall b | b in m1.Keys ensures b in m2.Keys {}
    forall b | b in m2.Keys ensures b in m1.Keys {}
    assert m1.Keys == m2.Keys;
    forall b | b in m1 ensures m1[b] == m2[b] {}
  }

  /** Replacing the point with argument `p.arg` by `p` updates the function at `p.arg`. */
  lemma {:induction false} GraphOfReplace(s: seq<Point>, i: nat, p: Point)
    requires Sorted(s) && i < |s| && s[i].arg == p.arg
    ensures Sorted(s[i := p])
    ensures Graph(s[i := p]) == Graph(s)[p.arg := p.value]
  {
    var r := s[i := p];
    assert Sorted(r);
    var g := Graph(s)[p.arg := p.value];
    forall b | b in Graph(r) ensures b in g && Graph(r)[b] == g[b] {
      var j := GraphHas(r, b);
      GraphAt(r, j);
      if j != i { GraphAt(s, j); }
    }
    forall b | b in g ensures b in Graph(r) {
      if b == p.arg { GraphAt(r, i); } else { var j := GraphHas(s, b); GraphAt(r, j); }
    }
    MapsAgree(Graph(r), g);
  }

  /** Adding a point with a new argument keeps the arguments strictly ascending. */
  lemma InsertKeepsSorted(s: seq<Point>, p: Point)
    requires Sorted(s) && forall j :: 0 <= j < |s| ==> s[j].arg != p.arg
    ensures Sorted(Insert(s, p))
  {
  }

  /** Adding a point with a new argument extends the function by that argument. */
  lemma {:induction false} GraphOfInsert(s: seq<Point>, p: Point)
    requires Sorted(s) && p.arg !in Graph(s)
    ensures Sorted(Insert(s, p))
    ensures Graph(Insert(s, p)) == Graph(s)[p.arg := p.value]
  {
    forall j | 0 <= j < |s| ensures s[j].arg != p.arg {
      GraphAt(s, j);
    }
    InsertKeepsSorted(s, p);
    var r := Insert(s, p);
    var g := Graph(s)[p.arg := p.value];
    forall b | b in Graph(r) ensures b in g && Graph(r)[b] == g[b] {
      InsertedKeyIsOld(s, p, b);
    }
    forall b | b in g ensures b in Graph(r) {
      OldKeyIsInserted(s, p, b);
    }
    MapsAgree(Graph(r), g);
  }

  /** An argument after the insertion is the new one or an argument from before. */
  lemma InsertedKeyIsOld(s: seq<Point>, p: Point, b: int)
    requires Sorted(s) && Sorted(Insert(s, p)) && b in Graph(Insert(s, p))
    ensures b in Graph(s)[p.arg := p.value]
    ensures Graph(Insert(s, p))[b] == Graph(s)[p.arg := p.value][b]
  {
    var k := UpperBound(s, p.arg);
    var r := Insert(s, p);
    var j := GraphHas(r, b);
    GraphAt(r, j);
    if j < k {
      GraphAt(s, j);
    } else if j > k {
      GraphAt(s, j - 1);
    }
  }

  /** Every argument from before, and the new one, is there after the insertion. */
  lemma OldKeyIsInserted(s: seq<Point>, p: Point, b: int)
    requires Sorted(s) && Sorted(Insert(s, p)) && b in Graph(s)[p.arg := p.value]
    ensures b in Graph(Insert(s, p))
  {
    var k := UpperBound(s, p.arg);
    var r := Insert(s, p);
    if b == p.arg {
      GraphAt(r, k);
    } else {
      var j := GraphHas(s, b);
      if j < k { GraphAt(r, j); } else { GraphAt(r, j + 1); }
    }
  }

  /** Removing the point at position `i` drops its argument from the function. */
  lemma {:induction false} GraphOfRemove(s: seq<Point>, i: nat)
    requires Sorted(s) && i < |s|
    ensures Sorted(RemoveAt(s, i))
    ensures Graph(RemoveAt(s, i)) == Graph(s) - {s[i].arg}
  {
    RemoveKeepsOrder(s, i);
    var r := RemoveAt(s, i);
    var g := Graph(s) - {s[i].arg};
    forall b | b in Graph(r) ensures b in g && Graph(r)[b] == g[b] {
      RemainingKeyIsOld(s, i, b);
    }
    forall b | b in g ensures b in Graph(r) {
      OldKeyRemains(s, i, b);
    }
    MapsAgree(Graph(r), g);
  }

  /** An argument left after the removal was there before, with the same value. */
  lemma RemainingKeyIsOld(s: seq<Point>, i: nat, b: int)
    requires Sorted(s) && i < |s| && Sorted(RemoveAt(s, i)) && b in Graph(RemoveAt(s, i))
    ensures b in Graph(s) - {s[i].arg}
    ensures Graph(RemoveAt(s, i))[b] == (Graph(s) - {s[i].arg})[b]
  {
    var r := RemoveAt(s, i);
    var j := GraphHas(r, b);
    GraphAt(r, j);
    if j < i { GraphAt(s, j); } else { GraphAt(s, j + 1); }
  }

  /** Every argument but the removed one is still there after the removal. */
  lemma OldKeyRemains(s: seq<Point>, i: nat, b: int)
    requires Sorted(s) && i < |s| && Sorted(RemoveAt(s, i)) && b in Graph(s) - {s[i].arg}
    ensures b in Graph(RemoveAt(s, i))
  {
    var r := RemoveAt(s, i);
    var j := GraphHas(s, b);
    if j < i { GraphAt(r, j); } else { GraphAt(r, j - 1); }
  }

  /** The store after `set_value(a, v)`, stated without the intermediate duplicate:
      the point with argument `a` is replaced, or a new point is added in order. */
  function Assigned(s: seq<Point>, a: int, v: int): (r: seq<Point>)
    requires Sorted(s)
    ensures Sorted(r)
    ensures Graph(r) == Graph(s)[a := v]
    ensures |r| == if a in Graph(s) then |s| else |s| + 1
  {
    var i := Find(s, a);
    if i < |s| then
      GraphAt(s, i);
      GraphOfReplace(s, i, Point(a, v));
      s[i := Point(a, v)]
    else
      assert a !in Graph(s) by {
        if a in Graph(s) { var j := GraphHas(s, a); }
      }
      GraphOfInsert(s, Point(a, v));
      Insert(s, Point(a, v))
  }

  /** The store after `erase(a)`: the point with argument `a` is gone, if there was one. */
  function Erased(s: seq<Point>, a: int): (r: seq<Point>)
    requires Sorted(s)
    ensures Sorted(r)
    ensures Graph(r) == Graph(s) - {a}
    ensures |r| == if a in Graph(s) then |s| - 1 else |s|
    ensures a !in Graph(s) ==> r == s
  {
    var i := Find(s, a);
    if i < |s| then
      GraphAt(s, i);
      GraphOfRemove(s, i);
      RemoveAt(s, i)
    else
      assert a !in Graph(s) by {
        if a in Graph(s) { var j := GraphHas(s, a); }
      }
      s
  }

  /** The two shapes of `Assigned`: an overwritten point, or an inserted one. */
  lemma AssignedAt(s: seq<Point>, a: int, v: int)
    requires Sorted(s)
    ensures Find(s, a) < |s| ==> Assigned(s, a, v) == s[Find(s, a) := Point(a, v)]
    ensures Find(s, a) == |s| ==> Assigned(s, a, v) == Insert(s, Point(a, v))
  {
  }

  /** Setting the same value twice is the same as setting it once. */
  lemma AssignedIdempotent(s: seq<Point>, a: int, v: int)
    requires Sorted(s)
    ensures Assigned(Assigned(s, a, v), a, v) == Assigned(s, a, v)
  {
    var r := Assigned(s, a, v);
    assert a in Graph(r);
    var j := GraphHas(r, a);
    FindIsUnique(r, a, j);
    GraphOfReplace(r, j, Point(a, v));
    assert r[j := Point(a, v)] == r by {
      GraphAt(r, j);
    }
  }

  /** The store's `erase` of a point found through the handle its insertion returned:
      here, the first point equal to it. */
  function StoreErase(s: seq<Point>, p: Point): (r: seq<Point>)
    requires p in s
    ensures WeaklySorted(s) ==> WeaklySorted(r)
    ensures multiset(r) == multiset(s) - multiset{p}
  {
    RemoveAt(s, IndexOf(s, p))
  }

  /** Erasing the given points one after the other. */
  method EraseEachPoint(s: seq<Point>, es: seq<Point>) returns (r: seq<Point>)
    requires multiset(es) <= multiset(s)
    ensures multiset(r) == multiset(s) - multiset(es)
    ensures WeaklySorted(s) ==> WeaklySorted(r)
  {
    r := s;
    for k := 0 to |es|
      invariant multiset(r) == multiset(s) - multiset(es[..k])
      invariant WeaklySorted(s) ==> WeaklySorted(r)
    {
      assert es == es[..k + 1] + es[k + 1..];
      assert es[..k + 1] == es[..k] + [es[k]];
      assert es[k] in multiset(r);
      r := StoreErase(r, es[k]);
    }
    assert es[..|es|] == es;
  }

  /** A store ordered as a multiset that holds the same points as a store at rest is that
      store: undoing insertions restores the exact previous order. */
  lemma {:induction false} WeakEqualsSorted(s: seq<Point>, t: seq<Point>)
    requires WeaklySorted(s) && Sorted(t)
    requires multiset(s) == multiset(t)
    ensures s == t
  {
    if s != [] {
      SameFirstPoint(s, t);
      DropHead(s);
      DropHead(t);
      WeakEqualsSorted(s[1..], t[1..]);
    }
  }

  /** Two such stores holding the same points start with the same point. */
  lemma SameFirstPoint(s: seq<Point>, t: seq<Point>)
    requires WeaklySorted(s) && Sorted(t)
    requires multiset(s) == multiset(t) && s != []
    ensures t != [] && s[0] == t[0]
  {
    assert s[0] in multiset(t);
    var i :| 0 <= i < |t| && t[i] == s[0];
    assert t[0] in multiset(s);
    var j :| 0 <= j < |s| && s[j] == t[0];
  }
}
