/** The maxima index: the local maxima of the function, ordered by value descending and
    then by argument ascending. The source keeps it in an ordered multiset of references
    to stored points; here it holds the points themselves. */
module MaximaIndex {
  import opened Points
  import opened Seqs
  import opened LocalMaxima

  /** Strictly ordered by the maxima comparator: the index at rest, no point twice. */
  ghost predicate MaxSorted(m: seq<Point>)
  {
    forall i, j :: 0 <= i < j < |m| ==> MaximaBefore(m[i], m[j])
  }

  /** Ordered as a multiset orders it: equal points may sit next to each other. */
  ghost predicate MaxWeaklySorted(m: seq<Point>)
  {
    forall i, j :: 0 <= i < j < |m| ==> !MaximaBefore(m[j], m[i])
  }

  /** The invariant of the index: ordered, and holding exactly the local maxima of `s`. */
  ghost predicate IndexesMaxima(m: seq<Point>, s: seq<Point>)
  {
    MaxSorted(m) && forall p :: p in m <==> p in MaximaSet(s)
  }

  /** Where the ordered multiset inserts `p`: after every entry that does not come after it. */
  function MxUpperBound(m: seq<Point>, p: Point): (k: nat)
    requires MaxWeaklySorted(m)
    ensures k <= |m|
    ensures forall j :: 0 <= j < k ==> !MaximaBefore(p, m[j])
    ensures forall j :: k <= j < |m| ==> MaximaBefore(p, m[j])
  {
    if m == [] || MaximaBefore(p, m[0]) then 0
    else 1 + MxUpperBound(m[1..], p)
  }

  /** The index's `insert`. */
  function MxInsert(m: seq<Point>, p: Point): (r: seq<Point>)
    requires MaxWeaklySorted(m)
    ensures MaxWeaklySorted(r)
    ensures multiset(r) == multiset(m) + multiset{p}
  {
    InsertAt(m, MxUpperBound(m, p), p)
  }

  /** The index's `erase` of an entry found by `find`. */
  function MxErase(m: seq<Point>, p: Point): (r: seq<Point>)
    requires p in m
    ensures MaxWeaklySorted(m) ==> MaxWeaklySorted(r)
    ensures multiset(r) == multiset(m) - multiset{p}
  {
    RemoveAt(m, IndexOf(m, p))
  }

  /** A strictly ordered index holds each of its points exactly once. */
  lemma {:induction false} StrictCounts(m: seq<Point>, p: Point)
    requires MaxSorted(m)
    ensures multiset(m)[p] == if p in m then 1 else 0
  {
    if m != [] {
      assert MaxSorted(m[1..]);
      StrictCounts(m[1..], p);
      assert m == [m[0]] + m[1..];
      if m[0] == p {
        assert p !in m[1..];
      }
    }
  }

  /** An ordered index that holds no point twice is strictly ordered. */
  lemma CountsMakeStrict(m: seq<Point>)
    requires MaxWeaklySorted(m)
    requires forall p :: multiset(m)[p] <= 1
    ensures MaxSorted(m)
  {
    forall i, j | 0 <= i < j < |m| ensures m[i] != m[j] {
      assert m == m[..i] + [m[i]] + m[i + 1..j] + [m[j]] + m[j + 1..];
      assert multiset(m)[m[i]] >= multiset{m[i], m[j]}[m[i]];
    }
  }

  /** An ordered sequence holding each local maximum of `s` once, and nothing else, is an
      index of `s`. */
  lemma CountsIndex(m: seq<Point>, s: seq<Point>)
    requires MaxWeaklySorted(m)
    requires forall p :: multiset(m)[p] == if p in MaximaSet(s) then 1 else 0
    ensures IndexesMaxima(m, s)
  {
    CountsMakeStrict(m);
  }

  /** An ordered index is determined by the points it holds. */
  lemma {:induction false} WeakEqualsStrict(m: seq<Point>, t: seq<Point>)
    requires MaxWeaklySorted(m) && MaxSorted(t)
    requires multiset(m) == multiset(t)
    ensures m == t
  {
    if m != [] {
      SameFirst(m, t);
      DropHead(m);
      DropHead(t);
      WeakEqualsStrict(m[1..], t[1..]);
    }
  }

  /** Two such indexes holding the same points start with the same point. */
  lemma SameFirst(m: seq<Point>, t: seq<Point>)
    requires MaxWeaklySorted(m) && MaxSorted(t)
    requires multiset(m) == multiset(t) && m != []
    ensures t != [] && m[0] == t[0]
  {
    assert m[0] in multiset(t);
    var i :| 0 <= i < |t| && t[i] == m[0];
    assert t[0] in multiset(m);
    var j :| 0 <= j < |m| && m[j] == t[0];
  }

  /** The index of a store is unique: the maxima and their order fix it. */
  lemma IndexIsUnique(m1: seq<Point>, m2: seq<Point>, s: seq<Point>)
    requires IndexesMaxima(m1, s) && IndexesMaxima(m2, s)
    ensures m1 == m2
  {
    forall p ensures multiset(m1)[p] == multiset(m2)[p] {
      StrictCounts(m1, p);
      StrictCounts(m2, p);
    }
    assert multiset(m1) == multiset(m2);
    forall i, j | 0 <= i < j < |m1| ensures !MaximaBefore(m1[j], m1[i]) {
      MaximaBeforeIsStrictTotalOrder(m1[i], m1[j], m1[i]);
    }
    WeakEqualsStrict(m1, m2);
  }

  /** Erasing the given entries one after the other, each found with `find`. */
  method EraseEach(m: seq<Point>, es: seq<Point>) returns (r: seq<Point>)
    requires multiset(es) <= multiset(m)
    ensures multiset(r) == multiset(m) - multiset(es)
    ensures MaxWeaklySorted(m) ==> MaxWeaklySorted(r)
  {
    r := m;
    for k := 0 to |es|
      invariant multiset(r) == multiset(m) - multiset(es[..k])
      invariant MaxWeaklySorted(m) ==> MaxWeaklySorted(r)
    {
      assert es == es[..k + 1] + es[k + 1..];
      assert es[..k + 1] == es[..k] + [es[k]];
      assert es[k] in multiset(r);
      r := MxErase(r, es[k]);
    }
    assert es[..|es|] == es;
  }
}
