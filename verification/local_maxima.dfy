/** Neighbour lookup and the local-maximum predicate.

    Positions in a store `s` stand for the source's iterators; `|s|` stands for `end()`.
    Inside `set_value` the store briefly holds the stale point next to its replacement,
    and inside `erase` the point being erased is still present: the neighbour lookups take
    one position to skip (`ignore`) so that they see the store as it will be afterwards. */
module LocalMaxima {
  import opened Points
  import opened Seqs
  import opened PointStore

  /** The store with position `ignore` left out; `ignore == |s|` (end) leaves nothing out. */
  function Without(s: seq<Point>, ignore: nat): (r: seq<Point>)
    requires ignore <= |s|
    ensures |r| == if ignore < |s| then |s| - 1 else |s|
  {
    if ignore < |s| then RemoveAt(s, ignore) else s
  }

  /** `get_left`: the nearest position left of `i` other than `ignore`, or `|s|` (end). */
  function GetLeft(s: seq<Point>, i: nat, ignore: nat): (l: nat)
    requires i < |s|
    ensures l <= |s|
    ensures l < |s| ==> l < i && l != ignore
  {
    if i != 0 then
      if i - 1 == ignore then
        if i - 1 != 0 then i - 2 else |s|
      else
        i - 1
    else
      |s|
  }

  /** `get_right`: the nearest position right of `i` other than `ignore`, or `|s|` (end). */
  function GetRight(s: seq<Point>, i: nat, ignore: nat): (r: nat)
    requires i < |s|
    ensures r <= |s|
    ensures r < |s| ==> i < r && r != ignore
  {
    if i + 1 != |s| then
      if i + 1 == ignore then i + 2 else i + 1
    else
      |s|
  }

  /** `get_left` and `get_right` find the nearest positions on either side of `i` other
      than `ignore`, and return the end position exactly when there is none. */
  lemma NeighboursAreNearest(s: seq<Point>, i: nat, ignore: nat)
    requires i < |s|
    ensures var l := GetLeft(s, i, ignore);
      && (l < |s| ==> l == i - 1 || (l == i - 2 && ignore == i - 1))
      && (l == |s| <==> i == 0 || (i == 1 && ignore == 0))
    ensures var r := GetRight(s, i, ignore);
      && (r < |s| ==> r == i + 1 || (r == i + 2 && ignore == i + 1))
      && (r == |s| <==> i + 1 == |s| || (i + 2 == |s| && ignore == i + 1))
  {
  }

  /** The local-maximum predicate on a store: no existing neighbour is strictly greater.
      Plateaus and the two boundary points qualify. */
  ghost predicate IsLocalMax(s: seq<Point>, i: int)
    requires 0 <= i < |s|
  {
    (i == 0 || s[i - 1].value <= s[i].value) &&
    (i == |s| - 1 || s[i + 1].value <= s[i].value)
  }

  /** The points a maxima index must hold for the store `s`. */
  ghost function MaximaSet(s: seq<Point>): set<Point>
  {
    set i | 0 <= i < |s| && IsLocalMax(s, i) :: s[i]
  }

  /** Position `i` of `s` seen in `Without(s, ignore)`. */
  function Shifted(i: nat, ignore: nat): nat
    requires i != ignore
  {
    if i < ignore then i else i - 1
  }

  /** `check_if_maxima`: the point at `i` is a local maximum of the store as it is once
      the ignored position is gone. */
  function CheckIfMaxima(s: seq<Point>, i: nat, ignore: nat): (b: bool)
    requires i < |s| && ignore <= |s|
    ensures i != ignore ==> (b <==> IsLocalMax(Without(s, ignore), Shifted(i, ignore)))
  {
    var l := GetLeft(s, i, ignore);
    var r := GetRight(s, i, ignore);
    var b :=
      if l != |s| && s[i].value < s[l].value then
        false
      else if r != |s| && s[i].value < s[r].value then
        false
      else
        true;
    assert i != ignore ==> (b <==> IsLocalMax(Without(s, ignore), Shifted(i, ignore))) by {
      if i != ignore { NeighboursWithout(s, i, ignore); }
    }
    b
  }

  /** The neighbours `get_left` and `get_right` find are the neighbours in the store
      without the ignored position. */
  lemma NeighboursWithout(s: seq<Point>, i: nat, ignore: nat)
    requires i < |s| && ignore <= |s| && i != ignore
    ensures var w, k := Without(s, ignore), Shifted(i, ignore);
      && k < |w| && w[k] == s[i]
      && (GetLeft(s, i, ignore) < |s| <==> k > 0)
      && (k > 0 ==> w[k - 1] == s[GetLeft(s, i, ignore)])
      && (GetRight(s, i, ignore) < |s| <==> k < |w| - 1)
      && (k < |w| - 1 ==> w[k + 1] == s[GetRight(s, i, ignore)])
  {
  }

  /** A local maximum at a position puts that point in the maxima set. */
  lemma InMaximaSet(s: seq<Point>, i: nat)
    requires i < |s| && IsLocalMax(s, i)
    ensures s[i] in MaximaSet(s)
  {
  }

  /** Every point of the maxima set is a local maximum at some position of the store. */
  lemma MaximaSetAt(s: seq<Point>, p: Point) returns (i: nat)
    requires p in MaximaSet(s)
    ensures i < |s| && s[i] == p && IsLocalMax(s, i)
  {
    i :| 0 <= i < |s| && IsLocalMax(s, i) && s[i] == p;
  }

  /** In a store at rest a point is in the maxima set exactly when its position is a
      local maximum. */
  lemma SortedMaximaAt(s: seq<Point>, i: nat)
    requires Sorted(s) && i < |s|
    ensures s[i] in MaximaSet(s) <==> IsLocalMax(s, i)
  {
    if s[i] in MaximaSet(s) {
      var j := MaximaSetAt(s, s[i]);
      assert i == j;
    }
  }

  /** Changing at most one point in the middle of a store keeps the maxima status of every
      point that is neither the changed one nor directly next to it. */
  lemma WindowLocality(pre: seq<Point>, x: seq<Point>, y: seq<Point>, suf: seq<Point>, p: Point)
    requires |x| <= 1 && |y| <= 1 && p !in x && p !in y
    requires pre != [] ==> p != pre[|pre| - 1]
    requires suf != [] ==> p != suf[0]
    ensures p in MaximaSet(pre + x + suf) <==> p in MaximaSet(pre + y + suf)
  {
    if p in MaximaSet(pre + x + suf) {
      WindowLocalityOneWay(pre, x, y, suf, p);
    }
    if p in MaximaSet(pre + y + suf) {
      WindowLocalityOneWay(pre, y, x, suf, p);
    }
  }

  /** One direction of `WindowLocality`: a maximum before the change is one after it. */
  lemma WindowLocalityOneWay(pre: seq<Point>, x: seq<Point>, y: seq<Point>, suf: seq<Point>, p: Point)
    requires |x| <= 1 && |y| <= 1 && p !in x && p !in y
    requires pre != [] ==> p != pre[|pre| - 1]
    requires suf != [] ==> p != suf[0]
    requires p in MaximaSet(pre + x + suf)
    ensures p in MaximaSet(pre + y + suf)
  {
    var b, a := pre + x + suf, pre + y + suf;
    var i := MaximaSetAt(b, p);
    if i < |pre| {
      assert i < |pre| - 1;
      assert a[i] == b[i] && a[i + 1] == b[i + 1];
      assert i > 0 ==> a[i - 1] == b[i - 1];
      InMaximaSet(a, i);
    } else {
      assert i >= |pre| + |x|;
      var q := i - |pre| - |x|;
      assert b[i] == suf[q];
      assert q >= 1;
      var j := |pre| + |y| + q;
      assert a[j] == suf[q] && a[j - 1] == suf[q - 1] && b[i - 1] == suf[q - 1];
      assert j + 1 < |a| ==> a[j + 1] == suf[q + 1] && b[i + 1] == suf[q + 1];
      InMaximaSet(a, j);
    }
  }
}
