/** Which absent names a chain of owner names covers. A chain is read in a circle; the gap from one
    owner to the next covers the names strictly between them, and a gap that runs downwards wraps
    around the end of the order (section 4.1 of RFC 4034). */
module NsecGaps {

  /** less is a strict total order of these names. */
  ghost predicate StrictTotalOrder(less: (string, string) -> bool, names: set<string>) {
    && (forall a <- names, b <- names :: less(a, b) ==> !less(b, a))
    && (forall a <- names, b <- names, c <- names :: less(a, b) && less(b, c) ==> less(a, c))
    && (forall a <- names, b <- names :: a != b ==> less(a, b) || less(b, a))
  }

  ghost predicate Within(path: seq<string>, names: set<string>) {
    forall i :: 0 <= i < |path| ==> path[i] in names
  }

  predicate Covers(less: (string, string) -> bool, owner: string, next: string, x: string) {
    if less(owner, next) then less(owner, x) && less(x, next) else less(owner, x) || less(x, next)
  }

  /** The number of consecutive pairs of path whose gap covers x. */
  function CoverCount(less: (string, string) -> bool, path: seq<string>, x: string): nat {
    if |path| < 2 then 0
    else (if Covers(less, path[0], path[1], x) then 1 else 0) + CoverCount(less, path[1..], x)
  }

  /** The number of consecutive pairs of path that do not ascend. */
  function Descents(less: (string, string) -> bool, path: seq<string>): nat {
    if |path| < 2 then 0
    else (if less(path[0], path[1]) then 0 else 1) + Descents(less, path[1..])
  }

  /** The chain closed into a circle. */
  function Circle(order: seq<string>): seq<string>
    requires |order| > 0
  {
    order + [order[0]]
  }

  function Above(less: (string, string) -> bool, x: string, y: string): int {
    if less(x, y) then 1 else 0
  }

  lemma {:induction false} CoverageTelescopes(less: (string, string) -> bool, names: set<string>, path: seq<string>,
                                               x: string)
    requires StrictTotalOrder(less, names) && Within(path, names) && |path| > 0 && x in names && x !in path
    ensures CoverCount(less, path, x) - Descents(less, path)
         == Above(less, x, path[|path| - 1]) - Above(less, x, path[0])
  {
    if |path| > 1 {
      CoverageTelescopes(less, names, path[1..], x);
      assert x != path[0] && x != path[1];
    }
  }

  /** Every absent name lies in exactly as many gaps as the circle has descents, whatever the order of
      the chain. */
  lemma GapsEqualDescents(less: (string, string) -> bool, names: set<string>, order: seq<string>, x: string)
    requires StrictTotalOrder(less, names) && Within(order, names) && |order| > 0 && x in names && x !in order
    ensures CoverCount(less, Circle(order), x) == Descents(less, Circle(order))
  {
    CoverageTelescopes(less, names, Circle(order), x);
  }

  ghost predicate Ascending(less: (string, string) -> bool, order: seq<string>) {
    forall i, j :: 0 <= i < j < |order| && j == i + 1 ==> less(order[i], order[j])
  }

  lemma {:induction false} AscendingHasNoDescent(less: (string, string) -> bool, path: seq<string>)
    ensures Ascending(less, path) <==> Descents(less, path) == 0
  {
    if |path| > 1 {
      AscendingHasNoDescent(less, path[1..]);
      var rest := path[1..];
      assert forall i :: 0 <= i < |rest| ==> rest[i] == path[i + 1];
      if Ascending(less, rest) && less(path[0], path[1]) {
        forall i, j | 0 <= i < j < |path| && j == i + 1 ensures less(path[i], path[j]) {
          if i > 0 { assert less(rest[i - 1], rest[j - 1]); }
        }
      }
      if Ascending(less, path) {
        forall i, j | 0 <= i < j < |rest| && j == i + 1 ensures less(rest[i], rest[j]) {
          assert less(path[i + 1], path[j + 1]);
        }
      }
    }
  }

  lemma {:induction false} DescentsOfConcat(less: (string, string) -> bool, a: seq<string>, b: seq<string>)
    requires |a| > 0 && |b| > 0
    ensures Descents(less, a + b)
         == Descents(less, a) + (if less(a[|a| - 1], b[0]) then 0 else 1) + Descents(less, b)
  {
    if |a| == 1 {
      assert (a + b)[1..] == b;
    } else {
      assert (a + b)[1..] == a[1..] + b;
      DescentsOfConcat(less, a[1..], b);
    }
  }

  lemma {:induction false} AscendingIsSorted(less: (string, string) -> bool, names: set<string>, order: seq<string>,
                                              i: nat, j: nat)
    requires StrictTotalOrder(less, names) && Within(order, names) && Ascending(less, order) && i < j < |order|
    ensures less(order[i], order[j])
  {
    if i + 1 < j {
      AscendingIsSorted(less, names, order, i, j - 1);
      assert less(order[j - 1], order[j]);
    }
  }

  /** The chain ascends after some rotation. */
  ghost predicate IsRotatedAscending(less: (string, string) -> bool, order: seq<string>) {
    exists k :: 0 <= k < |order| && Ascending(less, order[k..] + order[..k])
  }

  /** One descent in the circle means: ascending up to a rotation. */
  lemma OneDescentIffRotated(less: (string, string) -> bool, names: set<string>, order: seq<string>)
    requires StrictTotalOrder(less, names) && Within(order, names) && |order| > 0
    ensures Descents(less, Circle(order)) == 1 <==> IsRotatedAscending(less, order)
  {
    forall k | 0 <= k < |order|
      ensures Descents(less, Circle(order)) == Descents(less, Circle(order[k..] + order[..k]))
    {
      RotationKeepsDescents(less, order, k);
    }
    if k :| 0 <= k < |order| && Ascending(less, order[k..] + order[..k]) {
      var turned := order[k..] + order[..k];
      AscendingHasNoDescent(less, turned);
      DescentsOfConcat(less, turned, [turned[0]]);
      if |turned| > 1 { AscendingIsSorted(less, names, turned, 0, |turned| - 1); }
    }
    if Descents(less, Circle(order)) == 1 {
      var k := DescentPoint(less, order, Circle(order));
      var turned := order[k..] + order[..k];
      DescentsOfConcat(less, turned, [turned[0]]);
      AscendingHasNoDescent(less, turned);
    }
  }

  lemma RotationKeepsDescents(less: (string, string) -> bool, order: seq<string>, k: nat)
    requires k < |order|
    ensures Descents(less, Circle(order)) == Descents(less, Circle(order[k..] + order[..k]))
  {
    if k > 0 {
      var a, b := order[..k], order[k..];
      assert order == a + b;
      DescentsOfConcat(less, a + b, [a[0]]);
      DescentsOfConcat(less, a, b);
      DescentsOfConcat(less, b + a, [b[0]]);
      DescentsOfConcat(less, b, a);
    } else {
      assert order[0..] + order[..0] == order;
    }
  }

  /** A rotation that ends just before a descent of the circle. */
  lemma DescentPoint(less: (string, string) -> bool, order: seq<string>, circle: seq<string>) returns (k: nat)
    requires |order| > 0 && circle == Circle(order) && Descents(less, circle) > 0
    ensures k < |order|
    ensures var turned := order[k..] + order[..k]; !less(turned[|turned| - 1], turned[0])
  {
    hide Descents;
    AscendingHasNoDescent(less, circle);
    var i, j :| 0 <= i < j < |circle| && j == i + 1 && !less(circle[i], circle[j]);
    k := if j == |order| then 0 else j;
    var turned := order[k..] + order[..k];
    if i + 1 == |order| {
      assert turned == order;
    } else {
      assert turned[|turned| - 1] == order[i] && turned[0] == order[i + 1];
    }
  }

  /** A chain the sort leaves out of order: three names suffice for two descents. */
  lemma UnsortedCircle(less: (string, string) -> bool, a: string, b: string, c: string)
    requires StrictTotalOrder(less, {a, b, c}) && less(a, b) && less(b, c)
    ensures Descents(less, Circle([b, a, c])) == 2
  {
    var p := Circle([b, a, c]);
    assert p == [b, a, c, b] && p[1..] == [a, c, b] && p[1..][1..] == [c, b] && p[1..][1..][1..] == [b];
    assert less(a, c) && Descents(less, [c, b]) == 1 && Descents(less, [a, c, b]) == 1;
  }

  function Reversed(path: seq<string>): (r: seq<string>)
    ensures |r| == |path|
    ensures path != [] ==> r[|r| - 1] == path[0]
  {
    if path == [] then [] else Reversed(path[1..]) + [path[0]]
  }

  /** Walking a path backwards, every step that ran down runs up and the other way round. */
  lemma {:induction false} DescentsOfReversed(less: (string, string) -> bool, names: set<string>, path: seq<string>)
    requires StrictTotalOrder(less, names) && Within(path, names) && |path| > 0
    requires Steps(path)
    ensures Descents(less, path) + Descents(less, Reversed(path)) == |path| - 1
  {
    var rest := path[1..];
    if |path| > 1 {
      assert path[0] != path[1];
      forall i, j | 0 <= i < j < |rest| && j == i + 1 ensures rest[i] != rest[j] {
        assert path[i + 1] != path[j + 1];
      }
      DescentsOfReversed(less, names, rest);
      DescentsOfConcat(less, Reversed(rest), [path[0]]);
    }
  }

  /** The same names in a circle, the other way round. */
  function Turned(order: seq<string>): (r: seq<string>)
    requires |order| > 0
  {
    [order[0]] + Reversed(order[1..])
  }

  lemma {:induction false} ReversedOfAppended(path: seq<string>, x: string)
    ensures Reversed(path + [x]) == [x] + Reversed(path)
  {
    if path != [] {
      assert (path + [x])[1..] == path[1..] + [x];
      ReversedOfAppended(path[1..], x);
    }
  }

  lemma CircleOfTurned(order: seq<string>)
    requires |order| > 0
    ensures Circle(Turned(order)) == Reversed(Circle(order))
  {
    ReversedOfAppended(order, order[0]);
    assert Reversed(order) == Reversed(order[1..]) + [order[0]];
  }

  lemma {:induction false} ReversedIsPermutation(path: seq<string>)
    ensures multiset(Reversed(path)) == multiset(path)
  {
    if path != [] {
      ReversedIsPermutation(path[1..]);
      assert path == [path[0]] + path[1..];
    }
  }

  lemma TurnedIsPermutation(order: seq<string>)
    requires |order| > 0
    ensures multiset(Turned(order)) == multiset(order)
  {
    ReversedIsPermutation(order[1..]);
    assert order == [order[0]] + order[1..];
  }

  ghost predicate Steps(path: seq<string>) {
    forall i, j :: 0 <= i < j < |path| && j == i + 1 ==> path[i] != path[j]
  }

  /** Of the two ways round a circle of distinct names, the descents add up to their number. */
  lemma DescentsBothWays(less: (string, string) -> bool, names: set<string>, order: seq<string>)
    requires StrictTotalOrder(less, names) && Within(order, names) && |order| > 1 && Steps(Circle(order))
    ensures Descents(less, Circle(order)) + Descents(less, Circle(Turned(order))) == |order|
  {
    hide Descents, StrictTotalOrder, Reversed;
    CircleOfTurned(order);
    DescentsOfReversed(less, names, Circle(order));
  }

  /** Up to two names, every circle has one descent. */
  lemma SmallCircles(less: (string, string) -> bool, names: set<string>, order: seq<string>)
    requires StrictTotalOrder(less, names) && Within(order, names) && 0 < |order| <= 2
    requires |order| == 2 ==> order[0] != order[1]
    ensures Descents(less, Circle(order)) == 1
  {
    var c := Circle(order);
    if |order| == 1 {
      assert c == [order[0], order[0]] && c[1..] == [order[0]];
    } else {
      assert c == [order[0], order[1], order[0]] && c[1..] == [order[1], order[0]] && c[1..][1..] == [order[0]];
      assert order[0] in names && order[1] in names && less(order[0], order[1]) != less(order[1], order[0]);
      assert Descents(less, c[1..]) == if less(order[1], order[0]) then 0 else 1;
    }
  }
}
