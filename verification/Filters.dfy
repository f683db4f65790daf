/** Filtering lists, and lists without repetition. */
module Filters {
  import opened Records

  predicate Distinct<T(==)>(s: seq<T>) {
    forall i, j :: 0 <= i < j < |s| ==> s[i] != s[j]
  }

  lemma FilterOfPermutation<T(!new)>(a: seq<T>, b: seq<T>, keep: T -> bool)
    requires multiset(a) == multiset(b)
    ensures multiset(Filter(a, keep)) == multiset(Filter(b, keep))
    ensures |Filter(a, keep)| == |Filter(b, keep)|
  {
    hide Filter;
    var fa, fb := Filter(a, keep), Filter(b, keep);
    forall x ensures multiset(fa)[x] == multiset(fb)[x] {
      FilterCounts(a, keep, x);
      FilterCounts(b, keep, x);
    }
    assert multiset(fa) == multiset(fb);
    assert |fa| == |multiset(fa)|;
  }

  lemma PermutationMembers<T>(a: seq<T>, b: seq<T>, x: T)
    requires multiset(a) == multiset(b)
    ensures x in a <==> x in b
  {
    assert x in a <==> x in multiset(a);
    assert x in b <==> x in multiset(b);
  }

  /** Elements that fail the test contribute nothing. */
  lemma {:induction false} FilterNone<T>(s: seq<T>, keep: T -> bool)
    requires forall i :: 0 <= i < |s| ==> !keep(s[i])
    ensures Filter(s, keep) == []
  {
    if |s| > 0 {
      FilterNone(s[1..], keep);
    }
  }

  lemma {:induction false} FilterOnly<T>(s: seq<T>, keep: T -> bool, i: nat)
    requires i < |s| && forall j :: 0 <= j < |s| ==> (keep(s[j]) <==> j == i)
    ensures Filter(s, keep) == [s[i]]
  {
    if i == 0 {
      FilterNone(s[1..], keep);
    } else {
      FilterOnly(s[1..], keep, i - 1);
    }
  }

  lemma {:induction false} FilterAll<T>(s: seq<T>, keep: T -> bool)
    requires forall i :: 0 <= i < |s| ==> keep(s[i])
    ensures Filter(s, keep) == s
  {
    if |s| > 0 {
      FilterAll(s[1..], keep);
      assert s == [s[0]] + s[1..];
    }
  }

  /** A filter that drops nothing. */
  lemma FilterAllIff<T>(s: seq<T>, keep: T -> bool)
    ensures Filter(s, keep) == s <==> forall x <- s :: keep(x)
  {
    hide Filter;
    if forall x <- s :: keep(x) {
      FilterAll(s, keep);
    }
    if Filter(s, keep) == s {
      forall x | x in s ensures keep(x) {
        FilterHas(s, keep, x);
      }
    }
  }

  lemma {:induction false} FilterTwice<T>(s: seq<T>, p: T -> bool, q: T -> bool, both: T -> bool)
    requires forall i :: 0 <= i < |s| ==> (both(s[i]) <==> p(s[i]) && q(s[i]))
    ensures Filter(Filter(s, p), q) == Filter(s, both)
  {
    if |s| > 0 {
      FilterTwice(s[1..], p, q, both);
      var head := if p(s[0]) then [s[0]] else [];
      FilterOfConcat(head, Filter(s[1..], p), q);
    }
  }

  lemma {:induction false} FilterSame<T>(s: seq<T>, p: T -> bool, q: T -> bool)
    requires forall i :: 0 <= i < |s| ==> (p(s[i]) <==> q(s[i]))
    ensures Filter(s, p) == Filter(s, q)
  {
    if |s| > 0 {
      FilterSame(s[1..], p, q);
    }
  }

  /** Two filters leave the same exactly when they judge every element alike. */
  lemma FiltersEqualIff<T>(s: seq<T>, p: T -> bool, q: T -> bool)
    ensures Filter(s, p) == Filter(s, q) <==> forall x <- s :: p(x) <==> q(x)
  {
    hide Filter;
    if forall x <- s :: p(x) <==> q(x) {
      FilterSame(s, p, q);
    }
    if Filter(s, p) == Filter(s, q) {
      forall x | x in s ensures p(x) <==> q(x) {
        FilterHas(s, p, x);
        FilterHas(s, q, x);
      }
    }
  }

  /** Filtering by a test that holds on two separate parts. */
  lemma {:induction false} FilterSplits<T>(s: seq<T>, both: T -> bool, one: T -> bool, other: T -> bool)
    requires forall x <- s :: (both(x) <==> one(x) || other(x)) && !(one(x) && other(x))
    ensures |Filter(s, both)| == |Filter(s, one)| + |Filter(s, other)|
  {
    if |s| > 0 {
      FilterSplits(s[1..], both, one, other);
    }
  }

  /** An element that fails the test may be left out. */
  lemma FilterSkips<T>(a: seq<T>, x: T, b: seq<T>, keep: T -> bool)
    requires !keep(x)
    ensures Filter(a + [x] + b, keep) == Filter(a + b, keep)
  {
    FilterOfConcat(a + [x], b, keep);
    FilterOfConcat(a, [x], keep);
    FilterOfConcat(a, b, keep);
    assert Filter(a, keep) + [] == Filter(a, keep);
  }

  predicate Increases(at: seq<nat>) {
    forall i, j :: 0 <= i < j < |at| ==> at[i] < at[j]
  }

  /** r holds the elements of s at these places, which are all the places with an element that passes. */
  ghost predicate SelectsAt<T(!new)>(s: seq<T>, keep: T -> bool, r: seq<T>, at: seq<nat>) {
    && Increases(at) && |at| == |r|
    && (forall j :: 0 <= j < |at| ==> at[j] < |s| && r[j] == s[at[j]])
    && (forall i: nat :: i in at <==> i < |s| && keep(s[i]))
  }

  /** r is what passes the test, all of it, each as often as in s and in the same order. */
  ghost predicate IsSelection<T(!new)>(s: seq<T>, keep: T -> bool, r: seq<T>) {
    exists at :: SelectsAt(s, keep, r, at)
  }

  lemma PlaceDropped<T(!new)>(s: seq<T>, keep: T -> bool, r: seq<T>, x: T, at: seq<nat>)
    requires SelectsAt(s, keep, r, at) && !keep(x)
    ensures SelectsAt(s + [x], keep, r, at)
  {
  }

  lemma PlaceKept<T(!new)>(s: seq<T>, keep: T -> bool, r: seq<T>, x: T, at: seq<nat>)
    requires SelectsAt(s, keep, r, at) && keep(x)
    ensures SelectsAt(s + [x], keep, r + [x], at + [|s|])
  {
    var more, longer := at + [|s|], s + [x];
    forall j | 0 <= j < |more| ensures more[j] < |longer| && (r + [x])[j] == longer[more[j]] {
    }
    assert forall j :: 0 <= j < |at| ==> at[j] in at;
    forall i: nat ensures i in more <==> i < |longer| && keep(longer[i]) {
      assert i in more <==> i in at || i == |s|;
    }
  }

  lemma {:induction false} PlacesKept<T(!new)>(s: seq<T>, keep: T -> bool, n: nat) returns (at: seq<nat>)
    requires n <= |s|
    ensures SelectsAt(s[..n], keep, Filter(s[..n], keep), at)
    decreases n
  {
    at := [];
    if n > 0 {
      hide SelectsAt, Filter;
      var init := PlacesKept(s, keep, n - 1);
      FilterStep(s, n - 1, keep);
      assert s[..n] == s[..n - 1] + [s[n - 1]];
      if keep(s[n - 1]) {
        PlaceKept(s[..n - 1], keep, Filter(s[..n - 1], keep), s[n - 1], init);
        at := init + [n - 1];
      } else {
        PlaceDropped(s[..n - 1], keep, Filter(s[..n - 1], keep), s[n - 1], init);
        at := init;
      }
    }
  }

  lemma FilterSelects<T(!new)>(s: seq<T>, keep: T -> bool)
    ensures IsSelection(s, keep, Filter(s, keep))
  {
    var at := PlacesKept(s, keep, |s|);
    assert s[..|s|] == s;
  }
}
