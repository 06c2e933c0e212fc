/** A filter that goes through a list once and drops an element when a relation links it to an
    element it kept before. For a transitive relation this is the same as dropping every element
    that any earlier element of the list, kept or dropped, is linked to. */
module GreedyFilter {

  predicate Dropped<T>(rel: (T, T) -> bool, xs: seq<T>, j: nat)
    requires j < |xs|
  {
    exists i :: 0 <= i < j && rel(xs[i], xs[j])
  }

  /** The elements among the first n that are not dropped, in order. */
  function Kept<T>(rel: (T, T) -> bool, xs: seq<T>, n: nat): seq<T>
    requires n <= |xs|
  {
    if n == 0 then []
    else Kept(rel, xs, n - 1) + (if Dropped(rel, xs, n - 1) then [] else [xs[n - 1]])
  }

  lemma {:induction false} KeptElements<T>(rel: (T, T) -> bool, xs: seq<T>, n: nat, x: T)
    requires n <= |xs|
    ensures x in Kept(rel, xs, n) <==> exists i :: 0 <= i < n && xs[i] == x && !Dropped(rel, xs, i)
  {
    if n > 0 {
      KeptElements(rel, xs, n - 1, x);
    }
  }

  ghost predicate Transitive<T(!new)>(rel: (T, T) -> bool) {
    forall a, b, c :: rel(a, b) && rel(b, c) ==> rel(a, c)
  }

  /** Whatever drops an element can be traced to an element that is kept. */
  lemma {:induction false} KeptDropper<T(!new)>(rel: (T, T) -> bool, xs: seq<T>, j: nat, i: nat) returns (k: nat)
    requires Transitive(rel) && i < j < |xs| && rel(xs[i], xs[j])
    ensures k <= i && rel(xs[k], xs[j]) && !Dropped(rel, xs, k)
    decreases i
  {
    if Dropped(rel, xs, i) {
      var h :| 0 <= h < i && rel(xs[h], xs[i]);
      k := KeptDropper(rel, xs, j, h);
    } else {
      k := i;
    }
  }

  /** Comparing with the kept elements only is enough. */
  lemma KeptElementsSuffice<T(!new)>(rel: (T, T) -> bool, xs: seq<T>, j: nat)
    requires Transitive(rel) && j < |xs|
    ensures Dropped(rel, xs, j) <==> exists x :: x in Kept(rel, xs, j) && rel(x, xs[j])
  {
    if Dropped(rel, xs, j) {
      var i :| 0 <= i < j && rel(xs[i], xs[j]);
      var k := KeptDropper(rel, xs, j, i);
      KeptElements(rel, xs, j, xs[k]);
    }
    if x :| x in Kept(rel, xs, j) && rel(x, xs[j]) {
      KeptElements(rel, xs, j, x);
    }
  }

  ghost predicate NothingDropped<T>(rel: (T, T) -> bool, xs: seq<T>) {
    forall i, j :: 0 <= i < j < |xs| ==> !rel(xs[i], xs[j])
  }

  lemma {:induction false} KeptNotDropped<T(!new)>(rel: (T, T) -> bool, xs: seq<T>, n: nat)
    requires Transitive(rel) && n <= |xs|
    ensures NothingDropped(rel, Kept(rel, xs, n))
  {
    if n > 0 {
      KeptNotDropped(rel, xs, n - 1);
      KeptElementsSuffice(rel, xs, n - 1);
    }
  }

  lemma {:induction false} NothingDroppedIsIdentity<T>(rel: (T, T) -> bool, xs: seq<T>, n: nat)
    requires n <= |xs| && NothingDropped(rel, xs)
    ensures Kept(rel, xs, n) == xs[..n]
  {
    if n > 0 {
      NothingDroppedIsIdentity(rel, xs, n - 1);
    }
  }

  /** Filtering a filtered list changes nothing. */
  lemma KeptIdempotent<T(!new)>(rel: (T, T) -> bool, xs: seq<T>)
    requires Transitive(rel)
    ensures var once := Kept(rel, xs, |xs|); Kept(rel, once, |once|) == once
  {
    var once := Kept(rel, xs, |xs|);
    KeptNotDropped(rel, xs, |xs|);
    NothingDroppedIsIdentity(rel, once, |once|);
    assert once[..|once|] == once;
  }
}
