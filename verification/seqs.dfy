/** Small list operations shared by the model: duplicate-freedom, `list(set(xs))`
    and `list.remove(x)`. */
module Seqs {

  predicate NoDuplicates<X(==)>(xs: seq<X>) {
    forall i, j :: 0 <= i < j < |xs| ==> xs[i] != xs[j]
  }

  /** Putting a new element in front keeps a list duplicate-free. */
  lemma NoDuplicatesCons<X>(x: X, xs: seq<X>)
    requires x !in xs && NoDuplicates(xs)
    ensures NoDuplicates([x] + xs)
  {
    var r := [x] + xs;
    forall i, j | 0 <= i < j < |r| ensures r[i] != r[j] {
      assert r[j] == xs[j - 1];
      if i > 0 {
        assert r[i] == xs[i - 1];
      }
    }
  }

  /** Appending a new element keeps a list duplicate-free. */
  lemma NoDuplicatesAppend<X>(xs: seq<X>, x: X)
    requires x !in xs && NoDuplicates(xs)
    ensures NoDuplicates(xs + [x])
  {
    var r := xs + [x];
    forall i, j | 0 <= i < j < |r| ensures r[i] != r[j] {
      if j == |xs| {
        assert r[i] == xs[i];
      }
    }
  }

  /** `list(set(xs))`: the same elements without repetition. The source leaves the
      order to the set implementation; the model keeps first occurrences in order. */
  function Dedup<X(==,!new)>(xs: seq<X>): (r: seq<X>)
    ensures NoDuplicates(r)
    ensures forall x :: x in r <==> x in xs
    ensures |r| <= |xs|
  {
    if xs == [] then []
    else
      var front := Dedup(xs[..|xs| - 1]);
      var last := xs[|xs| - 1];
      assert forall x :: x in xs <==> x in xs[..|xs| - 1] || x == last;
      if last in front then front else front + [last]
  }

  /** `list.index(x)`: the position of the first occurrence. */
  function IndexOf<X(==)>(xs: seq<X>, x: X): (i: nat)
    requires x in xs
    ensures i < |xs| && xs[i] == x && x !in xs[..i]
  {
    if xs[0] == x then 0 else 1 + IndexOf(xs[1..], x)
  }

  /** `list.remove(x)`: drops the first occurrence; the source raises ValueError when
      x is absent, which its callers catch or rule out first. */
  function RemoveFirst<X(==,!new)>(xs: seq<X>, x: X): (r: seq<X>)
    ensures x in xs ==> (var i := IndexOf(xs, x); r == xs[..i] + xs[i + 1..])
    ensures x !in xs ==> r == xs
    ensures NoDuplicates(xs) ==> NoDuplicates(r) && x !in r && forall y :: y in r <==> y in xs && y != x
  {
    if x in xs then
      var i := IndexOf(xs, x);
      var r := xs[..i] + xs[i + 1..];
      assert forall k :: 0 <= k < |r| ==> r[k] == if k < i then xs[k] else xs[k + 1];
      assert forall y :: y in r <==> exists k :: 0 <= k < |r| && r[k] == y;
      r
    else xs
  }

  /** Removing an element that was just appended to a list without it gives the
      list back. */
  lemma {:induction false} RemoveAppended<X(!new)>(xs: seq<X>, x: X)
    requires x !in xs
    ensures RemoveFirst(xs + [x], x) == xs
  {
    if xs != [] {
      assert (xs + [x])[1..] == xs[1..] + [x];
      RemoveAppended(xs[1..], x);
    }
  }

  /** The tail of a duplicate-free list is duplicate-free and lacks the head. */
  lemma NoDuplicatesTail<X>(xs: seq<X>)
    requires xs != [] && NoDuplicates(xs)
    ensures NoDuplicates(xs[1..]) && xs[0] !in xs[1..]
  {
    forall i, j | 0 <= i < j < |xs[1..]| ensures xs[1..][i] != xs[1..][j] {
      assert xs[1..][i] == xs[i + 1] && xs[1..][j] == xs[j + 1];
    }
  }

  /** A list with no member is empty. */
  lemma EmptyIfNoMember<X>(xs: seq<X>)
    ensures (forall x :: x !in xs) ==> xs == []
  {
    if xs != [] {
      assert xs[0] in xs;
    }
  }
}
