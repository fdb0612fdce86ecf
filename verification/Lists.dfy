// Duplicate-free lists in first-seen order, as JavaScript's Set and Map keep them.
module Lists {
  function Distinct<T(==)>(xs: seq<T>): seq<T> {
    if xs == [] then []
    else
      var before, x := Distinct(xs[..|xs| - 1]), xs[|xs| - 1];
      if x in before then before else before + [x]
  }

  // No element twice, none lost, and a shorter input gives a prefix: so the order is that of first
  // appearance.
  lemma {:induction false} DistinctExactly<T>(xs: seq<T>)
    ensures forall i, j | 0 <= i < j < |Distinct(xs)| :: Distinct(xs)[i] != Distinct(xs)[j]
    ensures forall x :: x in Distinct(xs) <==> x in xs
  {
    if xs != [] {
      DistinctExactly(xs[..|xs| - 1]);
      assert xs == xs[..|xs| - 1] + [xs[|xs| - 1]];
    }
  }

  lemma {:induction false} DistinctPrefix<T>(xs: seq<T>, k: nat)
    requires k <= |xs|
    ensures Distinct(xs[..k]) <= Distinct(xs)
    decreases |xs|
  {
    if k < |xs| {
      var init := xs[..|xs| - 1];
      DistinctPrefix(init, k);
      assert init[..k] == xs[..k];
    } else {
      assert xs[..k] == xs;
    }
  }

  // Appending one more element.
  lemma DistinctStep<T>(xs: seq<T>, x: T)
    ensures Distinct(xs + [x]) == if x in Distinct(xs) then Distinct(xs) else Distinct(xs) + [x]
  {
    assert (xs + [x])[..|xs|] == xs;
  }

  // A list without duplicates is already in that form.
  lemma {:induction false} DistinctOfDistinct<T>(xs: seq<T>)
    requires forall i, j | 0 <= i < j < |xs| :: xs[i] != xs[j]
    ensures Distinct(xs) == xs
  {
    if xs != [] {
      DistinctOfDistinct(xs[..|xs| - 1]);
    }
  }
}
