/** The value categorizer of the site-frequency-spectrum statistic (class
    SiteFrequencySpectrumMafStatistics::Categorizer of MafStatistics.h):
    sorted bounds `b[0] <= ... <= b[n]` define the half-open bins
    `[b[i-1], b[i])`, numbered from 1. */
module Categorizers {
  import opened Wrappers
  import opened MafErrors
  import opened RealSort

  /** The largest `size_t`, reached when 1 is subtracted from a size of 0. */
  const SizeMax: nat := 0xFFFF_FFFF_FFFF_FFFF

  datatype Categorizer = Categorizer(bounds: seq<real>)

  /** A categorizer keeps its own copy of the bounds, sorted. */
  function NewCategorizer(bounds: seq<real>): (c: Categorizer)
    ensures Sorted(c.bounds)
    ensures multiset(c.bounds) == multiset(bounds)
  {
    Categorizer(Sort(bounds))
  }

  /** The number of bounds less one, computed in `size_t` arithmetic. */
  function NumberOfCategories(c: Categorizer): (n: nat)
    ensures (n + 1) % (SizeMax + 1) == |c.bounds| % (SizeMax + 1)
    ensures |c.bounds| > 0 ==> n + 1 == |c.bounds|
  {
    if |c.bounds| == 0 then SizeMax else |c.bounds| - 1
  }

  /** The first index from `i` on whose bound exceeds `v`. */
  function FirstAbove(bounds: seq<real>, v: real, i: nat): (r: Option<nat>)
    ensures r.Some? ==> i <= r.value < |bounds| && v < bounds[r.value]
    ensures r.Some? ==> forall j :: i <= j < r.value ==> bounds[j] <= v
    ensures r.None? <==> forall j :: i <= j < |bounds| ==> bounds[j] <= v
    decreases |bounds| - i
  {
    if i >= |bounds| then None
    else if v < bounds[i] then Some(i)
    else FirstAbove(bounds, v, i + 1)
  }

  /** The category of `v`: the first bin whose upper bound exceeds it.  A
      value below the first bound, or not below any later bound, is out of
      range.  The first bound is read without checking that there is one. */
  function GetCategory(c: Categorizer, v: real): (r: Result<nat, Error>)
    requires |c.bounds| > 0
    ensures r.Err? ==> r.error == OutOfRange(v, c.bounds[0], c.bounds[|c.bounds| - 1])
    ensures r.Err? <==> v < c.bounds[0] || forall j :: 1 <= j < |c.bounds| ==> c.bounds[j] <= v
    ensures r.Ok? ==> 1 <= r.value <= NumberOfCategories(c)
    ensures r.Ok? ==> c.bounds[r.value - 1] <= v < c.bounds[r.value]
    ensures r.Ok? ==> forall j :: 1 <= j < r.value ==> c.bounds[j] <= v
    ensures Sorted(c.bounds) ==> (r.Err? <==> v < c.bounds[0] || c.bounds[|c.bounds| - 1] <= v)
  {
    var outOfRange := OutOfRange(v, c.bounds[0], c.bounds[|c.bounds| - 1]);
    if v < c.bounds[0] then Err(outOfRange)
    else
      match FirstAbove(c.bounds, v, 1)
      case Some(i) => Ok(i)
      case None => Err(outOfRange)
  }

  /** With sorted bounds, `v` falls in category `i` exactly when it lies in
      the half-open bin `[b[i-1], b[i])`; so at most one bin holds it. */
  lemma CategoryIsBin(c: Categorizer, v: real, i: nat)
    requires |c.bounds| > 0 && Sorted(c.bounds)
    ensures GetCategory(c, v) == Ok(i) <==> 1 <= i < |c.bounds| && c.bounds[i - 1] <= v < c.bounds[i]
  {
  }

  /** A categorizer built from the same bounds in another order classifies
      every value the same way. */
  lemma CategorizerIgnoresBoundOrder(a: seq<real>, b: seq<real>, v: real)
    requires multiset(a) == multiset(b) && |a| > 0
    ensures NumberOfCategories(NewCategorizer(a)) == NumberOfCategories(NewCategorizer(b))
    ensures GetCategory(NewCategorizer(a), v) == GetCategory(NewCategorizer(b), v)
  {
    SortDependsOnlyOnElements(a, b);
  }

  /** Bounds 0, 1, 2, 3: three bins; 0 and 0.9 fall in the first, 1 in the
      second, while 3 and -0.1 are out of range. */
  lemma CategorizerExample()
    ensures var c := Categorizer([0.0, 1.0, 2.0, 3.0]);
            NumberOfCategories(c) == 3 &&
            GetCategory(c, 0.0) == Ok(1) && GetCategory(c, 0.9) == Ok(1) &&
            GetCategory(c, 1.0) == Ok(2) &&
            GetCategory(c, 3.0) == Err(OutOfRange(3.0, 0.0, 3.0)) &&
            GetCategory(c, -0.1) == Err(OutOfRange(-0.1, 0.0, 3.0))
  {
    var c := Categorizer([0.0, 1.0, 2.0, 3.0]);
    assert Sorted(c.bounds);
    CategoryIsBin(c, 0.0, 1);
    CategoryIsBin(c, 0.9, 1);
    CategoryIsBin(c, 1.0, 2);
  }

  /** Building a categorizer from bounds given in ascending order keeps
      them as they are. */
  lemma SortedBoundsKept(bounds: seq<real>)
    requires Sorted(bounds)
    ensures NewCategorizer(bounds) == Categorizer(bounds)
  {
    SortDependsOnlyOnElements(bounds, bounds);
  }
}
