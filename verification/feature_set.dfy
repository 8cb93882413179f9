/** An ordered collection of features with queries deriving new collections
    (class SequenceFeatureSet of SequenceFeature.h).  The original owns
    heap copies of the features it is given; with value semantics every
    stored feature is already independent of the caller's. */
module FeatureSets {
  import opened Filters
  import opened SeqRanges
  import opened SequenceFeatures

  /** Features in insertion order; duplicates are allowed. */
  datatype FeatureSet = FeatureSet(features: seq<Feature>)

  function EmptySet(): (fs: FeatureSet)
    ensures NumberOfFeatures(fs) == 0 && IsEmptySet(fs)
  {
    FeatureSet([])
  }

  /** Every stored copy counts, duplicates included. */
  function NumberOfFeatures(fs: FeatureSet): (n: nat)
    ensures n == |multiset(fs.features)|
  {
    |fs.features|
  }

  /** A collection is empty when it holds no feature at all, and then it
      has no sequences and no types either. */
  function IsEmptySet(fs: FeatureSet): (b: bool)
    ensures b <==> forall f :: f !in fs.features
    ensures b ==> Sequences(fs) == {} && Types(fs) == {}
  {
    assert NumberOfFeatures(fs) > 0 ==> fs.features[0] in fs.features;
    NumberOfFeatures(fs) == 0
  }

  /** The `i`-th feature; the original does not check the index. */
  function GetFeature(fs: FeatureSet, i: nat): (f: Feature)
    requires i < NumberOfFeatures(fs)
    ensures f in fs.features
  {
    fs.features[i]
  }

  /** Drops every feature. */
  function Clear(fs: FeatureSet): (r: FeatureSet)
    ensures IsEmptySet(r)
    ensures Sequences(r) == {} && Types(r) == {}
  {
    EmptySet()
  }

  /** Stores a copy of `f` after all features already present. */
  function AddFeature(fs: FeatureSet, f: Feature): (r: FeatureSet)
    ensures NumberOfFeatures(r) == NumberOfFeatures(fs) + 1
    ensures GetFeature(r, NumberOfFeatures(fs)) == f
    ensures forall i :: 0 <= i < NumberOfFeatures(fs) ==> GetFeature(r, i) == GetFeature(fs, i)
  {
    FeatureSet(fs.features + [f])
  }

  /** The sequence identifiers of all features. */
  function Sequences(fs: FeatureSet): (ids: set<string>)
    ensures forall id :: id in ids <==> exists i :: 0 <= i < |fs.features| && fs.features[i].sequenceId == id
  {
    Image(fs.features, (f: Feature) => f.sequenceId)
  }

  /** The types of all features. */
  function Types(fs: FeatureSet): (types: set<string>)
    ensures forall t :: t in types <==> exists i :: 0 <= i < |fs.features| && fs.features[i].featureType == t
  {
    Image(fs.features, (f: Feature) => f.featureType)
  }

  /** The new collection of the features satisfying `p`, in their order.
      Every query below is this selection with its own predicate. */
  function Select(fs: FeatureSet, p: Feature -> bool): (r: FeatureSet)
    ensures NumberOfFeatures(r) <= NumberOfFeatures(fs)
    ensures forall f :: f in r.features <==> f in fs.features && p(f)
  {
    FeatureSet(Filter(fs.features, p))
  }

  function SubsetForType(fs: FeatureSet, featureType: string): (r: FeatureSet)
    ensures forall f :: f in r.features <==> f in fs.features && f.featureType == featureType
  {
    Select(fs, (f: Feature) => f.featureType == featureType)
  }

  function SubsetForTypes(fs: FeatureSet, types: seq<string>): (r: FeatureSet)
    ensures forall f :: f in r.features <==> f in fs.features && f.featureType in types
  {
    Select(fs, (f: Feature) => f.featureType in types)
  }

  function SubsetForSequence(fs: FeatureSet, id: string): (r: FeatureSet)
    ensures forall f :: f in r.features <==> f in fs.features && f.sequenceId == id
  {
    Select(fs, (f: Feature) => f.sequenceId == id)
  }

  function SubsetForSequences(fs: FeatureSet, ids: seq<string>): (r: FeatureSet)
    ensures forall f :: f in r.features <==> f in fs.features && f.sequenceId in ids
  {
    Select(fs, (f: Feature) => f.sequenceId in ids)
  }

  /** With `complete`, the features lying wholly inside `range`; otherwise
      the features sharing a position with it.  Sequence identifiers are
      not compared. */
  function SubsetForRange(fs: FeatureSet, range: SeqRange, complete: bool): (r: FeatureSet)
    ensures complete ==> forall f :: f in r.features <==> f in fs.features && Contains(range, f.range)
    ensures !complete ==> forall f :: f in r.features <==> f in fs.features && Overlap(f.range, range)
  {
    if complete then Select(fs, (f: Feature) => IsIncludedIn(f, range))
    else Select(fs, (f: Feature) => OverlapsRange(f, range))
  }

  /** A selection keeps the relative order of the features: selecting from
      a collection grown by one feature selects what was selected before,
      followed by the new feature when it matches. */
  lemma SelectAfterAdd(fs: FeatureSet, f: Feature, p: Feature -> bool)
    ensures Select(AddFeature(fs, f), p).features ==
            Select(fs, p).features + (if p(f) then [f] else [])
  {
    assert (fs.features + [f])[..|fs.features|] == fs.features;
  }

  /** Adding a feature adds its sequence identifier and its type to the
      collection's summaries, and nothing else. */
  lemma SummariesAfterAdd(fs: FeatureSet, f: Feature)
    ensures Sequences(AddFeature(fs, f)) == Sequences(fs) + {f.sequenceId}
    ensures Types(AddFeature(fs, f)) == Types(fs) + {f.featureType}
  {
    ImageAppend(fs.features, f, (g: Feature) => g.sequenceId);
    ImageAppend(fs.features, f, (g: Feature) => g.featureType);
  }

  /** A feature occurs in a selection exactly as many times as in the
      collection when it matches, and not at all otherwise. */
  lemma SelectCounts(fs: FeatureSet, p: Feature -> bool, f: Feature)
    ensures multiset(Select(fs, p).features)[f] == if p(f) then multiset(fs.features)[f] else 0
  {
    FilterCounts(fs.features, p, f);
  }

  /** Selections of two collections placed one after the other are the
      two selections placed one after the other. */
  lemma SelectConcat(a: FeatureSet, b: FeatureSet, p: Feature -> bool)
    ensures Select(FeatureSet(a.features + b.features), p).features ==
            Select(a, p).features + Select(b, p).features
  {
    FilterAppend(a.features, b.features, p);
  }

  /** Asking a per-type subset for the same type again returns it as is. */
  lemma SubsetForTypeIdempotent(fs: FeatureSet, featureType: string)
    ensures SubsetForType(SubsetForType(fs, featureType), featureType) == SubsetForType(fs, featureType)
  {
    FilterIdempotent(fs.features, (f: Feature) => f.featureType == featureType);
  }

  /** Two predicates agreeing on every feature of the collection select the
      same features in the same order. */
  lemma {:induction false} SelectAgreeing(s: seq<Feature>, p: Feature -> bool, q: Feature -> bool)
    requires forall f :: f in s ==> p(f) == q(f)
    ensures Filter(s, p) == Filter(s, q)
    decreases |s|
  {
    if |s| > 0 {
      var init := s[..|s| - 1];
      assert forall f :: f in init ==> f in s;
      SelectAgreeing(init, p, q);
    }
  }

  /** Asking for a one-element list of types is asking for that type, and
      likewise for sequence identifiers. */
  lemma SingletonListQueries(fs: FeatureSet, name: string)
    ensures SubsetForTypes(fs, [name]) == SubsetForType(fs, name)
    ensures SubsetForSequences(fs, [name]) == SubsetForSequence(fs, name)
  {
    SelectAgreeing(fs.features, (f: Feature) => f.featureType in [name], (f: Feature) => f.featureType == name);
    SelectAgreeing(fs.features, (f: Feature) => f.sequenceId in [name], (f: Feature) => f.sequenceId == name);
  }

  /** The sequences of a per-sequence subset: just the requested one, if the
      collection has any feature on it. */
  lemma SequencesOfSubsetForSequence(fs: FeatureSet, id: string)
    ensures Sequences(SubsetForSequence(fs, id)) == if id in Sequences(fs) then {id} else {}
  {
    var sub := SubsetForSequence(fs, id);
    if id in Sequences(fs) {
      var i :| 0 <= i < |fs.features| && fs.features[i].sequenceId == id;
      assert fs.features[i] in sub.features;
      var j :| 0 <= j < |sub.features| && sub.features[j] == fs.features[i];
      assert id in Sequences(sub);
    }
    forall x | x in Sequences(sub)
      ensures x == id && x in Sequences(fs)
    {
      var j :| 0 <= j < |sub.features| && sub.features[j].sequenceId == x;
      assert sub.features[j] in sub.features;
      var i :| 0 <= i < |fs.features| && fs.features[i] == sub.features[j];
    }
  }

  /** The types of a per-types subset are the collection's types that were
      asked for. */
  lemma TypesOfSubsetForTypes(fs: FeatureSet, types: seq<string>)
    ensures Types(SubsetForTypes(fs, types)) == Types(fs) * (set t | t in types)
  {
    var sub := SubsetForTypes(fs, types);
    forall x | x in Types(fs) * (set t | t in types)
      ensures x in Types(sub)
    {
      var i :| 0 <= i < |fs.features| && fs.features[i].featureType == x;
      assert fs.features[i] in sub.features;
      var j :| 0 <= j < |sub.features| && sub.features[j] == fs.features[i];
    }
    forall x | x in Types(sub)
      ensures x in Types(fs) && x in types
    {
      var j :| 0 <= j < |sub.features| && sub.features[j].featureType == x;
      assert sub.features[j] in sub.features;
      var i :| 0 <= i < |fs.features| && fs.features[i] == sub.features[j];
    }
  }

  /** Features wholly inside a range are among the features overlapping it,
      provided they are not empty. */
  lemma CompleteSubsetWithinOverlapping(fs: FeatureSet, range: SeqRange)
    ensures forall f :: f in SubsetForRange(fs, range, true).features && !IsEmpty(f) ==>
                        f in SubsetForRange(fs, range, false).features
  {
    forall f | f in SubsetForRange(fs, range, true).features && !IsEmpty(f)
      ensures f in SubsetForRange(fs, range, false).features
    {
      IncludedOverlaps(f, range);
    }
  }

  /** An empty feature inside the range is selected by the complete query
      but not by the overlap query, so the former is not a subset of the
      latter in general. */
  lemma EmptyFeatureOnlyInCompleteSubset(fs: FeatureSet, f: Feature, range: SeqRange)
    requires f in fs.features && IsEmpty(f) && Contains(range, f.range)
    ensures f in SubsetForRange(fs, range, true).features
    ensures f !in SubsetForRange(fs, range, false).features
  {
    IncludedOverlaps(f, range);
  }

  /** Such a feature exists: the empty annotation at position 0 inside the
      first ten positions. */
  lemma EmptyFeatureInsideRangeExists()
    ensures exists fs: FeatureSet, f: Feature, range: SeqRange ::
              f in fs.features && f in SubsetForRange(fs, range, true).features &&
              f !in SubsetForRange(fs, range, false).features
  {
    var f := Feature("", "", "", "", Coordinates(0, 0, Unstranded), NoScore, map[]);
    var fs := FeatureSet([f]);
    var range: SeqRange := Coordinates(0, 10, Unstranded);
    assert f in fs.features;
    EmptyFeatureOnlyInCompleteSubset(fs, f, range);
  }
}
