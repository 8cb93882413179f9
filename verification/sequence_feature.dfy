/** Sequence features: an annotation of a coordinate range of a named
    sequence, with a free-form string attribute map (classes
    SequenceFeature and BasicSequenceFeature of SequenceFeature.h). */
module SequenceFeatures {
  import opened Wrappers
  import opened SeqRanges

  /** The score a feature carries when none was given. */
  const NoScore: real := -1.0

  /** One annotation.  The score is a floating-point number in the original;
      it is only stored and compared here, so it is kept as a real. */
  datatype Feature = Feature(
    id: string,
    sequenceId: string,
    source: string,
    featureType: string,
    range: SeqRange,
    score: real,
    attributes: map<string, string>)

  /** The feature built by the default constructor. */
  function DefaultFeature(): (f: Feature)
    ensures Start(f) == 0 && End(f) == 0
    ensures IsEmpty(f) && !IsPoint(f)
    ensures f.score == NoScore
    ensures f.range.strand.Symbol() == '.' && !IsStranded(f)
    ensures f.id == "" && f.sequenceId == "" && f.source == "" && f.featureType == ""
    ensures AttributeList(f) == {}
  {
    Feature("", "", "", "", Coordinates(0, 0, StrandOf('.')), NoScore, map[])
  }

  /** The feature built from its fields; the attribute map starts empty and
      the strand character is normalised as for any range. */
  function NewFeature(id: string, seqId: string, source: string, featureType: string,
                      start: nat, end: nat, strand: char, score: real): (f: Feature)
    ensures f.id == id && f.sequenceId == seqId && f.source == source
    ensures f.featureType == featureType && f.score == score
    ensures start <= end ==> Start(f) == start && End(f) == end
    ensures end < start ==> Start(f) == end && End(f) == start
    ensures Size(f) == if start <= end then end - start else start - end
    ensures f.range.strand == StrandOf(strand)
    ensures AttributeList(f) == {}
  {
    Feature(id, seqId, source, featureType, MakeRange(start, end, strand), score, map[])
  }

  function Start(f: Feature): nat {
    f.range.start
  }

  function End(f: Feature): nat {
    f.range.end
  }

  /** Number of positions annotated. */
  function Size(f: Feature): nat {
    SeqRanges.Size(f.range)
  }

  predicate IsEmpty(f: Feature) {
    Size(f) == 0
  }

  predicate IsPoint(f: Feature) {
    Size(f) == 1
  }

  /** Empty and point annotations in terms of their coordinates. */
  lemma EmptyAndPointByCoordinates(f: Feature)
    ensures Size(f) == End(f) - Start(f)
    ensures IsEmpty(f) <==> Start(f) == End(f)
    ensures IsPoint(f) <==> End(f) == Start(f) + 1
    ensures IsPoint(f) ==> !IsEmpty(f)
    ensures IsEmpty(f) <==> forall p :: !Covers(f.range, p)
  {
    EmptyIffNoPosition(f.range);
  }

  predicate IsStranded(f: Feature) {
    SeqRanges.IsStranded(f.range)
  }

  predicate IsNegativeStrand(f: Feature) {
    SeqRanges.IsNegativeStrand(f.range)
  }

  /** Changes the orientation of the feature; nothing but the strand of its
      range is touched. */
  function InvertFeature(f: Feature): (g: Feature)
    ensures g == f.(range := g.range)
    ensures Start(g) == Start(f) && End(g) == End(f)
    ensures IsStranded(g) == IsStranded(f)
    ensures IsStranded(f) ==> IsNegativeStrand(g) != IsNegativeStrand(f)
    ensures !IsStranded(f) ==> g == f
  {
    f.(range := Invert(f.range))
  }

  lemma InvertFeatureInvolutive(f: Feature)
    ensures InvertFeature(InvertFeature(f)) == f
  {
    InvertInvolutive(f.range);
  }

  /** Read-only attribute lookup: a missing attribute gives `None`, standing
      for the shared "no attribute set" value, and the map is not changed. */
  function GetAttribute(f: Feature, name: string): (v: Option<string>)
    ensures v.Some? <==> name in AttributeList(f)
  {
    if name in f.attributes then Some(f.attributes[name]) else None
  }

  /** Lookup through a writable reference: a missing attribute is created
      with the empty string as its value, and that value is returned. */
  function GetAttributeForUpdate(f: Feature, name: string): (res: (Feature, string))
    ensures GetAttribute(f, name).Some? ==> res.0 == f && res.1 == GetAttribute(f, name).value
    ensures GetAttribute(f, name).None? ==> res.1 == ""
    ensures GetAttribute(res.0, name) == Some(res.1)
    ensures AttributeList(res.0) == AttributeList(f) + {name}
    ensures forall other :: other != name ==> GetAttribute(res.0, other) == GetAttribute(f, other)
    ensures res.0 == f.(attributes := res.0.attributes)
  {
    if name in f.attributes then (f, f.attributes[name])
    else (f.(attributes := f.attributes[name := ""]), "")
  }

  /** Stores an attribute, replacing any previous value under that name. */
  function SetAttribute(f: Feature, name: string, value: string): (g: Feature)
    ensures GetAttribute(g, name) == Some(value)
    ensures forall other :: other != name ==> GetAttribute(g, other) == GetAttribute(f, other)
    ensures AttributeList(g) == AttributeList(f) + {name}
    ensures g == f.(attributes := g.attributes)
  {
    f.(attributes := f.attributes[name := value])
  }

  /** The names of all attributes stored. */
  function AttributeList(f: Feature): (names: set<string>)
    ensures forall name :: name in names <==> name in f.attributes
  {
    f.attributes.Keys
  }

  /** Deletes one attribute; deleting an absent one changes nothing. */
  function RemoveAttribute(f: Feature, name: string): (g: Feature)
    ensures GetAttribute(g, name) == None
    ensures forall other :: other != name ==> GetAttribute(g, other) == GetAttribute(f, other)
    ensures AttributeList(g) == AttributeList(f) - {name}
    ensures name !in AttributeList(f) ==> g == f
    ensures g == f.(attributes := g.attributes)
  {
    if name in f.attributes then f.(attributes := f.attributes - {name}) else f
  }

  /** Setting an attribute and then removing it restores a feature that did
      not have it. */
  lemma SetThenRemove(f: Feature, name: string, value: string)
    requires name !in AttributeList(f)
    ensures RemoveAttribute(SetAttribute(f, name, value), name) == f
  {
    assert f.attributes[name := value] - {name} == f.attributes;
  }

  /** Two features overlap only when they lie on the same sequence and their
      ranges share a position. */
  function OverlapsFeature(f: Feature, g: Feature): (b: bool)
    ensures b <==> f.sequenceId == g.sequenceId &&
                   exists p :: Covers(f.range, p) && Covers(g.range, p)
  {
    OverlapIffSharedPosition(f.range, g.range);
    if g.sequenceId == f.sequenceId then Overlap(f.range, g.range) else false
  }

  /** The feature's range shares a position with `r`; the sequence is not
      compared. */
  function OverlapsRange(f: Feature, r: SeqRange): (b: bool)
    ensures b <==> exists p :: Covers(f.range, p) && Covers(r, p)
  {
    OverlapIffSharedPosition(f.range, r);
    Overlap(f.range, r)
  }

  /** The feature covers all of `r`: every position of a non-empty `r` is
      a position of the feature; an empty `r` only has to lie between the
      feature's endpoints. */
  function Includes(f: Feature, r: SeqRange): (b: bool)
    ensures SeqRanges.Size(r) > 0 ==> (b <==> forall p :: Covers(r, p) ==> Covers(f.range, p))
    ensures SeqRanges.Size(r) == 0 ==> (b <==> Start(f) <= r.start <= End(f))
  {
    ContainsIffCoversPositions(f.range, r);
    Contains(f.range, r)
  }

  /** `r` covers all of the feature: every position of a non-empty feature
      is a position of `r`; an empty feature only has to lie between the
      endpoints of `r`. */
  function IsIncludedIn(f: Feature, r: SeqRange): (b: bool)
    ensures !IsEmpty(f) ==> (b <==> forall p :: Covers(f.range, p) ==> Covers(r, p))
    ensures IsEmpty(f) ==> (b <==> r.start <= Start(f) <= r.end)
  {
    ContainsIffCoversPositions(r, f.range);
    Contains(r, f.range)
  }

  /** Feature overlap is range overlap restricted to one sequence, and is
      symmetric. */
  lemma OverlapsFeatureMeaning(f: Feature, g: Feature)
    ensures OverlapsFeature(f, g) <==> f.sequenceId == g.sequenceId && OverlapsRange(f, g.range)
    ensures OverlapsFeature(f, g) == OverlapsFeature(g, f)
    ensures OverlapsFeature(f, g) <==>
      f.sequenceId == g.sequenceId && exists p :: Covers(f.range, p) && Covers(g.range, p)
  {
    OverlapSymmetric(f.range, g.range);
    OverlapIffSharedPosition(f.range, g.range);
  }

  /** `Includes` and `IsIncludedIn` are mirror images of each other. */
  lemma IncludesMirrorsIsIncludedIn(f: Feature, g: Feature)
    ensures Includes(f, g.range) == IsIncludedIn(g, f.range)
    ensures Includes(f, f.range) && IsIncludedIn(f, f.range)
  {
  }

  /** A non-empty feature included in a range overlaps it; an empty one
      never overlaps anything, even inside the range. */
  lemma IncludedOverlaps(f: Feature, r: SeqRange)
    ensures IsIncludedIn(f, r) && !IsEmpty(f) ==> OverlapsRange(f, r)
    ensures IsEmpty(f) ==> !OverlapsRange(f, r)
  {
    if IsIncludedIn(f, r) && !IsEmpty(f) {
      ContainedNonEmptyOverlaps(r, f.range);
    }
    OverlapNeedsSharedInterior(f.range, r);
  }
}
