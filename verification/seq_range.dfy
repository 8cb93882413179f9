/** Coordinate ranges on a sequence: a half-open interval `[start, end)`
    together with a strand tag (class SeqRange of SequenceFeature.h). */
module SeqRanges {

  /** The four strand tags and the characters they are written with. */
  datatype Strand = Plus | Minus | Unstranded | UnknownStrand {

    /** The character the original stores for this tag. */
    function Symbol(): char {
      match this
      case Plus => '+'
      case Minus => '-'
      case Unstranded => '.'
      case UnknownStrand => '?'
    }
  }

  /** The four characters accepted as a strand. */
  predicate IsStrandSymbol(c: char) {
    c == '+' || c == '-' || c == '?' || c == '.'
  }

  /** Reads a strand character; any character outside `+ - ? .` is
      normalised to "not stranded". */
  function StrandOf(c: char): (s: Strand)
    ensures IsStrandSymbol(c) ==> s.Symbol() == c
    ensures !IsStrandSymbol(c) ==> s == Unstranded
  {
    if c == '+' then Plus
    else if c == '-' then Minus
    else if c == '?' then UnknownStrand
    else Unstranded
  }

  /** Reading back the character of a tag gives the tag. */
  lemma StrandSymbolRoundTrip(s: Strand)
    ensures IsStrandSymbol(s.Symbol())
    ensures StrandOf(s.Symbol()) == s
  {
  }

  /** Coordinates and strand, before the ordering invariant is imposed. */
  datatype Coordinates = Coordinates(start: nat, end: nat, strand: Strand)

  /** A range always has `start <= end`. */
  type SeqRange = c: Coordinates | c.start <= c.end witness Coordinates(0, 0, Unstranded)

  /** Builds a range from two positions given in either order and a strand
      character.  The ordering of the two positions is that of the
      underlying integer range, which keeps the smaller one as the start. */
  function MakeRange(a: nat, b: nat, strand: char): (r: SeqRange)
    ensures (r.start, r.end) == (a, b) || (r.start, r.end) == (b, a)
    ensures r.strand.Symbol() == if IsStrandSymbol(strand) then strand else '.'
  {
    if a <= b then Coordinates(a, b, StrandOf(strand))
    else Coordinates(b, a, StrandOf(strand))
  }

  /** Number of positions covered. */
  function Size(r: SeqRange): nat {
    r.end - r.start
  }

  /** Position `p` lies inside the half-open range. */
  predicate Covers(r: SeqRange, p: nat) {
    r.start <= p < r.end
  }

  /** A range is empty exactly when it covers no position. */
  lemma EmptyIffNoPosition(r: SeqRange)
    ensures Size(r) == 0 <==> forall p :: !Covers(r, p)
  {
    if Size(r) > 0 {
      assert Covers(r, r.start);
    }
  }

  predicate IsStranded(r: SeqRange) {
    r.strand == Plus || r.strand == Minus
  }

  predicate IsNegativeStrand(r: SeqRange) {
    r.strand == Minus
  }

  /** A range is stranded when its strand is written `+` or `-`, and on the
      negative strand when it is written `-`. */
  lemma StrandPredicatesBySymbol(r: SeqRange)
    ensures IsStranded(r) <==> r.strand.Symbol() == '+' || r.strand.Symbol() == '-'
    ensures IsNegativeStrand(r) <==> r.strand.Symbol() == '-'
    ensures IsNegativeStrand(r) ==> IsStranded(r)
  {
  }

  /** Flips the orientation of a stranded range; an unstranded range or one
      whose strandedness is unknown is left as it is. */
  function Invert(r: SeqRange): (r': SeqRange)
    ensures r'.start == r.start && r'.end == r.end
    ensures r.strand == Plus <==> r'.strand == Minus
    ensures r.strand == Minus <==> r'.strand == Plus
    ensures !IsStranded(r) ==> r' == r
    ensures IsStranded(r') == IsStranded(r)
  {
    if IsStranded(r) then
      if IsNegativeStrand(r) then r.(strand := Plus) else r.(strand := Minus)
    else r
  }

  lemma InvertInvolutive(r: SeqRange)
    ensures Invert(Invert(r)) == r
  {
  }

  /** The two ranges share at least one position. */
  predicate Overlap(a: SeqRange, b: SeqRange) {
    (if a.start < b.start then b.start else a.start) < (if a.end < b.end then a.end else b.end)
  }

  /** `a` covers the whole of `b`. */
  predicate Contains(a: SeqRange, b: SeqRange) {
    a.start <= b.start && b.end <= a.end
  }

  /** Overlap means exactly that some position is covered by both. */
  lemma OverlapIffSharedPosition(a: SeqRange, b: SeqRange)
    ensures Overlap(a, b) <==> exists p :: Covers(a, p) && Covers(b, p)
  {
    if Overlap(a, b) {
      var p := if a.start < b.start then b.start else a.start;
      assert Covers(a, p) && Covers(b, p);
    }
  }

  lemma OverlapSymmetric(a: SeqRange, b: SeqRange)
    ensures Overlap(a, b) == Overlap(b, a)
  {
  }

  /** An empty range overlaps nothing, and touching ranges do not overlap. */
  lemma OverlapNeedsSharedInterior(a: SeqRange, b: SeqRange)
    ensures Size(a) == 0 ==> !Overlap(a, b)
    ensures a.end == b.start ==> !Overlap(a, b)
  {
  }

  /** Containment means every position of the inner range is covered by
      the outer one; for an empty inner range only the endpoints matter. */
  lemma ContainsIffCoversPositions(a: SeqRange, b: SeqRange)
    ensures Size(b) > 0 ==> (Contains(a, b) <==> forall p :: Covers(b, p) ==> Covers(a, p))
    ensures Size(b) == 0 ==> (Contains(a, b) <==> a.start <= b.start <= a.end)
  {
    if Size(b) > 0 && forall p :: Covers(b, p) ==> Covers(a, p) {
      assert Covers(b, b.start);
      assert Covers(b, b.end - 1);
    }
  }

  /** A non-empty range contained in another overlaps it. */
  lemma ContainedNonEmptyOverlaps(a: SeqRange, b: SeqRange)
    requires Contains(a, b) && Size(b) > 0
    ensures Overlap(a, b) && Overlap(b, a)
  {
  }

  /** Containment is a partial order on ranges (ignoring strand). */
  lemma ContainsOrder(a: SeqRange, b: SeqRange, c: SeqRange)
    ensures Contains(a, a)
    ensures Contains(a, b) && Contains(b, c) ==> Contains(a, c)
    ensures Contains(a, b) && Contains(b, a) ==> a.start == b.start && a.end == b.end
  {
  }
}
