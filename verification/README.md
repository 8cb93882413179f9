# Sequence features and alignment-block statistics, in Dafny

A functional model of two cores of the Bio++ "seq-omics" library:

* **Sequence features** (`src/Bpp/Seq/Feature/SequenceFeature.h`): the
  half-open coordinate range with a strand tag (`SeqRange`), the basic
  feature record with its attribute map (`BasicSequenceFeature`), and the
  ordered feature collection with its queries (`SequenceFeatureSet`).
* **Alignment-block statistics** (`src/Bpp/Seq/Io/Maf/MafStatistics.h`): the
  tagged numeric result store (`MafStatisticsResult`) and its single-tag
  variant (`SimpleMafStatisticsResult`), the single-value statistics whose
  computation is inline (block size, block length, sequence length,
  alignment score), the site-frequency-spectrum `Categorizer` with the
  sizing of its counters, and the construction checks of the four-species
  and polymorphism statistics.

Every C++ object becomes an immutable datatype and every mutating member a
pure function returning the new value; an operation that throws returns
`Err` of a `Result`, carrying one `MafErrors.Error` constructor per cause.

| file | module | models |
|---|---|---|
| wrappers.dfy | `Wrappers` | `Option`, `Result` |
| errors.dfy | `MafErrors` | the exceptions raised |
| filters.dfy | `Filters` | order-preserving selection and key image of a sequence (the loops of the collection queries) |
| seq_range.dfy | `SeqRanges` | `SeqRange`, strands, overlap and containment |
| sequence_feature.dfy | `SequenceFeatures` | `SequenceFeature` / `BasicSequenceFeature` |
| feature_set.dfy | `FeatureSets` | `SequenceFeatureSet` |
| stat_result.dfy | `StatisticsResults` | `MafStatisticsResult`, `SimpleMafStatisticsResult` |
| real_sort.dfy | `RealSort` | the sort of the categorizer bounds |
| categorizer.dfy | `Categorizers` | `SiteFrequencySpectrumMafStatistics::Categorizer` |
| maf_statistics.dfy | `MafStatistics` | blocks as read by the statistics, single-value statistics, construction of the selection statistics |

Assumptions about code outside the two headers:

* `Range<size_t>` (bpp-core) is taken to store its two positions as
  `(min, max)`, to overlap another range when `max(starts) < min(ends)`
  (so an empty range overlaps nothing and ranges that only touch do not
  overlap), and to contain another when `start <= other.start` and
  `other.end <= end`. This is the half-open reading documented at
  `SequenceFeature.h:98-99`. Those lines do not say how an empty range
  overlaps: that an empty range overlaps nothing
  (`OverlapNeedsSharedInterior`, and the second half of `IncludedOverlaps`)
  is an assumption about bpp-core, and so is every statement that an
  empty feature inside a range is missing from the overlap query
  (`EmptyFeatureOnlyInCompleteSubset`, and the bullet on the two
  collection queries below). The example behind
  `EmptyFeatureInsideRangeExists`, the empty range `[0,0)` inside
  `[0,10)`, is not an overlap under either of the two usual formulations,
  `max(starts) < min(ends)` and `start < other.end && other.start < end`.
* `size_t` is taken to be 64 bits wide: `Categorizers.SizeMax` is
  `2^64 - 1`, the value to which `bounds_.size() - 1` wraps for no bounds.
* A `MafBlock` is seen as its rows (species name and site count of each
  row), its number of columns and its score; `getSequencesForSpecies`
  returns that species' rows in block order.
* The shared "no attribute set" string is defined in a source file that
  is not part of this model; the read-only attribute lookup returns `None`
  in its place.

Points where the code differs from what one might expect, modelled as the
code has them:

* The block-size, block-length, sequence-length and alignment-score
  statistics store a *double* (`Number.Double`), although a new
  single-value result holds the *integer* 0.
* The sequence-length statistic names its result `"BlockSize"`, the tag
  of the block-size statistic (`SequenceLengthReportsBlockSizeTag`).
* The collection query with `complete = true` is not a subset of the one
  with `complete = false`: an empty feature inside the range is selected
  by the first and not by the second (`EmptyFeatureOnlyInCompleteSubset`);
  the inclusion holds for non-empty features. The empty-feature half rests
  on the empty-range overlap assumption above: under the second usual
  formulation an empty `[5,5)` would overlap `[0,10)`, and only boundary
  cases such as `[0,0)` escape the overlap query under both.
* The polymorphism statistic only checks that two selections are given;
  it does not itself check that they are disjoint.

## Model

| member | source | states |
|---|---|---|
| SeqRanges.StrandOf | src/Bpp/Seq/Feature/SequenceFeature.h:51-67 | a strand character outside `+ - ? .` becomes "not stranded" (`.`); an accepted character is kept |
| SeqRanges.StrandSymbolRoundTrip | src/Bpp/Seq/Feature/SequenceFeature.h:46-50 | every strand tag is written with an accepted character and reads back as itself |
| SeqRanges.MakeRange | src/Bpp/Seq/Feature/SequenceFeature.h:51-56 | the range holds the two given positions (smaller first) and the normalised strand |
| SeqRanges.StrandPredicatesBySymbol | src/Bpp/Seq/Feature/SequenceFeature.h:74-75 | stranded iff the strand is `+` or `-`; negative iff it is `-` |
| SeqRanges.Invert | src/Bpp/Seq/Feature/SequenceFeature.h:76-89 | `+` and `-` are swapped, `.` and `?` left alone, coordinates never change |
| SeqRanges.InvertInvolutive | src/Bpp/Seq/Feature/SequenceFeature.h:76-89 | inverting twice gives back the range |
| SeqRanges.EmptyIffNoPosition | src/Bpp/Seq/Feature/SequenceFeature.h:98-99 | a range has size 0 exactly when it covers no position |
| SeqRanges.OverlapIffSharedPosition | src/Bpp/Seq/Feature/SequenceFeature.h:205-208 | two ranges overlap exactly when some position lies in both |
| SeqRanges.OverlapSymmetric | src/Bpp/Seq/Feature/SequenceFeature.h:370-373 | range overlap does not depend on the order of the two ranges |
| SeqRanges.OverlapNeedsSharedInterior | src/Bpp/Seq/Feature/SequenceFeature.h:98-99 | an empty range overlaps nothing; ranges that only touch do not overlap |
| SeqRanges.ContainsIffCoversPositions | src/Bpp/Seq/Feature/SequenceFeature.h:210-218 | for a non-empty inner range, containment is exactly covering each of its positions; an empty one is contained exactly when its position lies between the outer start and end |
| SeqRanges.ContainedNonEmptyOverlaps | src/Bpp/Seq/Feature/SequenceFeature.h:375-383 | a non-empty range contained in another overlaps it, both ways round |
| SeqRanges.ContainsOrder | src/Bpp/Seq/Feature/SequenceFeature.h:210-218 | containment is reflexive, transitive and antisymmetric on coordinates |
| SequenceFeatures.DefaultFeature | src/Bpp/Seq/Feature/SequenceFeature.h:279 | the default feature is the empty range at position 0 (start and end 0), not a point, scored -1, on strand `.`, with empty strings and no attributes |
| SequenceFeatures.NewFeature | src/Bpp/Seq/Feature/SequenceFeature.h:281-294 | the given fields are stored, the range runs from the smaller of the two positions to the larger, the strand is normalised, no attributes |
| SequenceFeatures.EmptyAndPointByCoordinates | src/Bpp/Seq/Feature/SequenceFeature.h:165-198 | size is end minus start; empty iff start equals end (no position covered); point iff end is start plus 1 |
| SequenceFeatures.InvertFeature | src/Bpp/Seq/Feature/SequenceFeature.h:311-314 | only the strand of the range changes; a stranded feature changes side, an unstranded one is unchanged |
| SequenceFeatures.InvertFeatureInvolutive | src/Bpp/Seq/Feature/SequenceFeature.h:311-314 | inverting a feature twice gives it back |
| SequenceFeatures.GetAttribute | src/Bpp/Seq/Feature/SequenceFeature.h:318-325 | the read-only lookup finds a value exactly for the names in the attribute list, and the sentinel otherwise |
| SequenceFeatures.GetAttributeForUpdate | src/Bpp/Seq/Feature/SequenceFeature.h:327-330 | the writable lookup returns a present value unchanged; an absent name is inserted with the empty string, nothing else changes |
| SequenceFeatures.SetAttribute | src/Bpp/Seq/Feature/SequenceFeature.h:332-335 | after setting, the lookup of that name gives the value; other names and all other fields are unchanged |
| SequenceFeatures.AttributeList | src/Bpp/Seq/Feature/SequenceFeature.h:337-345 | the attribute list is exactly the set of stored names |
| SequenceFeatures.RemoveAttribute | src/Bpp/Seq/Feature/SequenceFeature.h:347-354 | removal deletes only that name; removing an absent name leaves the feature as it is |
| SequenceFeatures.SetThenRemove | src/Bpp/Seq/Feature/SequenceFeature.h:332-354 | setting a new attribute and removing it restores the feature |
| SequenceFeatures.OverlapsFeatureMeaning | src/Bpp/Seq/Feature/SequenceFeature.h:361-368 | features on different sequences never overlap; on the same sequence they overlap iff their ranges share a position; symmetric |
| SequenceFeatures.IncludesMirrorsIsIncludedIn | src/Bpp/Seq/Feature/SequenceFeature.h:375-383 | `includes` of one feature and `isIncludedIn` of the other are the same test; a feature includes its own range |
| SequenceFeatures.OverlapsFeature | src/Bpp/Seq/Feature/SequenceFeature.h:361-368 | two features overlap exactly when they are on the same sequence and some position lies in both ranges |
| SequenceFeatures.OverlapsRange | src/Bpp/Seq/Feature/SequenceFeature.h:370-373 | a feature overlaps a range exactly when some position lies in both, whatever the sequence |
| SequenceFeatures.Includes | src/Bpp/Seq/Feature/SequenceFeature.h:375-378 | a feature includes a non-empty range exactly when it covers every position of that range, and an empty range exactly when that range's position lies between the feature's start and end |
| SequenceFeatures.IsIncludedIn | src/Bpp/Seq/Feature/SequenceFeature.h:380-383 | a non-empty feature is included in a range exactly when the range covers every position of the feature; an empty feature exactly when its position lies between the range's start and end |
| SequenceFeatures.IncludedOverlaps | src/Bpp/Seq/Feature/SequenceFeature.h:370-383 | a non-empty feature included in a range overlaps it; an empty one overlaps no range |
| FeatureSets.EmptySet | src/Bpp/Seq/Feature/SequenceFeature.h:406 | a new collection holds no feature |
| FeatureSets.NumberOfFeatures | src/Bpp/Seq/Feature/SequenceFeature.h:469 | the count includes every stored feature, duplicates as often as they occur |
| FeatureSets.IsEmptySet | src/Bpp/Seq/Feature/SequenceFeature.h:474 | empty exactly when no feature is stored, and then there are no sequences and no types |
| FeatureSets.GetFeature | src/Bpp/Seq/Feature/SequenceFeature.h:451-464 | for an index below the count (the original does not check it), the feature returned is one of the stored features |
| FeatureSets.Clear | src/Bpp/Seq/Feature/SequenceFeature.h:436-445 | after clearing, the collection is empty and has no sequences and no types |
| FeatureSets.AddFeature | src/Bpp/Seq/Feature/SequenceFeature.h:481-484 | one more feature, the added one last, all earlier ones unchanged at their positions |
| FeatureSets.Sequences | src/Bpp/Seq/Feature/SequenceFeature.h:489-499 | the set of sequence identifiers of all features, and nothing else |
| FeatureSets.Types | src/Bpp/Seq/Feature/SequenceFeature.h:504-514 | the set of types of all features, and nothing else |
| Filters.Filter | src/Bpp/Seq/Feature/SequenceFeature.h:553-561 | the loop's output is no longer than its input and holds exactly the input elements that match |
| Filters.Image | src/Bpp/Seq/Feature/SequenceFeature.h:492-498 | the collected set holds exactly the keys of the elements |
| FeatureSets.Select | src/Bpp/Seq/Feature/SequenceFeature.h:550-563 | a query's new collection holds exactly the features satisfying its test, never more than the original |
| FeatureSets.SubsetForType | src/Bpp/Seq/Feature/SequenceFeature.h:550-563 | the features of the collection having the given type |
| FeatureSets.SubsetForTypes | src/Bpp/Seq/Feature/SequenceFeature.h:569-582 | the features whose type is one of the given list |
| FeatureSets.SubsetForSequence | src/Bpp/Seq/Feature/SequenceFeature.h:588-601 | the features on the given sequence |
| FeatureSets.SubsetForSequences | src/Bpp/Seq/Feature/SequenceFeature.h:607-620 | the features on one of the given sequences |
| FeatureSets.SubsetForRange | src/Bpp/Seq/Feature/SequenceFeature.h:628-647 | complete: features whose range lies within the given one; otherwise features overlapping it; sequence ids not compared |
| FeatureSets.SelectAfterAdd | src/Bpp/Seq/Feature/SequenceFeature.h:553-561 | a query on a collection grown by one feature is the earlier answer followed by that feature if it matches: order is kept |
| FeatureSets.SummariesAfterAdd | src/Bpp/Seq/Feature/SequenceFeature.h:481-514 | after adding a feature, the sequence and type summaries gain exactly its sequence identifier and its type |
| FeatureSets.SelectCounts | src/Bpp/Seq/Feature/SequenceFeature.h:553-561 | a matching feature occurs in the answer as often as in the collection, a non-matching one never |
| FeatureSets.SelectConcat | src/Bpp/Seq/Feature/SequenceFeature.h:553-561 | querying two collections one after the other gives the two answers one after the other |
| FeatureSets.SubsetForTypeIdempotent | src/Bpp/Seq/Feature/SequenceFeature.h:550-563 | querying a per-type answer for the same type returns it unchanged |
| FeatureSets.SingletonListQueries | src/Bpp/Seq/Feature/SequenceFeature.h:569-620 | the list queries with a one-element list equal the single-name queries |
| FeatureSets.SequencesOfSubsetForSequence | src/Bpp/Seq/Feature/SequenceFeature.h:588-601 | the sequences of a per-sequence answer are just that sequence, or none when the collection has no feature on it |
| FeatureSets.TypesOfSubsetForTypes | src/Bpp/Seq/Feature/SequenceFeature.h:569-582 | the types of a per-types answer are the collection's types that were asked for |
| FeatureSets.CompleteSubsetWithinOverlapping | src/Bpp/Seq/Feature/SequenceFeature.h:628-647 | every non-empty feature of the complete answer is in the overlap answer |
| FeatureSets.EmptyFeatureOnlyInCompleteSubset | src/Bpp/Seq/Feature/SequenceFeature.h:628-647 | any empty feature of the collection lying inside the range is in the complete answer but not in the overlap answer |
| FeatureSets.EmptyFeatureInsideRangeExists | src/Bpp/Seq/Feature/SequenceFeature.h:628-647 | some collection has a feature in the complete answer that the overlap answer lacks (the empty feature at 0 inside `[0,10)`) |
| StatisticsResults.EmptyResult | src/Bpp/Seq/Io/Maf/MafStatistics.h:33 | a new result holds no tag |
| StatisticsResults.HasValue | src/Bpp/Seq/Io/Maf/MafStatistics.h:101-104 | a value is available for a tag exactly when its lookup succeeds |
| StatisticsResults.GetValue | src/Bpp/Seq/Io/Maf/MafStatistics.h:55-62 | a successful lookup returns the number stored under the tag; a failed one names the tag |
| StatisticsResults.SetValue | src/Bpp/Seq/Io/Maf/MafStatistics.h:64-95 | the tag then reads back the number with the kind of the setter used; every other tag reads as before; the tag joins the available tags |
| StatisticsResults.AvailableTags | src/Bpp/Seq/Io/Maf/MafStatistics.h:97-109 | the available tags are exactly those for which `hasValue` holds |
| StatisticsResults.SetValueOverwrites | src/Bpp/Seq/Io/Maf/MafStatistics.h:64-73 | a second write under a tag erases every trace of the first |
| StatisticsResults.SetValueCommutes | src/Bpp/Seq/Io/Maf/MafStatistics.h:70-95 | writes under different tags can be done in either order |
| StatisticsResults.CopyAsWritten | src/Bpp/Seq/Io/Maf/MafStatistics.h:36-42 | the copy constructor as written yields a result with no tag, every lookup failing |
| StatisticsResults.AssignAsWritten | src/Bpp/Seq/Io/Maf/MafStatistics.h:44-52 | the assignment operator as written leaves no tag, every lookup failing |
| StatisticsResults.CopyAsWrittenLosesValues | src/Bpp/Seq/Io/Maf/MafStatistics.h:36-52 | a copy or assignment as written has no value for a tag the source holds |
| StatisticsResults.Copy | src/Bpp/Seq/Io/Maf/MafStatistics.h:36-42 | the intended copy gives every tag the same lookup as the source |
| StatisticsResults.Assign | src/Bpp/Seq/Io/Maf/MafStatistics.h:44-52 | the intended assignment makes every lookup that of the source |
| StatisticsResults.CopyIsIdentity | src/Bpp/Seq/Io/Maf/MafStatistics.h:36-52 | the intended copy and assignment reproduce the source exactly |
| StatisticsResults.NewSimpleResult | src/Bpp/Seq/Io/Maf/MafStatistics.h:122-125 | a new single-value result holds exactly its name, with the integer 0 |
| StatisticsResults.SetSimpleValue | src/Bpp/Seq/Io/Maf/MafStatistics.h:160-173 | the tag-less setters write under the name and keep the one-tag invariant |
| StatisticsResults.SetSimpleValueForTag | src/Bpp/Seq/Io/Maf/MafStatistics.h:136-158 | a write under another tag fails and changes nothing; under the name it stores the value and keeps the one-tag invariant |
| StatisticsResults.SimpleValue | src/Bpp/Seq/Io/Maf/MafStatistics.h:134 | the tag-less getter returns what the lookup of the name returns |
| StatisticsResults.SimpleResultKeepsOneTag | src/Bpp/Seq/Io/Maf/MafStatistics.h:136-173 | any series of writes succeeds iff all use the name; the result then still holds exactly its name, with the last value written |
| StatisticsResults.CopySimple | src/Bpp/Seq/Io/Maf/MafStatistics.h:115-125 | the intended copy of a single-value result keeps its name, lookups and one-tag invariant |
| StatisticsResults.CopiedSimpleResultHasNoValue | src/Bpp/Seq/Io/Maf/MafStatistics.h:122-134 | a copy made as written loses the value the tag-less getter dereferences |
| RealSort.Sort | src/Bpp/Seq/Io/Maf/MafStatistics.h:467 | the sorted bounds are ascending and are the same values, as many times each |
| RealSort.SortDependsOnlyOnElements | src/Bpp/Seq/Io/Maf/MafStatistics.h:467 | sorting ignores the input order and leaves ascending input unchanged |
| Categorizers.NewCategorizer | src/Bpp/Seq/Io/Maf/MafStatistics.h:464-468 | the categorizer's bounds are the given ones, in ascending order |
| Categorizers.NumberOfCategories | src/Bpp/Seq/Io/Maf/MafStatistics.h:471 | one less than the number of bounds, modulo the `size_t` range |
| Categorizers.FirstAbove | src/Bpp/Seq/Io/Maf/MafStatistics.h:478-482 | the loop finds the first index from its start whose bound exceeds the value, or reports that none does |
| Categorizers.GetCategory | src/Bpp/Seq/Io/Maf/MafStatistics.h:473-484 | fails below the first bound or when no later bound exceeds the value (for sorted bounds: at or above the last); otherwise the smallest `i >= 1` with `v < b[i]`, and `b[i-1] <= v` |
| Categorizers.CategoryIsBin | src/Bpp/Seq/Io/Maf/MafStatistics.h:473-484 | with sorted bounds, category `i` is returned exactly for values in `[b[i-1], b[i])` |
| Categorizers.CategorizerIgnoresBoundOrder | src/Bpp/Seq/Io/Maf/MafStatistics.h:464-468 | categorizers built from the same bounds in any order agree on every value |
| Categorizers.CategorizerExample | src/Bpp/Seq/Io/Maf/MafStatistics.h:474-484 | bounds 0,1,2,3: three categories; 0 and 0.9 give 1, 1 gives 2, 3 and -0.1 are out of range |
| Categorizers.SortedBoundsKept | src/Bpp/Seq/Io/Maf/MafStatistics.h:464-468 | bounds given in ascending order are kept as they are |
| MafStatistics.SequencesForSpecies | src/Bpp/Seq/Io/Maf/MafStatistics.h:316 | the rows of the block belonging to the species, each as many times as the block holds it, and no other row |
| MafStatistics.NewBlockSize | src/Bpp/Seq/Io/Maf/MafStatistics.h:264 | the block-size statistic starts with tag `BlockSize` holding the integer 0 |
| MafStatistics.NewBlockLength | src/Bpp/Seq/Io/Maf/MafStatistics.h:283 | the block-length statistic starts with tag `BlockLength` holding the integer 0 |
| MafStatistics.NewSequenceLength | src/Bpp/Seq/Io/Maf/MafStatistics.h:308 | the sequence-length statistic keeps its species and starts with tag `BlockSize` holding the integer 0 |
| MafStatistics.NewAlignmentScore | src/Bpp/Seq/Io/Maf/MafStatistics.h:334 | the alignment-score statistic starts with tag `AlnScore` holding the integer 0 |
| MafStatistics.SupportedTags | src/Bpp/Seq/Io/Maf/MafStatistics.h:232 | the supported tags are the available tags of the result, always exactly the statistic's one tag |
| MafStatistics.Compute | src/Bpp/Seq/Io/Maf/MafStatistics.h:260-344 | block size stores the row count, block length the column count, score the block score, as doubles; sequence length stores 0 for no row, the row's site count for one row, and fails for several, writing nothing |
| MafStatistics.ComputeIsBlockLocal | src/Bpp/Seq/Io/Maf/MafStatistics.h:270-343 | what one block leaves in a result has no effect on the computation for the next block |
| MafStatistics.SequenceLengthReportsBlockSizeTag | src/Bpp/Seq/Io/Maf/MafStatistics.h:308 | the sequence-length and block-size statistics report the same tag |
| MafStatistics.NewPairwiseDivergence | src/Bpp/Seq/Io/Maf/MafStatistics.h:245-247 | a new pairwise-divergence statistic keeps both species and holds the integer 0 under `Divergence`, its only supported tag |
| MafStatistics.DivergenceSupportedTags | src/Bpp/Seq/Io/Maf/MafStatistics.h:232 | the pairwise-divergence statistic reports exactly the tags available in its result |
| MafStatistics.DistinctCountIff | src/Bpp/Seq/Io/Maf/MafStatistics.h:566 | removing duplicates keeps the length exactly when no name is repeated |
| MafStatistics.NewFourSpeciesPatternCounts | src/Bpp/Seq/Io/Maf/MafStatistics.h:556-568 | fails for a count other than 4, then for a repeated name; otherwise six zero counters and the species kept |
| MafStatistics.FourSpeciesExamples | src/Bpp/Seq/Io/Maf/MafStatistics.h:564-567 | three species fail on the count, `A B A C` fails on the duplicate, `A B C D` is accepted |
| MafStatistics.NewPolymorphism | src/Bpp/Seq/Io/Maf/MafStatistics.h:645-651 | construction fails exactly when the number of selections is not 2 |
| MafStatistics.NewSiteFrequencySpectrum | src/Bpp/Seq/Io/Maf/MafStatistics.h:494-505 | sorted categorizer of the bounds and one zero counter per category; no bounds cannot be allocated |
| MafStatistics.CategoryIndexesCounters | src/Bpp/Seq/Io/Maf/MafStatistics.h:503 | every category returned indexes a counter; out of range exactly outside `[first, last)` |

## Findings

| source | as written | input that shows it | evidently intended | confidence | as-written member | corrected member |
|---|---|---|---|---|---|---|
| src/Bpp/Seq/Io/Maf/MafStatistics.h:36-42 | the copy constructor loops over its own, still empty, `values_` instead of `msr.values_`, so a copy holds no value | any result holding a tag, e.g. a new `SimpleMafStatisticsResult("BlockSize")`: its copy has no `BlockSize` value (`CopyAsWrittenLosesValues`, `CopiedSimpleResultHasNoValue`) | clone every entry of `msr.values_` | high (not executed) | StatisticsResults.CopyAsWritten | StatisticsResults.Copy |
| src/Bpp/Seq/Io/Maf/MafStatistics.h:44-52 | the assignment operator clears `values_` and then loops over that cleared map, so the target ends up empty | assigning any result holding a tag (`CopyAsWrittenLosesValues`) | clear, then clone every entry of `msr.values_` | high (not executed) | StatisticsResults.AssignAsWritten | StatisticsResults.Assign |

## Left out

- Compute bodies and supported tags of the character-counts, site-frequency-spectrum, four-species, site, polymorphism and sequence-diversity statistics: only declared in the header; their bodies are not part of this model.
- Compute of the pairwise-divergence statistic: only declared in the header. Its construction and its supported tags, inherited from the single-value base, are modelled (`NewPairwiseDivergence`, `DivergenceSupportedTags`).
- Species projection (`getSiteContainer_`, `getSiteContainers_`) and the constructor of the multiple-selection base: declared only.
- NewPolymorphism: fails only when the number of selections is not 2; further checks the multiple-selection base constructor may make (its body is not part of this model) are not modelled.
- Constructors of the character-counts, site and sequence-diversity statistics: they only store their arguments, and nothing is computed with them here.
- Short and full names of the statistics: fixed strings or concatenations.
- `fillRangeCollection` and `fillRangeCollectionForSequence`: the range collection type is from bpp-core and not part of this model.
- Plain field getters and setters of a feature (`setId`, `setScore`, ...): they are record updates of the datatype.
- Clone, copy and assignment of feature collections, and all heap ownership: values are copied by construction in the model.
- Compute: counts are stored as exact reals; rounding of `static_cast<double>` above 2^53 is not modelled.
- MakeRange: positions are unbounded naturals; the `size_t` limit is not modelled (no coordinate arithmetic can wrap, since start never exceeds end).
- GetCategory: requires at least one bound, because the original reads the first bound without checking; with no bounds the statistic cannot even be built (`NewSiteFrequencySpectrum`).
- GetFeature: requires a valid index, because the original does not check it.
- SimpleValue: requires a stored value under the name, because the original dereferences the entry without checking; only a copy made as written can lack it.
- Floating-point: doubles (feature score, stored values, block score, categorizer bounds) are reals, only compared or stored.
- Exception messages: replaced by the error constructors.
