/** Statistics computed on one alignment block (MafStatistics.h): the
    single-value statistics whose computation is given inline, and the
    construction of the species-selection statistics, whose computations
    are not part of this model. */
module MafStatistics {
  import opened Wrappers
  import opened MafErrors
  import opened Filters
  import opened StatisticsResults
  import opened RealSort
  import opened Categorizers

  // ---------------------------------------------------------------------
  // The alignment block, as far as the statistics read it.

  /** A row of a block: the species it belongs to and its number of sites
      (as counted by the sequence tools for that row). */
  datatype MafRow = MafRow(species: string, siteCount: nat)

  /** A block: its rows in order, its number of columns and its score. */
  datatype MafBlock = MafBlock(rows: seq<MafRow>, numberOfSites: nat, score: real)

  function NumberOfSequences(block: MafBlock): nat {
    |block.rows|
  }

  /** The rows of one species, in block order; each such row is kept as
      many times as the block holds it. */
  function SequencesForSpecies(block: MafBlock, species: string): (rows: seq<MafRow>)
    ensures forall row :: row in rows <==> row in block.rows && row.species == species
    ensures forall row :: multiset(rows)[row] ==
                          if row.species == species then multiset(block.rows)[row] else 0
  {
    var p := (row: MafRow) => row.species == species;
    assert forall row :: multiset(Filter(block.rows, p))[row] ==
                         if p(row) then multiset(block.rows)[row] else 0 by {
      forall row {
        FilterCounts(block.rows, p, row);
      }
    }
    Filter(block.rows, p)
  }

  // ---------------------------------------------------------------------
  // Single-value statistics.

  /** The statistics that store one number under one tag. */
  datatype SimpleStatistic =
    | BlockSize(result: SimpleResult)
    | BlockLength(result: SimpleResult)
    | SequenceLength(species: string, result: SimpleResult)
    | AlignmentScore(result: SimpleResult)

  /** The tag each statistic gives its result when it is built.  The
      sequence-length statistic uses the block-size tag. */
  function TagOf(stat: SimpleStatistic): string {
    match stat
    case BlockSize(_) => "BlockSize"
    case BlockLength(_) => "BlockLength"
    case SequenceLength(_, _) => "BlockSize"
    case AlignmentScore(_) => "AlnScore"
  }

  /** The result is named after the statistic and holds that one tag. */
  predicate ValidStatistic(stat: SimpleStatistic) {
    stat.result.name == TagOf(stat) && ValidSimple(stat.result)
  }

  function NewBlockSize(): (stat: SimpleStatistic)
    ensures stat.BlockSize? && ValidStatistic(stat)
    ensures SupportedTags(stat) == {"BlockSize"}
    ensures GetValue(stat.result.store, "BlockSize") == Ok(Integer(0))
  {
    BlockSize(NewSimpleResult("BlockSize"))
  }

  function NewBlockLength(): (stat: SimpleStatistic)
    ensures stat.BlockLength? && ValidStatistic(stat)
    ensures SupportedTags(stat) == {"BlockLength"}
    ensures GetValue(stat.result.store, "BlockLength") == Ok(Integer(0))
  {
    BlockLength(NewSimpleResult("BlockLength"))
  }

  function NewSequenceLength(species: string): (stat: SimpleStatistic)
    ensures stat.SequenceLength? && stat.species == species && ValidStatistic(stat)
    ensures SupportedTags(stat) == {"BlockSize"}
    ensures GetValue(stat.result.store, "BlockSize") == Ok(Integer(0))
  {
    SequenceLength(species, NewSimpleResult("BlockSize"))
  }

  function NewAlignmentScore(): (stat: SimpleStatistic)
    ensures stat.AlignmentScore? && ValidStatistic(stat)
    ensures SupportedTags(stat) == {"AlnScore"}
    ensures GetValue(stat.result.store, "AlnScore") == Ok(Integer(0))
  {
    AlignmentScore(NewSimpleResult("AlnScore"))
  }

  /** The tags a single-value statistic reports: those available in its
      result, which is always just the statistic's own tag. */
  function SupportedTags(stat: SimpleStatistic): (tags: set<string>)
    ensures forall tag :: tag in tags <==> HasValue(stat.result.store, tag)
    ensures ValidStatistic(stat) ==> tags == {TagOf(stat)}
  {
    AvailableTags(stat.result.store)
  }

  /** Computes the statistic on a block, writing its value as a double
      under the result's name.  Block size is the number of rows, block
      length the number of columns, the alignment score the block's score.
      Sequence length is the site count of the species' single row, 0 when
      the species has no row, and an error when it has several, in which
      case nothing is written. */
  function Compute(stat: SimpleStatistic, block: MafBlock): (r: Result<SimpleStatistic, Error>)
    ensures r.Ok? ==> r.value == stat.(result := r.value.result) && r.value.result.name == stat.result.name
    ensures r.Ok? ==> AvailableTags(r.value.result.store) == AvailableTags(stat.result.store) + {stat.result.name}
    ensures r.Ok? && ValidStatistic(stat) ==> ValidStatistic(r.value) && SupportedTags(r.value) == SupportedTags(stat)
    ensures stat.BlockSize? ==> r.Ok? && GetValue(r.value.result.store, stat.result.name) == Ok(Double(NumberOfSequences(block) as real))
    ensures stat.BlockLength? ==> r.Ok? && GetValue(r.value.result.store, stat.result.name) == Ok(Double(block.numberOfSites as real))
    ensures stat.AlignmentScore? ==> r.Ok? && GetValue(r.value.result.store, stat.result.name) == Ok(Double(block.score))
    ensures stat.SequenceLength? ==>
              var rows := SequencesForSpecies(block, stat.species);
              && (r.Err? <==> |rows| > 1)
              && (r.Err? ==> r.error == SeveralSequencesForSpecies(stat.species))
              && (|rows| == 0 ==> GetValue(r.value.result.store, stat.result.name) == Ok(Double(0.0)))
              && (|rows| == 1 ==> GetValue(r.value.result.store, stat.result.name) == Ok(Double(rows[0].siteCount as real)))
  {
    match stat
    case BlockSize(res) => Ok(BlockSize(SetSimpleValue(res, Double(NumberOfSequences(block) as real))))
    case BlockLength(res) => Ok(BlockLength(SetSimpleValue(res, Double(block.numberOfSites as real))))
    case AlignmentScore(res) => Ok(AlignmentScore(SetSimpleValue(res, Double(block.score))))
    case SequenceLength(species, res) =>
      var rows := SequencesForSpecies(block, species);
      if |rows| == 0 then Ok(SequenceLength(species, SetSimpleValue(res, Double(0.0))))
      else if |rows| == 1 then Ok(SequenceLength(species, SetSimpleValue(res, Double(rows[0].siteCount as real))))
      else Err(SeveralSequencesForSpecies(species))
  }

  /** A computation does not depend on what earlier blocks left in the
      result: computing on a second block gives what computing on it first
      would have given. */
  lemma ComputeIsBlockLocal(stat: SimpleStatistic, first: MafBlock, second: MafBlock)
    requires Compute(stat, first).Ok?
    ensures Compute(Compute(stat, first).value, second) == Compute(stat, second)
  {
    var after := Compute(stat, first).value;
    var r1 := Compute(after, second);
    var r2 := Compute(stat, second);
    if r2.Ok? {
      var written := r2.value.result.store.values[stat.result.name];
      SetValueOverwrites(stat.result.store, stat.result.name, after.result.store.values[stat.result.name], written);
    }
  }

  /** The sequence-length statistic and the block-size statistic report the
      same tag. */
  lemma SequenceLengthReportsBlockSizeTag(species: string)
    ensures SupportedTags(NewSequenceLength(species)) == SupportedTags(NewBlockSize())
  {
  }

  /** The pairwise-divergence statistic: a single-value statistic over two
      species whose computation is only declared, so only its construction
      and the tags it reports are modelled. */
  datatype PairwiseDivergenceStatistic =
    PairwiseDivergence(species1: string, species2: string, result: SimpleResult)

  /** The tags the pairwise-divergence statistic reports, those available
      in its result. */
  function DivergenceSupportedTags(stat: PairwiseDivergenceStatistic): (tags: set<string>)
    ensures forall tag :: tag in tags <==> HasValue(stat.result.store, tag)
  {
    AvailableTags(stat.result.store)
  }

  /** A new pairwise-divergence statistic keeps its two species and holds
      the integer 0 under `Divergence`, its only reported tag. */
  function NewPairwiseDivergence(species1: string, species2: string): (stat: PairwiseDivergenceStatistic)
    ensures stat.species1 == species1 && stat.species2 == species2
    ensures stat.result.name == "Divergence" && ValidSimple(stat.result)
    ensures DivergenceSupportedTags(stat) == {"Divergence"}
    ensures GetValue(stat.result.store, "Divergence") == Ok(Integer(0))
  {
    PairwiseDivergence(species1, species2, NewSimpleResult("Divergence"))
  }

  // ---------------------------------------------------------------------
  // Statistics over selections of species: construction only.

  /** A selection of species; when `noSpeciesMeansAllSpecies` is set, an
      empty list stands for every species of the block. */
  datatype SpeciesSelection = SpeciesSelection(species: seq<string>, noSpeciesMeansAllSpecies: bool, suffix: string)

  /** The selection made by a statistic that only passes its species. */
  function DefaultSelection(species: seq<string>): SpeciesSelection {
    SpeciesSelection(species, false, "")
  }

  /** No name occurs twice. */
  predicate Distinct(s: seq<string>) {
    forall i, j :: 0 <= i < j < |s| ==> s[i] != s[j]
  }

  /** The number of different names, as the size of the list with
      duplicates removed. */
  function DistinctCount(s: seq<string>): nat {
    |set x | x in s|
  }

  /** The names are distinct exactly when removing duplicates removes
      nothing. */
  lemma {:induction false} DistinctCountIff(s: seq<string>)
    ensures DistinctCount(s) <= |s|
    ensures DistinctCount(s) == |s| <==> Distinct(s)
    decreases |s|
  {
    if |s| == 0 {
      assert (set x | x in s) == {};
    } else {
      var t := s[1..];
      DistinctCountIff(t);
      assert forall x :: x in s <==> x == s[0] || x in t;
      assert (set x | x in s) == (set x | x in t) + {s[0]};
      if s[0] in t {
        var j :| 0 <= j < |t| && t[j] == s[0];
        assert s[0] == s[j + 1];
        assert (set x | x in s) == (set x | x in t);
      } else {
        assert Distinct(s) <==> Distinct(t) by {
          if Distinct(t) {
            forall i, j | 0 <= i < j < |s|
              ensures s[i] != s[j]
            {
              if i == 0 {
                assert s[j] == t[j - 1];
              } else {
                assert s[i] == t[i - 1] && s[j] == t[j - 1];
              }
            }
          }
          if Distinct(s) {
            forall i, j | 0 <= i < j < |t|
              ensures t[i] != t[j]
            {
              assert t[i] == s[i + 1] && t[j] == s[j + 1];
            }
          }
        }
      }
    }
  }

  /** The four-species pattern statistic: four species and six counters. */
  datatype FourSpeciesPatternCounts = FourSpeciesPatternCounts(
    selection: SpeciesSelection, counts: seq<UInt32>, result: StatResult)

  /** Refuses any number of species other than four, then any repeated
      name; otherwise starts with six zero counters and an empty result. */
  function NewFourSpeciesPatternCounts(species: seq<string>): (r: Result<FourSpeciesPatternCounts, Error>)
    ensures r.Ok? <==> |species| == 4 && Distinct(species)
    ensures |species| != 4 ==> r == Err(WrongSpeciesCount)
    ensures |species| == 4 && !Distinct(species) ==> r == Err(DuplicatedSpecies)
    ensures r.Ok? ==> r.value.selection == DefaultSelection(species)
    ensures r.Ok? ==> |r.value.counts| == 6 && forall i :: 0 <= i < 6 ==> r.value.counts[i] == 0
    ensures r.Ok? ==> AvailableTags(r.value.result) == {}
  {
    DistinctCountIff(species);
    if |species| != 4 then Err(WrongSpeciesCount)
    else if DistinctCount(species) != 4 then Err(DuplicatedSpecies)
    else Ok(FourSpeciesPatternCounts(DefaultSelection(species), seq(6, _ => 0), EmptyResult()))
  }

  /** Three species, or a name given twice, are refused. */
  lemma FourSpeciesExamples()
    ensures NewFourSpeciesPatternCounts(["A", "B", "C"]) == Err(WrongSpeciesCount)
    ensures NewFourSpeciesPatternCounts(["A", "B", "A", "C"]) == Err(DuplicatedSpecies)
    ensures NewFourSpeciesPatternCounts(["A", "B", "C", "D"]).Ok?
  {
    var dup := ["A", "B", "A", "C"];
    assert dup[0] == dup[2];
    var ok := ["A", "B", "C", "D"];
    assert Distinct(ok);
  }

  /** The two-population polymorphism statistic. */
  datatype PolymorphismStatistics = PolymorphismStatistics(selections: seq<seq<string>>, result: StatResult)

  /** Refuses any number of species selections other than two. */
  function NewPolymorphism(selections: seq<seq<string>>): (r: Result<PolymorphismStatistics, Error>)
    ensures r.Ok? <==> |selections| == 2
    ensures r.Err? ==> r.error == WrongSelectionCount
    ensures r.Ok? ==> r.value.selections == selections && AvailableTags(r.value.result) == {}
  {
    if |selections| != 2 then Err(WrongSelectionCount)
    else Ok(PolymorphismStatistics(selections, EmptyResult()))
  }

  /** The site-frequency-spectrum statistic: a categorizer and one counter
      per category. */
  datatype SiteFrequencySpectrum = SiteFrequencySpectrum(
    selection: SpeciesSelection, categorizer: Categorizer, counts: seq<UInt32>,
    outgroup: string, result: StatResult)

  /** Sorts the bounds into a categorizer and allocates one zero counter
      per category.  With no bounds the number of counters wraps round to
      the largest size, which cannot be allocated. */
  function NewSiteFrequencySpectrum(bounds: seq<real>, ingroup: seq<string>, outgroup: string)
    : (r: Result<SiteFrequencySpectrum, Error>)
    ensures r.Err? <==> |bounds| == 0
    ensures r.Err? ==> r.error == LengthError
    ensures r.Ok? ==> Sorted(r.value.categorizer.bounds) && multiset(r.value.categorizer.bounds) == multiset(bounds)
    ensures r.Ok? ==> |r.value.counts| == NumberOfCategories(r.value.categorizer) == |bounds| - 1
    ensures r.Ok? ==> forall i :: 0 <= i < |r.value.counts| ==> r.value.counts[i] == 0
    ensures r.Ok? ==> r.value.selection == DefaultSelection(ingroup) && r.value.outgroup == outgroup
  {
    if |bounds| == 0 then Err(LengthError)
    else
      var c := NewCategorizer(bounds);
      Ok(SiteFrequencySpectrum(DefaultSelection(ingroup), c, seq(|bounds| - 1, _ => 0), outgroup, EmptyResult()))
  }

  /** Every value a spectrum statistic categorizes falls on one of its
      counters, or is reported out of range. */
  lemma CategoryIndexesCounters(sfs: SiteFrequencySpectrum, bounds: seq<real>, ingroup: seq<string>,
                                outgroup: string, v: real)
    requires NewSiteFrequencySpectrum(bounds, ingroup, outgroup) == Ok(sfs)
    ensures GetCategory(sfs.categorizer, v).Ok? ==> 0 <= GetCategory(sfs.categorizer, v).value - 1 < |sfs.counts|
    ensures GetCategory(sfs.categorizer, v).Err? <==>
              v < sfs.categorizer.bounds[0] || sfs.categorizer.bounds[|bounds| - 1] <= v
  {
  }
}
