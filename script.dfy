/** The whole batch run of the script, with the spreadsheet, the sorted
    gene-name column and the reference file given as values: clean the gene
    names, build the peptide table and the isoform index, then aggregate. */
module Script {
  import opened Entities
  import GeneNames
  import Peptides
  import Isoforms
  import Matcher
  import Aggregator

  /** How many genes the diagnostic run (`still_testing`) looks at. */
  const TestingSubset: nat := 5

  /** The worklist: all cleaned names, or the first five of them in a
      diagnostic run. */
  function Worklist(coonGenes: seq<Gene>, stillTesting: bool): (w: seq<Gene>)
    ensures forall g :: g in w ==> g in coonGenes
  {
    if stillTesting then coonGenes[..if |coonGenes| < TestingSubset then |coonGenes| else TestingSubset]
    else coonGenes
  }

  /** `sortedNames` is the `GeneName` column after sorting (sorting itself
      is not modelled; only that it is a rearrangement of the column). */
  method IsoformAnalysis(rows: seq<Peptides.Row>, sortedNames: seq<Gene>, fastaLines: seq<string>, stillTesting: bool)
    returns (report: Aggregator.Report, multipleIsoforms: seq<Gene>)
    requires Peptides.WellShaped(rows)
    requires multiset(sortedNames) == multiset(Peptides.GeneColumn(rows))
    requires Isoforms.WellFormed(fastaLines)
    ensures var worklist := Worklist(GeneNames.DropDateNames(sortedNames), stillTesting);
      && Aggregator.Covered(worklist, Peptides.PeptideTable(rows))
      && report == Aggregator.Aggregation(worklist, Peptides.PeptideTable(rows), Isoforms.IsoformIndex(fastaLines))
      && multipleIsoforms == Aggregator.MultipleIsoforms(report.order, report.allIsoMatches)
    ensures var worklist := Worklist(GeneNames.DropDateNames(sortedNames), stillTesting);
      && Aggregator.Covered(worklist, Peptides.PeptideTable(rows))
      && forall g :: g in multipleIsoforms <==>
        && g in worklist
        && Matcher.Classify(g, Peptides.PeptideTable(rows), Isoforms.IsoformIndex(fastaLines)).Found?
        && |Matcher.Classify(g, Peptides.PeptideTable(rows), Isoforms.IsoformIndex(fastaLines)).isoMatches| > 1
  {
    var coonGenes := GeneNames.FilterGeneNames(sortedNames);
    var allPeptides := Peptides.BuildPeptideTable(rows);
    var genes := Isoforms.BuildIsoformIndex(fastaLines);
    var toCheck := Worklist(coonGenes, stillTesting);

    GeneNames.DropDateNamesRemovesOnlyDates(sortedNames);
    Peptides.PeptideTableContents(rows);
    forall g | g in toCheck ensures g in allPeptides {
      assert g in multiset(sortedNames);
      assert g in multiset(Peptides.GeneColumn(rows));
    }
    report, multipleIsoforms := Aggregator.AggregateGenes(toCheck, allPeptides, genes);
    Aggregator.MultipleIsoformsOfWorklist(toCheck, allPeptides, genes);
  }
}
