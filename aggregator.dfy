/** The aggregation over the gene worklist: run the matcher for each gene,
    keep the genes with at least one isoform-unique peptide, then list those
    whose credited isoform set has more than one element. */
module Aggregator {
  import opened Entities
  import opened Matcher

  /** The two result dictionaries of the loop. Python dictionaries remember
      insertion order; `order` lists the keys of `allIsoMatches` in that
      order, which is the order the final loop visits them in. */
  datatype Report = Report(
    allIsoMatches: map<Gene, set<Isoform>>,
    allSingleIsoMatches: map<Gene, map<Peptide, Isoform>>,
    order: seq<Gene>)

  /** Every worklist gene has a peptide entry (else `all_peptides[gene]`
      raises). */
  predicate Covered(toCheck: seq<Gene>, allPeptides: map<Gene, seq<Peptide>>)
  {
    forall g :: g in toCheck ==> g in allPeptides
  }

  /** The matcher credits at least one isoform of `g` (`if iso_matches:`;
      the `(0, 0)` sentinel is falsy as well). */
  ghost predicate Credited(g: Gene, allPeptides: map<Gene, seq<Peptide>>, genes: map<Gene, Proteins>)
    requires g in allPeptides
  {
    var r := Classify(g, allPeptides, genes);
    r.Found? && r.isoMatches != {}
  }

  /** The dictionaries after the worklist `toCheck` has been processed. */
  ghost function Aggregation(toCheck: seq<Gene>, allPeptides: map<Gene, seq<Peptide>>, genes: map<Gene, Proteins>)
    : (rep: Report)
    requires Covered(toCheck, allPeptides)
    ensures rep.allSingleIsoMatches.Keys == rep.allIsoMatches.Keys
    ensures forall g :: g in rep.order <==> g in rep.allIsoMatches
  {
    if toCheck == [] then Report(map[], map[], [])
    else
      var prev := Aggregation(toCheck[..|toCheck| - 1], allPeptides, genes);
      var gene := toCheck[|toCheck| - 1];
      var r := Classify(gene, allPeptides, genes);
      if r.Found? && r.isoMatches != {} then
        Report(prev.allIsoMatches[gene := r.isoMatches],
               prev.allSingleIsoMatches[gene := r.singleIsoMatches],
               if gene in prev.allIsoMatches then prev.order else prev.order + [gene])
      else prev
  }

  /** `multiple_isoforms`: the keys, in order, whose set has more than one
      isoform. */
  function MultipleIsoforms(order: seq<Gene>, allIsoMatches: map<Gene, set<Isoform>>): seq<Gene>
    requires forall g :: g in order ==> g in allIsoMatches
  {
    if order == [] then []
    else
      var prev := MultipleIsoforms(order[..|order| - 1], allIsoMatches);
      var gene := order[|order| - 1];
      if |allIsoMatches[gene]| > 1 then prev + [gene] else prev
  }

  /** The elements of `s` come from the worklist `w`, ordered by their first
      appearance in it (so, in particular, without repetition). */
  predicate InWorklistOrder(s: seq<Gene>, w: seq<Gene>)
  {
    && (forall x :: x in s ==> x in w)
    && forall i, j :: 0 <= i < j < |s| ==> FirstIndex(w, s[i]) < FirstIndex(w, s[j])
  }

  // ---------------------------------------------------------------------
  // Properties

  /** A gene is recorded iff it is on the worklist and the matcher credits
      it, and it is recorded with exactly the matcher's result. */
  lemma AggregationContents(toCheck: seq<Gene>, allPeptides: map<Gene, seq<Peptide>>, genes: map<Gene, Proteins>)
    requires Covered(toCheck, allPeptides)
    ensures var rep := Aggregation(toCheck, allPeptides, genes);
      forall g :: g in rep.allIsoMatches <==> g in toCheck && Credited(g, allPeptides, genes)
    ensures var rep := Aggregation(toCheck, allPeptides, genes);
      forall g :: g in rep.allIsoMatches ==>
        && g in allPeptides
        && rep.allIsoMatches[g] == Classify(g, allPeptides, genes).isoMatches
        && rep.allSingleIsoMatches[g] == Classify(g, allPeptides, genes).singleIsoMatches
  {
    forall g ensures
      var rep := Aggregation(toCheck, allPeptides, genes);
      && (g in rep.allIsoMatches <==> g in toCheck && Credited(g, allPeptides, genes))
      && (g in rep.allIsoMatches ==>
        && g in allPeptides
        && rep.allIsoMatches[g] == Classify(g, allPeptides, genes).isoMatches
        && rep.allSingleIsoMatches[g] == Classify(g, allPeptides, genes).singleIsoMatches)
    {
      RecordedGene(toCheck, allPeptides, genes, g);
    }
  }

  /** AggregationContents for one gene. */
  lemma {:induction false} RecordedGene(toCheck: seq<Gene>, allPeptides: map<Gene, seq<Peptide>>, genes: map<Gene, Proteins>, g: Gene)
    requires Covered(toCheck, allPeptides)
    ensures var rep := Aggregation(toCheck, allPeptides, genes);
      && (g in rep.allIsoMatches <==> g in toCheck && Credited(g, allPeptides, genes))
      && (g in rep.allIsoMatches ==>
        && g in allPeptides
        && rep.allIsoMatches[g] == Classify(g, allPeptides, genes).isoMatches
        && rep.allSingleIsoMatches[g] == Classify(g, allPeptides, genes).singleIsoMatches)
  {
    if toCheck != [] {
      var prefix := toCheck[..|toCheck| - 1];
      assert toCheck == prefix + [toCheck[|toCheck| - 1]];
      RecordedGene(prefix, allPeptides, genes, g);
    }
  }

  /** A gene without reference isoforms is recorded in neither dictionary. */
  lemma NoReferenceRecordsNothing(toCheck: seq<Gene>, allPeptides: map<Gene, seq<Peptide>>, genes: map<Gene, Proteins>, g: Gene)
    requires Covered(toCheck, allPeptides)
    requires g !in genes
    ensures g !in Aggregation(toCheck, allPeptides, genes).allIsoMatches
    ensures g !in Aggregation(toCheck, allPeptides, genes).allSingleIsoMatches
  {
  }

  lemma {:induction false} FirstIndexSnoc(s: seq<Gene>, y: Gene, x: Gene)
    requires x in s
    ensures FirstIndex(s + [y], x) == FirstIndex(s, x)
  {
    if s[0] != x {
      assert (s + [y])[1..] == s[1..] + [y];
      FirstIndexSnoc(s[1..], y, x);
    }
  }

  /** Ordering by first appearance survives extending the worklist. */
  lemma InWorklistOrderSnoc(s: seq<Gene>, w: seq<Gene>, y: Gene)
    requires InWorklistOrder(s, w)
    ensures InWorklistOrder(s, w + [y])
  {
    forall x | x in s ensures FirstIndex(w + [y], x) == FirstIndex(w, x) {
      FirstIndexSnoc(w, y, x);
    }
  }

  /** The keys are listed in the order in which their genes first appear on
      the worklist. */
  lemma {:induction false} AggregationOrder(toCheck: seq<Gene>, allPeptides: map<Gene, seq<Peptide>>, genes: map<Gene, Proteins>)
    requires Covered(toCheck, allPeptides)
    ensures InWorklistOrder(Aggregation(toCheck, allPeptides, genes).order, toCheck)
  {
    if toCheck != [] {
      var prefix, gene := toCheck[..|toCheck| - 1], toCheck[|toCheck| - 1];
      assert toCheck == prefix + [gene];
      AggregationOrder(prefix, allPeptides, genes);
      var prev := Aggregation(prefix, allPeptides, genes);
      InWorklistOrderSnoc(prev.order, prefix, gene);
      if Credited(gene, allPeptides, genes) && gene !in prev.allIsoMatches {
        AggregationContents(prefix, allPeptides, genes);
        assert gene !in prefix;
        assert FirstIndex(toCheck, gene) == |prefix|;
        AppendLatest(prev.order, toCheck, gene);
      }
    }
  }

  /** Appending the worklist's newest gene keeps the order. */
  lemma AppendLatest(s: seq<Gene>, w: seq<Gene>, gene: Gene)
    requires InWorklistOrder(s, w) && w != [] && w[|w| - 1] == gene && gene !in s
    requires FirstIndex(w, gene) == |w| - 1
    ensures InWorklistOrder(s + [gene], w)
  {
  }

  /** `multiple_isoforms` holds exactly the keys whose set has more than one
      isoform, and keeps the order of the keys. */
  lemma {:induction false} MultipleIsoformsSpec(order: seq<Gene>, allIsoMatches: map<Gene, set<Isoform>>, w: seq<Gene>)
    requires forall g :: g in order ==> g in allIsoMatches
    ensures forall g :: g in MultipleIsoforms(order, allIsoMatches) <==> g in order && |allIsoMatches[g]| > 1
    ensures InWorklistOrder(order, w) ==> InWorklistOrder(MultipleIsoforms(order, allIsoMatches), w)
  {
    if order != [] {
      var prefix, gene := order[..|order| - 1], order[|order| - 1];
      assert order == prefix + [gene];
      MultipleIsoformsSpec(prefix, allIsoMatches, w);
      var prev := MultipleIsoforms(prefix, allIsoMatches);
      if InWorklistOrder(order, w) {
        assert InWorklistOrder(prefix, w) by {
          forall i, j | 0 <= i < j < |prefix| ensures FirstIndex(w, prefix[i]) < FirstIndex(w, prefix[j]) {
            assert prefix[i] == order[i] && prefix[j] == order[j];
          }
        }
        if |allIsoMatches[gene]| > 1 {
          forall i | 0 <= i < |prev| ensures FirstIndex(w, prev[i]) < FirstIndex(w, gene) {
            assert prev[i] in prev;
            assert prev[i] in prefix;
            var k :| 0 <= k < |prefix| && prefix[k] == prev[i];
            assert order[k] == prev[i];
          }
          OrderedAppend(prev, w, gene);
        }
      }
    }
  }

  /** Appending an element that comes after all others keeps the order. */
  lemma OrderedAppend(s: seq<Gene>, w: seq<Gene>, gene: Gene)
    requires InWorklistOrder(s, w) && gene in w
    requires forall i :: 0 <= i < |s| ==> FirstIndex(w, s[i]) < FirstIndex(w, gene)
    ensures InWorklistOrder(s + [gene], w)
  {
  }

  /** Ordered by first appearance means no gene is listed twice. */
  lemma InWorklistOrderNoDuplicates(s: seq<Gene>, w: seq<Gene>)
    requires InWorklistOrder(s, w)
    ensures NoDuplicates(s)
  {
  }

  /** The script's final answer: `multiple_isoforms` lists exactly the
      worklist genes for which the matcher credits more than one isoform,
      each once, in the order in which they first appear on the worklist. */
  lemma MultipleIsoformsOfWorklist(toCheck: seq<Gene>, allPeptides: map<Gene, seq<Peptide>>, genes: map<Gene, Proteins>)
    requires Covered(toCheck, allPeptides)
    ensures var rep := Aggregation(toCheck, allPeptides, genes);
      forall g :: g in MultipleIsoforms(rep.order, rep.allIsoMatches) <==>
        && g in toCheck
        && Classify(g, allPeptides, genes).Found?
        && |Classify(g, allPeptides, genes).isoMatches| > 1
    ensures var rep := Aggregation(toCheck, allPeptides, genes);
      && NoDuplicates(MultipleIsoforms(rep.order, rep.allIsoMatches))
      && InWorklistOrder(MultipleIsoforms(rep.order, rep.allIsoMatches), toCheck)
  {
    var rep := Aggregation(toCheck, allPeptides, genes);
    AggregationContents(toCheck, allPeptides, genes);
    AggregationOrder(toCheck, allPeptides, genes);
    MultipleIsoformsSpec(rep.order, rep.allIsoMatches, toCheck);
    InWorklistOrderNoDuplicates(MultipleIsoforms(rep.order, rep.allIsoMatches), toCheck);
  }

  // ---------------------------------------------------------------------
  // The loops as the script runs them

  /** The loop over `to_check` and the loop over `all_iso_matches.items()`
      that collects `multiple_isoforms`. */
  method AggregateGenes(toCheck: seq<Gene>, allPeptides: map<Gene, seq<Peptide>>, genes: map<Gene, Proteins>)
    returns (report: Report, multipleIsoforms: seq<Gene>)
    requires Covered(toCheck, allPeptides)
    ensures report == Aggregation(toCheck, allPeptides, genes)
    ensures multipleIsoforms == MultipleIsoforms(report.order, report.allIsoMatches)
  {
    var allIsoMatches: map<Gene, set<Isoform>> := map[];
    var allSingleIsoMatches: map<Gene, map<Peptide, Isoform>> := map[];
    var order: seq<Gene> := [];
    for i := 0 to |toCheck|
      invariant Aggregation(toCheck[..i], allPeptides, genes) == Report(allIsoMatches, allSingleIsoMatches, order)
    {
      var gene := toCheck[i];
      assert toCheck[..i + 1][..i] == toCheck[..i];
      var r := GeneMatches(gene, allPeptides, genes);
      if r.Found? && r.isoMatches != {} {
        if gene !in allIsoMatches {
          order := order + [gene];
        }
        allIsoMatches := allIsoMatches[gene := r.isoMatches];
        allSingleIsoMatches := allSingleIsoMatches[gene := r.singleIsoMatches];
      }
    }
    assert toCheck[..|toCheck|] == toCheck;
    report := Report(allIsoMatches, allSingleIsoMatches, order);

    multipleIsoforms := [];
    for i := 0 to |order|
      invariant multipleIsoforms == MultipleIsoforms(order[..i], allIsoMatches)
    {
      var gene := order[i];
      assert order[..i + 1][..i] == order[..i];
      if |allIsoMatches[gene]| > 1 {
        multipleIsoforms := multipleIsoforms + [gene];
      }
    }
    assert order[..|order|] == order;
  }
}
