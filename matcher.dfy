/** The peptide-to-isoform matcher of one gene (`gene_matches`): every
    distinct peptide of the gene is tested for substring containment in every
    isoform sequence of that same gene; a peptide contained in exactly one of
    them is isoform-unique and credits that isoform. */
module Matcher {
  import opened Entities
  import opened Text

  /** A gene's isoforms: identifier to protein sequence. */
  type Proteins = map<Isoform, Protein>

  /** What `gene_matches` returns. */
  datatype GeneResult =
    /** The `(0, 0)` sentinel: the gene has no reference isoforms. */
    | NoReference
    /** `(iso_matches, single_iso_matches_dict)`. */
    | Found(isoMatches: set<Isoform>, singleIsoMatches: map<Peptide, Isoform>)

  /** The isoforms of the gene whose sequence contains `peptide`. */
  function MatchSet(peptide: Peptide, proteins: Proteins): set<Isoform>
  {
    set iso | iso in proteins && Contains(proteins[iso], peptide)
  }

  /** `peptide` occurs in the sequence of `iso` and of no other isoform of
      the gene. */
  predicate UniquelyMatches(peptide: Peptide, iso: Isoform, proteins: Proteins)
  {
    && iso in proteins
    && Contains(proteins[iso], peptide)
    && forall other :: other in proteins && Contains(proteins[other], peptide) ==> other == iso
  }

  /** `protein_matches` after the first loop: only peptides that matched at
      least one isoform are keys (the `defaultdict` entry is created by `.add`). */
  function ProteinMatches(peptides: set<Peptide>, proteins: Proteins): map<Peptide, set<Isoform>>
  {
    map p | p in peptides && MatchSet(p, proteins) != {} :: MatchSet(p, proteins)
  }

  /** The one element of a singleton set. */
  ghost function Sole<T>(s: set<T>): T
    requires |s| == 1
  {
    var x :| x in s; x
  }

  /** `single_iso_matches_dict`: each peptide with exactly one matching
      isoform, bound to it. */
  ghost function SingleIsoMatches(peptides: set<Peptide>, proteins: Proteins): map<Peptide, Isoform>
  {
    map p | p in peptides && |MatchSet(p, proteins)| == 1 :: Sole(MatchSet(p, proteins))
  }

  /** The result of `gene_matches(gene)` over the peptide table and the
      isoform index. */
  ghost function Classify(gene: Gene, allPeptides: map<Gene, seq<Peptide>>, genes: map<Gene, Proteins>): GeneResult
    requires gene in allPeptides
  {
    if gene !in genes then NoReference
    else
      var single := SingleIsoMatches(Elements(allPeptides[gene]), genes[gene]);
      Found(single.Values, single)
  }

  // ---------------------------------------------------------------------
  // Properties of the classification

  /** An element of a one-element set is its only element. */
  lemma SingletonIs<T>(s: set<T>, x: T)
    requires |s| == 1 && x in s
    ensures s == {x}
  {
    var rest := s - {x};
    assert s == rest + {x};
    assert |rest| == 0;
  }

  lemma SoleIsOnly<T>(s: set<T>)
    requires |s| == 1
    ensures s == {Sole(s)}
  {
    SingletonIs(s, Sole(s));
  }

  /** Uniqueness of a match is the same as a one-element match set. */
  lemma {:induction false} UniquelyMatchesIsSingleton(peptide: Peptide, iso: Isoform, proteins: Proteins)
    ensures UniquelyMatches(peptide, iso, proteins) <==> MatchSet(peptide, proteins) == {iso}
  {
    var matched := MatchSet(peptide, proteins);
    if matched == {iso} {
      assert iso in matched;
      forall other | other in proteins && Contains(proteins[other], peptide) ensures other == iso {
        assert other in matched;
      }
    }
    if UniquelyMatches(peptide, iso, proteins) {
      assert forall other :: other in matched ==> other == iso;
      assert iso in matched;
    }
  }

  /** A peptide is a key of `single_iso_matches_dict` iff it is one of the
      gene's peptides and is a substring of exactly one isoform sequence of
      the gene; and it is then bound to that isoform. */
  lemma SingleIsoMatchesSpec(peptides: set<Peptide>, proteins: Proteins)
    ensures forall p :: p in SingleIsoMatches(peptides, proteins) <==>
      p in peptides && exists iso :: UniquelyMatches(p, iso, proteins)
    ensures forall p :: p in SingleIsoMatches(peptides, proteins) ==>
      UniquelyMatches(p, SingleIsoMatches(peptides, proteins)[p], proteins)
  {
    var single := SingleIsoMatches(peptides, proteins);
    forall p ensures p in single <==> p in peptides && exists iso :: UniquelyMatches(p, iso, proteins) {
      if p in single {
        SoleIsOnly(MatchSet(p, proteins));
        UniquelyMatchesIsSingleton(p, single[p], proteins);
      }
      if p in peptides && exists iso :: UniquelyMatches(p, iso, proteins) {
        var iso :| UniquelyMatches(p, iso, proteins);
        UniquelyMatchesIsSingleton(p, iso, proteins);
      }
    }
    forall p | p in single ensures UniquelyMatches(p, single[p], proteins) {
      SoleIsOnly(MatchSet(p, proteins));
      UniquelyMatchesIsSingleton(p, single[p], proteins);
    }
  }

  /** A peptide that matches no isoform, or two or more, contributes nothing:
      it is not a key, and the result is the same with or without it. */
  lemma AmbiguousOrUnmatchedIgnored(peptides: set<Peptide>, proteins: Proteins, p: Peptide)
    requires |MatchSet(p, proteins)| != 1
    ensures p !in SingleIsoMatches(peptides, proteins)
    ensures SingleIsoMatches(peptides + {p}, proteins) == SingleIsoMatches(peptides - {p}, proteins)
    ensures SingleIsoMatches(peptides + {p}, proteins).Values == SingleIsoMatches(peptides - {p}, proteins).Values
  {
  }

  /** A peptide found in two different isoforms of the gene (the A1CF
      peptide EIYMNVPVGAAGVR in two transcripts, say) credits neither. */
  lemma SharedPeptideIgnored(peptides: set<Peptide>, proteins: Proteins, p: Peptide, iso1: Isoform, iso2: Isoform)
    requires iso1 != iso2 && iso1 in proteins && iso2 in proteins
    requires Contains(proteins[iso1], p) && Contains(proteins[iso2], p)
    ensures p !in SingleIsoMatches(peptides, proteins)
  {
    SingleIsoMatchesSpec(peptides, proteins);
  }

  /** A map has no more distinct values than keys. */
  lemma ValuesNoMoreThanKeys<K, V>(m: map<K, V>)
    ensures |m.Values| <= |m.Keys|
  {
  }

  /** A subset is no larger than its superset. */
  lemma {:induction false} SubsetNoLarger<T>(a: set<T>, b: set<T>)
    requires a <= b
    ensures |a| <= |b|
    decreases |b|
  {
    if b != {} {
      var x :| x in b;
      SubsetNoLarger(a - {x}, b - {x});
    }
  }

  /** `iso_matches` is the set of values of `single_iso_matches_dict`: every
      credited isoform belongs to the gene, and there are no more of them than
      distinct peptides. */
  lemma IsoMatchesBounds(peptides: set<Peptide>, proteins: Proteins)
    ensures SingleIsoMatches(peptides, proteins).Keys <= peptides
    ensures SingleIsoMatches(peptides, proteins).Values <= proteins.Keys
    ensures |SingleIsoMatches(peptides, proteins).Values| <= |peptides|
  {
    var single := SingleIsoMatches(peptides, proteins);
    forall iso | iso in single.Values ensures iso in proteins {
      var p :| p in single && single[p] == iso;
      SoleIsOnly(MatchSet(p, proteins));
    }
    ValuesNoMoreThanKeys(single);
    SubsetNoLarger(single.Keys, peptides);
  }

  /** The empty peptide (what `split(';')` yields for an empty piece) is a
      substring of every sequence, so it is unique exactly when the gene has a
      single isoform. */
  lemma EmptyPeptideUniqueIffOneIsoform(peptides: set<Peptide>, proteins: Proteins)
    requires "" in peptides
    ensures "" in SingleIsoMatches(peptides, proteins) <==> |proteins.Keys| == 1
  {
    forall iso | iso in proteins ensures Contains(proteins[iso], "") {
      EmptyContainedEverywhere(proteins[iso]);
    }
    assert MatchSet("", proteins) == proteins.Keys;
  }

  /** The result for a gene depends only on the SET of its peptides and on
      its own isoforms: duplicated peptides and the isoforms of other genes
      cannot change it. */
  lemma ClassifyIsGeneLocal(gene: Gene, allPeptides: map<Gene, seq<Peptide>>, genes: map<Gene, Proteins>,
                            allPeptides': map<Gene, seq<Peptide>>, genes': map<Gene, Proteins>)
    requires gene in allPeptides && gene in allPeptides'
    requires Elements(allPeptides[gene]) == Elements(allPeptides'[gene])
    requires gene in genes <==> gene in genes'
    requires gene in genes ==> genes[gene] == genes'[gene]
    ensures Classify(gene, allPeptides, genes) == Classify(gene, allPeptides', genes')
  {
  }

  // ---------------------------------------------------------------------
  // The matcher as the script runs it

  /** The isoforms among `isos` whose sequence contains `peptide`. */
  ghost function MatchesAmong(peptide: Peptide, proteins: Proteins, isos: set<Isoform>): set<Isoform>
  {
    set iso | iso in isos && iso in proteins && Contains(proteins[iso], peptide)
  }

  /** `protein_matches` with the peptide in progress recorded only once it
      has matched something. */
  ghost function Record(m: map<Peptide, set<Isoform>>, peptide: Peptide, isos: set<Isoform>): map<Peptide, set<Isoform>>
  {
    if isos == {} then m else m[peptide := isos]
  }

  /** `gene_matches(gene)`. The peptide set and the isoforms are visited in
      an arbitrary order, as Python's set and dict iteration are order-blind
      for this result. */
  method GeneMatches(gene: Gene, allPeptides: map<Gene, seq<Peptide>>, genes: map<Gene, Proteins>)
    returns (r: GeneResult)
    requires gene in allPeptides
    ensures r == Classify(gene, allPeptides, genes)
    ensures r.NoReference? <==> gene !in genes
    ensures r.Found? ==> forall p :: p in r.singleIsoMatches <==>
      p in allPeptides[gene] && exists iso :: UniquelyMatches(p, iso, genes[gene])
    ensures r.Found? ==> forall p :: p in r.singleIsoMatches ==>
      UniquelyMatches(p, r.singleIsoMatches[p], genes[gene])
    ensures r.Found? ==> r.isoMatches == r.singleIsoMatches.Values
  {
    var peptides := Elements(allPeptides[gene]);
    if gene !in genes {
      return NoReference;
    }
    var proteins := genes[gene];
    var proteinMatches := MatchAll(peptides, proteins);
    var isoMatches, single := KeepSingleMatches(proteinMatches, proteins);
    SingleIsoMatchesOverMatched(peptides, proteins);
    SingleIsoMatchesSpec(peptides, proteins);
    r := Found(isoMatches, single);
  }

  /** The first loop of `gene_matches`: build `protein_matches`. */
  method MatchAll(peptides: set<Peptide>, proteins: Proteins) returns (proteinMatches: map<Peptide, set<Isoform>>)
    ensures proteinMatches == ProteinMatches(peptides, proteins)
  {
    proteinMatches := map[];
    var todo := peptides;
    while todo != {}
      invariant todo <= peptides
      invariant proteinMatches == ProteinMatches(peptides - todo, proteins)
      decreases todo
    {
      var peptide :| peptide in todo;
      ghost var done := ProteinMatches(peptides - todo, proteins);
      assert peptide !in done;
      assert proteins.Keys - proteins.Keys == {};
      var isos := proteins.Keys;
      while isos != {}
        invariant isos <= proteins.Keys
        invariant proteinMatches == Record(done, peptide, MatchesAmong(peptide, proteins, proteins.Keys - isos))
        decreases isos
      {
        var iso :| iso in isos;
        ghost var seen := proteins.Keys - isos;
        MatchesAmongStep(peptide, proteins, seen, iso);
        if Contains(proteins[iso], peptide) {
          RecordAdd(done, peptide, MatchesAmong(peptide, proteins, seen), iso);
          var sofar := if peptide in proteinMatches then proteinMatches[peptide] else {};
          proteinMatches := proteinMatches[peptide := sofar + {iso}];
          assert proteinMatches == Record(done, peptide, MatchesAmong(peptide, proteins, seen + {iso}));
        } else {
          assert MatchesAmong(peptide, proteins, seen + {iso}) == MatchesAmong(peptide, proteins, seen);
        }
        assert proteins.Keys - (isos - {iso}) == seen + {iso};
        isos := isos - {iso};
      }
      assert proteins.Keys - isos == proteins.Keys;
      ProteinMatchesStep(peptides - todo, proteins, peptide);
      assert peptides - (todo - {peptide}) == (peptides - todo) + {peptide};
      todo := todo - {peptide};
    }
  }

  lemma MatchesAmongStep(peptide: Peptide, proteins: Proteins, isos: set<Isoform>, iso: Isoform)
    requires iso in proteins
    ensures MatchesAmong(peptide, proteins, isos + {iso})
         == MatchesAmong(peptide, proteins, isos) + (if Contains(proteins[iso], peptide) then {iso} else {})
  {
  }

  /** `protein_matches[peptide].add(iso)` on the recorded relation. */
  lemma RecordAdd(m: map<Peptide, set<Isoform>>, peptide: Peptide, isos: set<Isoform>, iso: Isoform)
    requires peptide !in m
    ensures var r := Record(m, peptide, isos);
      Record(m, peptide, isos + {iso}) == r[peptide := (if peptide in r then r[peptide] else {}) + {iso}]
  {
  }

  lemma ProteinMatchesStep(done: set<Peptide>, proteins: Proteins, peptide: Peptide)
    requires peptide !in done
    ensures Record(ProteinMatches(done, proteins), peptide, MatchesAmong(peptide, proteins, proteins.Keys))
         == ProteinMatches(done + {peptide}, proteins)
  {
    assert MatchesAmong(peptide, proteins, proteins.Keys) == MatchSet(peptide, proteins);
  }

  /** The second loop of `gene_matches`: keep the peptides whose match set has
      one element (`iso_set.pop()` takes that element). */
  method KeepSingleMatches(proteinMatches: map<Peptide, set<Isoform>>, ghost proteins: Proteins)
    returns (isoMatches: set<Isoform>, single: map<Peptide, Isoform>)
    requires forall p :: p in proteinMatches ==> proteinMatches[p] == MatchSet(p, proteins)
    ensures single == SingleIsoMatches(proteinMatches.Keys, proteins)
    ensures isoMatches == single.Values
  {
    isoMatches := {};
    single := map[];
    var rest := proteinMatches.Keys;
    assert proteinMatches.Keys - rest == {};
    while rest != {}
      invariant rest <= proteinMatches.Keys
      invariant single == SingleIsoMatches(proteinMatches.Keys - rest, proteins)
      invariant isoMatches == single.Values
      decreases rest
    {
      var peptide :| peptide in rest;
      var isoSet := proteinMatches[peptide];
      ghost var done := proteinMatches.Keys - rest;
      if |isoSet| == 1 {
        var iso :| iso in isoSet;
        KeepSingleStep(done, proteins, peptide, iso, single);
        single := single[peptide := iso];
        isoMatches := isoMatches + {iso};
      } else {
        SingleIsoMatchesStep(done, proteins, peptide);
      }
      assert proteinMatches.Keys - (rest - {peptide}) == done + {peptide};
      rest := rest - {peptide};
    }
  }

  /** Adding one peptide to those already classified. */
  lemma SingleIsoMatchesStep(done: set<Peptide>, proteins: Proteins, peptide: Peptide)
    requires peptide !in done
    ensures |MatchSet(peptide, proteins)| == 1 ==>
      SingleIsoMatches(done + {peptide}, proteins)
        == SingleIsoMatches(done, proteins)[peptide := Sole(MatchSet(peptide, proteins))]
    ensures |MatchSet(peptide, proteins)| != 1 ==>
      SingleIsoMatches(done + {peptide}, proteins) == SingleIsoMatches(done, proteins)
    ensures peptide !in SingleIsoMatches(done, proteins)
  {
  }

  /** A peptide with a one-element match set is bound to that element. */
  lemma KeepSingleStep(done: set<Peptide>, proteins: Proteins, peptide: Peptide, iso: Isoform,
                       single: map<Peptide, Isoform>)
    requires peptide !in done && single == SingleIsoMatches(done, proteins)
    requires |MatchSet(peptide, proteins)| == 1 && iso in MatchSet(peptide, proteins)
    ensures SingleIsoMatches(done + {peptide}, proteins) == single[peptide := iso]
    ensures single[peptide := iso].Values == single.Values + {iso}
  {
    SingleIsoMatchesStep(done, proteins, peptide);
    SingletonIs(MatchSet(peptide, proteins), iso);
    SoleIsOnly(MatchSet(peptide, proteins));
    ValuesAdd(single, peptide, iso);
  }

  /** Binding a new key adds its value to the values. */
  lemma ValuesAdd<K, V>(m: map<K, V>, k: K, v: V)
    requires k !in m
    ensures m[k := v].Values == m.Values + {v}
  {
    forall w | w in m.Values ensures w in m[k := v].Values {
      var k' :| k' in m && m[k'] == w;
      assert m[k := v][k'] == w;
    }
    assert m[k := v][k] == v;
  }

  /** Peptides outside `protein_matches` match nothing, so dropping them does
      not change the unique matches. */
  lemma SingleIsoMatchesOverMatched(peptides: set<Peptide>, proteins: Proteins)
    ensures SingleIsoMatches(ProteinMatches(peptides, proteins).Keys, proteins) == SingleIsoMatches(peptides, proteins)
  {
  }
}
