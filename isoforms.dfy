/** The isoform index: the reference translations are read line by line; a
    header line (starting with `>`) is split on `|`, field 6 names the gene and
    field 1 the isoform, and that isoform's sequence is reset to the empty
    string; every other line is appended to the sequence of the isoform named
    by the most recent header. */
module Isoforms {
  import opened Entities
  import opened Text

  const HeaderMarker: char := '>'
  const FieldSeparator: char := '|'
  /** Position of the transcript identifier among the header fields. */
  const IsoformField: nat := 1
  /** Position of the gene name among the header fields. */
  const GeneField: nat := 6

  /** Python's `line.startswith(">")`. */
  predicate IsHeader(line: string)
  {
    |line| > 0 && line[0] == HeaderMarker
  }

  function Fields(line: string): seq<string>
  {
    Split(line, FieldSeparator)
  }

  /** The header has a gene field. */
  predicate HeaderComplete(line: string)
  {
    |Fields(line)| > GeneField
  }

  /** The inputs the script can read without failing: the first line is a
      header (a sequence line before any header refers to an undefined
      gene) and every header has at least seven fields. */
  predicate WellFormed(lines: seq<string>)
  {
    && (|lines| > 0 ==> IsHeader(lines[0]))
    && forall i :: 0 <= i < |lines| && IsHeader(lines[i]) ==> HeaderComplete(lines[i])
  }

  /** `line` is a header naming gene `g`. */
  predicate NamesGene(line: string, g: Gene)
  {
    IsHeader(line) && HeaderComplete(line) && Fields(line)[GeneField] == g
  }

  /** `line` is a header naming isoform `iso` of gene `g`. */
  predicate Names(line: string, g: Gene, iso: Isoform)
  {
    NamesGene(line, g) && Fields(line)[IsoformField] == iso
  }

  /** The (gene, isoform) pair a header line selects. */
  datatype Cursor = Cursor(gene: Gene, isoform: Isoform)

  function CursorOf(line: string): Cursor
    requires HeaderComplete(line)
  {
    Cursor(Fields(line)[GeneField], Fields(line)[IsoformField])
  }

  /** The loop's state: the index built so far and the pair selected by the
      last header (`None` before the first one). */
  datatype ScanState = ScanState(genes: map<Gene, map<Isoform, Protein>>, current: Option<Cursor>)

  /** The current pair exists in the index, so a sequence line can extend it. */
  predicate Positioned(st: ScanState)
  {
    && st.current.Some?
    && st.current.value.gene in st.genes
    && st.current.value.isoform in st.genes[st.current.value.gene]
  }

  /** One iteration of the loop. */
  function Step(st: ScanState, line: string): ScanState
    requires IsHeader(line) ==> HeaderComplete(line)
    requires !IsHeader(line) ==> Positioned(st)
  {
    if IsHeader(line) then
      var c := CursorOf(line);
      var isoforms := if c.gene in st.genes then st.genes[c.gene] else map[];
      ScanState(st.genes[c.gene := isoforms[c.isoform := ""]], Some(c))
    else
      var c := st.current.value;
      var isoforms := st.genes[c.gene];
      ScanState(st.genes[c.gene := isoforms[c.isoform := isoforms[c.isoform] + line]], st.current)
  }

  lemma WellFormedPrefix(lines: seq<string>, n: nat)
    requires WellFormed(lines) && n <= |lines|
    ensures WellFormed(lines[..n])
  {
  }

  /** The state after reading `lines`. */
  function Scan(lines: seq<string>): (st: ScanState)
    requires WellFormed(lines)
    ensures lines != [] ==> Positioned(st)
  {
    if lines == [] then ScanState(map[], None)
    else
      WellFormedPrefix(lines, |lines| - 1);
      Step(Scan(lines[..|lines| - 1]), lines[|lines| - 1])
  }

  /** genes[gene][isoform] as the script leaves it. */
  function IsoformIndex(lines: seq<string>): map<Gene, map<Isoform, Protein>>
    requires WellFormed(lines)
  {
    Scan(lines).genes
  }

  // ---------------------------------------------------------------------
  // Reference description of the index

  /** The sequence lines from `k` up to the next header, concatenated. */
  function Run(lines: seq<string>, k: nat): string
    decreases |lines| - k
  {
    if k >= |lines| || IsHeader(lines[k]) then "" else lines[k] + Run(lines, k + 1)
  }

  /** Line `j` is the last header naming (`g`, `iso`). */
  predicate LastNaming(lines: seq<string>, j: int, g: Gene, iso: Isoform)
  {
    && 0 <= j < |lines|
    && Names(lines[j], g, iso)
    && forall k :: j < k < |lines| ==> !Names(lines[k], g, iso)
  }

  /** Index of the last header. */
  function LastHeader(lines: seq<string>): (h: nat)
    requires lines != [] && IsHeader(lines[0])
    ensures h < |lines| && IsHeader(lines[h])
    ensures forall k :: h < k < |lines| ==> !IsHeader(lines[k])
  {
    if IsHeader(lines[|lines| - 1]) then |lines| - 1 else LastHeader(lines[..|lines| - 1])
  }

  /** Some line of `lines` is a header naming gene `g`. */
  predicate HasGeneHeader(lines: seq<string>, g: Gene)
  {
    exists j :: 0 <= j < |lines| && NamesGene(lines[j], g)
  }

  /** Some line of `lines` is a header naming isoform `iso` of gene `g`. */
  predicate HasHeader(lines: seq<string>, g: Gene, iso: Isoform)
  {
    exists j :: 0 <= j < |lines| && Names(lines[j], g, iso)
  }

  /** The genes of the index are exactly the genes named by some header. */
  ghost predicate GenesDescribed(genes: map<Gene, map<Isoform, Protein>>, lines: seq<string>)
  {
    forall g :: g in genes <==> HasGeneHeader(lines, g)
  }

  /** The isoforms of each gene are exactly those named with it by some header. */
  ghost predicate IsoformsDescribed(genes: map<Gene, map<Isoform, Protein>>, lines: seq<string>)
  {
    forall g, iso :: (g in genes && iso in genes[g]) <==> HasHeader(lines, g, iso)
  }

  /** Each isoform holds the sequence lines that follow its last header. */
  ghost predicate SequencesDescribed(genes: map<Gene, map<Isoform, Protein>>, lines: seq<string>)
  {
    forall g, iso, j :: LastNaming(lines, j, g, iso) ==>
      g in genes && iso in genes[g] && genes[g][iso] == Run(lines, j + 1)
  }

  lemma {:induction false} HasGeneHeaderSnoc(lines: seq<string>, line: string, g: Gene)
    ensures HasGeneHeader(lines + [line], g) <==> HasGeneHeader(lines, g) || NamesGene(line, g)
  {
    var all := lines + [line];
    if HasGeneHeader(lines, g) {
      var j :| 0 <= j < |lines| && NamesGene(lines[j], g);
      assert all[j] == lines[j];
    }
    if NamesGene(line, g) {
      assert all[|lines|] == line;
    }
    if HasGeneHeader(all, g) {
      var j :| 0 <= j < |all| && NamesGene(all[j], g);
      if j < |lines| {
        assert all[j] == lines[j];
      }
    }
  }

  lemma {:induction false} HasHeaderSnoc(lines: seq<string>, line: string, g: Gene, iso: Isoform)
    ensures HasHeader(lines + [line], g, iso) <==> HasHeader(lines, g, iso) || Names(line, g, iso)
  {
    var all := lines + [line];
    if HasHeader(lines, g, iso) {
      var j :| 0 <= j < |lines| && Names(lines[j], g, iso);
      assert all[j] == lines[j];
    }
    if Names(line, g, iso) {
      assert all[|lines|] == line;
    }
    if HasHeader(all, g, iso) {
      var j :| 0 <= j < |all| && Names(all[j], g, iso);
      if j < |lines| {
        assert all[j] == lines[j];
      }
    }
  }

  /** A last naming in the longer input that is not the new line is a last
      naming in the shorter one. */
  lemma {:induction false} LastNamingSnoc(lines: seq<string>, line: string, j: int, g: Gene, iso: Isoform)
    requires LastNaming(lines + [line], j, g, iso) && j < |lines|
    ensures LastNaming(lines, j, g, iso)
  {
    var all := lines + [line];
    assert all[j] == lines[j];
    forall k | j < k < |lines| ensures !Names(lines[k], g, iso) {
      assert all[k] == lines[k];
    }
  }

  /** A run that meets a header before the end is unaffected by a new line. */
  lemma {:induction false} RunStops(lines: seq<string>, line: string, k: nat, m: nat)
    requires k <= m < |lines| && IsHeader(lines[m])
    ensures Run(lines + [line], k) == Run(lines, k)
    decreases m - k
  {
    if k < m && !IsHeader(lines[k]) {
      RunStops(lines, line, k + 1, m);
    }
  }

  /** A run that reaches the end picks up a new sequence line. */
  lemma {:induction false} RunExtends(lines: seq<string>, line: string, k: nat)
    requires k <= |lines|
    requires forall m :: k <= m < |lines| ==> !IsHeader(lines[m])
    ensures Run(lines + [line], k) == Run(lines, k) + (if IsHeader(line) then "" else line)
    decreases |lines| - k
  {
    if k < |lines| {
      RunExtends(lines, line, k + 1);
    }
  }

  /** A header appended at the end never joins an earlier run. */
  lemma {:induction false} RunSnocHeader(lines: seq<string>, line: string, k: nat)
    requires IsHeader(line) && k <= |lines|
    ensures Run(lines + [line], k) == Run(lines, k)
  {
    if m :| k <= m < |lines| && IsHeader(lines[m]) {
      RunStops(lines, line, k, m);
    } else {
      RunExtends(lines, line, k);
    }
  }

  /** After a header line, the keys still describe the longer input. */
  lemma {:induction false} HeaderStepKeys(lines: seq<string>, line: string, st: ScanState)
    requires IsHeader(line) && HeaderComplete(line)
    requires GenesDescribed(st.genes, lines) && IsoformsDescribed(st.genes, lines)
    ensures GenesDescribed(Step(st, line).genes, lines + [line])
    ensures IsoformsDescribed(Step(st, line).genes, lines + [line])
  {
    var genes := Step(st, line).genes;
    forall g ensures g in genes <==> HasGeneHeader(lines + [line], g) {
      HasGeneHeaderSnoc(lines, line, g);
    }
    forall g, iso ensures (g in genes && iso in genes[g]) <==> HasHeader(lines + [line], g, iso) {
      HasHeaderSnoc(lines, line, g, iso);
    }
  }

  /** After a header line, the sequences still describe the longer input. */
  lemma {:induction false} HeaderStepSequences(lines: seq<string>, line: string, st: ScanState)
    requires IsHeader(line) && HeaderComplete(line)
    requires SequencesDescribed(st.genes, lines)
    ensures SequencesDescribed(Step(st, line).genes, lines + [line])
  {
    var all := lines + [line];
    var c := CursorOf(line);
    var genes := Step(st, line).genes;
    forall g, iso, j | LastNaming(all, j, g, iso)
      ensures g in genes && iso in genes[g] && genes[g][iso] == Run(all, j + 1)
    {
      if (g, iso) == (c.gene, c.isoform) {
        assert all[|lines|] == line;
        assert j == |lines|;
      } else {
        assert j != |lines|;
        LastNamingSnoc(lines, line, j, g, iso);
        RunSnocHeader(lines, line, j + 1);
      }
    }
  }

  /** After a sequence line, the keys still describe the longer input. */
  lemma {:induction false} SequenceStepKeys(lines: seq<string>, line: string, st: ScanState)
    requires !IsHeader(line) && Positioned(st)
    requires GenesDescribed(st.genes, lines) && IsoformsDescribed(st.genes, lines)
    ensures GenesDescribed(Step(st, line).genes, lines + [line])
    ensures IsoformsDescribed(Step(st, line).genes, lines + [line])
  {
    var genes := Step(st, line).genes;
    forall g ensures g in genes <==> HasGeneHeader(lines + [line], g) {
      HasGeneHeaderSnoc(lines, line, g);
    }
    forall g, iso ensures (g in genes && iso in genes[g]) <==> HasHeader(lines + [line], g, iso) {
      HasHeaderSnoc(lines, line, g, iso);
    }
  }

  /** After a sequence line, the sequences still describe the longer input:
      the line lands at the end of the isoform named by the last header. */
  lemma {:induction false} SequenceStepSequences(lines: seq<string>, line: string, st: ScanState)
    requires WellFormed(lines) && lines != []
    requires !IsHeader(line) && Positioned(st)
    requires st.current == Some(CursorOf(lines[LastHeader(lines)]))
    requires SequencesDescribed(st.genes, lines)
    ensures SequencesDescribed(Step(st, line).genes, lines + [line])
  {
    var all := lines + [line];
    var h := LastHeader(lines);
    var c := st.current.value;
    var genes := Step(st, line).genes;
    assert Names(lines[h], c.gene, c.isoform);
    forall g, iso, j | LastNaming(all, j, g, iso)
      ensures g in genes && iso in genes[g] && genes[g][iso] == Run(all, j + 1)
    {
      assert all[|lines|] == line;
      LastNamingSnoc(lines, line, j, g, iso);
      assert IsHeader(lines[j]);
      assert j <= h;
      if (g, iso) == (c.gene, c.isoform) {
        assert j == h;
        RunExtends(lines, line, h + 1);
      } else {
        assert j != h;
        RunStops(lines, line, j + 1, h);
      }
    }
  }

  /** The pair selected after reading `lines` is the one named by the last
      header. */
  lemma {:induction false} ScanCursor(lines: seq<string>)
    requires WellFormed(lines) && lines != []
    ensures Scan(lines).current == Some(CursorOf(lines[LastHeader(lines)]))
  {
    var prefix := lines[..|lines| - 1];
    if !IsHeader(lines[|lines| - 1]) {
      WellFormedPrefix(lines, |lines| - 1);
      ScanCursor(prefix);
      assert lines[LastHeader(prefix)] == prefix[LastHeader(prefix)];
    }
  }

  /** Reading one more line is one more Step. */
  lemma ScanPrefixStep(lines: seq<string>, i: nat)
    requires WellFormed(lines) && i < |lines|
    ensures WellFormed(lines[..i]) && WellFormed(lines[..i + 1])
    ensures IsHeader(lines[i]) ==> HeaderComplete(lines[i])
    ensures !IsHeader(lines[i]) ==> Positioned(Scan(lines[..i]))
    ensures Scan(lines[..i + 1]) == Step(Scan(lines[..i]), lines[i])
  {
    WellFormedPrefix(lines, i);
    WellFormedPrefix(lines, i + 1);
    assert lines[..i + 1][..i] == lines[..i];
  }

  /** The index describes its input. */
  lemma {:induction false} ScanDescribes(lines: seq<string>)
    requires WellFormed(lines)
    ensures GenesDescribed(Scan(lines).genes, lines)
    ensures IsoformsDescribed(Scan(lines).genes, lines)
    ensures SequencesDescribed(Scan(lines).genes, lines)
  {
    if lines != [] {
      var prefix, line := lines[..|lines| - 1], lines[|lines| - 1];
      assert lines == prefix + [line];
      WellFormedPrefix(lines, |lines| - 1);
      ScanDescribes(prefix);
      var st := Scan(prefix);
      if IsHeader(line) {
        HeaderStepKeys(prefix, line, st);
        HeaderStepSequences(prefix, line, st);
      } else {
        ScanCursor(prefix);
        SequenceStepKeys(prefix, line, st);
        SequenceStepSequences(prefix, line, st);
      }
    }
  }

  /** What the script's index holds: a gene is a key iff some header names
      it; an isoform is a key under a gene iff some header names the pair;
      and its sequence is the concatenation of the non-header lines after the
      LAST header naming the pair, up to the next header (an earlier header
      for the same pair is overwritten with "", not appended to). */
  lemma IsoformIndexContents(lines: seq<string>)
    requires WellFormed(lines)
    ensures forall g :: g in IsoformIndex(lines) <==> HasGeneHeader(lines, g)
    ensures forall g, iso :: (g in IsoformIndex(lines) && iso in IsoformIndex(lines)[g]) <==> HasHeader(lines, g, iso)
    ensures forall g, iso, j :: LastNaming(lines, j, g, iso) ==>
      g in IsoformIndex(lines) && iso in IsoformIndex(lines)[g] && IsoformIndex(lines)[g][iso] == Run(lines, j + 1)
  {
    ScanDescribes(lines);
  }

  /** The script's loop over the lines of the reference file. */
  method BuildIsoformIndex(lines: seq<string>) returns (genes: map<Gene, map<Isoform, Protein>>)
    requires WellFormed(lines)
    ensures genes == IsoformIndex(lines)
  {
    genes := map[];
    var gene: Gene, isoform: Isoform := "", "";
    for i := 0 to |lines|
      invariant WellFormed(lines[..i])
      invariant Scan(lines[..i]) == ScanState(genes, if i == 0 then None else Some(Cursor(gene, isoform)))
    {
      var line := lines[i];
      ScanPrefixStep(lines, i);
      if IsHeader(line) {
        var parts := Split(line, FieldSeparator);
        gene := parts[GeneField];
        isoform := parts[IsoformField];
        if gene !in genes {
          genes := genes[gene := map[]];
        }
        genes := genes[gene := genes[gene][isoform := ""]];
      } else {
        genes := genes[gene := genes[gene][isoform := genes[gene][isoform] + line]];
      }
    }
    assert lines[..|lines|] == lines;
  }
}
