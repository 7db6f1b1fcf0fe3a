# Isoform-unique peptides of the Coon lab proteome, in Dafny

A model of `coon_lab_isoforms.py`. The script reads a table of genes with the peptides seen under six enzymes and two search paths. It also reads the GENCODE reference translations. For each gene it then asks which transcript isoforms are hit by a peptide that occurs in no other isoform of the same gene. Its final answer is the list of genes with more than one such isoform.

The model has one module per stage of the script:

- `Text`: Python's `p in s` on strings (`Contains`) and `str.split` (`Split`), with `Join` as its inverse.
- `GeneNames`: the clean-up of the sorted `GeneName` column. It removes names containing "2020" among the first 200, using `list.remove` while iterating over a copy of that head.
- `Peptides`: the peptide table. Each row's twelve peptide columns are split on `;` and appended to the gene's list.
- `Isoforms`: the isoform index `genes[gene][isoform]`, built from the header and sequence lines of the reference file.
- `Matcher`: `gene_matches`. It builds the peptide-to-isoform containment relation. It keeps the peptides with exactly one matching isoform (`single_iso_matches_dict`) and the isoforms they credit (`iso_matches`). It returns the `(0, 0)` sentinel, here `NoReference`, when the gene has no reference isoforms.
- `Aggregator`: the loop over the worklist and the collection of `multiple_isoforms`.
- `Script`: the whole run, wiring the stages together.

Each loop of the script is a method with a loop. Each method is proved equal to a specification function over the inputs. Lemmas then characterise each specification function against an independent description:
- the filtered list;
- the per-gene peptide lists;
- the sequence after the last header;
- "exactly one isoform contains the peptide";
- first-appearance order on the worklist.

Three details of the script shape the model:
- The peptide table keeps lists, duplicates included. The script deduplicates only inside `gene_matches` (`set(all_peptides[gene])`).
- `gene_matches` returns the sentinel `(0, 0)` for a gene missing from the reference index. The aggregator's truth test `if iso_matches:` skips that gene, and `NoReferenceRecordsNothing` states this.
- The clean-up iterates over a slice copy of the first 200 names, so `remove` does not disturb the iteration. `FilterGeneNames` is proved to remove exactly the date-like names among those 200.

A consequence the lemmas make visible: `split(';')` on a cell ending in `;` yields the empty peptide. The empty peptide is contained in every sequence, so it is unique exactly when the gene has a single isoform (`EmptyPeptideUniqueIffOneIsoform`). It can therefore credit that isoform. Such a gene still has at most one credited isoform, so this never reaches `multiple_isoforms`.

## Model

| member | source | states |
|---|---|---|
| `Text.EmptyContainedEverywhere` | coon_lab_isoforms.py:118 | the empty peptide is a substring of every sequence |
| `Text.Split` | coon_lab_isoforms.py:46 | `split` yields at least one piece and no piece contains the separator |
| `Text.JoinSplit` | coon_lab_isoforms.py:46 | joining the pieces of a split with the separator restores the string |
| `Text.SplitJoin` | coon_lab_isoforms.py:46 | splitting a join of separator-free pieces restores the pieces, so `Split` is exactly Python's split |
| `GeneNames.HeadLength` | coon_lab_isoforms.py:22 | the inspected head `[0:200]` has length min(200, list length) |
| `GeneNames.RemoveFirst` | coon_lab_isoforms.py:24 | `list.remove(v)` deletes the element at the first index holding `v` and nothing else |
| `GeneNames.RemoveFirstAt` | coon_lab_isoforms.py:24 | when no earlier element equals `v`, `remove` deletes exactly the slot where `v` sits |
| `GeneNames.KeepNonDatesMembers` | coon_lab_isoforms.py:22-24 | a name survives the head filter iff it is in the head and does not contain "2020" |
| `GeneNames.FilterGeneNames` | coon_lab_isoforms.py:21-24 | the remove-while-iterating-a-copy loop leaves the head without its "2020" names, followed by the untouched tail |
| `GeneNames.DropDateNamesRemovesOnlyDates` | coon_lab_isoforms.py:21-24 | a name is kept iff it lies beyond the first 200 or does not contain "2020"; the tail after 200 is kept as a suffix; nothing new appears |
| `Peptides.GeneColumn` | coon_lab_isoforms.py:21 | the gene-name column lists each row's gene in row order |
| `Peptides.AddRow` | coon_lab_isoforms.py:42-47 | one row gives its gene a list if it has none, then appends the `;`-split of every string cell, in column order |
| `Peptides.BuildPeptideTable` | coon_lab_isoforms.py:41-47 | the row loop produces the table `PeptideTable(rows)` |
| `Peptides.PeptideTableContents` | coon_lab_isoforms.py:41-47 | the keys are exactly the genes of the rows, even if a gene's list is empty; a gene's list is the in-order concatenation over its rows of the split string cells; non-string cells add nothing |
| `Isoforms.Scan` | coon_lab_isoforms.py:61-70 | after any non-empty well-formed input, the current (gene, isoform) pair exists in the index |
| `Isoforms.ScanCursor` | coon_lab_isoforms.py:62-65 | the current pair is the one named by the last header read |
| `Isoforms.LastHeader` | coon_lab_isoforms.py:62-65 | locates the last header line; no header follows it |
| `Isoforms.IsoformIndexContents` | coon_lab_isoforms.py:61-70 | a gene is a key iff some header names it; an isoform is a key under a gene iff some header names the pair; its sequence is the concatenation of the non-header lines after the last header naming the pair, up to the next header; a repeated header resets rather than appends |
| `Isoforms.BuildIsoformIndex` | coon_lab_isoforms.py:57-70 | the line loop produces `IsoformIndex(lines)` |
| `Matcher.UniquelyMatchesIsSingleton` | coon_lab_isoforms.py:127 | "contained in `iso` and in no other isoform" is the same as a match set equal to `{iso}` |
| `Matcher.SingleIsoMatchesSpec` | coon_lab_isoforms.py:115-130 | a peptide is a key of `single_iso_matches_dict` iff it is one of the gene's peptides and a substring of exactly one isoform sequence of the gene; it is bound to that isoform |
| `Matcher.AmbiguousOrUnmatchedIgnored` | coon_lab_isoforms.py:126-133 | a peptide matching zero or two or more isoforms is not a key, and adding it changes neither result |
| `Matcher.SharedPeptideIgnored` | coon_lab_isoforms.py:116-133 | a peptide contained in two different isoforms of the gene is not a key |
| `Matcher.IsoMatchesBounds` | coon_lab_isoforms.py:124-130 | the keys are among the gene's peptides; the credited isoforms belong to the gene; there are no more of them than distinct peptides |
| `Matcher.EmptyPeptideUniqueIffOneIsoform` | coon_lab_isoforms.py:106-121 | if the empty peptide is present, it is unique iff the gene has exactly one isoform |
| `Matcher.ClassifyIsGeneLocal` | coon_lab_isoforms.py:106-117 | the result depends only on the set of the gene's peptides and on the gene's own isoforms; duplicates and other genes' isoforms cannot change it |
| `Matcher.MatchAll` | coon_lab_isoforms.py:115-121 | the first loop builds `protein_matches`: each peptide that matches something, mapped to all isoforms containing it; unmatched peptides are not keys |
| `Matcher.KeepSingleMatches` | coon_lab_isoforms.py:124-130 | the second loop keeps the peptides with one-element match sets, bound to that element, and `iso_matches` is the set of their isoforms |
| `Matcher.GeneMatches` | coon_lab_isoforms.py:105-135 | `gene_matches` returns the sentinel iff the gene has no reference isoforms; otherwise the unique-peptide map holds exactly the peptides contained in one isoform, bound to it, and `iso_matches` is that map's set of values |
| `Aggregator.Aggregation` | coon_lab_isoforms.py:144-149 | both dictionaries have the same keys, and the insertion order lists exactly those keys |
| `Aggregator.AggregationContents` | coon_lab_isoforms.py:144-149 | a gene is recorded iff it is on the worklist and the matcher credits it at least one isoform; it is recorded with the matcher's own result |
| `Aggregator.NoReferenceRecordsNothing` | coon_lab_isoforms.py:109-112 | a gene without reference isoforms appears in neither result dictionary |
| `Aggregator.AggregationOrder` | coon_lab_isoforms.py:144-149 | keys are inserted in the order of their genes' first appearance on the worklist |
| `Aggregator.MultipleIsoformsSpec` | coon_lab_isoforms.py:154-157 | `multiple_isoforms` holds exactly the keys whose set has more than one isoform, in key order |
| `Aggregator.MultipleIsoformsOfWorklist` | coon_lab_isoforms.py:138-157 | `multiple_isoforms` lists exactly the worklist genes credited with more than one isoform, each once, in order of first appearance |
| `Aggregator.AggregateGenes` | coon_lab_isoforms.py:138-157 | the worklist loop and the collection loop compute `Aggregation` and `MultipleIsoforms` |
| `Script.Worklist` | coon_lab_isoforms.py:140-143 | the worklist (all names, or the first five in a diagnostic run) holds only cleaned names |
| `Script.IsoformAnalysis` | coon_lab_isoforms.py:18-157 | the whole run: every worklist gene has a peptide entry, and the final list holds exactly the worklist genes with more than one isoform-unique isoform |

## Left out

- Reading the spreadsheet (`pd.read_excel`, `coon.loc`, `iterrows`) and the reference file (`open`, `read`, `splitlines`) is not modelled. Their outputs are inputs here: a sequence of rows and a sequence of lines.
- The `converters={'GeneName': str}` conversion is not modelled. Gene names arrive as strings.
- Pandas `sort_values` is not modelled. The sorted names are an input, required only to be a rearrangement of the gene column. The clean-up's result depends on this order, because only the first 200 names are inspected. The model takes the order as given and does not require it to be sorted.
- `print` output, and the diagnostic `still_testing` prints, are not modelled. They have no effect on results. The choice of worklist under `still_testing` is modelled.
- Python's run-time check `type(row[col]) == str` is not modelled. Each cell is an `Option<string>`, and a non-string cell is `None`.
- Inputs that make the script raise are excluded by preconditions rather than modelled as errors:
  - a header with fewer than seven `|` fields;
  - a sequence line before the first header;
  - a worklist gene missing from the peptide table;
  - a row without its twelve peptide columns.
- Set and dictionary iteration order inside `gene_matches` is not modelled. Both loops pick elements in an arbitrary order, and their results are proved independent of that order.
