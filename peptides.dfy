/** The peptide table: for every row of the supplementary table, the
    `;`-separated peptide lists of its twelve digestion-protocol columns are
    appended, in column order, to the list kept for the row's gene. */
module Peptides {
  import opened Entities
  import opened Text

  /** The twelve `Proteomics|<enzyme>|Peptides|Path<n>` columns. */
  const PeptideColumns: nat := 12

  /** Separator between peptides inside one cell. */
  const PeptideSeparator: char := ';'

  /** One row of the reduced table: the gene name, then one cell per
      peptide column; a cell that does not hold a string is `None`. */
  datatype Row = Row(gene: Gene, cells: seq<Option<string>>)

  /** Every row carries exactly the twelve peptide columns. */
  predicate WellShaped(rows: seq<Row>)
  {
    forall i :: 0 <= i < |rows| ==> |rows[i].cells| == PeptideColumns
  }

  /** The gene-name column, in row order. */
  function GeneColumn(rows: seq<Row>): (genes: seq<Gene>)
    ensures |genes| == |rows|
    ensures forall i :: 0 <= i < |rows| ==> genes[i] == rows[i].gene
  {
    if rows == [] then [] else GeneColumn(rows[..|rows| - 1]) + [rows[|rows| - 1].gene]
  }

  /** What one cell contributes: its `;`-split, or nothing for a non-string. */
  function CellPeptides(cell: Option<string>): seq<Peptide>
  {
    match cell
    case None => []
    case Some(text) => Split(text, PeptideSeparator)
  }

  /** What a run of cells contributes, left to right. */
  function CellsPeptides(cells: seq<Option<string>>): seq<Peptide>
  {
    if cells == [] then []
    else CellsPeptides(cells[..|cells| - 1]) + CellPeptides(cells[|cells| - 1])
  }

  /** The table after the rows `rows` have been read, row by row, as the
      script's loop builds it. */
  function PeptideTable(rows: seq<Row>): map<Gene, seq<Peptide>>
  {
    if rows == [] then map[]
    else
      var table := PeptideTable(rows[..|rows| - 1]);
      var row := rows[|rows| - 1];
      var sofar := if row.gene in table then table[row.gene] else [];
      table[row.gene := sofar + CellsPeptides(row.cells)]
  }

  /** Reference definition: the peptides of every row of gene `g`, rows
      taken in order. */
  function PeptidesOf(rows: seq<Row>, g: Gene): seq<Peptide>
  {
    if rows == [] then []
    else (if rows[0].gene == g then CellsPeptides(rows[0].cells) else []) + PeptidesOf(rows[1..], g)
  }

  lemma {:induction false} PeptidesOfSnoc(rows: seq<Row>, row: Row, g: Gene)
    ensures PeptidesOf(rows + [row], g)
         == PeptidesOf(rows, g) + (if row.gene == g then CellsPeptides(row.cells) else [])
  {
    if rows != [] {
      assert (rows + [row])[1..] == rows[1..] + [row];
      PeptidesOfSnoc(rows[1..], row, g);
    }
  }

  /** Every gene of some row is a key, and only those; the list of a gene is
      the in-order concatenation of its rows' peptides; a gene whose cells
      are all empty still gets its (empty) list. */
  lemma {:induction false} PeptideTableContents(rows: seq<Row>)
    ensures forall g :: g in PeptideTable(rows) <==> g in GeneColumn(rows)
    ensures forall g :: g in PeptideTable(rows) ==> PeptideTable(rows)[g] == PeptidesOf(rows, g)
  {
    if rows != [] {
      var prefix, row := rows[..|rows| - 1], rows[|rows| - 1];
      assert rows == prefix + [row];
      PeptideTableContents(prefix);
      forall g ensures PeptidesOf(rows, g) == PeptidesOf(prefix, g) + (if row.gene == g then CellsPeptides(row.cells) else []) {
        PeptidesOfSnoc(prefix, row, g);
      }
      forall g ensures g !in PeptideTable(prefix) ==> PeptidesOf(prefix, g) == [] {
        if g !in PeptideTable(prefix) {
          PeptidesOfAbsent(prefix, g);
        }
      }
    }
  }

  /** A gene with no row has no peptides. */
  lemma {:induction false} PeptidesOfAbsent(rows: seq<Row>, g: Gene)
    requires g !in GeneColumn(rows)
    ensures PeptidesOf(rows, g) == []
  {
    if rows != [] {
      assert GeneColumn(rows[1..]) == GeneColumn(rows)[1..];
      PeptidesOfAbsent(rows[1..], g);
    }
  }

  /** The script's loop over the rows of the reduced table. */
  method BuildPeptideTable(rows: seq<Row>) returns (allPeptides: map<Gene, seq<Peptide>>)
    requires WellShaped(rows)
    ensures allPeptides == PeptideTable(rows)
  {
    allPeptides := map[];
    for i := 0 to |rows|
      invariant allPeptides == PeptideTable(rows[..i])
    {
      assert rows[..i + 1][..i] == rows[..i];
      allPeptides := AddRow(allPeptides, rows[i]);
    }
    assert rows[..|rows|] == rows;
  }

  /** One iteration of that loop: make sure the row's gene has a list, then
      extend it with the split of every string cell (the Python loop visits
      columns 1..12 of the row; here they are cells 0..11). */
  method AddRow(table: map<Gene, seq<Peptide>>, row: Row) returns (updated: map<Gene, seq<Peptide>>)
    requires |row.cells| == PeptideColumns
    ensures updated == table[row.gene := (if row.gene in table then table[row.gene] else []) + CellsPeptides(row.cells)]
  {
    updated := table;
    if row.gene !in updated {
      updated := updated[row.gene := []];
    }
    ghost var before := updated[row.gene];
    ghost var others := updated;
    assert before + CellsPeptides(row.cells[..0]) == before;
    for col := 0 to PeptideColumns
      invariant updated == others[row.gene := before + CellsPeptides(row.cells[..col])]
    {
      var cell := row.cells[col];
      ExtendStep(others, row.gene, before, row.cells, col);
      if cell.Some? {
        updated := updated[row.gene := updated[row.gene] + Split(cell.value, PeptideSeparator)];
      }
    }
    assert row.cells[..PeptideColumns] == row.cells;
  }

  /** One pass of the inner loop of AddRow keeps its invariant. */
  lemma ExtendStep(others: map<Gene, seq<Peptide>>, g: Gene, before: seq<Peptide>,
                   cells: seq<Option<string>>, col: nat)
    requires col < |cells|
    ensures var updated := others[g := before + CellsPeptides(cells[..col])];
      cells[col].None? ==> updated == others[g := before + CellsPeptides(cells[..col + 1])]
    ensures var updated := others[g := before + CellsPeptides(cells[..col])];
      cells[col].Some? ==>
        updated[g := updated[g] + Split(cells[col].value, PeptideSeparator)]
          == others[g := before + CellsPeptides(cells[..col + 1])]
  {
    CellsPeptidesStep(cells, col);
    var done := CellsPeptides(cells[..col]);
    var more := CellPeptides(cells[col]);
    if cells[col].None? {
      assert done + more == done;
    } else {
      assert before + done + more == before + (done + more);
    }
  }

  /** Reading one more cell appends what that cell contributes. */
  lemma {:induction false} CellsPeptidesStep(cells: seq<Option<string>>, col: nat)
    requires col < |cells|
    ensures CellsPeptides(cells[..col + 1]) == CellsPeptides(cells[..col]) + CellPeptides(cells[col])
  {
    assert cells[..col + 1][..col] == cells[..col];
  }
}
