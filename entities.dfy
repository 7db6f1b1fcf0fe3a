/** The entities the isoform analysis talks about, and small sequence helpers
    shared by the other modules. */
module Entities {

  /** A spreadsheet cell that may or may not hold a string. */
  datatype Option<+T> = None | Some(value: T)

  /** A gene name as it appears in the `GeneName` column and in the
      reference headers. */
  type Gene = string

  /** A transcript (isoform) identifier such as `ENST00000373993.6`. */
  type Isoform = string

  /** An observed peptide: a short amino-acid string. */
  type Peptide = string

  /** A full-length translated protein sequence. */
  type Protein = string

  /** The set of elements of a list, as Python's `set(list)`. */
  function Elements<T>(s: seq<T>): set<T>
  {
    set x | x in s
  }

  /** Index of the first occurrence of `x` in `s`. */
  function FirstIndex<T(==)>(s: seq<T>, x: T): (k: nat)
    requires x in s
    ensures k < |s| && s[k] == x && x !in s[..k]
  {
    if s[0] == x then 0 else 1 + FirstIndex(s[1..], x)
  }

  /** No element occurs twice. */
  predicate NoDuplicates<T(==)>(s: seq<T>)
  {
    forall i, j :: 0 <= i < j < |s| ==> s[i] != s[j]
  }
}
