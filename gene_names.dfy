/** Clean-up of the sorted `GeneName` column: spreadsheet tools turn some
    numeric-looking gene names into dates, and those sort to the front. The
    script removes every name containing "2020" among the first 200 sorted
    names, by calling `list.remove` while iterating over a copy of that head. */
module GeneNames {
  import opened Entities
  import opened Text

  /** How many sorted names the clean-up inspects. */
  const ScanLimit: nat := 200

  /** The fragment that marks a date-corrupted gene name. */
  const DateFragment: string := "2020"

  predicate LooksLikeDate(name: Gene)
  {
    Contains(name, DateFragment)
  }

  /** The names of `names` that do not look like dates, in order. */
  function KeepNonDates(names: seq<Gene>): seq<Gene>
  {
    if names == [] then []
    else if LooksLikeDate(names[0]) then KeepNonDates(names[1..])
    else [names[0]] + KeepNonDates(names[1..])
  }

  /** Length of the inspected head of the list: `names[0:200]`. */
  function HeadLength(names: seq<Gene>): (k: nat)
    ensures k <= |names| && k <= ScanLimit
    ensures k == ScanLimit || k == |names|
  {
    if |names| < ScanLimit then |names| else ScanLimit
  }

  /** The cleaned worklist: the head without its date-like names, then the
      untouched tail. */
  function DropDateNames(names: seq<Gene>): seq<Gene>
  {
    var k := HeadLength(names);
    KeepNonDates(names[..k]) + names[k..]
  }

  /** Python's `list.remove(v)`: delete the first occurrence of `v`. */
  function RemoveFirst<T(==)>(s: seq<T>, v: T): (r: seq<T>)
    requires v in s
    ensures r == s[..FirstIndex(s, v)] + s[FirstIndex(s, v) + 1..]
  {
    if s[0] == v then s[1..]
    else
      assert s[1..][..FirstIndex(s[1..], v)] == s[1..FirstIndex(s, v)];
      [s[0]] + RemoveFirst(s[1..], v)
  }

  /** Removing the first occurrence of `v` from `front + [v] + back`, when
      `front` does not hold `v`, removes exactly that slot. */
  lemma RemoveFirstAt<T>(front: seq<T>, v: T, back: seq<T>)
    requires v !in front
    ensures RemoveFirst(front + [v] + back, v) == front + back
  {
    var s := front + [v] + back;
    assert s[|front|] == v;
    assert FirstIndex(s, v) == |front|;
    assert s[..|front|] == front && s[|front| + 1..] == back;
  }

  /** What survives KeepNonDates never looks like a date. */
  lemma {:induction false} KeepNonDatesMembers(names: seq<Gene>, x: Gene)
    ensures x in KeepNonDates(names) <==> x in names && !LooksLikeDate(x)
  {
    if names != [] {
      KeepNonDatesMembers(names[1..], x);
      assert names == [names[0]] + names[1..];
    }
  }

  /** The clean-up loop of the script: iterate over a copy of the first 200
      sorted names and `remove` each one containing "2020" from the list. */
  method FilterGeneNames(sortedNames: seq<Gene>) returns (names: seq<Gene>)
    ensures names == DropDateNames(sortedNames)
  {
    names := sortedNames;
    var k := HeadLength(sortedNames);
    var head := sortedNames[..k];
    ghost var tail := sortedNames[k..];
    assert sortedNames == head + tail;
    for i := 0 to |head|
      invariant names == KeepNonDates(head[..i]) + (head[i..] + tail)
    {
      var name := head[i];
      assert head[i..] + tail == [name] + (head[i + 1..] + tail);
      assert head[..i + 1] == head[..i] + [name];
      if LooksLikeDate(name) {
        FilterStepDate(head[..i], name, head[i + 1..] + tail);
        names := RemoveFirst(names, name);
      } else {
        FilterStepKeep(head[..i], name, head[i + 1..] + tail);
      }
    }
    assert head[..|head|] == head;
  }

  /** One iteration of the clean-up loop for a date-like `name`: once the
      names before it have been dealt with, removing it leaves the kept names
      followed by the rest. */
  lemma {:induction false} FilterStepDate(done: seq<Gene>, name: Gene, later: seq<Gene>)
    requires LooksLikeDate(name)
    ensures RemoveFirst(KeepNonDates(done) + ([name] + later), name) == KeepNonDates(done + [name]) + later
  {
    var kept := KeepNonDates(done);
    KeepNonDatesSnoc(done, name);
    KeepNonDatesMembers(done, name);
    RemoveFirstAt(kept, name, later);
    assert kept + [name] + later == kept + ([name] + later);
  }

  /** One iteration of the clean-up loop for any other `name`: it stays. */
  lemma {:induction false} FilterStepKeep(done: seq<Gene>, name: Gene, later: seq<Gene>)
    requires !LooksLikeDate(name)
    ensures KeepNonDates(done) + ([name] + later) == KeepNonDates(done + [name]) + later
  {
    KeepNonDatesSnoc(done, name);
  }

  /** KeepNonDates distributes over appending one name. */
  lemma {:induction false} KeepNonDatesSnoc(names: seq<Gene>, x: Gene)
    ensures KeepNonDates(names + [x]) == KeepNonDates(names) + (if LooksLikeDate(x) then [] else [x])
  {
    if names != [] {
      assert (names + [x])[1..] == names[1..] + [x];
      KeepNonDatesSnoc(names[1..], x);
    }
  }

  /** The clean-up only removes names that contain "2020" and sit among the
      first 200 entries; everything after them is kept as it is. */
  lemma DropDateNamesRemovesOnlyDates(names: seq<Gene>)
    ensures var k := HeadLength(names);
      && (forall x :: x in DropDateNames(names) <==>
            (x in names[..k] && !LooksLikeDate(x)) || x in names[k..])
      && DropDateNames(names)[|DropDateNames(names)| - |names[k..]|..] == names[k..]
      && forall x :: x in DropDateNames(names) ==> x in names
  {
    var k := HeadLength(names);
    forall x ensures x in DropDateNames(names) <==> (x in names[..k] && !LooksLikeDate(x)) || x in names[k..] {
      KeepNonDatesMembers(names[..k], x);
    }
    assert names == names[..k] + names[k..];
  }
}
