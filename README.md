# substs-circle in Dafny

A model of the circular-substitution detector of `substs-circle`. The tool
reads a tab-separated table of part numbers in which two columns say "part
*from* is replaced by part *to*", builds a multimap from each canonical
"from" key to the list of its "to" keys, runs `checkCircle` from every
"from" key, and writes the keys for which a circle was found, sorted, one
per line.

The project is split by component:

- `keys.dfy`, module `PartKeys`: normalisation of a raw field into a key
  (upper-case, then delete every character outside `[0-9A-Z]`).
- `substitutions.dfy`, module `Substitutions`: the table, the edge update
  and the record loop, with its two fatal errors.
- `circle.dfy`, module `Circle`: `checkCircle` as it is written, and what
  it does and does not detect.
- `ordering.dfy`, module `Ordering`: Go's string order and a stand-in for
  `sort.Strings`.
- `report.dfy`, module `Report`: the flagged-key loop, the output
  formatting, and a whole run from records to output text.
- `scenarios.dfy`, module `Scenarios`: whole runs on small inputs.
- `wrappers.dfy`, module `Wrappers`: `Option` and `Result`.

The model follows `main.go`, which differs from a textbook depth-first
search with a visited set:

- `checkCircle` has no visited set. It returns "no circle" as soon as its
  depth counter passes 10, so at most 12 calls are ever nested
  (`Circle.CheckCircleCounted`, `Circle.CallsFromZero`).
- At each level it commits to the first successor that is either the start
  key or a key with its own list. The successors after that one are never
  examined (`Circle.FirstEntryDecides`, `Circle.LaterElementsIgnored`).
- So a "circle" answer is always a real circle (`Circle.CircleMeansChain`,
  `Report.RunFlagsOnlyCircles`), but real circles can be missed. A
  self-loop behind a successor that has its own list is missed
  (`Circle.MissedSelfLoop`). A ring of twelve or more edges is missed, and
  a ring of eleven or fewer is found (`Circle.RingReportedIff`). A self-loop
  in the first position is always found (`Report.SelfLoopFlagged`).

`checkCircle` receives the table through a pointer but only reads it. In
the model it is a function of the table, so the table cannot change.

Go's map iteration order is unspecified. The loops over maps and sets
(`FindCircles`, `CollectKeys`) pick any element not yet visited, and their
contracts hold for every order.

## Model

| member | source | states |
|---|---|---|
| `PartKeys.UpperAscii` | main.go:75 | definition of the ASCII part of `strings.ToUpper`; its properties are stated by `PartKeys.UpperAsciiLetters`, `PartKeys.UpperAsciiOthers`, `PartKeys.UpperAsciiKeyChars` and `PartKeys.UpperAsciiFixesKeyChars` |
| `PartKeys.UpperAsciiLetters` | main.go:75 | the n-th lower-case ASCII letter becomes the n-th letter of the upper-case alphabet `ABCDEFGHIJKLMNOPQRSTUVWXYZ` |
| `PartKeys.UpperAsciiOthers` | main.go:75 | every character that is not a lower-case ASCII letter is left unchanged |
| `PartKeys.UpperAsciiKeyChars` | main.go:75-77 | an upper-cased character survives the filter exactly when it was a digit or an upper-case letter already, or was a lower-case letter |
| `PartKeys.UpperAsciiFixesKeyChars` | main.go:75 | upper-casing leaves digits and upper-case letters alone and is idempotent |
| `PartKeys.KeepChar` | main.go:75-77 | definition of what one raw character contributes to the key (its upper-case form if that is in `0-9A-Z`, else nothing); its properties are stated through `PartKeys.Normalize` and `PartKeys.NormalizeConcat` |
| `PartKeys.Normalize` | main.go:75-79 | the key holds only characters in `0-9A-Z` and is no longer than the raw field |
| `PartKeys.NormalizeCanonical` | main.go:75-79 | a string made only of `0-9A-Z` normalises to itself |
| `PartKeys.NormalizeIdempotent` | main.go:75-79 | normalising a normalised key changes nothing |
| `PartKeys.NormalizeConcat` | main.go:75-79 | normalisation works character by character: the key of `a + b` is the key of `a` followed by the key of `b` |
| `PartKeys.NormalizeEmpty` | main.go:75-81 | the key is empty exactly when no character of the field upper-cases into `0-9A-Z`; such a record adds no edge |
| `Substitutions.AddEdge` | main.go:81-83 | definition of the guarded append of one edge; its properties are stated by `Substitutions.AddEdgeEffect`, `Substitutions.AddEdgeNew` and `Substitutions.AddEdgeExisting` |
| `Substitutions.AddEdgeEffect` | main.go:81-83 | an edge changes the table only when both keys are non-empty; it then appends `to` at the end of the list of `from`, creating the list if absent, and every other list stays as it was |
| `Substitutions.AddEdgeNew` | main.go:82 | the first edge of a key creates the one-element list |
| `Substitutions.AddEdgeExisting` | main.go:82 | a later edge of a key is appended to its existing list |
| `Substitutions.ReadRecord` | main.go:68-83 | definition of one pass of the record loop: the field-count error, the index error, or the table with the record's edge added; its properties are stated by `Substitutions.BuildAppend` and `Substitutions.BuildFailure` |
| `Substitutions.Build` | main.go:67-84 | definition of the table the record loop builds, or its first fatal error; the loop is `Substitutions.LoadSubstitutes`, and its properties are stated by `Substitutions.BuildSucceeds`, `Substitutions.BuildFailure`, `Substitutions.BuildContents` and `Substitutions.BuildWellKeyed` |
| `Substitutions.LoadSubstitutes` | main.go:67-84 | the record loop returns the table or the first fatal error, exactly as `Build` defines them |
| `Substitutions.BuildAppend` | main.go:67-84 | reading one more readable record adds that record's edge to the table read so far |
| `Substitutions.BuildFailureSticks` | main.go:68-73 | once a record has proved fatal, the run ends with that error whatever follows |
| `Substitutions.BuildSucceeds` | main.go:62-78 | reading succeeds exactly when every record has four fields and both columns lie inside it |
| `Substitutions.BuildFailure` | main.go:62-78 | a failed read names the first unreadable record, every earlier record is readable, and the error kind says whether it was the field count |
| `Substitutions.BuildContents` | main.go:75-83 | the list of every key is exactly the "to" keys of the records with that "from" key, in input order, duplicates kept, records with an empty side skipped; a key is present exactly when it has at least one such record |
| `Substitutions.BuildWellKeyed` | main.go:75-83 | every key and every listed target of a table that was read is a non-empty canonical key, and no list is empty |
| `Circle.CheckCircle` | main.go:117-135 | definition of `checkCircle` as written; its properties are stated by `Circle.CheckCircleGivesUp`, `Circle.KeyBeforeAnyEntry`, `Circle.FirstEntryDecides`, `Circle.LaterElementsIgnored`, `Circle.NoStopNoCircle`, `Circle.CheckCircleCounted`, `Circle.CircleMeansChain`, `Circle.MissedSelfLoop` and `Circle.RingReportedIff` |
| `Circle.FirstStop` | main.go:124-132 | the index found is that of the first element equal to the start key or having its own list, or there is no such element |
| `Circle.CheckCircleGivesUp` | main.go:118-119 | past depth 10 the answer is "no circle", whatever the list holds |
| `Circle.ChainCons` | main.go:127-129 | an edge into the first key of a chain extends the chain at the front |
| `Circle.KeyBeforeAnyEntry` | main.go:124-126 | an element equal to the start key, coming before every element that has its own list, gives "circle" |
| `Circle.SelfLoopFirst` | main.go:124-126 | a list that starts with the start key gives "circle" at every depth up to 10 |
| `Circle.FirstEntryDecides` | main.go:127-129 | the first element with its own list, when it comes before any occurrence of the start key and is not the start key, decides the answer: the recursive call on its list one level deeper |
| `Circle.LaterElementsIgnored` | main.go:124-131 | replacing everything after the first element the scan stops at leaves the answer unchanged |
| `Circle.NoStopNoCircle` | main.go:124-134 | when no element equals the start key and none has its own list, the answer is "no circle"; in particular for an empty list |
| `Circle.CheckCircleCounted` | main.go:117-135 | `checkCircle` instrumented with a count of its invocations: its answer is that of `Circle.CheckCircle`, it makes exactly one call past depth 10, and at most `12 - idx` calls at depth `idx` within the limit |
| `Circle.CallsFromZero` | main.go:117-135 | a check started at depth 0, as the driver starts it, makes at most 12 nested calls |
| `Circle.CircleMeansChain` | main.go:117-135 | a "circle" answer is never spurious: some element of the list starts a chain of table edges, at most `11 - idx` keys long, that ends at the start key |
| `Circle.MissedSelfLoop` | main.go:124-131 | the table `A -> [B, A]`, `B -> [C]` has the self-loop `A -> A`, yet the check from `A` answers "no circle" |
| `Circle.RingWalk` | main.go:117-131 | walking a ring of distinct keys from position `j` at depth `idx` finds the start key exactly when `idx + length - j` is at most 10 |
| `Circle.StepThrough` | main.go:127-129 | a key whose only successor is `next`, scanned within the depth limit, hands the check on to `next` one level deeper |
| `Circle.RingReportedIff` | main.go:117-131 | a ring of n distinct keys is a real circle, and the check from its first key reports it exactly when n is at most 11 |
| `Ordering.Below` | main.go:103 | definition of the string order `sort.Strings` sorts by; its properties are stated by `Ordering.BelowReflexive`, `Ordering.BelowTotal`, `Ordering.BelowAntisymmetric` and `Ordering.BelowTransitive` |
| `Ordering.BelowReflexive` | main.go:103 | every key sorts at or below itself |
| `Ordering.BelowTotal` | main.go:103 | any two keys are comparable |
| `Ordering.BelowAntisymmetric` | main.go:103 | two keys each at or below the other are equal |
| `Ordering.BelowTransitive` | main.go:103 | the string order is transitive |
| `Ordering.Insert` | main.go:103 | inserting into a sorted sequence keeps it sorted and adds exactly the one element |
| `Ordering.SortStrings` | main.go:103 | the result is sorted and is a permutation of the input |
| `Ordering.SortedUnique` | main.go:103 | two sorted sequences with the same elements, counted with multiplicity, are equal, so the sorted output does not depend on the input order |
| `Report.Flagged` | main.go:86-91 | definition of the keys `substitutesCircle` ends up holding; the loop is `Report.FindCircles`, and its properties are stated by `Report.FlaggedOnCircle`, `Report.SelfLoopFlagged`, `Report.UnlistedNotFlagged` and `Report.RunOutputLines` |
| `Report.FindCircles` | main.go:86-91 | the set collected holds exactly the keys of the table whose check from depth 0 answers "circle", whatever the iteration order |
| `Report.SortedKeys` | main.go:99-103 | the listing of a set is sorted and holds each element of the set exactly once |
| `Report.SortedKeysDistinct` | main.go:99-103 | the listing of a set has no repeated element and holds exactly the elements of the set |
| `Report.NonBlank` | main.go:106-108 | definition of the entries the output loop writes, the non-empty ones in order; its properties are stated by `Report.NonBlankMultiset` and `Report.NonBlankSorted` |
| `Report.NonBlankMultiset` | main.go:106-108 | skipping empty entries removes every empty string and keeps every other entry with its multiplicity |
| `Report.NonBlankSorted` | main.go:106-108 | skipping entries of a sorted sequence leaves it sorted |
| `Report.JoinLines` | main.go:105-109 | definition of the output text, each entry followed by a newline; its properties are stated by `Report.JoinLinesStep` and `Report.LinesOfJoinLines` |
| `Report.JoinLinesStep` | main.go:106-109 | one more entry adds its line followed by a newline to the text, or nothing when it is empty |
| `Report.LinesOfJoinLines` | main.go:105-110 | splitting the written text at newlines gives back the keys written, when no key holds a newline |
| `Report.ListingLines` | main.go:103-110 | the text listing a non-empty set of non-empty canonical keys splits into exactly those keys, strictly ascending, none blank |
| `Report.Padding` | main.go:97 | definition of the sixteen empty strings `make([]string, 16)` starts the key slice with; `Report.PaddingIsBlank` states that it holds nothing but empty strings |
| `Report.PaddingIsBlank` | main.go:97 | the padding holds no entry other than the empty string, so it never reaches the output |
| `Report.CollectKeys` | main.go:97-101 | the key slice holds the sixteen empty strings and each flagged key exactly once |
| `Report.WriteLines` | main.go:105-110 | the text is every non-empty entry followed by a newline, in order |
| `Report.FormatReport` | main.go:93-110 | nothing is written exactly when no key is flagged; otherwise the text is the flagged keys in ascending order, each followed by a newline, without the padding and without repeats |
| `Report.ListingOfPadded` | main.go:97-110 | sorting the padded slice and skipping the empty entries yields the ascending listing of the flagged keys |
| `Report.RunResult` | main.go:53-110 | definition of a run's outcome: the read error, no output, or the text written; `Report.Run` computes it, and `Report.RunOutputLines`, `Report.RunNoOutput`, `Report.RunFailure` and `Report.RunFlagsOnlyCircles` state its properties |
| `Report.RunFrom` | main.go:86-110 | definition of a run's outcome once the table is read; its properties are stated by `Report.OutputIsListing`, `Report.OutputLines` and `Report.RunFromFlagged` |
| `Report.Run` | main.go:53-110 | a run's outcome is the read error, no output, or the listing text, as `RunResult` defines them |
| `Report.RunResultOfTable` | main.go:86-110 | once the table is read, the outcome depends on the table alone |
| `Report.OutputIsListing` | main.go:93-110 | for a table whose keys are all non-empty canonical keys, the text written is the ascending listing of the flagged keys, and there is at least one |
| `Report.OutputLines` | main.go:86-110 | for such a table, the lines written are strictly ascending, none blank, each canonical, and a key has a line exactly when its check answers "circle" |
| `Report.RunOutputLines` | main.go:53-110 | for a whole run that writes output, the lines written are in strictly ascending order, none blank, each a canonical key, and a key has a line exactly when its check answers "circle" |
| `Report.RunNoOutput` | main.go:93-95 | nothing is written exactly when every key's check answers "no circle" |
| `Report.RunFromFlagged` | main.go:93-110 | with a non-empty set of flagged keys, none empty, the text written is their ascending listing |
| `Report.RunFailure` | main.go:68-73 | a run that cannot read its records ends with the read error |
| `Report.FlaggedOnCircle` | main.go:86-91 | a flagged key starts a chain of at most twelve keys that leads back to itself |
| `Report.RunFlagsOnlyCircles` | main.go:86-110 | every key written lies on a real circle of the table |
| `Report.SelfLoopFlagged` | main.go:124-126 | a key whose first successor is itself is always flagged |
| `Report.UnlistedNotFlagged` | main.go:86-89 | a key without a list of its own is never flagged |
| `Report.ChainNotFlagged` | main.go:86-91 | the chain `A -> B -> C` without a return edge flags nothing |
| `Scenarios.BuildThree` | main.go:67-84 | three readable records give the table with their three edges added in order |
| `Scenarios.BuildFour` | main.go:67-84 | a fourth readable record adds its edge to the table of the first three |
| `Scenarios.ThreeCircleRead` | main.go:67-84 | the records `a b`, `b c`, `c a`, `d e` give the table `a -> [b]`, `b -> [c]`, `c -> [a]`, `d -> [e]` |
| `Scenarios.CircleTable` | main.go:81-83 | adding the edges `a b`, `b c`, `c a`, `d e` to the empty table gives `a -> [b]`, `b -> [c]`, `c -> [a]`, `d -> [e]` |
| `Scenarios.ThreeCircleFlagged` | main.go:86-91 | in that table `a`, `b` and `c` are flagged and `d` is not |
| `Scenarios.ThreeKeysSorted` | main.go:103 | three distinct keys in ascending order are listed in that order |
| `Scenarios.ThreeCircleOutput` | main.go:93-110 | the text written for that table is `a`, `b`, `c`, one per line |
| `Scenarios.ThreeCircleRun` | main.go:53-110 | a whole run on those four records writes `a`, `b`, `c`, one per line |
| `Scenarios.CircleRun` | main.go:53-110 | the records `A1 B2`, `B2 C3`, `C3 A1`, `D4 E5` make the run write `"A1\nB2\nC3\n"` |
| `Scenarios.KeyA1` | main.go:75-79 | `"a-1"` and `"A1"` both normalise to `"A1"` |
| `Scenarios.KeyB2` | main.go:75-79 | `"b 2"` and `"B2"` both normalise to `"B2"` |
| `Scenarios.NoKey` | main.go:75-81 | `"--"` normalises to the empty key |
| `Scenarios.RepeatedEdgeRun` | main.go:75-95 | two records with the same edge keep it twice, a record with an empty side is skipped, and the run writes nothing |
| `Scenarios.RepeatedEdgeExample` | main.go:75-95 | the records `a-1 b 2`, `A1 B2`, `A1 --` make the run write nothing |
| `Scenarios.BadRecordRuns` | main.go:65-78 | a record with three fields ends the run with a field-count error, and a column beyond the fourth ends it with an index error |

## Left out

- Flag parsing and the global configuration (main.go:16-27), and the checks of the flags (main.go:30-51), which reject missing file names, a column number of 0, and two equal columns, and then make the 1-based column numbers 0-based: the model takes the two columns as 0-based `nat` parameters, already validated. A negative column number, which makes Go panic at the first record, cannot be passed.
- Reading the input file and writing the output file (main.go:59, main.go:112), and `log.Fatal` in `checkError` (main.go:138-142): the records are a parameter, and the run's outcome is a value. `Failure` stands for a fatal exit, `Success(None)` for "no file written", and `Success(Some(text))` for the text written.
- The CSV reader (main.go:62-73): the tab separator, `#` comments, quoting and blank-line handling are the library's. The model takes the records as already split into fields. Of the reader's errors it keeps only the wrong field count, which `FieldsPerRecord = 4` makes fatal.
- A column index beyond the fourth field is a Go run-time panic. The model reports it as the error `ColumnOutOfRange`.
- `PartKeys.Normalize`: models `strings.ToUpper` on ASCII only. Go's Unicode upper-casing also maps a few non-ASCII letters onto ASCII ones (the dotless `ı` to `I`, the long `ſ` to `S`). The model drops those letters instead of keeping them.
- `regexp` semantics: deleting every run of characters outside `[0-9A-Z]` is modelled as deleting them one at a time, which gives the same string.
- Invalid UTF-8 input: the model's strings are sequences of Unicode characters, so invalid byte sequences cannot be represented.
- `Ordering.Below`: compares characters by code point. Go compares bytes, and the two orders agree on the model's strings, since UTF-8 preserves code-point order.
- `Ordering.SortStrings`: models `sort.Strings`, a library routine. The model fixes only its result, a sorted permutation, and not its algorithm.
