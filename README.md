# gitwho contributor statistics, modelled in Dafny

gitwho runs `git log --format=%an|%ae --numstat` over a path. It turns the
printed text into one record per author identity (name and e-mail): the
number of numstat lines credited to the author, and the lines added and
deleted. It then prints the records sorted by total changes. This project
models that statistics core of `runGitWho` in `cmd/root.go`, and the helper
that fits names into the report's columns.

- `text.dfy` (module `Text`) models the Go library calls the parser relies on:
  - `strings.Split` with a one-character separator;
  - `strings.Fields` over ASCII white space;
  - `fmt.Sscanf(tok, "%d", &v)` into a variable that starts at 0.

  Each is proved against an inverse: `Join` for the first two (on
  separator-free and on space-free pieces) and `Decimal` for the third.
- `gitlog.dfy` (module `GitLog`) holds the reference semantics of the parsing
  loop:
  - `Classify` says how one line is read;
  - `Step` and `Run` give the loop as a fold over the lines.

  An independent description of the intended table sits beside it:
  - `Attributions` is the accepted numstat lines, each with the author it is credited to;
  - `Tally` is, per author, the count of those lines and their sums.

  The module also has lemmas that connect the two descriptions and that
  classify every kind of line.
- `aggregation.dfy` (module `Aggregation`) holds the imperative code:
  - the parsing loop, with its cursor variables and the table of records rebuilt on each accepted line;
  - the copy of the map into a slice, in arbitrary map order;
  - the in-place sort on an array.

  Each is proved against `GitLog`. `ContributorStats` runs the whole pipeline.
- `display.dfy` (module `Display`) models `truncateString`.

The model follows the code. In particular, `Commits` counts accepted numstat
lines, not commits. A commit that touches three text files adds 3, and a
commit that touches only binary files adds nothing. So the sum of all
`Commits` is the number of accepted numstat lines
(`GitLog.CommitsCountAcceptedLines`). It is not bounded by the number of
commits or identity lines.

The model also follows the code on paths that hold `|`. The loop tests for
`|` before anything else, so git's numstat line for such a path is read as an
identity line. Its counts are dropped. With exactly one `|`, the cursor
becomes the text before it (the two counts, the tabs and the start of the
path) and the text after it. The commit's later numstat lines are then
credited to that made-up author (`GitLog.BarPathIsIdentity`). A path made only
of white space leaves its numstat line with two fields, so the loop passes over
the line and its counts are lost (`GitLog.SpacePathDropped`). The lemmas about
numstat lines therefore hold for paths that are non-empty, do not start with
white space and hold no `|`.

## Model

| member | source | states |
|---|---|---|
| Text.Split | cmd/root.go:167 | `strings.Split` on one character: one more piece than there are separators, and no piece holds the separator |
| Text.JoinSplit | cmd/root.go:167 | joining the pieces of a split with the separator gives back the original text |
| Text.SplitJoin | cmd/root.go:175 | splitting a join of separator-free pieces gives back exactly those pieces |
| Text.Fields | cmd/root.go:182 | `strings.Fields`: every field is non-empty and holds no white space |
| Text.FieldsJoin | cmd/root.go:182 | `strings.Fields` takes apart exactly what was joined, by one white-space character, from non-empty, space-free words |
| Text.ScanInt | cmd/root.go:190-192 | `Sscanf("%d")` into a zero variable: the value is within the 64-bit range, and it is 0 unless a digit comes first or right after a sign |
| Text.ScanIntDecimal | cmd/root.go:190-192 | scanning a count printed in decimal, followed by a non-digit, gives back the count |
| Text.ScanIntNegative | cmd/root.go:190-192 | a minus sign before a decimal value down to the smallest 64-bit integer gives the negated value |
| Text.ScanIntOverflow | cmd/root.go:190-192 | a decimal value beyond the 64-bit range is a scan error and gives 0 |
| Text.ScanIntNegativeOverflow | cmd/root.go:190-192 | a minus sign before a decimal value below the smallest 64-bit integer is a scan error and gives 0 |
| GitLog.SplitKey | cmd/root.go:194 | the key of a `\|`-free identity splits back into that name and e-mail |
| GitLog.KeyInjective | cmd/root.go:194-196 | for `\|`-free identities, two keys are equal exactly when the names and the e-mails are equal |
| GitLog.Classify | cmd/root.go:173-192 | a line is an identity exactly when it holds one `\|`, and then it is the key of its two parts; it is malformed exactly when it holds more; a numstat line holds no `\|`, is non-empty, does not start with `commit` and has at least three fields |
| GitLog.ClassifyIdentity | cmd/root.go:173-179 | the identity line git prints for a `\|`-free author is read back as that author |
| GitLog.ClassifyNumstat | cmd/root.go:182-192 | the line `added<TAB>deleted<TAB>path` for a text file, with a path that is non-empty, does not start with white space and holds no `\|`, is read back as those two numbers, also when the path holds spaces |
| GitLog.ClassifyBinary | cmd/root.go:183-187 | the line `-<TAB>-<TAB>path` for a binary file, with a path that is non-empty, does not start with white space and holds no `\|`, is read as a binary line, also when the path holds spaces |
| GitLog.BarPathIsIdentity | cmd/root.go:173-178 | a numstat line whose path holds one `\|` is read as an identity line: the table and the credited lines stay as they were, and the cursor becomes the text on either side of the `\|` |
| GitLog.SpacePathDropped | cmd/root.go:182-183 | the numstat line of a path made only of white space has fewer than three fields: it is skipped, leaving the state and the credited lines as they were |
| GitLog.StepSkipped | cmd/root.go:180-187 | blank lines, `commit` lines, lines with fewer than three fields, binary lines, and lines read with an empty author leave the state unchanged |
| GitLog.RunCursor | cmd/root.go:169-179 | the loop's cursor is the last well-formed identity read (empty before any), and it never holds `\|` |
| GitLog.RunTallied | cmd/root.go:180-206 | the table holds a record for an identity exactly when some accepted line is credited to it; that record's commits are the number of such lines, and its additions and deletions are their sums |
| GitLog.RunWellKeyed | cmd/root.go:194-202 | every record is stored under the key of its own name and e-mail, and neither holds `\|` |
| GitLog.NoRecordsIffNoAcceptedLines | cmd/root.go:166-209 | the table is empty exactly when no numstat line was accepted |
| GitLog.IdentityLine | cmd/root.go:173-179 | a line with `\|` never creates or changes a record and credits nothing; with exactly two parts it sets both cursor fields to them verbatim, otherwise the cursor stays |
| GitLog.IgnoredLine | cmd/root.go:180-187 | a blank line, a `commit` line, a line with fewer than three fields, a binary line, or a line read while the cursor's name is empty changes neither the state nor the credited lines |
| GitLog.AcceptedLine | cmd/root.go:182-206 | an accepted numstat line adds exactly one commit and its two numbers to the cursor's record, creating it with the cursor's identity if needed, and leaves every other record as it was |
| GitLog.RecordEffect | cmd/root.go:194-206 | the lazy find-or-create and update touches only the cursor's key: one more commit, the two numbers added, other records unchanged |
| GitLog.NoIdentityNoRecords | cmd/root.go:169-180 | numstat lines before any identity line are never counted |
| GitLog.RunTotals | cmd/root.go:180-206 | summed over the whole table, each of commits, additions and deletions equals the same measure summed over the accepted lines |
| GitLog.CommitsCountAcceptedLines | cmd/root.go:180-206 | the commits of all records add up to the number of accepted numstat lines |
| GitLog.CommitBlock | cmd/root.go:172-206 | an identity line followed by a text-file numstat line by that author, for a path that is non-empty, does not start with white space and holds no `\|`, records one commit with those numbers |
| GitLog.ExampleTotals | cmd/root.go:166-209 | on a log in which author a makes two commits (10/2 and 5/0) and author b makes one (1/1), a gets 2 commits, 15 additions and 2 deletions, and b gets 1, 1 and 1 |
| Aggregation.Aggregate | cmd/root.go:166-209 | the imperative loop with its cursor variables and its map builds exactly the reference table `Run(lines).stats`, and every record sits under its own key |
| Aggregation.ReadLine | cmd/root.go:173-208 | one pass of the loop body, including the early `continue` on a binary line, moves the cursor and updates the table exactly as one `Step` of the reference semantics |
| Aggregation.AddToRecord | cmd/root.go:194-206 | finding or creating the record and then incrementing it gives the reference update `Record` |
| Aggregation.Flatten | cmd/root.go:212-215 | the slice has exactly as many entries as the map has keys, each a record of the map, and every record of the map is in it; visiting the keys in an arbitrary order, entry i is the record stored under the i-th distinct key |
| Aggregation.SortByTotal | cmd/root.go:218-222 | after the in-place sort, `Additions + Deletions` never increases along the array, and the array holds the same records as before |
| Aggregation.ContributorStats | cmd/root.go:165-222 | the returned slice lists every record of the table built from the split log text exactly once, greatest total first |
| Aggregation.PermutationLists | cmd/root.go:212-222 | reordering a list that holds each record of the table once gives another such list |
| Display.Truncate | cmd/root.go:253-258 | a string that fits is returned unchanged; a longer one becomes its first `length - 3` characters followed by `...`, exactly `length` long |
| Display.TruncateIdempotent | cmd/root.go:253-258 | truncating a truncated value changes nothing |

## Left out

- The `git` subprocesses (`isGitRepo`, `findGitRoot`, and the `git log` run at cmd/root.go:154-163). The log text is an input to `ContributorStats`.
- The building of the `git log` command line (cmd/root.go:140-151) and the path handling in `filepath.Abs`, `filepath.Rel` and `os.Stat`. Both depend on the file system.
- `getDateFilter`, which reads the wall clock and uses Go's calendar arithmetic.
- The Cobra command and flag wiring, and `cmd/version.go`.
- The printing of the report (`Printf` widths, the header, and the "No changes found" message). For an empty table, `GitLog.NoRecordsIffNoAcceptedLines` characterises when that message is printed.
- Text.Fields: it splits on ASCII white space only, not Unicode white space. Each `char` stands for one byte of the Go string, so multi-byte UTF-8 is not modelled.
- Text.ScanInt: it models an optional sign, then decimal digits up to the first non-digit, with anything out of the 64-bit range giving 0. Go's `%d` first skips leading white space, which the model does not. The tokens it is given come from `strings.Fields`, so they never start with white space.
- Aggregation.AddToRecord: the counters are unbounded integers, so the 64-bit wrap-around of `Commits++` and `+=` is not modelled.
- Aggregation.SortByTotal: the comparator's sum `Additions + Deletions` (cmd/root.go:219-220) is unbounded here. In Go it can wrap around, and then Go's order differs from `ByTotalDescending`.
- Aggregation.Aggregate: the table holds records as values where Go holds `*Contributor` pointers. Nothing else refers to a record while the loop runs, so no aliasing is lost.
- Aggregation.SortByTotal: `sort.Slice` is not stable and its order among equal totals is unspecified. The model promises only sortedness and permutation.
- Display.Truncate: Go panics on `s[:length-3]` when `length < 3` and the string does not fit. The model requires callers to avoid that case, as the report does by always passing 30.
