# pg_parcopy, modelled in Dafny

`pg_parcopy` dumps one PostgreSQL table in parallel. It picks a numeric split
column and reads the column's `MIN` and `MAX`. From the table's average row size
it works out how many keys one dump file should hold (`num_rec_per_proc`). Then
it walks a cursor from `min` towards `max`. On every turn where fewer than
`--count` `psql` processes run on the host, it launches one more `\COPY` of the
next key range into its own file, `dump-NNNNN.<format>`.

The model covers that core in six modules.

- `Decimal`: the decimal text of integers, read by `int()` and written by `str()`
  and the `d` format.
- `Reply` (`get_min_max_val`): the `psql -t` reply `" min | max\n"` is split on
  `|`, every field is stripped, and the first two are read as integers. The two
  ways this raises become `Err` values: a field that is not an integer
  (`ValueError`, as on an empty table or for a `numeric` column's `1.5`) and a
  missing second field (`IndexError`).
- `Naming` (`do_copy`): the file name `dump-{n:05d}.{format.lower()}`.
- `Processes` (`count_psql`): one pass over a snapshot of the host's process
  names, counting the ones called `psql`.
- `Planner`: the width `floor(size * 2^20 / avg)` (line 211). It also holds the
  reference plan: the ranges the loop launches when no turn is ever held back.
- `Dispatcher`: the dispatch loop of `main` (lines 217-227).
  - It is an imperative method, `Dispatch`, with a `while` loop.
  - The process table is an input: one snapshot of process names per turn.
  - `Dispatch` is proved equal to `Run`, a recursive function of the same inputs.
  - The lemmas about `Run` state what the loop does: which ranges, on which
    turns, that the file names never clash, and how a run compares with the plan.

## Edge behaviour of the loop

The loop's guard is `first_num < max`, and the cursor moves by
`num_rec_per_proc` after each launch. That gives four edge behaviours:

- When `min == max` (or `min > max`) nothing is launched and no turn is taken
  (`Dispatcher.RunEmptyRange`).
- The row whose key is `max` is exported only when `(max - min) % width != 0`
  (`Planner.MaxCoveredIff`). Otherwise the last range ends at `max - 1`.
- A width of 0 or less never moves the cursor forward. The loop never finishes.
  On every turn below the limit it launches a range that ends below its start
  (`Dispatcher.RunStalls`).
- The loop ends on the turn of its last launch; no turn is taken once the
  cursor reaches `max` (`Dispatcher.RunTurns`).

## Model

| member | source | states |
|---|---|---|
| Processes.CountPsql | pg_parcopy.py:192-197 | the count is the number of entries named `psql` in the snapshot; it is at most the number of processes, and equal to it exactly when every process is `psql` |
| Planner.RowsPerPartition | pg_parcopy.py:211 | the width is the largest whole number of average rows that fits in `size` MiB: `rows * avg <= size * 2^20 < (rows + 1) * avg` |
| Planner.RowsPerPartitionZero | pg_parcopy.py:211 | for a non-negative size the width is never negative; it is 0 exactly when one average row is larger than the budget |
| Dispatcher.Dispatch | pg_parcopy.py:217-227 | the loop's final launches, cursor, `last_num`, next job number and number of turns are those of `Run`, the loop's functional model |
| Dispatcher.RunRanges | pg_parcopy.py:217-226 | the launched ranges are numbered 1, 2, ... in launch order; they are contiguous and `width` wide; the first starts at `min` and each starts below `max`; no two write the same file in any format; the cursor ends at `min + n * width` after `n` launches |
| Dispatcher.RunTurns | pg_parcopy.py:220-227 | the run stops when the cursor reaches `max` or the snapshots run out; a launch happens on a turn exactly when that turn's snapshot shows fewer than `limit` `psql` processes, at most once per turn and in turn order; the number of launches is the number of such turns; a run from `min < max` that finishes does so on the turn of its last launch |
| Dispatcher.RunFromEndsOnLaunch | pg_parcopy.py:220-227 | from any state below `max`, a run that finishes launched at least once more, and its last launch was on its last turn |
| Dispatcher.Run | pg_parcopy.py:217-227 | the loop as a function of its inputs, with no contract of its own; what it does is stated by `Dispatcher.RunRanges`, `Dispatcher.RunTurns`, `Dispatcher.RunIsPlan`, `Dispatcher.RunEmptyRange` and `Dispatcher.RunStalls` |
| Dispatcher.RunFrom | pg_parcopy.py:220-227 | the loop from a given state onwards, with no contract of its own; it is described by `Dispatcher.RunFromKeepsProgress`, `Dispatcher.RunFromStops`, `Dispatcher.RunFromEndsOnLaunch` and `Dispatcher.RunFromStalls` |
| Dispatcher.RunIsPlan | pg_parcopy.py:217-226 | with a positive width, a run that finished launched exactly the reference plan; enough turns below the limit (at least as many as the plan has ranges) always let it finish |
| Dispatcher.RunEmptyRange | pg_parcopy.py:217-220 | when `min >= max` nothing is launched and no turn is taken |
| Dispatcher.RunStalls | pg_parcopy.py:218-225 | when the width is 0 or less and `min < max`, the cursor never rises above `min`, the loop never finishes, and it takes every turn it is given; it launches once on every turn below the limit, and every launched range ends below its start |
| Dispatcher.FileNamesDistinct | pg_parcopy.py:187-188 | launches numbered 1, 2, ... never write the same file |
| Planner.PlanShape | pg_parcopy.py:217-226 | the plan has `ceil((max - min) / width)` ranges (none when `min >= max`); the `k`-th range is `(min + k*width, min + k*width + width - 1)`, numbered `k + 1`, and starts below `max` |
| Planner.PlanContiguous | pg_parcopy.py:217-226 | the plan is numbered from 1, contiguous, uniformly `width` wide and starts at `min`; its last range ends at or after `max - 1` |
| Planner.PlanCoverage | pg_parcopy.py:217-226 | every key from `min` to the end of the last range lies in exactly one range of the plan |
| Planner.MaxCoveredIff | pg_parcopy.py:220 | for `min < max`, some range holds the key `max` if and only if `(max - min) % width != 0` |
| Planner.ClosedFormIff | pg_parcopy.py:217-226 | a sequence of ranges follows the loop's update rules (numbering from 1, `first = previous last + 1`, `last = first + width - 1`, the first at `min`) if and only if its `k`-th range is `(min + k*width, min + k*width + width - 1)` |
| Planner.PlannedCountUnique | pg_parcopy.py:220 | `n` ranges end the loop exactly (the `n`-th moves the cursor to `max` or beyond, the one before did not) only for `n = ceil((max - min) / width)` |
| Planner.PlannedCountReaches | pg_parcopy.py:220 | `n` ranges move the cursor to `max` or beyond if and only if `n >= ceil((max - min) / width)` |
| Naming.ZeroPad | pg_parcopy.py:187 | `{n:05d}` is the digits of `n`, left-padded with zeros to five characters and never truncated, and it reads back as `n` |
| Naming.Format.Extension | pg_parcopy.py:188 | the extension is the format name lower-cased, letter by letter |
| Naming.Lower | pg_parcopy.py:188 | `str.lower()` on ASCII: the same length, and each letter `A`-`Z` becomes its lower-case form while every other character stays |
| Naming.DumpFileName | pg_parcopy.py:187-188 | the name `do_copy` writes, with no contract of its own; its shape is `Naming.DumpFileNameShape` and its injectivity `Naming.DumpFileNameInjective` |
| Naming.DumpFileNameShape | pg_parcopy.py:187-188 | a dump file name is `dump-`, then at least five digits that read back as the job number, then `.`, then the extension |
| Naming.DumpFileNameInjective | pg_parcopy.py:187-188 | equal file names have equal job numbers and equal formats |
| Decimal.ParseInt | pg_parcopy.py:163 | `int()` on stripped text: an accepted text is non-empty and starts with a digit or a sign; `Decimal.ParseShow`, `Decimal.LeadingZerosRead`, `Decimal.ParseIntNeedsDigit` and `Decimal.ParseIntRejectsInnerNonDigit` say which texts it accepts and what they read as |
| Decimal.Show | pg_parcopy.py:159-163 | `str(n)`, the text `psql` prints for an integer `MIN` or `MAX`, used to state which replies `get_min_max_val` reads: non-empty, starting with a digit or `-`, ending with a digit |
| Decimal.ParseShow | pg_parcopy.py:163 | `int(str(n)) == n` for every integer `n` |
| Decimal.ParseIntNeedsDigit | pg_parcopy.py:163 | text with no digit, the empty text included, is not an integer |
| Decimal.ParseIntRejectsInnerNonDigit | pg_parcopy.py:163 | text with a non-digit anywhere after its first character, such as `1.5`, is not an integer |
| Decimal.LeadingZerosRead | pg_parcopy.py:163 | digits with leading zeros read as their value, bare or after `+`, and negated after `-` (`007` is 7, `-007` is -7) |
| Reply.Split | pg_parcopy.py:162 | `split('\|')`: at least one piece, no piece contains `\|`, and two or more pieces only when the reply contains `\|`; `Reply.JoinSplit` shows nothing is lost |
| Reply.Strip | pg_parcopy.py:162 | `strip()`: the result is empty or neither starts nor ends with white space; `Reply.StripPadded` shows exactly what is removed |
| Reply.ParseMinMax | pg_parcopy.py:162-163 | a successful read needs a `\|` in the reply, and a `NotAnInteger` error names a field that `int()` rejects; `Reply.ParseMinMaxReadsBounds`, `Reply.EmptyFirstFieldRejected` and `Reply.NoSeparatorRejected` give its results on well-formed and malformed replies |
| Reply.JoinSplit | pg_parcopy.py:162 | joining the pieces of `split('\|')` with `\|` gives the reply back |
| Reply.StripPadded | pg_parcopy.py:162 | `strip()` removes exactly the white space around text that neither starts nor ends with white space |
| Reply.FieldReads | pg_parcopy.py:162-163 | a field holding `str(n)` padded with white space has no `\|` in it and reads back as `n` |
| Reply.ParseMinMaxReadsBounds | pg_parcopy.py:162-163 | a reply of two padded fields holding `str(lo)` and `str(hi)` is read as `(lo, hi)` |
| Reply.EmptyFirstFieldRejected | pg_parcopy.py:162-163 | a reply whose first field is blank, as for an empty table, fails with `NotAnInteger("")` |
| Reply.NoSeparatorRejected | pg_parcopy.py:162-163 | a reply without `\|` always fails, with `MissingField` when its single field is an integer |
| Reply.InnerNonDigitRejected | pg_parcopy.py:162-163 | a reply whose first field, once stripped, has a non-digit after its first character (a `numeric` `MIN` such as `1.5`) fails with `NotAnInteger` of that field, whatever follows |
| Reply.SecondFieldRejected | pg_parcopy.py:162-163 | when the first field holds an integer and the stripped second field has a non-digit after its first character, the read fails with `NotAnInteger` of the second field |

## Left out

- Running `psql`, building its command line, and reading its output are not modelled. The reply of `get_min_max_val` is an input string, already decoded from bytes. `do_copy` is modelled only by its job (first key, last key, number) and its file name. The `\COPY` query text and the `os.path.normpath` directory prefix of the output path are not part of this model.
- `psutil.process_iter` becomes a snapshot of process names, one per turn of the loop. A process that exits while it is being inspected (`psutil.NoSuchProcess`) is not modelled.
- `time.sleep(0.1)` and the clock are left out. Each turn of the loop takes the next snapshot.
- `Dispatcher.Dispatch`: the source loops until `first_num >= max`. The model also stops when the given snapshots run out. `Outcome.finished` records which of the two happened.
- `Planner.RowsPerPartition`: the average row size is an exact positive real, so floating-point rounding of the division is not modelled.
- `Planner.RowsPerPartition` requires a positive average. The source's average is the mean row-text length times 1.45, which is never zero. On an empty table `get_average_rec_size` fails before line 211.
- `get_average_rec_size` (including the 1.45 factor), `get_column_names`, `select_split_col`, the argument, password and directory checks, and `make_dir` are interaction and I/O. They are not part of this model.
- `Decimal.ParseInt`: Python's `int()` also accepts `_` between digits and non-ASCII digits. The model reads an optional sign followed by ASCII digits only.
- `Reply.Strip`: `strip()` also removes non-ASCII white space. The model removes the ASCII white space and the four separator controls that `str.isspace()` accepts.
- `Reply.ParseMinMax` strips only the first two fields, the only ones the source reads. Stripping the others has no effect on the result.
