# annopy annotation cycle in Dafny

A model of the annotate/merge cycle of annopy's `annotate.py`. A table of
text samples carries one or more annotation columns. A cell that still
awaits an answer holds the placeholder `"tbd"`. `annotate_frame` works in
these steps:

1. It adds every missing annotation column, filled with `"tbd"`.
2. It numbers the rows in a transient `index` column.
3. It picks the candidate rows. A candidate has `"tbd"` in at least one
   annotation column.
4. It seeds an answer map from the candidates' current cells.
5. It walks the candidates in order. For each one it builds every
   column's question about the row and asks the input function. An answer
   that the column's validator rejects is asked again on the console until
   one validates.
6. It counts the rows answered and stops once the count reaches the sample
   size. The test comes after the increment, so at least one row is always
   answered.
7. However prompting ended, it merges the answer map back into the table
   with `update_annotations` and drops `index`.

The model has four modules:

- `Frames` (frames.dfy) defines tables. A table is a list of column names
  plus a list of rows, and each row maps a column name to a cell. A cell
  is null, a string, or the integer of the `index` column.
- `Candidates` (candidates.dfy) defines the candidate filter.
- `Update` (update.dfy) defines the keyed merge. The dataframe library's
  `DataFrame.update` is assumed to run with its defaults: a left join on
  the key that keeps the full table's rows and their order, where a null
  key matches nothing and a null value never overwrites.
- `Annotate` (annotate.dfy) defines the session. It has the imperative
  seeding loop, the prompting loop with its retry loop, and the merge.

The person at the keyboard becomes two finite answer streams:

- `inputAnswers[j]` holds the input function's answers for the questions
  of the j-th candidate reached.
- `consoleAnswers` holds the answers to the console re-prompts.

A stream that runs dry stands for an interruption, or for any other error
raised while prompting. In that case the merge still runs and its result
is returned. In the source this is guaranteed by the `return` inside
`finally`. The question functions and validators are opaque total
functions passed as parameters.

Two consequences of the code are stated in the contracts:

- The `"tbd"`-to-null step of the merge has no visible effect inside a
  session. An unvisited candidate gets its seeded `"tbd"` written back by
  the update. A non-candidate holds no `"tbd"`.
- A column that the input table already called `index` is overwritten by
  the row numbers and then dropped. It does not come back.

## Model

| member | source | states |
|---|---|---|
| Candidates.FilterExact | annotate.py:10-13 | The filter keeps exactly the rows where some listed column holds "tbd", in their original order. Its j-th row is the row at the j-th candidate position, the positions increase, and a position is listed iff its row is a candidate. |
| Candidates.GetCandidateAnnotations | annotate.py:10-13 | Columns are unchanged. Every kept row is a row of the table and a candidate. Every candidate row of the table is kept. |
| Candidates.PositionsAgree | annotate.py:10-13 | Candidacy depends only on the cells of the annotation columns. Tables that agree there have the same candidate positions. |
| Update.UpdateAnnotations | annotate.py:15-38 | The merge keeps the full table's columns, its row count and each row's set of columns. |
| Update.UpdateUnmatched | annotate.py:26-36 | A row whose index matches no subset row keeps every cell, except that a "tbd" in one of the subset's columns becomes null. |
| Update.UpdateMatched | annotate.py:26-36 | A row whose index matches subset row j takes each non-null value of j in the subset's columns. Its other "tbd" cells in those columns become null, and every other cell is kept. |
| Update.MatchUnique | annotate.py:36 | With distinct subset keys, the join pairs a row with the one subset row that carries its key. |
| Frames.DropColumn | annotate.py:72 | `drop`: the column leaves the column list and every row, nothing else changes, and the row count is kept. |
| Frames.DropColumnWellFormed | annotate.py:119 | Dropping a column keeps a table well formed. |
| Frames.WithoutAppend | annotate.py:65-67 | Removing a name distributes over appending one name. This is how the appended index column disappears from the column list again. |
| Annotate.Missing | annotate.py:58-59 | The columns the seeding loop adds: each annotation column absent from the table, listed once. |
| Annotate.AddMissingColumns | annotate.py:58-62 | The seeding loop yields the table with the missing annotation columns appended, each filled with "tbd". |
| Annotate.SeedStep | annotate.py:59-62 | One turn of the seeding loop adds exactly the k-th annotation column when it is absent, and changes nothing when it is present. |
| Annotate.SeededShape | annotate.py:58-62 | The seeded table is well formed and keeps its row count. Its original columns come first, every annotation column is a column, and no other column is added. |
| Annotate.SeededCells | annotate.py:58-62 | Seeding keeps every existing cell and puts "tbd" in each new annotation column. |
| Annotate.CandidateRows | annotate.py:65-69 | Numbering the rows changes no candidate. The j-th candidate of the indexed table is the seeded row at the j-th candidate position, with `index` equal to that position. |
| Annotate.SeedsAgree | annotate.py:77-82 | The seeded answer map has one slot per candidate. Slot j holds the j-th candidate's position and that row's annotation cells. |
| Annotate.SeedAnswers | annotate.py:77-82 | The answer map starts as the candidates' index column and each annotation column, in candidate order. |
| Annotate.Retry | annotate.py:98-99 | The console re-prompt from a position yields the first console answer the validator accepts and the position just after it. Every answer read before it was rejected, so N rejections cost N + 1 reads. It yields nothing only when every remaining console answer is rejected. |
| Annotate.SettleAt | annotate.py:91-100 | The answer kept for question q of the j-th row reached: absent when the input function ran short on that row. Otherwise it is a string the column's validator accepts, and it is the input function's own answer whenever that answer validates. The console position after it never passes the end of the console. |
| Annotate.ConsoleAt | annotate.py:86-100 | The console is read in row order and, within a row, in column order, from its start. The position reached before a question never passes its end. |
| Annotate.Reprompt | annotate.py:94-100 | One answer's validation matches `Settle`: the input answer is kept when valid, else the console is read until an answer validates. It reports the console running dry exactly when `Settle` finds no answer, and then the whole console has been read. |
| Annotate.AnswerRow | annotate.py:93-100 | The validation loop of one row stores each question's kept answer in its slot, in column order, and advances the console exactly as far as `ConsoleAt` says. If the console runs dry at question k, the slots before k are answered, k and the later ones keep their seeds, and k has no kept answer. |
| Annotate.NextRow | annotate.py:86-102 | A fully answered row leaves the answer map and the console where the next row starts. |
| Annotate.AskedMore | annotate.py:88-89 | Building the questions for the row named by the next index key extends the record of questions asked. |
| Annotate.StoppedShort | annotate.py:91 | When the input function runs short on row i, prompting stops there with nothing of that row stored and the console where that row started. |
| Annotate.StoppedDry | annotate.py:98-99 | When the console runs dry at question k of row i, prompting stops there, with the whole console read. |
| Annotate.StoppedDone | annotate.py:102-105 | When min(max(num_samples, 1), #candidates) rows are answered, prompting ends without an interruption. |
| Annotate.InterruptedExactly | annotate.py:84-113 | Prompting is interrupted if and only if some question of the first min(max(num_samples, 1), #candidates) rows cannot be settled from the two answer streams. |
| Annotate.ConsoleUnread | annotate.py:93-100 | While every input answer so far validates, the console re-prompt is never reached and no console answer is read. |
| Annotate.ValidInputsComplete | annotate.py:84-105 | With a full, valid set of input answers for each of the first min(max(num_samples, 1), #candidates) rows, prompting is not interrupted and reads no console answer. |
| Annotate.ProgressStep | annotate.py:93-100 | Storing a question's kept answer moves the progress on by one column and changes no other slot. |
| Annotate.AnswerLoop | annotate.py:84-105 | Without an interruption, exactly the first min(max(num_samples, 1), #candidates) rows are answered and the console is read up to where their answers lead. An interruption happens before that bound, at a question the streams cannot settle. Then either the input function ran short on that row, so nothing of it is stored and the console stands where the row began, or the console ran dry and was read to its end. Each answered slot holds the answer kept for it: the input function's answer when valid, else the first valid console answer after the earlier reads. Every other slot keeps its seed. The questions for the j-th row are asked about the row its index key names. |
| Annotate.AnswerFrameFits | annotate.py:115-116 | The answer map as a table fits the merge: its columns are columns of the indexed table, and its keys are the distinct candidate positions. |
| Annotate.AnswerRows | annotate.py:115 | Row j of the answer table carries slot j of every column of the answer map. |
| Annotate.SessionShape | annotate.py:116-119 | The merge followed by the drop keeps the row count and removes only the `index` column. |
| Annotate.SessionNonCandidates | annotate.py:114-119 | A row that is not a candidate comes back from the merge unchanged, apart from `index`. |
| Annotate.SessionCandidates | annotate.py:114-119 | The j-th candidate row comes back with every annotation column set to slot j of the answer map. This holds for visited rows (the answers) and unvisited rows (their seeds, "tbd" included). |
| Annotate.MergeNonCandidate | annotate.py:116 | The merge on one non-candidate row: nothing but `index` changes. |
| Annotate.MergeCandidate | annotate.py:116 | The merge on one candidate row: the row is overlaid with its slot of the answer map. |
| Annotate.UnmatchedRow | annotate.py:32-36 | The update leaves a row whose key is absent and whose annotation cells hold no "tbd" as it was, apart from `index`. |
| Annotate.OverlayRow | annotate.py:32-36 | The cell-by-cell outcome of the update on a matched row is the row overlaid with the slot's values. |
| Annotate.MatchedRow | annotate.py:32-36 | The update on a candidate row is the row overlaid with its slot of the answer map. |
| Annotate.SessionResult | annotate.py:114-119 | Whatever state prompting left the answer map in, the merged table keeps its rows. Non-candidates come back unchanged, and each candidate takes its slots. |
| Annotate.SeededCandidates | annotate.py:58-69 | After seeding and numbering, every annotation column exists and there is one subset row per candidate position. |
| Annotate.IndexDropped | annotate.py:65-72 | Numbering the rows and dropping the numbers gives back the table, less any column already called "index". |
| Annotate.NoCandidates | annotate.py:69-72 | Without candidates no row is visited, no slot is answered and no console answer is read. The seeded table comes back without `index`. |
| Annotate.PromptedTransfer | annotate.py:86-100 | Prompting reads the seeds only through their values: a seed map with the same slots describes the same answers, interruption point and console position. Every slot ends up as a string answer or still holds its seed. |
| Annotate.CandidateCell | annotate.py:114-119 | In the returned table, annotation column q of the j-th candidate holds slot j of that column of the answer map. |
| Annotate.UnvisitedRow | annotate.py:77-82 | A candidate whose slots still hold their seeds is overlaid with its own cells, so it comes back unchanged. |
| Annotate.OutcomeUntouched | annotate.py:114-119 | Only annotation cells of candidate rows can change. A non-candidate comes back as it was, and every other column keeps its cell in every row. |
| Annotate.OutcomeCells | annotate.py:93-100 | Each annotation cell of the j-th candidate comes back as it was, or as the answer kept for that question of the j-th row reached. |
| Annotate.OutcomeComplete | annotate.py:84-105 | Without an interruption, the first min(max(num_samples, 1), #candidates) candidates hold the kept answers in every annotation column, and the later candidates come back unchanged. |
| Annotate.Outcome | annotate.py:84-119 | A session's merged table delivers all of the above to the caller. Every row keeps its place and only `index` is gone. The interrupted flag is raised exactly when the streams cannot settle some question of the rows to be answered. With full, valid input answers there is no interruption and no console read. |
| Annotate.AnnotateFrame | annotate.py:40-119 | The whole session, in the returned table. Rows keep their place, only `index` is dropped, and only annotation cells of candidates change. Each changed cell holds the answer kept for it: the input function's answer when valid, else the first valid console answer. The session is interrupted if and only if the streams cannot settle some question of the first min(max(num_samples, 1), #candidates) candidates, so full, valid input answers mean no interruption and no console read; otherwise exactly those candidates are answered and the rest come back unchanged. In the ghost results: candidate j takes slot j of the final answer map, the interruption point and the console position are recorded, and no question is asked when there are no candidates. The questions for the j-th candidate are about its indexed row. |

## Left out

- `load_save_if_nexists` (annotate.py:122-137) is left out: it is file I/O and interactive confirmation.
- The progress bar, logging, `print` and the traceback output are left out: they are side-channel output only.
- The dataframe library is not modelled. `filter`, `with_columns`, `when/then/otherwise`, `update`, `drop` and the dict-of-lists constructor are defined by their meaning over rows.
- The `Float32` cast of `index` (annotate.py:26-31) is not modelled. The index is an exact integer, so the model covers tables of fewer than 2^24 rows. Above that, distinct positions can round to the same key.
- Real console input and exception kinds are not modelled. Each becomes the end of an answer stream. The re-raise that the `return` in `finally` suppresses is modelled only as "the merge runs and its result is returned", with an `interrupted` flag.
- The text of the console re-prompt ("Invalid answer. " followed by the question) is not recorded; only the answer it returns is.
- AnnotateFrame: requires as many question functions and validators as annotation columns. The source's `zip` would silently skip the columns beyond the shortest list.
- AnnotateFrame: requires distinct annotation column names, none of them `index`. The answer map is keyed by name, so the source would mix such columns up with each other or with the index.
- AnnotateFrame: answer streams are finite. An input function that keeps answering invalidly forever (an endless retry loop in the source) is covered only as an interruption once the stream ends.
- UpdateAnnotations: requires distinct subset keys. The left join would repeat a full-table row whose key occurs twice in the subset, which the annotator never produces.
- GetCandidateAnnotations: requires every listed column to exist. The library raises an error otherwise, and inside the session the seeding loop guarantees it.
- Cells are null, strings, or the integer index. Other column types of the input table are not distinguished; they compare unequal to "tbd" like any non-placeholder value.
