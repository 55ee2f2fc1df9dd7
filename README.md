# tlcit-ai-trading: ingestion batching and the backtest decision rule

This project models, in Dafny, the two pieces of real logic in the repository.

- **Judgment ingestion** (`neo4j_ingest.py`, module `Ingest` in `neo4j_ingest.dfy`).
  Each globbed file path gets a case id: the part after the last `/` with `.txt`
  removed by one left-to-right pass of `str.replace`. If the file can be read and
  embedded, a record `(id, text, embedding)` is appended to a buffer. When the
  buffer reaches `BATCH_SIZE` = 50 records it is written in one transaction and
  cleared. A non-empty remainder is written at the end. A file whose read or embed
  step fails is skipped. A write (`ingest_batch`) upserts each record by id with
  `MERGE`, in batch order, so the last record with an id wins. Reading and
  embedding are one oracle `load: string -> Option<Content>`. The database is a
  map from case id to `(text, embedding)`. `IngestAllJudgments` returns the
  batches in the order they were written, together with the final map.
- **Backtest strategy** (`backtest_engine.py`, module `Backtest` in
  `backtest_engine.dfy`). `TLCITStrategy.next` is a two-state rule. When flat and
  `signal >= entry_score` it buys. When holding and `signal <= exit_score` it
  closes. Otherwise it does nothing. The position is an input read at the start of
  the bar. `Decide` is the rule as a function. `Strategy.Next` is the per-bar
  callback on a strategy object that logs the orders it issues. `Run` iterates the
  rule over bars, assuming every order fills before the next bar. It is used only
  to state that buys and closes then alternate.

`wrappers.dfy` holds the `Option` type both modules use.

## Model

| member | source | states |
|---|---|---|
| `Ingest.LastSlash` | neo4j_ingest.py:35 | the split point of `rsplit('/', 1)`: the index returned holds `/` and no later index does; no index is returned exactly when the path has no `/` |
| `Ingest.BaseNameIsLastComponent` | neo4j_ingest.py:35 | `rsplit('/', 1)[-1]` is the whole path when it has no `/`; otherwise the path is some directory, then `/`, then the base name; the base name never contains `/` |
| `Ingest.BaseNameOfJoin` | neo4j_ingest.py:35 | for a name without `/`, the base name of `dir + "/" + name` is `name` |
| `Ingest.StripTxtKeepsCharacters` | neo4j_ingest.py:35 | `replace('.txt', '')` only deletes: every character of the result occurs in its input |
| `Ingest.CaseIdHasNoSlash` | neo4j_ingest.py:35 | a case id never contains `/` |
| `Ingest.StripTxtDotFreePrefix` | neo4j_ingest.py:35 | a prefix without `.` passes through `replace('.txt', '')` unchanged, and the rest is processed on its own |
| `Ingest.StripTxtJoin` | neo4j_ingest.py:35 | for all texts `a` and `b`, `replace('.txt', '')` on `a + ".txt" + b` removes that `.txt` and processes `a` and `b` independently: a match never straddles an inserted `.txt` |
| `Ingest.StripTxtNoOccurrence` | neo4j_ingest.py:35 | text in which `.txt` occurs nowhere is left unchanged |
| `Ingest.CaseIdOfTxtFile` | neo4j_ingest.py:35 | for every directory and every name without `/`, the file `dir/NAME.txt` gets the case id NAME with its own `.txt` occurrences removed |
| `Ingest.CaseIdOfPlainTxtFile` | neo4j_ingest.py:35 | a name without `/` in which `.txt` never occurs, dots allowed (`2021.05.smith`), is the case id of `dir/NAME.txt` |
| `Ingest.StripTxtRemovesEveryOccurrence` | neo4j_ingest.py:35 | one example of the removal: `a.txt.txt` gives `a` |
| `Ingest.StripTxtCanLeaveTxt` | neo4j_ingest.py:35 | the removal is a single pass: deleting one `.txt` can join a new `.txt` that stays (`a.t.txtxt` gives `a.txt`) |
| `Ingest.LastIndexOf` | neo4j_ingest.py:22-28 | the index of the last record of a batch with a given id: that record has the id and no later one does; none exactly when no record has it |
| `Ingest.IngestBatchSets` | neo4j_ingest.py:21-28 | after the upsert an id has a node exactly when it had one before or occurs in the batch; an id of the batch holds the text and embedding of its LAST record in the batch; every other id keeps its old node |
| `Ingest.IngestBatchConcat` | neo4j_ingest.py:21-28 | upserting batch `a` and then batch `b` gives the same store as upserting `a + b` |
| `Ingest.IngestBatchIdempotent` | neo4j_ingest.py:21-28 | upserting the same batch twice gives the same store as upserting it once |
| `Ingest.SuccessSource` | neo4j_ingest.py:34-40 | every ingested record is the record of some input file whose read and embed succeeded |
| `Ingest.SuccessIncluded` | neo4j_ingest.py:34-40 | every input file whose read and embed succeed has its record among the ingested records |
| `Ingest.SuccessesMembers` | neo4j_ingest.py:34-49 | a record is ingested if and only if some file's read and embed yield it |
| `Ingest.SuccessesConcat` | neo4j_ingest.py:34-49 | the records of `a + b` are those of `a` followed by those of `b`: a failed file does not stop later files |
| `Ingest.FailedFileSkipped` | neo4j_ingest.py:36-49 | a file whose read or embed fails contributes no record |
| `Ingest.FlattenMembers` | neo4j_ingest.py:42-53 | a record is written if and only if it lies in one of the written batches |
| `Ingest.FlattenSnoc` | neo4j_ingest.py:42-53 | writing one more batch appends its records after the records already written |
| `Ingest.SuccessesSnoc` | neo4j_ingest.py:34-40 | processing one more file appends that file's record, if it has one, after the earlier records |
| `Ingest.IngestAllJudgments` | neo4j_ingest.py:30-54 | with every write succeeding: the written batches, concatenated, are the records of the successful files in input order; every batch but the last holds exactly 50 records; the last holds 1 to 50; the number of batches is the record count divided by 50, rounded up; the final store is the initial store with all successful records upserted in order |
| `Ingest.IngestFile` | neo4j_ingest.py:35-49 | one loop iteration: the records written plus those buffered grow by exactly the file's record when its read and embed succeed, and by nothing when they fail; every written batch stays full and the buffer stays under 50 |
| `Ingest.Append` | neo4j_ingest.py:40-46 | appending a record keeps the buffer under 50 and every written batch full: the buffer is written and cleared exactly when it reaches 50; the records written plus those buffered grow by exactly the new record |
| `Ingest.Flush` | neo4j_ingest.py:42-53 | one write appends the batch to the batches written and upserts it into the store |
| `Backtest.Issued` | backtest_engine.py:13-18 | one bar issues at most one command, and none exactly when the decision is to do nothing |
| `Backtest.BuyExactlyWhenFlatAtEntry` | backtest_engine.py:14-16 | a buy is issued if and only if flat with `signal >= entry_score` |
| `Backtest.CloseExactlyWhenHoldingAtExit` | backtest_engine.py:17-18 | a close is issued if and only if holding with `signal <= exit_score` |
| `Backtest.NothingOtherwise` | backtest_engine.py:13-18 | nothing is issued if and only if flat with `signal < entry_score` or holding with `signal > exit_score` |
| `Backtest.OrdersMatchPosition` | backtest_engine.py:14-17 | never a buy while holding, never a close while flat |
| `Backtest.DefaultDeadBand` | backtest_engine.py:5-18 | with the default thresholds, a signal strictly between 2.0 and 8.0 issues nothing in either state |
| `Backtest.RunAlternates` | backtest_engine.py:13-18 | when every order fills before the next bar, the orders alternate buy, close, buy, ..., starting with a buy when flat and with a close when holding; there are at most as many orders as bars |
| `Backtest.Strategy.constructor` | backtest_engine.py:4-7 | a new strategy has the given thresholds, by default `entry_score` 8.0 and `exit_score` 2.0, and has issued no order |
| `Backtest.Strategy.Next` | backtest_engine.py:13-18 | one bar appends exactly the command the decision rule gives for the position and signal, so at most one command |
| `Backtest.DefaultThresholds` | backtest_engine.py:5 | the declared defaults are `entry_score` 8.0 and `exit_score` 2.0 |

## Left out

- File globbing, opening and reading, the SentenceTransformer embedding call, and logging (`neo4j_ingest.py:1-17, 31, 37-39, 45, 54`): I/O and foreign calls. The `load` oracle stands for reading and embedding. Any exception from either step becomes `None`.
- Neo4j driver, session and transaction handling (`neo4j_ingest.py:43-44, 52-53`): a write is modelled as appending the batch to the list of written batches plus the map fold `IngestBatch`.
- IngestAllJudgments: every write transaction is assumed to succeed. In the source, a failing `write_transaction` is caught by the per-file handler, so `batch.clear()` is skipped and a later write carries more than 50 records. That path is not modelled, and the batch-size statements hold only when writes succeed.
- `load` is a function of the path, so it gives the same result for the same path. Globbed paths are distinct, so this loses nothing for one run.
- Embeddings are sequences of `real`. Floating-point rounding of the model's output is not represented.
- Order sizing `getvalue() * 0.1 / close` (`backtest_engine.py:15`): floating-point arithmetic over broker state. An order records only whether it is a buy or a close. Where `close` is 0 the source's sizing raises a division error and `next` stops before `self.buy`, so no buy is issued; the model issues the buy there.
- `notify_order` printing, the analyzers and the Cerebro setup (`backtest_engine.py:8-11, 20-41`): external library plumbing.
- The parameter grid and the Sharpe-based choice of the best run (`backtest_engine.py:29-30, 43-53`): float metrics computed by an external analyzer.
- Asynchronous order fills: the engine updates the position itself, so `Next` takes it as an input. `Run` assumes next-bar fills with no rejection only for `RunAlternates`.
- Scores are `real` and used only in comparisons. NaN and other float special values are not modelled.
- `main.py` is not part of this model. It holds web, spreadsheet and webhook setup and an empty portfolio.
