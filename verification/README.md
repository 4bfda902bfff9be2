# Fraud pipeline core, modelled in Dafny

This project models the computational core of a small fraud-analysis
pipeline over a mobile-money transaction ledger. The pipeline has four
parts:

- **Cleaning.** `clean_data` keeps a row only when its type is one of the
  five recognised types (`CASH-IN`, `CASH-OUT`, `DEBIT`, `PAYMENT`,
  `TRANSFER`) and both account names start with `M` or `C`. It raises
  `isFlaggedFraud` to 1 when the amount is over 200000.
- **Graph construction.** The account-interaction graph has one node per
  distinct account name, allocated at first sight with the sender before
  the receiver. It has one directed edge per transaction, whose weight is
  the amount, doubled for a fraudulent transaction.
- **Feature encoding.** Each transaction becomes a 14-column row:
  - the step;
  - a one-hot block over the five types;
  - the amount;
  - the sender's first-seen ordinal and balances;
  - the receiver's first-seen ordinal and balances;
  - the flag.

  Its label is `isFraud`.
- **Split and evaluation.** The first `floor(0.7 n)` rows train and the
  rest test. A fit is done for each iteration count 1..10, and then a
  final fit. The correct predictions on the test rows are counted.

Modules:

- `Transactions` (`transaction.dfy`) holds the shared record, the type
  list, and `Parsed`, which is the reader skipping rows that fail to
  deserialise.
- `FirstSeen` (`first_seen.dfy`) is a first-seen interning table. It is
  the one concept behind both the graph's `name -> node` map and the
  encoder's two `name -> ordinal` maps. It proves that ordinals are dense,
  injective, and given in first-occurrence order.
- `Cleaning` (`cleaning.dfy`) holds the per-row rule and the filter loop.
- `TransactionGraph` (`graph.dfy`) holds the construction loop as a fold,
  and `BuildGraph` with its characterisation.
- `FeatureEncoding` (`encoding.dfy`) holds the one-hot block, the ordinal
  tables, the row and dataset encoders, and a decoder used as the
  encoder's inverse.
- `Evaluation` (`evaluation.dfy`) holds the split size, the positional
  split, and the correct-prediction count.
- `FraudPrediction` (`prediction.dfy`) holds the run: the training loop
  and the scoring. The classifier's `fit` and `predict` are function
  parameters: `fit` returns `None` when fitting fails.
- `Scenarios` (`scenarios.dfy`) follows one payment from `C1` to `M2`
  through every stage.

Amounts and balances are exact reals. `step` and the two flags keep their
unsigned widths as subset types; node and edge indices and the correct
count are unbounded (see "Left out").

Behaviour of the program that a reader might not expect, as modelled:

- The type strings are hyphenated (`CASH-IN`, `CASH-OUT`). Rows spelled
  `CASH_IN` or `CASH_OUT` are dropped
  (`Transactions.UnderscoreSpellingsUnlisted`).
- The flags are `u8` values, not booleans. A nonzero flag stays nonzero:
  above 200000 it becomes 1 whatever its old value, and at or below 200000
  it is kept.
- The encoder builds both name tables in a first pass over all records
  before encoding any row. An ordinal is fixed when its name is first seen,
  so the result equals a single pass.
- A failed fit inside the 1..10 loop is unwrapped, so the run panics
  (`FitPanicked`). The final fit repeats the loop's last fit with the same
  arguments, so its error return cannot fire once the loop has finished.
- Because `floor(0.7 n) < n` for every `n > 0`, the test part is never
  empty, and the accuracy's divisor is never 0.

## Model

| member | source | states |
|---|---|---|
| Transactions.Parsed | src/analysis.rs:95-104 | every record comes from a row and every deserialised row yields a record; no row is lost exactly when every row deserialised (order and multiplicity: the next two rows) |
| Transactions.ParsedAppend | src/analysis.rs:95-104 | reading is row by row: the records of two consecutive stretches of rows are those of the first followed by those of the second |
| Transactions.ParsedRow | src/analysis.rs:96-103 | a row that fails to deserialise yields no record; one that deserialises yields exactly its record, once |
| Transactions.ParsedSnoc | src/analysis.rs:95-104 | one more row appends its record, if any, after the records read so far, so the records keep file order |
| Transactions.UnderscoreSpellingsUnlisted | src/analysis.rs:106 | `CASH_IN` and `CASH_OUT` are not among the recognised types |
| FirstSeen.Intern | src/analysis.rs:118-125 | a known key keeps its ordinal and changes nothing; a new key gets the next ordinal `len`, appended at the end; old entries never move; consistency is preserved |
| FirstSeen.InternAll | src/analysis.rs:117-126 | interning a sequence yields a consistent table whose keys are exactly the values of the sequence |
| FirstSeen.InternAllCount | src/analysis.rs:117-126 | the table holds no value twice, and its size is the number of distinct values |
| FirstSeen.InternAllOrdinal | src/analysis.rs:118-125 | a value's ordinal is the number of distinct values before its first occurrence |
| FirstSeen.InternAllOrder | src/analysis.rs:48-51 | the table lists values in strictly increasing order of first occurrence |
| FirstSeen.InternAllExtends | src/analysis.rs:117-126 | the table for a prefix is a prefix of the final table, with the same ordinals |
| Cleaning.CleanRow | src/cleaning.rs:62-76 | a row is kept iff its type is listed and both names start with M or C; a kept row is unchanged except the flag, which is 1 above 200000 and untouched otherwise |
| Cleaning.CleanData | src/cleaning.rs:56-79 | the output is no longer than the input; every written row has a listed type and M/C names, and is flagged when its amount exceeds 200000 |
| Cleaning.CleanDataAppend | src/cleaning.rs:56-79 | rows are cleaned independently: cleaning a concatenation concatenates the cleaned parts |
| Cleaning.CleanDataSnoc | src/cleaning.rs:57-60 | each row contributes its cleaned form or nothing; a row that failed to parse contributes nothing |
| Cleaning.CleanDataIsOrderedFilter | src/cleaning.rs:56-79 | the output is the cleaned forms of exactly the passing rows, in increasing input position |
| Cleaning.CleanRowIdempotent | src/cleaning.rs:63-76 | a cleaned row is a fixed point of the row rule |
| Cleaning.CleanDataFixedPoints | src/cleaning.rs:63-78 | every output row is a fixed point of the row rule |
| Cleaning.CleanDataOfFixedPoints | src/cleaning.rs:56-79 | rows that are all fixed points pass through cleaning unchanged |
| Cleaning.CleanDataIdempotent | src/cleaning.rs:56-79 | cleaning the written output again gives the same output |
| TransactionGraph.EdgeWeight | src/analysis.rs:53-57 | the weight differs from the amount only for a fraudulent non-zero amount, and a non-negative amount is at most doubled; the exact weight is stated independently by `IsEdgeOf` in the BuildStateIsEdgeOf row |
| TransactionGraph.NodeFor | src/analysis.rs:48-51 | a known name reuses its node; an unknown name adds one node at the end, whose index is the previous node count; no edge changes |
| TransactionGraph.AddTransaction | src/analysis.rs:45-59 | one edge from the sender's node to the receiver's node with the doubled-if-fraud weight; one new node per unseen name; a self-transfer is a self-loop |
| TransactionGraph.Names | src/analysis.rs:45-51 | names are looked up sender first, then receiver, per transaction |
| TransactionGraph.BuildState | src/analysis.rs:37-60 | the construction loop as a fold: one edge per transaction and at most two nodes per transaction; its nodes, lookup map and edges are characterised by the BuildStateTable, BuildStateNodes and BuildStateIsEdgeOf rows |
| TransactionGraph.BuildStateTable | src/analysis.rs:37-60 | the node list and lookup map after the loop are the first-seen table of the name stream |
| TransactionGraph.BuildStateEdge | src/analysis.rs:53-59 | edge i joins the nodes finally recorded for transaction i's names |
| TransactionGraph.BuildStateIsEdgeOf | src/analysis.rs:53-59 | edge i runs from the node named by sender i to the node named by receiver i, with weight 2 x amount when fraudulent and amount otherwise |
| TransactionGraph.BuildStateNodes | src/analysis.rs:45-51 | the nodes are the distinct account names, without repetition, in first-seen order |
| TransactionGraph.BuildGraph | src/analysis.rs:34-60 | the built graph has distinct nodes, one per account name, in first-seen order, and edge i is transaction i's edge |
| TransactionGraph.SelfTransferIsSelfLoop | src/analysis.rs:48-51 | a transfer to oneself gives a self-loop |
| TransactionGraph.SameNameSameNode | src/analysis.rs:48-51 | the same name resolves to the same node in every transaction and role |
| FeatureEncoding.OneHot | src/analysis.rs:136-138 | five 0/1 slots; a set slot names the type; at most one slot is set; some slot is set iff the type is listed |
| FeatureEncoding.OneHotRoundTrip | src/analysis.rs:136-138 | reading the block back gives the type when it is listed and nothing otherwise |
| FeatureEncoding.Ordinal | src/analysis.rs:142-148 | the `unwrap_or(&0.0)` lookup: a non-negative whole number, 0 exactly when the name is missing or holds ordinal 0; TablesCoverAndAreDense shows the missing case never arises |
| FeatureEncoding.EncodeRow | src/analysis.rs:132-154 | a row has 14 columns; its column layout is the EncodeRowColumns row and its inverse the DecodeEncodeRow row |
| FeatureEncoding.EncodeRowColumns | src/analysis.rs:132-154 | which field of the transaction lands in each of the 14 columns |
| FeatureEncoding.BuildTables | src/analysis.rs:114-126 | both tables are consistent and hold exactly the names of their column |
| FeatureEncoding.EncodeDataset | src/analysis.rs:128-157 | one 14-wide row and one label per record, in input order; label i is isFraud of record i |
| FeatureEncoding.TablesCoverAndAreDense | src/analysis.rs:114-148 | every looked-up name is present, so the 0.0 fallback is never used; ordinals are dense and collision-free |
| FeatureEncoding.EncodeDatasetColumns | src/analysis.rs:132-157 | the column layout of row i, with each ordinal the number of distinct names before the name's first occurrence |
| FeatureEncoding.DecodeEncodeRow | src/analysis.rs:132-154 | against consistent tables holding its names, a row decodes back to its transaction, or to nothing when the type is unlisted |
| FeatureEncoding.EncodeDecodeRoundTrip | src/analysis.rs:128-157 | every encoded row decodes with its label back to its record, or to nothing when the type is unlisted |
| Evaluation.TrainSize | src/analysis.rs:159-160 | floor(0.7 n): at most n, and less than n when n > 0 |
| Evaluation.Split | src/analysis.rs:162-165 | the training part has TrainSize(n) items, and the two parts concatenate back to the input |
| Evaluation.CountCorrect | src/analysis.rs:183-189 | the count is the number of positions where prediction and label agree; it is at most the total; it equals the total iff the sequences are equal |
| FraudPrediction.PartitionDataset | src/analysis.rs:159-165 | rows and labels are split at the same position, and each pair of parts concatenates back |
| FraudPrediction.PartitionOf | src/analysis.rs:159-165 | the train parts have TrainSize(n) rows and labels, and the test parts have the rest |
| FraudPrediction.TrainAndScore | src/analysis.rs:167-189 | the run panics at the first iteration count whose fit fails; it is scored iff every fit in 1..10 succeeds; the score counts matches of the final model on the test part |
| FraudPrediction.RunFraudPrediction | src/analysis.rs:95-189 | with no record there is no fit; otherwise, training uses floor(0.7 n) records, the test part is non-empty, and correct <= total |
| Scenarios.PaymentIsKept | src/cleaning.rs:62-78 | a payment from C1 to M2 survives cleaning unchanged |
| Scenarios.PaymentGraph | src/analysis.rs:45-59 | that payment gives nodes C1 then M2 and one edge 0 -> 1 of weight 100 |
| Scenarios.PaymentEncoding | src/analysis.rs:132-156 | that payment encodes with the PAYMENT slot set, both ordinals 0, and label 0 |

## Left out

- CSV reading, writing and serde: input rows are `Option<Transaction>`,
  where `None` is a row that failed to deserialise. The written output is
  the returned sequence. `Cleaning.Reparsed` stands for reading it back.
  File-open and write errors are not modelled.
- `count_rows` and `src/main.rs`: these are the row-counting utility and
  the driver. main.rs is not part of this model.
- Graph construction takes the records that parsed (`Parsed`). The
  skip-message `println!` is not modelled.
- The random sample of 10 nodes and its printout (src/analysis.rs:62-82):
  these are randomness and output only. `find_edge` belongs to that
  printout.
- The logistic-regression fit and predict (linfa) are foreign code. They
  are abstract parameters: `fit` is deterministic and may fail, and
  `predict` is any function. The 1..10 fits are kept only for their
  failure behaviour, since their models are discarded.
- `println!` logging throughout: the iteration messages, the
  "No data to train on" message and the accuracy line.
- Evaluation.TrainSize: computed on exact reals, not as the IEEE
  product `n as f64 * 0.7` truncated to `usize`. The two can differ by one
  when `0.7 n` lands just below an integer in binary floating point.
- Evaluation.CountCorrect: returns the count and the total. It does not
  return the f64 accuracy `correct / total` or its percentage formatting.
- Amounts, balances and edge weights are exact reals, not f64. The
  doubled weight does not model overflow to infinity or rounding.
- Node and edge indices are unbounded: petgraph's default `u32` index
  type panics in `add_node` and `add_edge` once 2^32 - 1 nodes or edges
  exist, which the model does not reproduce.
- The correct-prediction counter (src/analysis.rs:183) is an `i32` in the
  program and unbounded here; it cannot overflow below 2^31 test rows.
- Ordinals, the step and the flag are written into f64 columns; the model
  keeps them as exact reals, which matches f64 for every value below 2^53.
- FeatureEncoding.DecodeRow: this is an inverse introduced for the
  round-trip property and has no counterpart in the source. It reads back
  step, ordinals and flag with `Floor`, which is exact on the values the
  encoder writes.
