# PER-LogParser2 core, modelled in Dafny

PER-LogParser2 turns binary CAN bus logs into CSV tables. The core modelled
here takes the raw bytes of one log file and ends with the string cells of
each chunk's table:

1. **Record decoder** (`parse_log_file`). It walks a byte buffer in
   fixed-width records, reads a little-endian u32 timestamp and a raw CAN
   identifier, masks the identifier by the SocketCAN convention
   (`linux/can.h`), slices a DLC-long payload and keeps the frames that the
   external bus decoder recognises.
2. **Session chunker** (`chunk_parsed`). It cuts the decoded messages into
   sessions wherever the timestamp goes backwards or jumps forward by more
   than `MAX_JUMP_MS`, then sorts each session by timestamp.
3. **Header builder** (`TableBuilder::new`, `TableBuilder::create_header`).
   It sorts the bus database's message definitions by numeric id, gives
   every new `message|signal` key the next column, and builds four
   parallel header rows (bus, node, message, signal).
4. **Table materialiser** (the grid part of `create_and_write_tables`). It
   computes the time bins of a chunk and allocates the header rows plus one
   row per bin, each labelled with its time. It then writes every decoded
   signal value into the cell of its bin and column.

Files:

- `base.dfy` (module `Base`): Option, Result, `byte`, `u32`, a few facts
  about division, and `BitAnd`, an integer definition of bitwise AND with
  its facts about low-bit and single-bit masks.
- `sorting.dfy` (module `Sorting`): Rust's stable `slice::sort_by_key`,
  modelled as a functional insertion sort. Proved: sorted, a permutation,
  stable, and the identity on sorted input.
- `parse.dfy` (module `Parse`): `ParseLogFile` and `ChunkParsed` as
  imperative methods with loops. Each is proved against a specification
  function or predicate (`ParseFrom`, `IsSessionSplit`), and lemmas about
  those specifications state what the source promises.
- `table.dfy` (module `Table`): the class `TableBuilder`. It has the four
  rows as `seq<string>` fields and the indexer as a `map<string, nat>`.
  `CreateHeader` is stated against the reference functions `Visits`,
  `Fresh` and `Numbered`. `CreateTable` builds an `array2<string>` in
  place and is stated against `NumRows`, `RowTime` and `CellValue`.

Modelling choices:

- **Record layout.** The record constants live in `consts.rs`, which is not
  part of this model. `MSG_BYTE_LEN`, the field offsets, `BIN_WIDTH_MS` and
  `MAX_JUMP_MS` are therefore parameters, bound by the preconditions that
  make the reads well-formed (`Parse.ValidLayout`, `binWidth > 0`).
- **CAN masks.** The three masks take their `linux/can.h` values. Rust's `&`
  on the `u32` identifier is modelled by `Base.BitAnd`, a recursive
  definition of bitwise AND on natural numbers, and `Parse.ArbitrationId`
  applies it exactly as the source does. `Parse.MasksAreArithmetic` proves,
  for every u32, that the flag test is `id >= 2^31` and that the two id
  masks keep the id modulo 2^29 and 2^11. `Parse.MachineMasksAreArithmetic`
  proves the same three facts for Dafny's `bv32` `&`, so both readings of
  the masks agree on these values.
- **External decoder.** `parser.decode_msg` is an arbitrary function
  parameter `(arbitration id, payload) -> Option<Decoded>`.
- **Signal values.** A decoded message carries its signal values already
  rendered as text, as `sig_value.value.to_string()` produces them.
- **Payload out of bounds.** A DLC that reaches past the buffer makes the
  source's slice panic. The model returns `Err(PayloadOutOfBounds(offset,
  dlc))` for the whole file instead, never a clamp.
- **`decoded` is an `Option`.** `ParsedMessage.decoded` is declared as a
  plain `DecodedMessage` (`per-logparser2/src/parse.rs:5`), but `table.rs`
  matches it as an `Option` (`per-logparser2/src/table.rs:94`). The model
  follows the code that reads it and uses `Option<Decoded>`; the decoder
  only ever produces `Some`.
- **Indexer key.** The key is kept as the source's string
  `message + "|" + signal`. `Table.KeySameMessage` proves it injective in
  the signal for a fixed message name. `Table.KeyInjective` proves it
  injective in both names when the message names contain no `|`.
- **Signal map order.** The order in which a Rust `HashMap` yields a
  message's signals is modelled as an arbitrary choice (`:|`).
  `WriteSignals` proves that the result does not depend on it.
- **Repeated `create_header`.** The column counter restarts at 1 on every
  call to `create_header`, as in the source. `CreateHeader` states the
  resulting rows and indexer for any prior state. The header invariant is
  promised only for the first call on a new builder, which is the only way
  the program uses it.

## Definitions

The functions and predicates below carry no contract of their own. They
are the model's definitions of what the source computes, and the lemmas
and methods in the table state their properties. They are listed here, not
in the table, with the lines they model.

- `Parse.LeU32` (`per-logparser2/src/parse.rs:36-45`): `u32::from_le_bytes`
  of four bytes. Its inverse is stated by `LeU32OfU32ToLe` and
  `U32ToLeOfLeU32`.
- `Parse.IsRecord` (`per-logparser2/src/parse.rs:35`): the loop guard, a
  whole record starts at the offset.
- `Parse.Timestamp`, `Parse.RawId` (`per-logparser2/src/parse.rs:36-45`):
  the two little-endian u32 fields of a record, read from the 4-byte
  slices between their offsets.
- `Parse.Dlc` (`per-logparser2/src/parse.rs:47`): the byte at
  `DLC_OFFSET`.
- `Parse.PayloadInBounds`, `Parse.Payload`
  (`per-logparser2/src/parse.rs:48-49`): the `dlc` bytes from
  `DATA_OFFSET`, and whether they lie inside the buffer.
- `Parse.DecodeAt` (`per-logparser2/src/parse.rs:52-58`): the decoder
  applied to the record's `ArbitrationId` and payload.
- `Parse.Prepend`, `Parse.ParseFrom` (`per-logparser2/src/parse.rs:35-67`):
  the record loop as a recursive specification from an offset.
  `ParseFromStep`, `ParseOkIffPayloadsInBounds` and
  `ParseKeepsRecognisedRecords` state its properties, and `ParseLogFile`
  is proved equal to it.
- `Parse.RecordsFrom`, `Parse.Recognised`, `Parse.FirstBadRecord`,
  `Parse.ListsRecords` (`per-logparser2/src/parse.rs:35-67`): the number
  of records visited, the offsets the decoder accepts, the first record
  whose payload leaves the buffer, and the relation between the output and
  the accepted records.
- `Parse.Ts` (`per-logparser2/src/parse.rs:95`): the sort key.
- `Parse.IsCut` (`per-logparser2/src/parse.rs:80`): a timestamp regression
  or a forward jump larger than `MAX_JUMP_MS`.
- `Parse.Continues`, `Parse.InSession`, `Parse.StartsAtCut`,
  `Parse.IsSessionSplit`, `Parse.ChunkerState`, `Parse.Flatten`,
  `Parse.Last` (`per-logparser2/src/parse.rs:78-91`): what a split into
  sessions is, and the chunker loop's invariant.
- `Sorting.SortedBy`, `Sorting.WithKey` (`per-logparser2/src/parse.rs:95`):
  sortedness by a key, and the elements with one key, used to state
  stability.
- `Table.NumericId` (`per-logparser2/src/table.rs:26-29`): the sort key of
  a message definition, a standard or an extended id.
- `Table.NodeLabel` (`per-logparser2/src/table.rs:40-43`): the transmitter
  name, or "N/A".
- `Table.Key`, `Table.KeyOf` (`per-logparser2/src/table.rs:47`): the
  indexer key `message|signal`.
- `Table.SignalColumns`, `Table.Visits`, `Table.KeysOf`, `Table.Fresh`,
  `Table.Numbered`, `Table.Buses`, `Table.Nodes`, `Table.Messages`,
  `Table.Signals`, `Table.ValidHeader`, `Table.DistinctKeys`,
  `Table.FirstVisit`, `Table.FirstVisits`, `Table.HeaderRows`
  (`per-logparser2/src/table.rs:31-58`): the columns the header loops
  visit, the fresh ones among them, their numbering from 1, the four rows
  they give, and the header invariant.
- `Table.FirstTime`, `Table.LastTime` (`per-logparser2/src/table.rs:76-77`):
  the first and last timestamp of a chunk, 0 for an empty chunk.
- `Table.FloorToBin`, `Table.CeilToBin` (`per-logparser2/src/table.rs:79-80`):
  `first_row_time` and `last_row_time`. Their properties are
  `FloorToBinIsBinStart` and `CeilToBinIsBinEnd`.
- `Table.RowTime` (`per-logparser2/src/table.rs:86`): the time of data
  row `r`.
- `Table.RowOf` (`per-logparser2/src/table.rs:98`): the data row of a
  timestamp. Its property is `RowOfIsBin`.
- `Table.WritesColumn`, `Table.Injective`, `Table.IndexesColumns`,
  `Table.DoneWrite`, `Table.Write`, `Table.FromRow`, `Table.CellValue`
  (`per-logparser2/src/table.rs:93-103`): which cell one message writes
  and with what value, and the value a cell holds after the whole chunk.
  `CellIsLastWrite`, `CellUnwritten` and `FillTable` state their meaning.
- `Table.TableBuilder.HasHeader` (`per-logparser2/src/table.rs:14-59`):
  the builder holds a header satisfying `ValidHeader`, as after `new` and
  `create_header`. `CreateTable` requires it.
- `Base.Pow2`, `Base.BitAnd`: powers of two, and bitwise AND on natural
  numbers, which models Rust's `&` at `per-logparser2/src/parse.rs:52-57`.

## Model

| member | source | states |
|---|---|---|
| Parse.ParseLogFile | per-logparser2/src/parse.rs:31-71 | The record loop returns the specification `ParseFrom` of the whole buffer. A buffer shorter than one record gives `Ok([])`. On success there are at most `len / MSG_BYTE_LEN` messages, and each one is decoded (`Some`). |
| Parse.ReadRecord | per-logparser2/src/parse.rs:36-59 | One loop turn fails exactly when the DLC slice leaves the buffer, with that offset and DLC. Otherwise it yields the record's contribution: its timestamp and decoded frame if the decoder accepts it, nothing if it does not. |
| Parse.ParseFromFacts | per-logparser2/src/parse.rs:33-35 | A buffer shorter than `MSG_BYTE_LEN` yields no messages. On success the output has at most `len / MSG_BYTE_LEN` messages, all of them decoded. |
| Parse.VisitedAreAligned | per-logparser2/src/parse.rs:35 | The loop visits exactly the whole records at offsets `start + k * MSG_BYTE_LEN`. A trailing fragment is never visited. |
| Parse.RecordsFromCount | per-logparser2/src/parse.rs:35 | The number of records visited from `offset` is `(len - offset) / MSG_BYTE_LEN`. |
| Parse.ParseOutputBound | per-logparser2/src/parse.rs:58-60 | On success the output is at most as long as the number of records visited. |
| Parse.AllDecoded | per-logparser2/src/parse.rs:58-59 | Every message of a successful decode carries a decoded frame. |
| Parse.LeU32OfU32ToLe | per-logparser2/src/parse.rs:36-45 | Encoding a u32 little-endian and decoding it gives the value back. |
| Parse.U32ToLeOfLeU32 | per-logparser2/src/parse.rs:36-45 | Decoding four bytes and re-encoding them gives the bytes back, so the decoding is a bijection. |
| Parse.MasksAreArithmetic | per-logparser2/src/parse.rs:52-57 | For every u32 id, the bitwise AND with `CAN_EFF_FLAG` is non-zero exactly when the id is 2^31 or more. The AND with `CAN_EXT_ID_MASK` is the id modulo 2^29, and the AND with `CAN_STD_ID_MASK` is the id modulo 2^11. |
| Parse.MachineMasksAreArithmetic | per-logparser2/src/parse.rs:52-57 | The same three facts hold for the machine `&` on 32-bit words. |
| Parse.ArbitrationId | per-logparser2/src/parse.rs:52-57 | An extended id (bit 31 set) yields exactly the id modulo 2^29. A standard id yields exactly the id modulo 2^11. |
| Base.BitAndLowMask | per-logparser2/src/parse.rs:54-56 | ANDing with a mask of `k` low one-bits keeps the value modulo `2^k`. |
| Base.BitAndHighBit | per-logparser2/src/parse.rs:52 | For a value below `2^(k+1)`, ANDing with the single bit `2^k` is non-zero exactly when the value is at least `2^k`. |
| Parse.U32ToLe | per-logparser2/src/parse.rs:36-45 | The little-endian encoding of a u32, the inverse partner of `from_le_bytes`, has four bytes. |
| Parse.VisitedFrom | per-logparser2/src/parse.rs:35-50 | Every offset the loop visits from a start is a whole record at or after that start. |
| Parse.Contribution | per-logparser2/src/parse.rs:58-67 | One record contributes at most one message. |
| Parse.ParseFromStep | per-logparser2/src/parse.rs:47-60 | An in-bounds record appends its contribution to the messages so far, then the decode continues at the next record. |
| Parse.ParseFromBad | per-logparser2/src/parse.rs:47-49 | A record whose payload leaves the buffer fails the decode with that offset and DLC. |
| Parse.ParseFromOk | per-logparser2/src/parse.rs:47-60 | A successful decode has an in-bounds first record, followed by a successful decode of the rest. |
| Parse.ParseOkIffPayloadsInBounds | per-logparser2/src/parse.rs:47-49 | A decode succeeds if and only if the payload of every visited record lies inside the buffer. |
| Parse.ParseFailsAtFirstBadRecord | per-logparser2/src/parse.rs:47-49 | A failed decode reports the first visited record whose payload leaves the buffer, and that record's DLC. |
| Parse.ParseKeepsRecognisedRecords | per-logparser2/src/parse.rs:58-67 | A successful decode lists, one for one and in record order, exactly the records the decoder accepts. Each entry has its own timestamp and decoded frame. |
| Parse.ListsRecordsStep | per-logparser2/src/parse.rs:58-60 | Proof helper: prepending one record's contribution to a listing of the later records gives a listing from that record. |
| Parse.RecognisedAreAccepted | per-logparser2/src/parse.rs:58-67 | An offset is in the recognised list exactly when it is a visited record that the decoder accepts. |
| Parse.RecognisedAscend | per-logparser2/src/parse.rs:35-50 | The recognised offsets strictly ascend, so the output is in record order. |
| Parse.AscendPrepend | per-logparser2/src/parse.rs:58-59 | Proof helper: putting at most one element in front of an ascending sequence, below all of it, keeps it ascending. |
| Parse.RecognisedStep | per-logparser2/src/parse.rs:58-60 | The recognised list from a record is that record (if the decoder accepts it) followed by the recognised list from the next record. |
| Parse.VisitedStep | per-logparser2/src/parse.rs:35-50 | A whole record is visited, and so is every record visited from the next offset. |
| Parse.FirstBadRecordHere | per-logparser2/src/parse.rs:47-49 | Proof helper: an out-of-bounds record is the first bad record when it is the one at the start. |
| Parse.FirstBadRecordLater | per-logparser2/src/parse.rs:47-50 | Proof helper: after an in-bounds record, the first bad record of the rest is the first bad record overall. |
| Parse.ChunkParsed | per-logparser2/src/parse.rs:73-99 | The chunks concatenate to the input, and none is empty. No chunk holds a cut; each chunk after the first starts at a cut from the last message of the previous one. Every chunk is sorted by timestamp. There are no chunks exactly when there are no messages. |
| Parse.SortEachChunk | per-logparser2/src/parse.rs:93-96 | Each chunk is replaced by its stable sort by timestamp; the number of chunks is unchanged. |
| Parse.SortingSessionsIsIdentity | per-logparser2/src/parse.rs:93-96 | The stable sort leaves every session unchanged, and each session is sorted. |
| Parse.SessionIsSorted | per-logparser2/src/parse.rs:79-85 | A run with no cut (every step non-decreasing and at most `MAX_JUMP_MS`) is sorted by timestamp. |
| Parse.CutStep | per-logparser2/src/parse.rs:79-87 | At a cut the open chunk is closed and a new one opened with the message, which keeps the chunker invariant. |
| Parse.ExtendStep | per-logparser2/src/parse.rs:86-87 | Without a cut the message joins the open chunk, which keeps the chunker invariant. |
| Parse.FinishStep | per-logparser2/src/parse.rs:89-91 | Flushing the open chunk at the end gives a session split of the whole input. An empty open chunk means the input was empty. |
| Parse.SplitLast | per-logparser2/src/parse.rs:79-91 | The last chunk of a session split is a suffix of the input, and the other chunks split the rest. If there are other chunks, the last one starts at a cut, and there is no cut inside it. |
| Parse.SessionSplitUnique | per-logparser2/src/parse.rs:79-91 | Two session splits of the same input are equal: a new chunk starts exactly at each cut. |
| Parse.Stamped | per-logparser2/src/parse.rs:3-6 | Builds messages carrying exactly the given timestamps, in order. |
| Parse.ChunkExampleJump | per-logparser2/src/parse.rs:79-96 | Timestamps 0, 10, 20, 10050 with a maximum jump of 1000 split into [0, 10, 20] and [10050]. |
| Parse.ChunkExampleRegression | per-logparser2/src/parse.rs:79-96 | Timestamps 100, 50, 60 split into [100] and [50, 60]. |
| Parse.FlattenAppend | per-logparser2/src/parse.rs:83-90 | Proof helper: pushing a chunk appends its messages to the concatenation. |
| Sorting.SortBy | per-logparser2/src/parse.rs:95 | The sort keeps the length. |
| Sorting.SortByIsSorted | per-logparser2/src/parse.rs:95 | The result of `sort_by_key` is non-decreasing by the key. |
| Sorting.SortByPermutes | per-logparser2/src/parse.rs:95 | The result of `sort_by_key` is a permutation of the input. |
| Sorting.SortByStable | per-logparser2/src/parse.rs:95 | For every key, the elements with that key keep their input order. |
| Sorting.SortBySortedIsIdentity | per-logparser2/src/parse.rs:95 | Sorting an already sorted sequence returns it unchanged. |
| Sorting.Insert | per-logparser2/src/parse.rs:95 | Inserting one element makes the sequence one longer. |
| Sorting.InsertPos | per-logparser2/src/parse.rs:95 | The insertion point lies behind every element whose key is not larger, and before every element whose key is larger. |
| Sorting.InsertSorted | per-logparser2/src/parse.rs:95 | Inserting into a sorted sequence keeps it sorted. |
| Sorting.InsertPermutes | per-logparser2/src/parse.rs:95 | Inserting adds exactly the one element. |
| Sorting.InsertStable | per-logparser2/src/parse.rs:95 | The inserted element goes behind every element with the same key. |
| Sorting.InsertAtEnd | per-logparser2/src/parse.rs:95 | An element whose key is at least the last key is appended. |
| Sorting.SortedPrefix | per-logparser2/src/parse.rs:95 | Proof helper: dropping the last element keeps a sequence sorted. |
| Table.TableBuilder.constructor | per-logparser2/src/table.rs:14-22 | A new builder has four empty rows and an empty indexer. |
| Table.TableBuilder.CreateHeader | per-logparser2/src/table.rs:24-59 | Each row gains its label, then one entry per fresh column of the visits of the definitions sorted by numeric id. The indexer gains those columns' keys, numbered from 1. On a new builder the header invariant `ValidHeader` holds afterwards. |
| Table.TableBuilder.AddColumns | per-logparser2/src/table.rs:36-58 | The nested loops append exactly the fresh columns of the visits to the four rows. The indexer gains their keys, numbered from 1 in visit order. |
| Table.TableBuilder.AddSignalColumns | per-logparser2/src/table.rs:46-57 | The inner loop extends the fresh columns by those among this message's signals. It keeps rows, counter and indexer consistent with them. |
| Table.TableBuilder.CreateTable | per-logparser2/src/table.rs:68-107 | The grid has 4 header rows equal to the builder's rows, then `NumRows` data rows of the builder's width. Data row `r` is labelled with time `first_row_time + r * B`. Every data cell holds `CellValue`: the last value written to it, "" if none. |
| Table.TableBuilder.NewTable | per-logparser2/src/table.rs:69-91 | The header rows are copied, each data row is labelled in column 0 with its bin time, and every other data cell is "". |
| Table.TableBuilder.FillTable | per-logparser2/src/table.rs:93-107 | After the messages are written in order, every data cell holds its `CellValue`, and the header rows and the label column are unchanged. |
| Table.TableBuilder.WriteSignals | per-logparser2/src/table.rs:95-105 | Writing one message changes exactly the cells it writes (`Write`) and no other, whatever order the signal map yields. |
| Table.HeaderIsValid | per-logparser2/src/table.rs:31-58 | The header built on an empty builder satisfies `ValidHeader`. The four rows are one entry longer than the indexer and headed by "Bus", "Node", "Message" and "Signal". Every other column is on bus "Main". The indexer maps exactly the keys of columns 1.. to their own column, and each key's column holds its message and signal. |
| Table.FirstHeaderIsValid | per-logparser2/src/table.rs:14-59 | `new()` followed by `create_header` yields a valid header. |
| Table.ColumnsFormValidHeader | per-logparser2/src/table.rs:31-55 | Columns with distinct keys on the main bus, behind the label column and numbered from 1, form a valid header. |
| Table.HeaderCoversDatabase | per-logparser2/src/table.rs:25-50 | Every signal of every message definition has its key in the indexer. |
| Table.HeaderVisitsSortedDefs | per-logparser2/src/table.rs:25-29 | The definitions are visited in ascending numeric id, as a permutation of the database. |
| Table.ColumnSource | per-logparser2/src/table.rs:38-55 | Every visited column comes from a definition: its message is the definition's name, and its node is the transmitter name or "N/A". Its bus is "Main", and its signal is one of the definition's signals. |
| Table.VisitsHasSignal | per-logparser2/src/table.rs:38-47 | Every signal of every definition is visited, with its bus, node and message. |
| Table.VisitsOnMainBus | per-logparser2/src/table.rs:39-52 | Every visited column is on bus "Main". |
| Table.FreshIsFirstVisits | per-logparser2/src/table.rs:47-50 | A visit gets a column exactly when it is the first visit of its key and the key was not indexed before. |
| Table.FreshKeys | per-logparser2/src/table.rs:47-50 | The keys of the fresh columns are the visited keys not indexed before. |
| Table.FreshKeysDistinct | per-logparser2/src/table.rs:47-50 | Fresh columns have pairwise distinct keys, none of them indexed before. |
| Table.FreshAreVisits | per-logparser2/src/table.rs:47-55 | Every fresh column is one of the visits. |
| Table.FreshStep | per-logparser2/src/table.rs:48-56 | A visit is appended to the fresh columns exactly when its key is new. |
| Table.NumberedIsPositions | per-logparser2/src/table.rs:36-50 | The indexer holds exactly the fresh keys. The `i`-th fresh column gets index `i + 1`. There are as many entries as fresh columns. |
| Table.NumberedAt | per-logparser2/src/table.rs:49-50 | The `i`-th fresh key is indexed with `i + 1`. |
| Table.NumberedSize | per-logparser2/src/table.rs:49-50 | The indexer has one entry per fresh column. |
| Table.NumberedRange | per-logparser2/src/table.rs:36-50 | Every index lies between 1 and the number of fresh columns. |
| Table.NumberedValues | per-logparser2/src/table.rs:36-50 | The indexer's values are exactly `1..n`. |
| Table.NumberedStep | per-logparser2/src/table.rs:49-50 | Allocating a column maps its key to the next index. |
| Table.NumberedKeys | per-logparser2/src/table.rs:48-49 | The indexer's keys are the fresh columns' keys. |
| Table.KeysOfAppend | per-logparser2/src/table.rs:48-49 | Proof helper: appending a column adds its key. |
| Table.DistinctKeysStep | per-logparser2/src/table.rs:48-49 | Proof helper: dropping the last column keeps keys distinct, and the last key is not among the others. |
| Table.KeySameMessage | per-logparser2/src/table.rs:47 | For one message name, two keys are equal exactly when the signal names are. |
| Table.KeyInjective | per-logparser2/src/table.rs:47 | When message names contain no bar character, two keys are equal exactly when both names are. |
| Table.FirstBar | per-logparser2/src/table.rs:47 | Proof helper: the first bar character of a key ends the message name. |
| Table.HeaderRowsStep | per-logparser2/src/table.rs:48-56 | One visit keeps the rows, the counter and the indexer consistent with the fresh columns: a known key changes nothing, a new key is allocated the next column. |
| Table.LabelsFirst | per-logparser2/src/table.rs:31-34 | The label column heads each row with "Bus", "Node", "Message" and "Signal". |
| Table.LabelsThenColumns | per-logparser2/src/table.rs:31-55 | Pushing the labels and then the fresh columns gives the rows of the label column followed by the columns. |
| Table.ProjectionsStep | per-logparser2/src/table.rs:52-55 | Proof helper: appending a column appends its bus, node, message and signal to the four rows. |
| Table.SignalColumnsPrefix | per-logparser2/src/table.rs:46-55 | A message's columns follow its signals in declaration order. |
| Table.VisitsStep | per-logparser2/src/table.rs:38-46 | The visits of one more definition are extended by that definition's signal columns. |
| Table.FloorToBinIsBinStart | per-logparser2/src/table.rs:79 | `first_row_time` is a multiple of the bin width, at most the first time and within one bin of it. |
| Table.CeilToBinIsBinEnd | per-logparser2/src/table.rs:80 | `last_row_time` is a multiple of the bin width, at least the last time and within one bin of it. |
| Table.NumRows | per-logparser2/src/table.rs:81 | A chunk always gets at least one data row. |
| Table.NumRowsSpansBins | per-logparser2/src/table.rs:79-81 | The last data row's time is `last_row_time`: the rows span the bins from first to last exactly. |
| Table.BinExample | per-logparser2/src/table.rs:79-81 | Times 120 and 340 with bin width 100 give 100, 400 and 4 rows. |
| Table.RowOfIsBin | per-logparser2/src/table.rs:98 | A timestamp's row index selects the bin that contains it. |
| Table.RowInRange | per-logparser2/src/table.rs:98-99 | A timestamp between the first and last time falls in one of the `num_rows` rows. |
| Table.SortedChunkRowsInRange | per-logparser2/src/table.rs:76-99 | In a sorted chunk, every message is at or after `first_row_time`, and its row index is below `num_rows`. |
| Table.SortedChunkFits | per-logparser2/src/table.rs:76-100 | A sorted chunk meets `CreateTable`'s precondition on the subtraction, and the row guard never skips one of its messages. |
| Table.MultipleDiff | per-logparser2/src/table.rs:81 | Proof helper: the difference of two bin boundaries is a whole number of bins. |
| Table.ValidHeaderInjective | per-logparser2/src/table.rs:97-100 | A valid header's indexer maps keys to distinct data columns inside the table's width, so the column guard never skips an indexed signal. |
| Table.WriterUnique | per-logparser2/src/table.rs:95-97 | With an injective indexer, at most one signal of a message writes a given column. |
| Table.DoneWriteStep | per-logparser2/src/table.rs:95-102 | Writing one more signal sets its own column and leaves every other column as it was. |
| Table.CellIsLastWrite | per-logparser2/src/table.rs:93-103 | A cell holds the value of the last message that writes it. |
| Table.CellUnwritten | per-logparser2/src/table.rs:88-103 | A cell that no message writes stays "". |
| Table.UnknownKeySkipped | per-logparser2/src/table.rs:96-97 | A message none of whose keys is indexed writes no cell. |
| Table.HeaderKeys | per-logparser2/src/table.rs:48-49 | After the header, a key is indexed exactly when it was indexed before or belongs to a fresh column. |
| Table.UnionUpdate | per-logparser2/src/table.rs:49 | Proof helper: inserting into the new entries commutes with the union with the earlier indexer. |
| Table.MulMono | per-logparser2/src/table.rs:86 | Proof helper: row times grow with the row index. |

## Left out

- `main.rs` is not part of this model: argument parsing, path validation, `process::exit` and loading the bus database belong to it.
- `parse_log_files` (`per-logparser2/src/parse.rs:8-29`) is left out. It lists a directory, filters and sorts paths, reads files and prints, all of which is I/O. Its result is the concatenation of the per-file results of `ParseLogFile`, in sorted-path order.
- Reading the file (`std::fs::read`) is left out: `ParseLogFile` takes the file's bytes as a parameter.
- The `log::error!` diagnostic for a frame the decoder rejects is left out: it is a side effect only. Such a frame contributes nothing.
- The time label `format!("{:.3}", row_time as f32 / 1000.0)` is floating-point formatting. It is the arbitrary parameter `timeLabel` applied to the integer row time.
- `create_dir_all`, the CSV writer, the `out_NNN.csv` file names, `flush` and `println!` are output I/O and left out. So is the loop over the chunks, which only writes one file per chunk. `CreateTable` models the grid of one chunk.
- The external crates are left out. The decoder is a function parameter. The message definitions, their signals and transmitters are plain data. Signal values are already rendered as strings.
- `HashMap` hashing is left out: the indexer is a Dafny `map`, and the signal map's iteration order is an arbitrary choice.
- The record constants (`consts.rs`) are not part of this model: they are parameters, and the three CAN masks take their `linux/can.h` values.
- Base.BitAnd is not proved equal to Dafny's `bv32` `&` for all operands, because the solver cannot convert between bit-vectors and integers at that cost. For the three CAN masks both give the same arithmetic results: `MasksAreArithmetic` proves them for `BitAnd` and `MachineMasksAreArithmetic` for `bv32`.
- Parse.ParseLogFile: a payload slice past the buffer end panics in the source. The model returns an `Err` for the whole file instead.
- Table.TableBuilder.CreateTable: does not model u32 wrap-around. It requires `last_row_time` to fit in a u32, where `div_ceil(B) * B` would otherwise overflow. It also requires every message to be at or after `first_row_time`, where `msg.timestamp - first_row_time` would otherwise underflow. `Table.SortedChunkFits` proves that every sorted chunk, as `chunk_parsed` produces, meets the second condition.
- Table.TableBuilder.CreateHeader: promises the header invariant only for a call on a new builder. A second call restarts the column counter at 1, as the source does, and the model states the resulting rows and indexer without claiming they stay consistent.
- `Vec::reserve` is left out: it changes capacity only.
