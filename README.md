# 1brc in Dafny: the chunked concurrent aggregator and its single-threaded baseline

This project models the two programs of the One Billion Row Challenge
repository `paulsonkoly/1brc`. Both read a measurements file of
`name;value` lines and print, for every station, the minimum, mean and
maximum of its readings, sorted by name.

- `baseline/baseline.go` scans the file line by line. It keeps a table
  keyed by the station name.
- `concurrent/concurrent.go` plans newline-aligned chunks of about 16 MiB
  and hands them round-robin to 16 workers. Each worker reads its chunks
  with positional reads. It parses every record into a table keyed by a
  64-bit shift-or hash of the name. The main goroutine merges the tables
  in whatever order they arrive, then lists, sorts and prints the names.

Readings are held in tenths, as both programs hold them. Go's `int` is
modelled as an unbounded integer.

The modules follow the programs' structure:

| module | what it models |
|---|---|
| `Bytes` | bytes, `Find`, Go's byte-wise string order, joining |
| `Values` | the fixed-point value parse both programs share, and its inverse `Render` |
| `Stats`, `Tables` | the per-station aggregate, the name-keyed table, and the merge algebra |
| `Hashing` | the hash, the hash-keyed `Dict`, insertion and merging |
| `Planner` | `splits` and `chunks` |
| `Workers` | the round-robin hand-out |
| `Reader` | `readChunks`: `ReadAt`, the name scan, the value scan, the record loop |
| `Collector` | the receive-and-merge loop |
| `Report` | listing, sorting and printing |
| `Baseline`, `Concurrent` | each program's `main` |
| `Collision` | what a hash collision does |
| `Encoding`, `Sharing`, `Agreement` | the agreement theorem |

The agreement theorem is `Agreement.Agree`. It takes any file of
well-formed lines and any order in which the 16 tables arrive. A line is
well-formed when its name holds no `;` and no newline, and its value is
written as `Values.Render` writes it: an optional `-`, decimal digits
without leading zeros, `.` and one digit, never `-0.0`. The station names
must have pairwise distinct hashes. For such a file:

- every worker finishes without a panic;
- the merged hash-keyed table holds exactly the name-keyed table of all
  the readings;
- the two programs print the same text, which is the report of that
  table.

A file whose last line lacks its newline makes the record loop in
`readChunks` run forever. `Reader.HaltsIff` proves that the loop ends
exactly when the buffer is empty or its last byte is a newline or a `;`.
The model therefore states the workers' termination as the precondition
`Concurrent.WorkersEnd`. `Concurrent.NewlineFileRuns` proves that this
precondition holds for every file that is empty or ends in a newline,
and that no worker then panics.

The merge of the workers' tables does not depend on the order they
arrive in, even when names collide: `Collector.ArrivalOrderFree` proves
that every arrival order gives the same hashes with the same aggregates.
Only the name an entry keeps can differ. The hash is not unique per name:
`Hashing.HashSuffix` proves that only a name's last 13 bytes reach it.

## Model

| member | source | states |
|---|---|---|
| Bytes.Find | concurrent/concurrent.go:233-241 | the index returned is the first occurrence of the byte, or the length when the byte is absent |
| Bytes.LessTransitive | concurrent/concurrent.go:121 | Go's byte-wise string order, used by `slices.Sort`, is transitive |
| Bytes.LessTotal | concurrent/concurrent.go:121 | any two distinct names are ordered one way or the other |
| Bytes.LessIrreflexive | baseline/baseline.go:64 | no name sorts before itself |
| Bytes.JoinSnoc | concurrent/concurrent.go:123-135 | appending a part to a `, `-joined text adds exactly one separator before it |
| Values.DigitOf | concurrent/concurrent.go:260 | `int(c - '0')` wraps in 8 bits, and equals the digit's value for `'0'..'9'` |
| Values.ParseValue | baseline/baseline.go:30-43 | the digit loop computes `Value`: the digits accumulated as `val*10+d`, `.` skipped, negated when a `-` occurs |
| Values.Value | baseline/baseline.go:30-43 | the number parsed from a text is at most 0 when the text holds a `-` and at least 0 otherwise, and its size is the digit accumulation |
| Values.Digits | concurrent/concurrent.go:127-132 | the printed decimal digits of a number are non-empty and are digit bytes only |
| Values.Render | concurrent/concurrent.go:130-132 | the text of a reading is digits, `-` and `.` only, and ends in a digit |
| Values.ParseRender | baseline/baseline.go:30-43 | parsing the rendered text of any reading gives the reading back |
| Values.Examples | baseline/baseline.go:30-43 | `12.0` parses to 120 tenths and `-3.2` to -32 |
| Stats.First | baseline/baseline.go:52 | a first reading gives `{v, v, v, 1}`, which is a valid aggregate |
| Stats.Update | baseline/baseline.go:46-50 | a later reading keeps the aggregate valid: the count grows by one, the total by `v`, and the extremes widen to include `v` |
| Stats.Combine | concurrent/concurrent.go:99-102 | merging two partial results adds counts and totals, takes the extreme extremes, and keeps validity |
| Stats.UpdateIsCombine | concurrent/concurrent.go:273-276 | a later reading is a merge with the one-reading aggregate |
| Stats.CombineCommutes | concurrent/concurrent.go:99-102 | the merge of two partial results does not depend on their order |
| Stats.CombineAssociates | concurrent/concurrent.go:99-102 | the merge does not depend on grouping |
| Tables.Add | baseline/baseline.go:45-54 | one record: a new name gets `{v,v,v,1}`, a known one is updated, and every other name is unchanged |
| Tables.AddAll | baseline/baseline.go:22-55 | folding records into a table gives its old names plus the records' names |
| Tables.Aggregate | baseline/baseline.go:22-55 | the table of the records holds exactly the names that occur in them |
| Tables.AggregateCons | baseline/baseline.go:45-54 | the table of a record followed by more records is its one-entry table merged with the table of the rest |
| Tables.Merge | concurrent/concurrent.go:94-104 | the merged table, keyed by name or by hash, has both key sets; a shared key is combined, others are copied |
| Tables.MergeCommutes | concurrent/concurrent.go:86-108 | merging tables is commutative |
| Tables.MergeAssociates | concurrent/concurrent.go:86-108 | merging tables is associative |
| Tables.MergeEmpty | concurrent/concurrent.go:83 | the empty table is the unit of merging |
| Tables.AddIsMerge | baseline/baseline.go:45-54 | adding a record is merging its one-record table |
| Tables.AddAllIsMerge | baseline/baseline.go:22-55 | folding records into a table is merging their aggregate into it |
| Tables.AggregateConcat | concurrent/concurrent.go:61-72 | aggregating a concatenation is merging the parts' aggregates, so any cut of the records into chunks gives the same table |
| Tables.AggregateMeaning | baseline/baseline.go:22-55 | the table holds exactly the names that occur; for each, the count is its number of lines, the total the sum of its readings, and the minimum and maximum are readings that bound all others |
| Tables.MeaningStep | baseline/baseline.go:45-54 | one record in front of records the table describes gives a table that describes them all |
| Tables.NoReadings | baseline/baseline.go:45-54 | a name that does not occur has no readings |
| Tables.TotalConcat | concurrent/concurrent.go:86-108 | merging a concatenation of tables is merging the two totals |
| Tables.TotalPermutation | concurrent/concurrent.go:86-108 | merging the same tables in any order gives the same result |
| Tables.TotalWithout | concurrent/concurrent.go:86-108 | the total of a list of tables is any one of them merged with the total of the rest |
| Hashing.HashPrefix | concurrent/concurrent.go:239-240 | one more byte shifts the 64-bit hash left by five and ors the byte in |
| Hashing.HashAppend | concurrent/concurrent.go:233-241 | the hash of two texts joined is the first one's hash shifted five bits per byte of the second, or-ed with the second one's hash |
| Hashing.HashSuffix | concurrent/concurrent.go:233-241 | two names that end in the same 13 bytes have the same hash, whatever comes before |
| Hashing.Insert | concurrent/concurrent.go:269-277 | an unseen hash gets `{v,v,v,1,name}`; a seen one is updated and keeps its name; other keys are unchanged |
| Hashing.MergeInto | concurrent/concurrent.go:94-104 | a hash absent from the global table is copied; a present one is combined and keeps the global name |
| Hashing.ByName | concurrent/concurrent.go:110-119 | the name-keyed view of a table whose entries sit under their own names' hashes |
| Hashing.RepresentsByName | concurrent/concurrent.go:110-119 | a hash-keyed table that represents a name-keyed table reads back as exactly that table |
| Hashing.InsertRepresents | concurrent/concurrent.go:269-277 | without a hash clash, inserting a reading under its hash tracks adding it by name |
| Hashing.InsertAllRepresents | concurrent/concurrent.go:226-278 | without a hash clash, a worker's hash-keyed table of records tracks their name-keyed table |
| Hashing.MergeRepresents | concurrent/concurrent.go:94-104 | without a hash clash, merging hash-keyed tables tracks merging the name-keyed tables |
| Collision.CollisionMergesStations | concurrent/concurrent.go:239-240 | the distinct names `ab` and `aB` share a hash, so the concurrent table holds one entry named `ab` with both readings, while the name-keyed table keeps two stations |
| Collision.OneEntry | concurrent/concurrent.go:269-277 | two names with one hash end in a single entry carrying the first name and the merged readings |
| Collision.TwoEntries | baseline/baseline.go:45-54 | the name-keyed table keeps two distinct names apart |
| Collision.SameHash | concurrent/concurrent.go:239-240 | the hash of `ab` and of `aB` is 3170 |
| Planner.NextPoint | concurrent/concurrent.go:161-187 | the next split point is past the current one; inside the file it follows a newline, the first at or after the current point plus the chunk size; otherwise it is the file size |
| Planner.ComputeSplits | concurrent/concurrent.go:140-190 | the seek-and-scan loop computes `Splits` |
| Planner.SplitsShape | concurrent/concurrent.go:152-189 | the points start at 0, end at the file size, rise strictly, and each is `NextPoint` of the one before |
| Planner.SplitsAfterNewline | concurrent/concurrent.go:166-187 | every point strictly inside the list sits just past the first newline at or after the previous point plus the chunk size |
| Planner.SmallFile | concurrent/concurrent.go:156-189 | a file no longer than the chunk size is one chunk, or none when it is empty |
| Planner.ChunksOf | concurrent/concurrent.go:193-202 | `n` points give `n - 1` chunks |
| Planner.ChunksOfAt | concurrent/concurrent.go:195-196 | chunk `i` runs from point `i` up to point `i + 1` |
| Planner.Chunks | concurrent/concurrent.go:193-202 | the counted loop computes `ChunksOf` |
| Planner.ChunksTile | concurrent/concurrent.go:193-202 | chunks of rising points lie in the file and, joined, are the bytes between the first and the last point |
| Planner.PlanCoversFile | concurrent/concurrent.go:53 | the planned chunks are non-empty and hold every byte of the file once, in order |
| Planner.PlanEndsOnNewline | concurrent/concurrent.go:31-35 | when the file ends with a newline, every planned chunk ends on one, so no record spans two chunks |
| Workers.Gather | concurrent/concurrent.go:63-67 | the gathered list holds the chunks at the given indices, in that order |
| Workers.Assign | concurrent/concurrent.go:63-67 | the `j += WorkPool` loop hands worker `i` exactly the chunks `i, i + 16, i + 32, ...` |
| Workers.OwnedFromMeaning | concurrent/concurrent.go:64-66 | worker `i`'s indices rise and are exactly the indices below the chunk count that are `i` plus a multiple of the pool size |
| Workers.RoundRobin | concurrent/concurrent.go:64-66 | chunk `j` goes to worker `j mod 16` and to no other |
| Workers.OwnedGrow | concurrent/concurrent.go:64-66 | one more chunk joins the end of the list of exactly one worker |
| Reader.AfterName | concurrent/concurrent.go:233-241 | the name scan leaves a suffix of the buffer, shorter exactly when the buffer holds a `;` |
| Reader.Step | concurrent/concurrent.go:227-277 | one pass leaves a suffix of the buffer, shorter exactly when the buffer holds a `;` or a newline |
| Reader.HaltsIff | concurrent/concurrent.go:227-278 | the record loop ends exactly when the buffer is empty or its last byte is a newline or a `;` |
| Reader.NextNotEmpty | concurrent/concurrent.go:243-262 | on a buffer whose last byte is neither, a pass leaves a non-empty buffer |
| Reader.StepRecord | concurrent/concurrent.go:227-277 | a line `name;value\n` is one pass that inserts the value under the name's hash and consumes exactly that line |
| Reader.ScanName | concurrent/concurrent.go:228-241 | the loop hashes the bytes up to the first `;` (all of them without one), splits off the name and consumes the `;` |
| Reader.ScanValue | concurrent/concurrent.go:243-265 | the loop parses the value up to the first newline and consumes the newline; without one it parses the rest and consumes nothing |
| Reader.Lines | concurrent/concurrent.go:227-278 | the record loop makes at most one pass per byte of the buffer, and at least one on a non-empty buffer |
| Reader.InsertLines | concurrent/concurrent.go:227-278 | inserting the passes' lines adds exactly their hashes as keys, and an entry that was already there keeps its name |
| Reader.ParseInto | concurrent/concurrent.go:226-278 | the record loop inserts, in order, every line the passes produce |
| Reader.ReadAt | concurrent/concurrent.go:218-221 | `ReadAt`: a negative offset is an error; otherwise the bytes that exist are copied and a short read reports end of file; the rest of the buffer is unchanged |
| Reader.MaxSize | concurrent/concurrent.go:208-213 | the buffer size is at least every chunk's size and is one of them, or 0 for no chunks |
| Reader.ReadProblem | concurrent/concurrent.go:217-224 | reading a chunk panics exactly when its size or offset is negative or it reaches past the end of the file |
| Reader.ReadOutcome | concurrent/concurrent.go:218-224 | what `ReadAt` returned decides the panic: a negative offset fails the read, a short read fails the size check, and a full read holds the chunk's bytes |
| Reader.ReadChunk | concurrent/concurrent.go:217-278 | an unreadable chunk panics with the matching message; a readable one fills the front of the buffer with the chunk's bytes and is parsed into the table |
| Reader.ReadsAll | concurrent/concurrent.go:217-279 | a worker whose chunks are all readable, with record loops that end, finishes without a panic |
| Reader.ReadChunks | concurrent/concurrent.go:205-281 | `readChunks` is the fold of the chunks, in order, into one table, stopping at the first panic |
| Collector.MergeIn | concurrent/concurrent.go:94-104 | the loop over a received table computes `MergeInto` |
| Collector.MergeInOne | concurrent/concurrent.go:95-103 | one more key changes the merged table at that key only |
| Collector.MergeAll | concurrent/concurrent.go:86-108 | the merged table holds a hash exactly when the start table or some received table does, and a start entry keeps its name |
| Collector.Collect | concurrent/concurrent.go:83-108 | the receive loop merges the tables into an empty one, in arrival order |
| Collector.StatsOfMergeInto | concurrent/concurrent.go:94-104 | folding a table in merges the aggregates by hash, whichever names are kept |
| Collector.StatsOfMergeAll | concurrent/concurrent.go:86-108 | the aggregates of the receive loop's result are the start table's merged with the total of the received tables' |
| Collector.ArrivalOrderFree | concurrent/concurrent.go:86-108 | any two arrival orders of the same tables give the same hashes with the same aggregates, even when names collide |
| Report.InsertName | concurrent/concurrent.go:121 | inserting into a sorted list keeps it sorted and adds exactly that name |
| Report.SortNames | concurrent/concurrent.go:121 | sorting gives a sorted permutation |
| Report.SortedUnique | baseline/baseline.go:64 | two sorted lists with the same names are equal, so the printed order does not depend on the map's iteration order |
| Report.Stations | concurrent/concurrent.go:125-134 | one `name min/mean/max` text per name, in order |
| Report.PrintStep | concurrent/concurrent.go:123-135 | printing one more station extends the text by the separator and that station |
| Report.Output | concurrent/concurrent.go:123-135 | the printed text opens with `{` and closes with `}`, and is `{}` when there are no stations |
| Report.Print | concurrent/concurrent.go:123-135 | the print loop writes `{`, the stations joined by `, `, and `}` |
| Report.PrintReports | baseline/baseline.go:57-78 | listing a table's names in any order, sorting and printing gives its report |
| Report.ReportsUnique | baseline/baseline.go:57-78 | a table has exactly one report |
| Report.DictNames | concurrent/concurrent.go:110-119 | one name per entry, and an inverse map from each name to an entry's aggregate; for a table whose entries sit under their names' hashes, no name twice and the inverse is the table by name |
| Report.ListedStep | concurrent/concurrent.go:115-119 | one more entry keeps the listing invariant |
| Report.ListedAll | concurrent/concurrent.go:110-119 | the finished listing gives what `DictNames` promises |
| Report.TableNames | baseline/baseline.go:57-62 | the baseline's listing loop lists every key once |
| Baseline.DropCR | baseline/baseline.go:24-26 | a line loses at most one trailing carriage return |
| Baseline.ScanLines | baseline/baseline.go:24-26 | the lines the scanner hands out hold no newline |
| Baseline.ParseLine | baseline/baseline.go:27-43 | a line without `;` panics; otherwise the name is the text before the first `;` and holds none |
| Baseline.Fold | baseline/baseline.go:22-55 | the scan loop panics exactly when some line has no `;`, and otherwise keeps every name it started with |
| Baseline.Records | baseline/baseline.go:25-43 | parsed lines give one record each |
| Baseline.FoldAggregates | baseline/baseline.go:22-55 | the scan loop succeeds exactly when every line holds a `;`, and then its table is the aggregate of the records |
| Baseline.Aggregate | baseline/baseline.go:22-55 | the scan loop computes `Fold` |
| Baseline.Run | baseline/baseline.go:15-79 | a line without `;` panics; otherwise the output is the report of the aggregate of the file's records |
| Concurrent.NewlineFileRuns | concurrent/concurrent.go:53-72 | on a file that is empty or ends in a newline, every worker's record loops end and no worker panics |
| Concurrent.ChunkReadable | concurrent/concurrent.go:217-224 | each planned chunk of such a file can be read in full, and its record loop ends |
| Concurrent.RunWorker | concurrent/concurrent.go:62-71 | worker `i` gathers its round-robin chunks and reads them into its table, or panics |
| Concurrent.RunWorkers | concurrent/concurrent.go:53-72 | the run panics exactly when some worker panics; otherwise it has the 16 workers' tables |
| Concurrent.Finish | concurrent/concurrent.go:110-135 | the printed text is the sorted listing of the table; when entries sit under their own names' hashes it is the report of the table by name |
| Concurrent.Run | concurrent/concurrent.go:37-136 | a worker's panic ends the run; otherwise the text prints the merge of the tables in arrival order, and is the report of that table by name when the merge is consistent |
| Encoding.EncodeConcat | concurrent/concurrent.go:31-35 | cutting the readings at a line boundary cuts the file there: the text of two runs of lines is the two texts joined |
| Encoding.Piece | concurrent/concurrent.go:31-35 | the bytes between the starts of lines `j` and `k` are exactly those lines |
| Encoding.NewlineCut | concurrent/concurrent.go:166-187 | a point just past a newline of a well-formed file is the start of a line |
| Encoding.ReadEncoded | concurrent/concurrent.go:226-278 | the record loop ends on well-formed lines and yields exactly their readings under their hashes |
| Encoding.InsertLinesAll | concurrent/concurrent.go:269-277 | inserting the passes' lines is inserting the records |
| Encoding.ScanEncoded | baseline/baseline.go:24-26 | the scanner hands out exactly the `name;value` texts of a well-formed file |
| Encoding.ParseStripped | baseline/baseline.go:27-43 | the baseline parses those texts back into exactly the records |
| Sharing.SharesTotal | concurrent/concurrent.go:61-72 | once the chunks are handed out, the workers' shares merged together are all the chunks' tables merged |
| Sharing.ShareGrow | concurrent/concurrent.go:64-66 | chunk `m` is merged into worker `m mod 16`'s share and no other |
| Sharing.PickPermutation | concurrent/concurrent.go:86-93 | reordering the workers reorders their tables |
| Sharing.ArrivalTotal | concurrent/concurrent.go:86-108 | whatever the arrival order, the merge of the workers' shares is the merge of every chunk's table |
| Agreement.Segments | concurrent/concurrent.go:140-202 | the planned chunks of a well-formed file hold whole lines, all of them, in order |
| Agreement.ReadSegments | concurrent/concurrent.go:205-281 | chunks holding runs of lines are read into exactly those lines' readings |
| Agreement.WorkerReads | concurrent/concurrent.go:62-71 | each worker finishes and sends the hash-keyed table of exactly the lines in its chunks |
| Agreement.WorkerRepresents | concurrent/concurrent.go:62-71 | without a hash clash, each worker's table represents the name-keyed table of its chunks |
| Agreement.CollectRepresents | concurrent/concurrent.go:86-108 | merging tables that represent name-keyed tables gives the table of their merge |
| Agreement.ConcurrentAggregates | concurrent/concurrent.go:37-108 | every worker finishes, and the merged table represents the aggregate of all the readings, in any arrival order |
| Agreement.Agree | baseline/baseline.go:15-79 | both programs succeed and print the same text, the report of the aggregate of the readings |

## Left out

- Files, `os.Open`, `Stat`, `Seek` and `Read` are not modelled. The file is a byte sequence. `ReadAt` is modelled on it. The planner's seek-then-scan is modelled as a search in that sequence. I/O errors other than a short or negative-offset read do not arise.
- `bufio.Scanner`'s 64 KiB token limit is not modelled: `Baseline.ScanLines` hands out lines of any length.
- Goroutines, channels and `reflect.Select` are not modelled as concurrency. The workers run one after the other in `Concurrent.RunWorkers`. The order in which their tables arrive is the parameter `order`. Any permutation of the 16 workers is allowed, and the results hold for every one.
- The `"garbage received"` panic is not modelled. It cannot happen, because every channel carries a `Dict`.
- Closed channels being deleted from the select cases is not modelled. Each worker sends exactly one table, and the model merges exactly one table per worker.
- Floating-point formatting with `%.1f` is not modelled. The minimum and maximum are printed as the exact decimal of their tenths (`Values.Render`). The mean's text is a caller-supplied function `mean(total, count)`.
- Pointer aliasing is not modelled. Go's `m[k] = v` stores the worker's `*Data` in the global table, and later merges then also change the worker's map. No worker map is read again after it is sent, so tables are modelled as values.
- 64-bit overflow of `int` counts and totals is not modelled. The 64-bit hash does wrap: it is computed in `bv64`.
- Profiling and the `Filename` constant are left out.
- Concurrent.Run: the termination of the workers' record loops is a precondition (`WorkersEnd`), not a conclusion, because a file whose last line lacks its newline makes a loop run forever. `Reader.HaltsIff` states exactly when a loop ends. `Concurrent.NewlineFileRuns` proves that the loops end on every file that is empty or ends in a newline.
- Agreement.Agree: the agreement is proved only for files whose station names have pairwise distinct hashes. `Collision.CollisionMergesStations` shows that the programs can disagree otherwise.
- The two programs differ on carriage returns. The baseline's scanner drops a `\r` before each newline. The concurrent parser takes `\r` as a digit byte. Files with CRLF line ends are outside the agreement theorem, which covers only the challenge's `\n`-terminated format.
