# MapReduce coordinator, worker and grep: a Dafny model

This project models the MapReduce lab implementation in `src/mr` and one of its
applications, `src/mrapps/grep.go`.

- **The coordinator** holds one map task per input file and `nReduce` reduce
  tasks. Each task has a done flag and the time it was last handed out. The
  coordinator also keeps counters of the unfinished map and reduce tasks.
- **A `GetTask` call** carries the worker's report on its previous task.
  - First the coordinator commits the report. The first report for a map task
    marks it done, appends each non-empty bucket file to the matching reduce
    task, and decrements the map counter. The first report for a reduce task
    marks it done and decrements the reduce counter. Repeated reports are
    ignored.
  - Then it hands out a task. While map work remains, it offers the lowest-index
    unfinished map task last handed out more than 10 seconds ago. After that it
    does the same for reduce tasks. When a phase has no such task it answers
    Sleep, and once everything is done it answers Exit.
- **A map task** runs the map function over the input file. It routes each pair
  to bucket `ihash(key) % nReduce`, where `ihash` is 32-bit FNV-1a with the top
  bit cleared. It writes every non-empty bucket to the file `mr-<map>-<bucket>`
  and reports the list of file names, with "" for empty buckets.
- **A reduce task** reads back its files and sorts the records by key. It calls
  the reduce function once per run of equal keys and writes the results to
  `mr-out-<reduce>`.
- **grep** emits `(filename, "1")` for every line that contains "And". Its
  reduce function counts the values.

Modules:

- `Coordinator` (coordinator.dfy): the coordinator's state as a value.
  - `CommitReport`, `AssignTask` and `GetTaskStep` specify the two phases of
    `GetTask`. The lemmas about them state the invariant, the phase order, the
    lease timeout and idempotence.
  - The class `Coordinator.Coordinator` keeps the tasks in arrays and updates
    them in place. It is proved against those functions.
- `Protocol` (protocol.dfy): the task types and the request and response
  records of `src/mr/rpc.go`.
- `GoStrings` (go_strings.dfy): Go strings as byte sequences, Go's string
  order, `%d` / `strconv.Itoa`, and `ParseInt`, its inverse on the strings it
  produces.
- `Hashing` (hashing.dfy): FNV-1a 32, `ihash` and the bucket function.
- `KeyValues` (key_values.dfy): `KeyValue`, the `ByKey` order and the sort.
- `Seqs` (seqs.dfy): counting and first-match search over sequences, used by
  the coordinator's scans.
- `Worker` (worker.dfy):
  - the map branch (partition, write bucket files, report),
  - the reduce branch (read, sort, group, reduce, write output),
  - one iteration of the worker loop.
- `Grep` (grep.dfy): `strings.FieldsFunc` on newlines, `strings.Contains`, and
  grep's `Map` and `Reduce`.

Files are maps from file names to their contents. The user's map and reduce
functions, and the clock reading `now` (in seconds), are parameters.

## Model

| member | source | states |
|---|---|---|
| Coordinator.Before | src/mr/coordinator.go:64 | Definition, no contract of its own: `startTime.Before(timeoutAgo)`, with a never-assigned task before every time. AssignSleeps, MapOfferedAfterTimeout, ReduceOfferedAfterTimeout, MapLeaseHeld and ReduceLeaseHeld state what it decides. |
| Coordinator.Initial | src/mr/coordinator.go:119-134 | Definition, no contract of its own: one undone map task per input file with its index as id, and nReduce undone reduce tasks with no files; both counters at their task counts. InitialInv states its properties. |
| Coordinator.WithReport | src/mr/coordinator.go:44-48 | Definition, no contract of its own: reduce task r with bucket file r appended when that entry exists and is non-empty. FirstMapReport states its effect. |
| Coordinator.CommitReport | src/mr/coordinator.go:40-56 | Definition, no contract of its own: the commit phase of GetTask. CommitPreservesInv, FirstMapReport, FirstReduceReport, StaleReportCommitsNothing and CommitIdempotent state its properties. |
| Coordinator.AssignTask | src/mr/coordinator.go:58-91 | Definition, no contract of its own: the assignment phase of GetTask at clock reading now. AssignPreservesInv, AssignPhases, AssignSleeps, AssignMapTask and AssignReduceTask state its properties. |
| Coordinator.GetTaskStep | src/mr/coordinator.go:35-92 | Definition, no contract of its own: one whole GetTask call, commit then assign. GetTaskPreservesInv, GetTaskMonotone and ExitIffAllDone state its properties. |
| Coordinator.InitialInv | src/mr/coordinator.go:119-134 | MakeCoordinator's state satisfies the invariant: the counters equal the numbers of unfinished tasks and each task's id is its index. That state is already finished exactly when there are no files and no reduce tasks. |
| Coordinator.RemainZeroIffDone | src/mr/coordinator.go:110-114 | Under the invariant the counters are non-negative. A counter is zero exactly when every task of its kind is done. |
| Coordinator.CommitPreservesInv | src/mr/coordinator.go:40-56 | Committing any in-bounds report keeps the invariant. |
| Coordinator.MapStampKeepsInv | src/mr/coordinator.go:70 | Re-stamping a map task's startTime keeps the invariant. |
| Coordinator.ReduceStampKeepsInv | src/mr/coordinator.go:83 | Re-stamping a reduce task's startTime keeps the invariant. |
| Coordinator.AssignPreservesInv | src/mr/coordinator.go:58-91 | The assignment phase keeps the invariant. |
| Coordinator.GetTaskPreservesInv | src/mr/coordinator.go:35-92 | A whole GetTask call keeps the counters equal to the numbers of unfinished tasks. |
| Coordinator.StaleReportCommitsNothing | src/mr/coordinator.go:40-56 | The commit leaves the state unchanged exactly when the report names a task already done or is not a Map or Reduce report (both directions). |
| Coordinator.FirstMapReport | src/mr/coordinator.go:41-50 | A first map report marks that task done and decrements mapRemain. It appends bucket file r to reduce task r exactly when r is within the report and the name is non-empty. Nothing else changes. |
| Coordinator.FirstReduceReport | src/mr/coordinator.go:51-55 | A first reduce report marks that task done and decrements reduceRemain. Nothing else changes. |
| Coordinator.CommitIdempotent | src/mr/coordinator.go:42-52 | Committing a report twice equals committing it once. |
| Coordinator.CommitKeepsStamps | src/mr/coordinator.go:40-56 | The commit phase changes no startTime and no task count. |
| Coordinator.AssignPhases | src/mr/coordinator.go:61-90 | Map is answered only while map tasks remain. Reduce is answered only when none remain and reduce tasks do. Exit is answered exactly when both counters are zero, which is exactly when all tasks are done. Sleep and Exit change nothing. |
| Coordinator.AssignSleeps | src/mr/coordinator.go:61-87 | Sleep is answered exactly when the current phase has unfinished tasks and every one of them was handed out at most 10 seconds before `now`. |
| Coordinator.AssignMapTask | src/mr/coordinator.go:61-72 | A Map answer carries the lowest-index eligible map task: its id, its file and len(reduceTasks). Only that task's startTime changes, to `now`. |
| Coordinator.AssignReduceTask | src/mr/coordinator.go:75-86 | A Reduce answer carries the lowest-index eligible reduce task, its id and its committed files. Only that task's startTime changes, to `now`. |
| Coordinator.MapOfferedAfterTimeout | src/mr/coordinator.go:59-72 | When some map task's lease has expired, the call hands out a map task whose index is no greater than that task's. |
| Coordinator.ReduceOfferedAfterTimeout | src/mr/coordinator.go:75-86 | Once the map phase is over, if some reduce task's lease has expired, the call hands out a reduce task whose index is no greater than that task's. |
| Coordinator.MapLeaseHeld | src/mr/coordinator.go:59-72 | A call at a time up to t + 10 does not hand out a map task stamped at t, whatever it reports. The call keeps the stamp and the invariant. |
| Coordinator.ReduceLeaseHeld | src/mr/coordinator.go:59-86 | A call at a time up to t + 10 does not hand out a reduce task stamped at t, whatever it reports. The call keeps the stamp and the invariant. |
| Coordinator.MapNotReoffered | src/mr/coordinator.go:59-72 | No call in a sequence of calls at times up to t + 10 hands out a map task stamped at t. |
| Coordinator.ReduceNotReoffered | src/mr/coordinator.go:59-86 | No call in a sequence of calls at times up to t + 10 hands out a reduce task stamped at t. |
| Coordinator.NotReofferedWithinTimeout | src/mr/coordinator.go:59-86 | A task handed out at time t is not handed out by any of the calls that follow at times up to t + 10, whatever they report. Re-offering needs `now > t + 10`, because `Before` is strict. |
| Coordinator.CommitProgresses | src/mr/coordinator.go:40-56 | The commit makes no task undone, grows no counter and removes no committed file. |
| Coordinator.AssignProgresses | src/mr/coordinator.go:58-91 | The assignment phase makes no task undone and leaves both counters as they were. |
| Coordinator.GetTaskMonotone | src/mr/coordinator.go:35-92 | Progress is monotone across a whole call. Once everything is done it stays done. |
| Coordinator.After | src/mr/coordinator.go:35-92 | Definition, no contract of its own: the state a sequence of admissible GetTask calls leaves. CallsKeepReport, RepeatedReportIsNoOp and ResponseReportInBounds state properties of it. |
| Coordinator.StepKeepsReport | src/mr/coordinator.go:40-56 | A report the coordinator accepts stays acceptable after any one more call, and a report for a task already done stays stale. |
| Coordinator.CallsKeepReport | src/mr/coordinator.go:40-56 | The same over any admissible sequence of calls: acceptability and staleness of a report persist. |
| Coordinator.RepeatedReportIsNoOp | src/mr/coordinator.go:42-55 | Once a call has served a report, every later report for the same kind and id (a duplicate, or a straggler whose lease ran out, with any file list) is accepted and commits nothing, after any number of admissible calls in between. |
| Coordinator.ExitIffAllDone | src/mr/coordinator.go:88-90 | Exit is answered exactly when every task is done after this call's report. |
| Coordinator.ResponseReportInBounds | src/mr/coordinator.go:42-52 | A report that reuses the handed-out id and, for Map, has one file per reduce task is accepted by whichever later call brings it, after any admissible calls in between. Its unchecked indexing is then in bounds. |
| Coordinator.Coordinator.constructor | src/mr/coordinator.go:119-134 | MakeCoordinator builds the arrays and counters whose model is the initial state. |
| Coordinator.Coordinator.Done | src/mr/coordinator.go:110-114 | Done is true exactly when every map and reduce task has been reported done. |
| Coordinator.Coordinator.RecordReport | src/mr/coordinator.go:40-56 | The in-place commit leaves the coordinator in the state CommitReport specifies. |
| Coordinator.Coordinator.HandOut | src/mr/coordinator.go:58-91 | The in-place scan and stamp give the state and response that AssignTask specifies. |
| Coordinator.Coordinator.GetTask | src/mr/coordinator.go:35-92 | The RPC handler keeps the coordinator valid and produces exactly GetTaskStep's new state and response. |
| Seqs.FirstWhere | src/mr/coordinator.go:62-73 | The scan finds the lowest index satisfying the test, or the length when there is none. |
| Seqs.CountWhereZero | src/mr/coordinator.go:61 | A count of matching tasks is zero exactly when no task matches. |
| Seqs.Pick | src/mr/worker.go:58 | One step of ranging over a Go map yields some key still present. |
| GoStrings.Less | src/mr/worker.go:25 | Definition, no contract of its own: Go's `<` on strings, byte-wise, with a proper prefix smaller. LessIrreflexive, LessTransitive and LessTrichotomy state that it is a strict total order. |
| GoStrings.LessIrreflexive | src/mr/worker.go:25 | No key is less than itself. |
| GoStrings.LessTransitive | src/mr/worker.go:25 | ByKey's string order is transitive. |
| GoStrings.LessTrichotomy | src/mr/worker.go:25 | ByKey's string order is total and asymmetric. |
| GoStrings.Digits | src/mrapps/grep.go:27 | The decimal rendering is non-empty, all digits, without a leading zero, and one digit exactly for n < 10. |
| GoStrings.FormatInt | src/mrapps/grep.go:27 | Definition, no contract of its own: `strconv.Itoa` and `%d`, a minus sign before the digits of a negative number. Digits, FormatIntRoundTrip and FormatIntInjective state its properties. |
| GoStrings.FormatIntRoundTrip | src/mrapps/grep.go:27 | Reading back a rendered integer gives the integer. |
| GoStrings.FormatIntInjective | src/mr/worker.go:59 | Distinct integers render as distinct strings. |
| Hashing.Sum32a | src/mr/worker.go:30-32 | Definition, no contract of its own: FNV-1a 32 over the key bytes, with 32-bit wrap-around. AbsorbConcat and Sum32aTestVectors state its properties. |
| Hashing.AbsorbConcat | src/mr/worker.go:30-32 | Hashing a string in two pieces equals hashing it at once. |
| Hashing.Sum32aTestVectors | src/mr/worker.go:30-32 | The modelled FNV-1a 32 gives the published values for "", "a" and "foobar". |
| Hashing.Low31 | src/mr/worker.go:32 | Masking with 0x7fffffff gives a value in [0, 2^31). |
| Hashing.IHash | src/mr/worker.go:29-33 | ihash is non-negative and below 2^31. |
| Hashing.Bucket | src/mr/worker.go:54 | The bucket index lies in [0, nReduce). |
| KeyValues.SortByKey | src/mr/worker.go:92 | The sorted records are ordered by ByKey.Less and are a permutation of the input. |
| KeyValues.InsertSorted | src/mr/worker.go:92 | Inserting into sorted records keeps them sorted. |
| KeyValues.SortKeepsValuesOfKey | src/mr/worker.go:92 | After the model's sort, each key's values are exactly its values before, in the same order. |
| KeyValues.ValuesForCount | src/mr/worker.go:104-107 | Each value of key k occurs among k's values as often as the pair (k, value) occurs in the records. |
| KeyValues.PermutationValues | src/mr/worker.go:92 | Any permutation of the records has the same multiset of values for every key. |
| KeyValues.PermutationKeys | src/mr/worker.go:92 | Any permutation of the records has the same set of keys. |
| Worker.BucketCounts | src/mr/worker.go:52-56 | Partitioning loses and duplicates nothing. Bucket r holds every copy of each pair whose key hashes to r, and no other pair. |
| Worker.BucketsInRange | src/mr/worker.go:54 | Only buckets 0 .. nReduce-1 receive pairs. |
| Worker.BucketContents | src/mr/worker.go:52-56 | Definition, no contract of its own: the pairs with ihash(key) % nReduce == r, in emission order. Partition states that the byReduceFiles loop builds exactly these. |
| Worker.ReportFiles | src/mr/worker.go:57-71 | Definition, no contract of its own: per bucket, its `mr-<id>-<r>` name if it got pairs, else "". WriteMapOutput and RunMap state that the map branch reports this list. |
| Worker.Partition | src/mr/worker.go:52-56 | The byReduceFiles map has an entry exactly for each non-empty bucket, holding that bucket's pairs in emission order. |
| Worker.IntermediateName | src/mr/worker.go:59 | Definition, no contract of its own: `fmt.Sprintf("mr-%d-%d", id, reduceId)`. IntermediateNameInjective and IntermediateNamesDistinct state that it is injective. |
| Worker.IntermediateNameInjective | src/mr/worker.go:59 | Different buckets of one map task get different `mr-<map>-<bucket>` names. |
| Worker.IntermediateNamesDistinct | src/mr/worker.go:59 | Distinct (map id, bucket) pairs get distinct names, so no two map tasks write the same file. Map ids are task indices, so they are non-negative. |
| Worker.WriteBuckets | src/mr/worker.go:57-71 | The files slice has length nReduce and holds bucket r's file name or "". Exactly one file is written per map entry, holding that entry's pairs. |
| Worker.WriteMapOutput | src/mr/worker.go:52-71 | The reported list is ReportFiles. The files written are exactly the non-empty buckets under their names. |
| Worker.ReadAll | src/mr/worker.go:75-91 | Returns a failure naming the first file that cannot be opened, or else all records of the files in list order. |
| Worker.RunLength | src/mr/worker.go:100-103 | The run of equal keys at the front of non-empty records has at least one and at most all of the records. |
| Worker.RunLengthSpec | src/mr/worker.go:100-103 | The inner j loop stops at the end of the maximal run of the first key. |
| Worker.Groups | src/mr/worker.go:98-113 | Definition, no contract of its own: the maximal runs of equal keys, front to back, as the i/j loops find them. GroupsFlatten, GroupsNonEmpty, GroupsPartitionInput, GroupsMaximal, GroupsKeys, GroupsAscending and GroupsCollectValues state its properties. |
| Worker.GroupsPartitionInput | src/mr/worker.go:98-113 | Groups are non-empty, and together their pairs are exactly the sorted records, in order. |
| Worker.GroupsMaximal | src/mr/worker.go:100-103 | Within a group every pair has the group's key. Neighbouring groups have different keys. |
| Worker.GroupsKeys | src/mr/worker.go:98-113 | The group keys are exactly the record keys. |
| Worker.GroupsAscending | src/mr/worker.go:98-113 | On sorted records, group keys are strictly ascending, so no key is reduced twice. |
| Worker.GroupsCollectValues | src/mr/worker.go:104-107 | On sorted records, each group's values are all the values of its key. |
| Worker.ReduceAll | src/mr/worker.go:108-110 | Definition, no contract of its own: one output pair per group, its key and reducef of its key and values. ReduceRuns and ReduceOutputCorrect state what it produces. |
| Worker.ReduceOutput | src/mr/worker.go:92-113 | Definition, no contract of its own: sort the records by key, then one output pair per group of equal keys. ReduceOutputCorrect and AnySortedOrderGroups state its properties. |
| Worker.ReduceOutputCorrect | src/mr/worker.go:75-113 | The output lines have strictly ascending keys, exactly the keys read. Each line is reducef applied to its key and all of that key's values. |
| Worker.AnySortedOrderGroups | src/mr/worker.go:92-108 | Under any key-sorted permutation the unstable sort may produce, the groups still have ascending keys, exactly the keys read, and each key's values as a multiset. |
| Worker.RunEnd | src/mr/worker.go:100-103 | The j loop stops at the end of the run that starts at i. |
| Worker.CollectValues | src/mr/worker.go:104-107 | The k loop collects the values of positions i .. j-1 in order. |
| Worker.ReduceRuns | src/mr/worker.go:98-113 | The i loop writes one line per group of the sorted records, each reducef of the group's key and values. |
| Worker.InputContent | src/mr/worker.go:47-50 | Definition, no contract of its own: a missing input file reads as empty, because the errors of os.Open and ReadAll are ignored. RunMap states that the map function sees this content. |
| Worker.RunMap | src/mr/worker.go:45-72 | It panics on an empty file list, on `% 0` with pairs to route, or on a negative nReduce. Otherwise it reports (Map, id, files), with one name or "" per bucket, and writes exactly the non-empty buckets. |
| Worker.RunReduce | src/mr/worker.go:73-115 | It dies on the first file it cannot open. Otherwise it writes `mr-out-<id>` with the reduce output of all records read and reports it. |
| Worker.OutputName | src/mr/worker.go:94 | Definition, no contract of its own: `fmt.Sprintf("mr-out-%d", id)`. RunReduce states that the reduce output is written under this name. |
| Worker.RunTask | src/mr/worker.go:42-124 | One loop iteration. Map and Reduce behave as RunMap and RunReduce. Sleep gives the None report. Exit ends the loop. Any other type panics. |
| Grep.Lines | src/mrapps/grep.go:11-12 | Definition, no contract of its own: strings.FieldsFunc on newlines, the maximal runs of non-newline bytes. FieldLength, LinesAreLines, LinesSplit, ExtraNewlinesIgnored and LinesOfJoin state its properties. |
| Grep.Matches | src/mrapps/grep.go:14-22 | Definition, no contract of its own: one (filename, "1") pair per line containing "And", in line order. MatchesCharacterized and MatchesBounds state its properties. |
| Grep.FieldLength | src/mrapps/grep.go:11-12 | A field runs up to the next newline or the end of the text. |
| Grep.LinesAreLines | src/mrapps/grep.go:11-12 | Every field FieldsFunc yields is non-empty and holds no newline. |
| Grep.LinesSplit | src/mrapps/grep.go:11-12 | The fields of a + "\n" + b are the fields of a followed by those of b. |
| Grep.ExtraNewlinesIgnored | src/mrapps/grep.go:11-12 | Leading, trailing and repeated newlines produce no fields. |
| Grep.LinesOfJoin | src/mrapps/grep.go:11-12 | Splitting lines joined by newlines gives the lines back. |
| Grep.Contains | src/mrapps/grep.go:17 | strings.Contains is true exactly when the needle occurs at some position. |
| Grep.Map | src/mrapps/grep.go:9-23 | The loop emits the pairs of the matching lines, in line order. |
| Grep.MatchesCharacterized | src/mrapps/grep.go:14-21 | There is one pair per line containing "And", and every pair is (filename, "1"). |
| Grep.MatchesBounds | src/mrapps/grep.go:14-22 | There are no more pairs than lines. There are none exactly when no line contains "And". |
| Grep.LinesOccurInContents | src/mrapps/grep.go:12 | Every line occurs in the contents. |
| Grep.NoNeedleNoPairs | src/mrapps/grep.go:9-23 | Contents without "And" anywhere yield no pairs. |
| Grep.Reduce | src/mrapps/grep.go:25-28 | The output is non-empty, all digits, has no leading zero unless there are no values, and reads back as the number of values. |
| Grep.ReduceCountsOnly | src/mrapps/grep.go:25-28 | Two value lists reduce to the same output exactly when they have the same length. |
| Grep.GrepOneFile | src/mrapps/grep.go:9-28 | With one input file, the reduce output over grep's pairs is a single line (filename, count of matching lines), or nothing when no line matches. |

## Left out

- The RPC layer (`server`, `call`, the Unix socket, `coordinatorSock`) is not modelled. A call is a direct call of `GetTask`, so a failed RPC is not modelled.
- Files are not modelled as such. Opening, creating and closing them, and their JSON encoding and decoding, become maps from names to records. A file that was written reads back as the records written.
- The JSON round trip is exact only for keys and values that are valid UTF-8. `encoding/json` replaces invalid bytes with U+FFFD, so in Go the reduce branch would see altered strings, and the model does not capture that.
- The worker argument `inputs` maps input file names to their text. A map input file that cannot be opened reads as empty text, because the worker ignores that error.
- The output line format `"%v %v\n"` is modelled as a `KeyValue` record of key and output.
- The coordinator's mutex and all concurrency between workers are not modelled. Each call is one atomic step, which is what the lock gives.
- The wall clock is replaced by an integer `now` in seconds, compared with `Timeout` = 10. `time.Time`'s zero value (never handed out) is `Unassigned`, which lies before every time.
- The worker's infinite loop, the 500 ms sleep, process exit and `log.Fatal` in JSON encoding are not modelled. One iteration is `Worker.RunTask`, and a process death is a `Crash`.
- User map and reduce functions other than grep's are parameters, not modelled.
- Coordinator.Coordinator.constructor: takes nReduce as a `nat`. A negative nReduce would make `make` panic, and that path is not modelled.
- Protocol.TaskType: a closed enumeration. A response type outside the five named values cannot arise, so the worker's `default` panic is reached through `None`, the only value the coordinator never sends.
- KeyValues.SortByKey: models Go's unstable `sort.Sort` as one particular sorted permutation, a stable insertion sort. Worker.AnySortedOrderGroups covers every sorted order Go may produce. Worker.ReduceOutput, Worker.ReduceOutputCorrect, Worker.RunReduce, Worker.RunTask and Grep.GrepOneFile fix the model's order of values within a key.
- Hashing.Bucket: Go's `%` truncates toward zero and Dafny's is Euclidean. They agree here because ihash is non-negative and nReduce is positive. For a negative NReduce, Go computes `ihash % NReduce` without panicking and fills byReduceFiles. Then `make` panics (worker.go:57), so the computed index is discarded. The model goes straight to that crash, and only the crash is observable.
- Coordinator.CommitReport: requires RequestInBounds. Go panics with an index out of range when `request.Id` is outside the task slices, or when a non-empty `request.Files[r]` has r >= len(reduceTasks) (coordinator.go:42, 46, 52). The model excludes those requests by precondition and does not model the panic. Coordinator.ResponseReportInBounds shows that every report a worker builds from a response is in bounds at whichever later call brings it.
- The internals of Go's `hash/fnv` and `sort` packages are replaced by the FNV-1a definition and an insertion sort.
