# first-unique-word, modelled in Dafny

The program finds the first word of a large text file that occurs exactly
once. It reads the file a buffer at a time, cuts each buffer into
whitespace-separated words without splitting a word across two buffers (it
seeks back over a trailing partial word), and feeds the words to a tracker
that keeps the words seen once so far, in order of first occurrence, beside a
set of every word seen. A partitioned variant of the tracker reduces every run
of entries with the same partition number on its own; a two-stage glue cuts
the workers' survivors into batches, reduces each batch, and reduces the
result once more to a single answer.

The model follows the source file by file:

| Dafny file | module | source |
|---|---|---|
| `word_set.dfy` | `WordSet` | `set.go`: the `WordHashSet` class, a Go map updated in place |
| `tokenizer.dfy` | `Tokenizer` | `trimContentToWords` of `main.go`, a pure function over the buffer's text |
| `candidate_queue.dfy` | `CandidateQueue` | the queue-and-set update shared by `processWords` (`main.go`) and `findUniqueWords` (`algo.go`), with its specification `Survivors` |
| `file_reader.dfy` | `FileReading` | `freader.go`: a reader with a position over the file's contents |
| `stream.dfy` | `Stream` | `processWords` and `findUniqueFromStream` of `main.go`, as methods with loops |
| `partition_runs.dfy` | `PartitionRuns` | `findUniqueWords` of `algo.go`, a loop over the input stream |
| `tournament.dfy` | `Tournament` | `pushToPartitionChannel` and `getUniqueResult` of `algo.go` |
| `outcome.dfy` | `Outcomes` | the panics of the Go code, as error results |

Text is a `seq<char>` with one character per byte. A Go panic (an index out
of range in `trimContentToWords`, `Front()` of an empty list followed by
`.Value`) is an `Err` result. Channels are sequences: what a goroutine sends
is the sequence its loop builds, and the stages run one after the other.

What the proofs establish, in the system's own terms:

- The tracker's queue is always exactly the words seen once so far, in order
  of first occurrence, with no duplicates, and its set is every word seen;
  so `processWords` answers the first word occurring exactly once, and panics
  exactly when there is none.
- `trimContentToWords` returns every field at end of file. Otherwise it
  withholds the last field exactly when the buffer does not end in `' '`,
  consumes everything else, and panics on a buffer shorter than two bytes or
  one needing to drop a field it does not have.
- Over text whose only whitespace is `' '` and whose words are all shorter
  than the buffer, with a buffer of at least two bytes, the words the read
  loop sends are exactly the fields of the whole file, and the answer is the
  first word of the file that occurs exactly once.
- `findUniqueWords` reduces every maximal run of equal partition on its own:
  without `onlyFirstUnique` it sends each run's words occurring once in that
  run, run by run, with their partitions unchanged; with it, the front of each
  run's queue, panicking when a run has none. Runs before a boundary never
  affect runs after it.
- `getUniqueResult` cuts its input into batches of `WordsPerWorker` with a
  final remainder. Each batch is sorted and numbered, and reduced on its own.
  The final answer is the first of the second stage's survivors whose word
  occurs once among them. If some word occurs exactly once in the input,
  there is an answer. When everything fits one batch, the answer occurs
  exactly once in the input. With more batches it need not:
  `Tournament.AnswerNotGloballyUnique` shows three copies of one word, in
  batches of two, answering that word (see "Findings"). Nothing in the
  files modelled keeps one word to one worker, so a word can survive in
  several workers' results. These statements are about the
  pipeline with the final stream closed after its last send, and with the
  stages run one after the other.
- As written, `getUniqueResult` never closes the stream it makes at
  algo.go:103. All entries on it have partition 0, so the final
  `findUniqueWords` never flushes inside its loop, never leaves the loop, and
  the returned channel receives nothing on any input (see "Findings").

## Model

| member | source | states |
|---|---|---|
| WordSet.WordHashSet.constructor | main.go:52 | a new set, as made by `WordHashSet{}` or by `make(WordHashSet, WordsPerWorker)` at algo.go:19 and algo.go:33, has no members |
| WordSet.WordHashSet.Add | set.go:5-7 | afterwards the word is a member and no other word's membership changed; adding a member again changes nothing |
| WordSet.WordHashSet.Remove | set.go:9-11 | afterwards the word is not a member and no other word's membership changed; removing an absent word changes nothing |
| WordSet.WordHashSet.Has | set.go:13-16 | answers membership and changes nothing |
| Tokenizer.TrimContentToWords | main.go:28-48 | written with the source's two nested tests; at end of file: all fields of the buffer and its whole length; not at end: a panic on fewer than two bytes; otherwise a prefix of the fields and a length no larger than the buffer |
| Tokenizer.WithholdLast | main.go:39-40 | dropping the last field fails exactly when there is no field; otherwise the words are the fields but the last, and the consumed length plus that field's length is the buffer's length |
| Tokenizer.TrimWithholdsLastField | main.go:37-46 | not at end of file, the two nested tests collapse to one: whatever the byte before last, the last field is dropped and its length withheld exactly when the last byte is not `' '`, else everything is consumed; a buffer with no field to drop panics |
| Tokenizer.TrimNothingConsumed | main.go:37-46 | a consumed length of 0 means the whole buffer is one unbroken word |
| Tokenizer.TrimConsumesWholeWords | main.go:28-48 | over `' '`-separated text of two bytes or more, the call succeeds, the words returned are exactly the fields of the consumed prefix, and that prefix ends at a blank or is empty |
| Tokenizer.NewlineEndMiscounts | main.go:37-46 | the boundary test looks only at `' '`: for `"ab\n"` not at end of file the call consumes one byte and returns no word, although the fields of that byte are `["a"]` |
| Tokenizer.FieldsEmpty | main.go:30 | a text has no field exactly when every byte of it is a separator |
| Tokenizer.FieldsAreWords | main.go:30 | every field is a non-empty run of non-whitespace no longer than the text |
| Tokenizer.FieldsAppend | main.go:30 | the fields of two pieces of text split after whitespace are the fields of each piece, concatenated |
| CandidateQueue.RemoveByKey | main.go:55-60 | the scan unlinks the first item with the word and keeps every other item in order; an absent word leaves the queue unchanged; when the word occurs at most once the result is the queue without it |
| CandidateQueue.SurvivorsStep | main.go:54-64 | one more word: a repeated word is taken out of the once-seen list for good, a new word is appended |
| CandidateQueue.Observe | main.go:54-64 | given the queue and set for the words so far, leaves them as the once-seen list and the seen-set of the words so far plus one |
| CandidateQueue.SurvivorsDistinct | main.go:53-65 | no word occurs twice in the queue |
| CandidateQueue.OnceInMembers | main.go:53-65 | an item is in the queue exactly when it was seen and its word occurs exactly once |
| CandidateQueue.FirstSurvivor | main.go:66 | the queue is empty exactly when no word occurs once, and its front is the first word that does |
| Stream.ProcessWords | main.go:50-67 | answers the front of the once-seen list of all the words, or the panic of an empty list |
| Stream.FirstUniqueIsFirst | main.go:66 | the answer is the first word occurring exactly once, and the panic happens exactly when no word occurs once |
| Stream.ReadChunk | main.go:78-97 | one pass: it fails exactly when the tokenizer panics or, not at end of file, consumes nothing; the read reports end of file exactly when it reaches it; not at end the position moves back by the bytes not consumed; the words returned are the tokenizer's; over `' '`-separated text they extend the fields read so far |
| Stream.ReadPass | main.go:87-97 | over `' '`-separated text from a word boundary, a successful pass leaves the position at a word boundary and the words sent so far equal to the fields of everything consumed |
| Stream.ReadPassFails | main.go:87-97 | over `' '`-separated text, a pass fails or consumes nothing only when the buffer is shorter than two bytes or a word at least as long as the buffer lies ahead, in the text from the current position on |
| Stream.FindUniqueFromStream | main.go:69-106 | the loop stops only at end of file or on a failed pass; when it ends without a read failure the answer is that of `processWords` on the words sent; over `' '`-separated text whose words are shorter than a buffer of at least two bytes, the words sent are exactly the fields of the file |
| FileReading.FileReader.constructor | freader.go:20-34 | a freshly opened file: the reader holds the file's contents and has read nothing |
| FileReading.FileReader.Read | freader.go:39-49 | reads as many bytes as fit or remain, advances the count by that much, and reports end of file exactly when the count reaches the size |
| FileReading.FileReader.Seek | freader.go:51-56 | a relative seek moves the count by the offset |
| PartitionRuns.FindUniqueWords | algo.go:17-55 | sends what the run-by-run specification says: each run flushed at a partition change and at the end, with a reset between runs, and the panic of the first run whose queue is empty under `onlyFirstUnique`; what it has sent before the closing flush is the flush of every run but the last |
| PartitionRuns.RunsCover | algo.go:21-47 | the runs cut the input into consecutive non-empty pieces |
| PartitionRuns.RunsAreMaximal | algo.go:22 | with no entry labelled `NO_PARTITION`, each run holds one partition and neighbouring runs hold different ones |
| PartitionRuns.RunsIndependent | algo.go:22-34 | on a run boundary, the output for the whole input is the output for the part before it followed by the output for the part after it |
| PartitionRuns.ReportsRunUniques | algo.go:21-54 | without `onlyFirstUnique`, no panic; the output is each run's entries whose word occurs once in that run, in order, run by run, partitions unchanged; an empty input sends nothing |
| PartitionRuns.ReportsRunFronts | algo.go:48-54 | with `onlyFirstUnique`, the output is the front of each run's queue; it panics exactly when the input is empty or some run has no word occurring once |
| PartitionRuns.PanicIsFinal | algo.go:23-24 | a panic while flushing an earlier run is the call's result, and happens before the stream is closed |
| Tournament.SortByPartition | algo.go:58-60 | sorts the batch in place into nondecreasing partition order, as a permutation |
| Tournament.PushToPartition | algo.go:57-67 | the caller's batch is reordered in place, sorted and a permutation, and what is sent is its words in that order, all with the new partition |
| Tournament.Forward | algo.go:61-66 | what is sent is every entry's word, in order, with the given partition |
| Tournament.PushBatch | algo.go:89-99 | one push of the batch collected so far: as many entries as the batch, all with the new partition, each word as often as in the batch; they are the batch sorted by partition, as a permutation |
| Tournament.RelabelOccurrences | algo.go:61-66 | relabelling keeps every word's count |
| Tournament.BatchesShape | algo.go:84-99 | the batches are consecutive pieces of the input; all but the last hold exactly `WordsPerWorker` entries; the last holds at most that many, and none is empty unless the input is |
| Tournament.StageTwo | algo.go:77-101 | the second stage sends, batch by batch, the entries whose word occurs exactly once in their batch |
| Tournament.FinalStage | algo.go:103-113 | with its stream closed: after relabelling to partition 0 everything is one run, so the final stage sends the front of its queue or panics on an empty one |
| Tournament.OpenFinalStageSilent | algo.go:103-113 | after relabelling to partition 0 there is no partition change, so while its stream stays open the final stage sends nothing |
| Tournament.BatchAndPush | algo.go:84-101 | what the batching loop pushes is the batches of the input, each sorted by partition as a permutation and numbered in order; it holds as many entries as the input and every word as often, all relabelled |
| Tournament.GetUniqueResultAsWritten | algo.go:74-116 | as written, with the final stream never closed, the result channel receives nothing, on every input |
| Tournament.ReduceAsWritten | algo.go:76-113 | as written, what the caller receives first is derived from what the final stage sends while its stream is open, and that is nothing |
| Tournament.GetUniqueResult | algo.go:74-116 | with the final stream closed after algo.go:113: the batches as sorted pair off with the batches of the input, each sorted by partition and a permutation, and the result is the answer computed from them; if some word occurs exactly once in the input there is no panic; when the input fits one batch, it panics exactly when no word occurs once, and otherwise answers, with partition 0, a word occurring exactly once in the input |
| Tournament.Reduce | algo.go:76-113 | with the final stream closed after algo.go:113: the second stage over the numbered batches followed by the final stage over its survivors relabelled to partition 0 yields the answer of the sorted batches |
| Tournament.AnswerIsFirstOnce | algo.go:103-113 | with the final stream closed: the answer, with partition 0, is the first entry of the second stage's output whose word occurs once there; the panic happens exactly when none does |
| Tournament.UniqueWordAnswered | algo.go:84-113 | with the final stream closed: if some word occurs exactly once in the input, the pipeline does not panic |
| Tournament.SingleBatchAnswer | algo.go:84-113 | with the final stream closed: when the input fits one batch, the answer occurs exactly once in the input, and the pipeline panics exactly when no word does |
| Tournament.CheckedAnswerUnique | algo.go:103-113 | with survivors also checked against all the results, the answer occurs exactly once in the results, for any number of batches, and there is one exactly when some word does |
| Tournament.AnswerNotGloballyUnique | algo.go:84-113 | with the final stream closed: three copies of a word in batches of two answer that word, which occurs three times |

## Left out

- Goroutines and channels: every stage runs to completion before the next
  reads its output. For `findUniqueFromStream`'s reading loop and for the workers
  this changes nothing that is sent. For `getUniqueResult` it does: the
  `results` channel (algo.go:78) is unbuffered and read only from algo.go:108
  on, after the batching loop. The second-stage goroutine therefore blocks at
  its first flush of a non-empty queue (algo.go:26-28), and once
  `partitionStream` (capacity `WordsPerWorker`, algo.go:77) is full the
  batching loop blocks at algo.go:62. With more than 2·`WordsPerWorker`+1
  results and a word occurring once in the first batch, the Go code blocks
  forever. The blocking is not modelled.
- The goroutine started at algo.go:79-82 reads the variable `partitionStream`
  when it calls `findUniqueWords`, and algo.go:103 assigns that variable a new
  channel. If the goroutine is scheduled late, the second stage reads the
  final stage's unbuffered stream instead of the batches: a data race. The
  model gives the second stage the batches.
- Tournament.GetUniqueResult: describes the pipeline with `close(partitionStream)`
  after algo.go:113; as written it never answers (`Tournament.GetUniqueResultAsWritten`).
- Tournament.Reduce: describes the stages with the final stream closed; as
  written nothing is sent (`Tournament.ReduceAsWritten`).
- Tournament.FinalStage: states the closing flush of algo.go:48-54, which as
  written is never reached (`Tournament.OpenFinalStageSilent`).
- Tournament.AnswerIsFirstOnce: is about the answer of the corrected
  pipeline; as written there is no answer and no panic.
- Tournament.UniqueWordAnswered: is about the corrected pipeline; as written
  there is no answer.
- Tournament.SingleBatchAnswer: is about the corrected pipeline; as written
  there is no answer and no panic.
- Tournament.AnswerNotGloballyUnique: is about the corrected pipeline; as
  written there is no answer.
- `processWordsWorker` (algo.go:69-72) is `findUniqueWords` without
  `onlyFirstUnique` on one worker's stream, covered by
  `PartitionRuns.ReportsRunUniques`; the workers, their streams and
  `wordProcessor` are not part of this model. The workers' results reach
  `getUniqueResult` in an order the scheduler picks, so
  `Tournament.GetUniqueResult` takes any sequence.
- `WordsPerWorker` is not defined in the files modelled; it is the positive
  parameter `wordsPerWorker`. The buffer size `SizeReadBuffer` and the other
  memory constants are computed in floating point; the buffer size is the
  parameter `bufSize`.
- `main()`, the command-line check, printing, progress logging and
  `log.Fatal` on read and seek errors: the model's file never fails to read or
  seek.
- Unicode: text is one character per byte. `Tokenizer.IsSpace` holds for the
  separator bytes below 0x80 that `strings.Fields` splits on (tab, newline,
  vertical tab, form feed, carriage return, blank). The multi-byte separators
  that `strings.Fields` finds by decoding UTF-8 (U+0085, U+00A0, U+2000 and
  the others of `unicode.IsSpace`) are not modelled: their bytes count as
  word bytes.
- The opened file, its `Stat` size and `Close`: the reader is its contents and
  a position. `Seek` with `whence` other than the current position is not used
  by the program and not modelled, nor a seek outside the file.
- Stream.FindUniqueFromStream: a pass that consumes nothing (the buffer, not
  at end of file, is one unbroken word at least as long as the buffer) makes
  the Go loop read the same bytes forever; the model stops with the `Stalled`
  error instead. A buffer of one byte, not at end of file, panics at
  main.go:37 in both, as `IndexOutOfRange` in the model.
- Tournament.SortByPartition: `sort.Slice` is not stable and fixes no order
  among equal partitions; the model sorts by selection, and every statement
  about the pipeline is made for any sorted permutation of each batch.
- `test/gen_data.py` (test data generation) is not part of this model.

## Findings

| source | as written | input that shows it | evidently intended | confidence | as-written member | corrected member |
|---|---|---|---|---|---|---|
| algo.go:103-113 | the stream made at algo.go:103 is never closed; its entries all have partition 0, so the final `findUniqueWords` never flushes in its loop, never reaches its closing flush, and the channel `result` receives nothing | any input, for instance one result with `WordsPerWorker` 1 | `close(partitionStream)` after the loop ending at algo.go:113, so that the final stage sends the front of its queue | high, not executed | Tournament.GetUniqueResultAsWritten | Tournament.GetUniqueResult |
| algo.go:84-113 | every batch is reduced on its own and only the survivors reach the final stage, so a word occurring once in one batch and twice in another survives and can be the answer | three results with the same word, `WordsPerWorker` 2: batches of two and one, the lone copy answers | the answer occurs exactly once among the results, for instance by checking the survivors against all the results | high, not executed | Tournament.AnswerNotGloballyUnique | Tournament.CheckedAnswerUnique |
