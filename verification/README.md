# Verified models of the game server's core components

This project models the parts of the server framework that carry real algorithms in their
headers, and proves what those algorithms are for. It holds for every input, every run and
every interleaving unless a line below says otherwise.

| file | component |
|---|---|
| `SudokuStats.dfy` | sliding-window statistics against the full history of responses |
| `MonitorQueues.dfy`, `MonitorProofs.dfy`, `MonitorResults.dfy` | blocking queues, condition variables and the mutex's holder, as a protocol of any number of threads |
| `Buffers.dfy`, `BufferRuns.dfy`, `Bytes.dfy` | the network buffer against a plain byte sequence; integers in network order |
| `TimingWheel.dfy` | the idle-connection wheel against the age of each entry |
| `WorkerChoice.dfy` | round-robin worker choice with a wrapping counter |
| `PaddedCiphers.dfy`, `CipherTexts.dfy` | the AES and DES wrappers: padding, blocks, Base64, unpadding |
| `Replacing.dfy`, `HtmlCodec.dfy`, `HtmlDecoding.dfy`, `HtmlEntities.dfy` | substring replacement one by one and at once; the HTML entity codec |
| `Percentiles.dfy` | nearest-rank percentiles and the latency histogram |
| `ReplaySlots.dfy` | the recycled vectors of a game replay |
| `Registry.dfy` | the registries of sessions and connections |
| `CircularBuffers.dfy` | `boost::circular_buffer` as a sequence |
| `Options.dfy` | a value that may be missing, and how a call may end |

Objects that the C++ code updates in place are classes with the same fields. Where a claim is
about everything that ever happened to an object, the class carries a ghost `log` of its calls,
and `Valid()` ties the fields to functions of that log; every method keeps it, so it holds after
every run. The threads of the queues are a state machine instead: its actions are single
statements of `lock`, `unlock`, `wait`, `notify`, `put`, `take` and `drain`, and the proofs
are about every sequence of enabled actions.

## What turned out not to hold, and exactly when it does

- **The last minute.** The "60-second" figures of the statistics are not always those of the last
  60 seconds: the window does not reach back beyond the second of the response that opened it
  (`WindowStart`), so an answer in second 95 after one in second 100 is not counted
  (`LatecomerIsLost`). They are exact if and only if no response of the last minute came after the
  one that opened the window with an earlier second; so they are for every history in order
  (`LastMinuteExactly`).
- **The overall average.** `latency_us_avg` divides the latency of the timed responses by the number
  of all responses. It never exceeds the slowest one, but responses that were answered before they
  were received, by the clock, can bring it below the quickest: one of 1000 microseconds and one
  such response give 500 (`UntimedDilutesAverage`). Without them it lies in between
  (`OverallAverage`).
- **HTML round trip.** `Decode(Encode(s))` is not `s` for all texts: `Decode` turns `&amp;` into
  `&` first, so an entity that was in the text already gets decoded (`LiteralEntityIsLost`).
  The round trip amounts to one scan that decodes those entities, and gives `s` back if and only
  if `s` contains no entity of the table other than `&amp;` (`RoundTripDecodesOnce`,
  `RoundTripExactly`).
- **HTML decoding.** For the same reason `Decode` is not one simultaneous substitution: it makes
  `<` of `&amp;lt;` (`DecodedTwice`). It is if and only if the text contains no entity whose
  ampersand is encoded itself (`DecodesAtOnceExactly`).
- **AES terminator.** The array for the decrypted text has just its length, and the code writes a NUL
  behind it. Decrypting writes past the array whenever the decoded text is not empty and the key has
  an AES size; so it does for every text that was encrypted (`TerminatorOverruns`). The number of
  bytes behind the array that may be written is an argument, `spare`, of the model, and the texts
  come back only if it is positive. A decoded text that is not made of whole blocks is read and
  written past its end as well.
- **AES round trip.** With a 16-byte key without a NUL, the text comes back if and only if the final
  regular expression accepts all of its bytes, the byte behind the array being writable
  (`AesRoundTrip`). Encryption cuts every key at its first NUL or after 16 bytes and pads it,
  decryption takes it as it is. So all accepted texts come back under all ciphers if and only if the
  key is such a key (`AesKeysExactly`); for the 24-byte and 32-byte keys that decryption accepts, and
  for keys with a NUL, there is a cipher that loses a text of one byte (`UnequalKeysLoseAText`), and a
  key of any other size loses every text but the empty one (`OtherKeysLoseTheText`).
- **DES round trip.** The cipher text is built in an array of 1024 bytes. A byte string comes back if
  and only if it is shorter than that; encrypting a longer one writes past the end of the array
  (`DesRoundTrip`, `LongTextOverruns`). Decrypting a text that decodes to nothing, or not to whole
  blocks, reads the padding outside of the clear text (`DesDecrypt`).
- **Histogram.** `save` divides towards zero, so a bucket opened by a negative value that is no
  multiple of five also counts smaller values: a single -3 is counted as one of 0..4
  (`NegativeIsMiscounted`). On sorted data its rows are right if and only if every negative value
  is accompanied by the start of its interval (`HistogramExact`).
- **Round robin.** Across the wrap-around of the counter, and from -1 to 0, n calls in a row may
  serve a worker twice, as three calls for three workers do from -1 (`WorkerServedTwice`); they
  serve everyone exactly once if and only if the slip is a multiple of n (`EachOnceExactly`).

Where comments and code disagree the model follows the code: the comment at `readInt64` asks for
four readable bytes, the code needs eight; `reset` of the statistics leaves `droppedRequests_`.

## Model

| member | source | states |
|---|---|---|
| CircularBuffers.PushBack | thirdpart/muduo-vip/examples/sudoku/stat.h:112-113 | a full buffer drops its oldest element, a buffer with room drops nothing |
| SudokuStats.SudokuStat.constructor | thirdpart/muduo-vip/examples/sudoku/stat.h:6-19 | a new object stands for the empty history |
| SudokuStats.SudokuStat.RecordResponse | thirdpart/muduo-vip/examples/sudoku/stat.h:85-160 | whatever the clock does, both buffers stay the exact per-second counts and latency sums of the whole history over the window, and the counters its totals |
| SudokuStats.SudokuStat.RecordTimed | thirdpart/muduo-vip/examples/sudoku/stat.h:101-158 | the five cases of the clock all lead to the window and the totals of the longer history |
| SudokuStats.SudokuStat.Reset | thirdpart/muduo-vip/examples/sudoku/stat.h:68-83 | the history starts again; dropped requests are kept |
| SudokuStats.SudokuStat.Report | thirdpart/muduo-vip/examples/sudoku/stat.h:40-63 | the 60-second figures are the history's over the window, and those of the last 60 seconds if and only if there is no latecomer; they never exceed what was recorded; their average lies between the quickest and the slowest response in the window, and the overall one is at most the slowest response, and at least the quickest if all are timed |
| SudokuStats.WindowEndsAtLatest | thirdpart/muduo-vip/examples/sudoku/stat.h:183-189 | the window has 1 to 60 seconds and ends with the latest second of any timed response |
| SudokuStats.WindowStart | thirdpart/muduo-vip/examples/sudoku/stat.h:107-158 | the window reaches back 60 seconds from its end, but not beyond the second of the last response that came first or a whole window later than all before it |
| SudokuStats.LastMinuteExactly | thirdpart/muduo-vip/examples/sudoku/stat.h:142-158 | the window counts all of the last 60 seconds if and only if no response of that minute came after the opening one with an earlier second; every history in order is such |
| SudokuStats.LatecomerIsLost | thirdpart/muduo-vip/examples/sudoku/stat.h:142-158 | answers in seconds 100 and 95 are counted as one, though both lie in the last minute |
| SudokuStats.WindowNeverRetreats | thirdpart/muduo-vip/examples/sudoku/stat.h:117-158 | however the history goes on, neither end of the window moves back, so evicted and discarded seconds never return |
| SudokuStats.SudokuStat.PushEmptySeconds | thirdpart/muduo-vip/examples/sudoku/stat.h:120-129 | a jump of less than a window fills the seconds between with empty ones and keeps the totals exact |
| SudokuStats.PushEmptySecond | thirdpart/muduo-vip/examples/sudoku/stat.h:123-128 | pushing an empty second, with or without eviction, keeps the totals exact |
| SudokuStats.SumOverRange | thirdpart/muduo-vip/examples/sudoku/stat.h:43-57 | adding up per-second totals gives the range's total |
| SudokuStats.TotalsBoundRanges | thirdpart/muduo-vip/examples/sudoku/stat.h:91-99 | a range's count and the responses with negative latency never exceed all responses, its latency never the total, solved never the responses |
| SudokuStats.AverageBetweenExtremes | thirdpart/muduo-vip/examples/sudoku/stat.h:60-61 | a range's truncated average lies between two elapsed times that occur in it |
| SudokuStats.WholeRange | thirdpart/muduo-vip/examples/sudoku/stat.h:89-99 | over seconds that cover every timed response, count and latency are the overall ones, and all other responses are those with a negative latency |
| SudokuStats.OverallAverage | thirdpart/muduo-vip/examples/sudoku/stat.h:62 | the total latency lies between as many times the quickest and the slowest timed response, and the overall average accordingly |
| SudokuStats.UntimedDilutesAverage | thirdpart/muduo-vip/examples/sudoku/stat.h:91-99 | one response of 1000 microseconds and one with a negative latency average 500 |
| SudokuStats.OneResponse | thirdpart/muduo-vip/examples/sudoku/stat.h:40-160 | recording one response of 1000 microseconds in second 3 and reporting gives exactly these numbers |
| SudokuStats.WindowOfAMinute | thirdpart/muduo-vip/examples/sudoku/stat.h:117-193 | responses 59 seconds apart are both counted, of two 60 seconds apart only the later, and latencies are in microseconds |
| MonitorProofs.EveryRunIsSafe | thirdpart/muduo-vip/muduo/base/BoundedBlockingQueue.h:30-66 | every state that any interleaving reaches satisfies the mutex, queue and wakeup invariants, for both queue classes |
| MonitorProofs.QueueConserves | thirdpart/muduo-vip/muduo/base/BlockingQueue.h:31-59 | values taken or drained, then the queue, are the values put, in order; a bounded queue keeps its capacity |
| MonitorProofs.ActIsSafe | thirdpart/muduo-vip/muduo/base/BoundedBlockingQueue.h:37-63 | in every reachable state both asserts hold: put never overwrites and appends its value, take finds a front element, removes just that and returns it, and drain returns everything and leaves the queue empty |
| MonitorProofs.HolderIsExact | thirdpart/muduo-vip/muduo/base/Mutex.h:137-195 | after every run holder_ names the mutex's owner or nobody, isLockedByThisThread is true exactly between a thread's assignHolder and unassignHolder, across wait as well, and no two threads are inside the mutex |
| MonitorProofs.NoLostWakeup | thirdpart/muduo-vip/muduo/base/Condition.h:30-39 | after every run, while a thread waits, everything the queue offers its side is matched by woken threads on their way or a notify still owed |
| MonitorProofs.SomeThreadRuns | thirdpart/muduo-vip/muduo/base/Mutex.h:149-159 | after no run is the system stuck: while any thread is under way, some thread can run |
| MonitorProofs.WaitersHaveReason | thirdpart/muduo-vip/muduo/base/BoundedBlockingQueue.h:30-66 | when nothing can run after a run, a waiting consumer faces an empty queue and a waiting producer one filled to its capacity, the mutex is free and holder_ is 0 |
| MonitorProofs.StepDecreases | thirdpart/muduo-vip/muduo/base/BoundedBlockingQueue.h:30-66 | no livelock: without new calls and spurious wakeups a well-founded measure falls with every statement |
| MonitorProofs.Settles | thirdpart/muduo-vip/muduo/base/BoundedBlockingQueue.h:30-66 | every run can be continued by the threads alone to such a quiet state |
| MonitorResults.CallersGetWhatTheyRemoved | thirdpart/muduo-vip/muduo/base/BlockingQueue.h:31-69 | after every run, the results each thread got, in order, are what its calls removed: nothing for put, the front element for take, the whole queue for drain; and these calls are those it made, in order, but for one still pending |
| MonitorResults.FirstInFirstOut | thirdpart/muduo-vip/muduo/base/BoundedBlockingQueue.h:30-66 | after every run, what all calls removed, in order, followed by the queue, is what all calls put, in order |
| Bytes.IntRoundTrip | thirdpart/muduo-vip/muduo/net/Endian.h:28-56 | an integer written in network order and read back is unchanged, negative ones too |
| Bytes.BytesRoundTrip | thirdpart/muduo-vip/muduo/net/Endian.h:28-56 | n bytes read as an integer and written again are unchanged |
| Bytes.BigEndianAt | thirdpart/muduo-vip/muduo/net/Endian.h:28-56 | byte i of an n-byte number has the weight 256^(n-1-i), most significant byte first |
| Bytes.ValueOfParts | thirdpart/muduo-vip/muduo/net/Endian.h:28-56 | the number read from two pieces is the first one shifted by the length of the second, plus the second |
| Bytes.Pow256Sum | thirdpart/muduo-vip/muduo/net/Endian.h:28-56 | the weights are powers of 256 |
| Bytes.NetworkOrder | thirdpart/muduo-vip/muduo/net/Endian.h:28-56 | the bytes and numbers of some literal integers, and the ranges of two widths |
| Buffers.Buffer.constructor | thirdpart/muduo-vip/muduo/net/Buffer.h:51-59 | empty, with the reserve in front and the asked size writable |
| Buffers.Buffer.Swap | thirdpart/muduo-vip/muduo/net/Buffer.h:64-69 | the two contents and their spaces change places |
| Buffers.Buffer.Retrieve | thirdpart/muduo-vip/muduo/net/Buffer.h:122-133 | drops a prefix of the contents; taking everything restores the reserve |
| Buffers.Buffer.RetrieveAsString | thirdpart/muduo-vip/muduo/net/Buffer.h:173-179 | the result and the contents left are the contents before |
| Buffers.Buffer.Append | thirdpart/muduo-vip/muduo/net/Buffer.h:191-196 | contents grow by the data, in place when they fit |
| Buffers.Buffer.EnsureWritableBytes | thirdpart/muduo-vip/muduo/net/Buffer.h:203-210 | the asked bytes are writable and the contents unchanged; the sizes of the three regions are those of Reserved |
| Buffers.Buffer.HasWritten | thirdpart/muduo-vip/muduo/net/Buffer.h:218-222 | what lay in the writable region becomes readable |
| Buffers.Buffer.Unwrite | thirdpart/muduo-vip/muduo/net/Buffer.h:224-228 | drops a suffix of the contents |
| Buffers.Buffer.Prepend | thirdpart/muduo-vip/muduo/net/Buffer.h:408-414 | puts the data in front of the contents and uses up the reserve |
| Buffers.Buffer.Shrink | thirdpart/muduo-vip/muduo/net/Buffer.h:416-423 | same contents in a new array of exactly the size needed |
| Buffers.Buffer.MakeSpace | thirdpart/muduo-vip/muduo/net/Buffer.h:456-475 | contents unchanged whether it grows or compacts; growth stays below readable + 2 len + 8; compaction always moves towards the front |
| Buffers.Reserved | thirdpart/muduo-vip/muduo/net/Buffer.h:203-210 | making room keeps what is readable and the total free space, or grows the back to just what is asked; it never lowers the front below the reserve |
| Buffers.MoveDown | thirdpart/muduo-vip/muduo/net/Buffer.h:468-470 | copying front to back within the array is right even where the stretches overlap |
| Buffers.Buffer.AppendInt | thirdpart/muduo-vip/muduo/net/Buffer.h:233-272 | contents grow by the integer in network order, byte by byte by weight |
| Buffers.Buffer.PrependInt | thirdpart/muduo-vip/muduo/net/Buffer.h:367-406 | the integer comes in front of the contents, in network order |
| Buffers.Buffer.ReadInt | thirdpart/muduo-vip/muduo/net/Buffer.h:278-362 | what was read, written again, and the contents left are the contents before; the first bytes were those of the integer by weight |
| BufferRuns.ExecuteAll | thirdpart/muduo-vip/muduo/net/Buffer.h:64-475 | any run of calls on two buffers, swaps included, that meets the asserts shows exactly what the same calls make of plain byte sequences, and the room on both sides is exactly the predicted one |
| BufferRuns.ReserveLasts | thirdpart/muduo-vip/muduo/net/Buffer.h:48-475 | whatever a run does, the cheap prepend reserve is used up by prepends only |
| BufferRuns.Transmit | thirdpart/muduo-vip/muduo/net/Buffer.h:191-362 | first in, first out: with appends and reads of mixed widths in any interleaving, the values read are the first ones pending or sent, in order, and the others are in the buffer |
| BufferRuns.ReadsUndoesEncode | thirdpart/muduo-vip/muduo/net/Buffer.h:233-362 | any list of integers of mixed widths is read back unchanged and the rest of the bytes stays |
| BufferRuns.AppendThenRead | thirdpart/muduo-vip/muduo/net/Buffer.h:233-362 | integers appended to whatever the buffer holds are read back behind it, across growth and compaction |
| BufferRuns.PrependThenRead | thirdpart/muduo-vip/muduo/net/Buffer.h:278-406 | prepending and reading restores value and contents |
| BufferRuns.OnTheWire | thirdpart/muduo-vip/muduo/net/Buffer.h:233-330 | appending 0x01020304 and -2 puts the bytes 1, 2, 3, 4, 255, 254 into a new buffer, and the bytes 0, 0, 0, 1 are read as 1 |
| TimingWheel.Buckets.Push | Framework/game_gate/EntryPtr.h:77-115 | push and update insert a live connection's entry now and change nothing else |
| TimingWheel.Buckets.Pop | Framework/game_gate/EntryPtr.h:64-76 | a tick releases exactly the entries last inserted size ticks ago, never earlier or later |
| TimingWheel.Buckets.HeldExactlyWhileFresh | Framework/game_gate/EntryPtr.h:54-119 | an entry is held if and only if fewer than size ticks passed since its last insertion |
| TimingWheel.Buckets.HeldForSizeTicks | Framework/game_gate/EntryPtr.h:54-119 | over any run after its last insertion an entry is held exactly while the run has fewer than size ticks |
| TimingWheel.SinceIsLatest | Framework/game_gate/EntryPtr.h:84 | re-inserting an entry makes it younger than all its earlier insertions |
| TimingWheel.SinceCountsTicks | Framework/game_gate/EntryPtr.h:71 | an entry's age is the number of ticks since it was inserted |
| TimingWheel.TicksAddUp | Framework/game_gate/EntryPtr.h:64-76 | ticks are counted one by one |
| WorkerChoice.AtomicInt32.GetAndAdd | thirdpart/muduo-vip/muduo/base/Atomic.h:45-49 | returns the old value and wraps around at 32 bits |
| WorkerChoice.SetWorker | Framework/game_gate/EntryPtr.h:164-181 | the index is within bounds for every counter and any number of workers; up to 2^31 workers it is the remainder of the counter, and beyond that the branch that restarts the counter is taken exactly when the low 32 bits of the remainder read as negative |
| WorkerChoice.InTurn | Framework/game_gate/EntryPtr.h:164-181 | a new counter serves the workers in turn for 2^31 calls |
| WorkerChoice.Conversions | thirdpart/muduo-vip/muduo/base/Atomic.h:45-49 | the counter and its conversion to size_t are kept modulo 2^32 and 2^64 |
| WorkerChoice.SetWorkers | Framework/game_gate/EntryPtr.h:164-181 | calls in a row get the workers that Choices predicts; n calls are a permutation of the workers if and only if the slip is a multiple of n |
| WorkerChoice.EachOnceExactly | Framework/game_gate/EntryPtr.h:174 | n calls in a row visit each worker exactly once if and only if the slip at a change of the counter's sign is a multiple of n |
| WorkerChoice.WorkerServedTwice | Framework/game_gate/EntryPtr.h:174 | from counter -1, two of three calls get the same one of three workers |
| WorkerChoice.ChoiceByCases | Framework/game_gate/EntryPtr.h:174 | the workers of a series are consecutive remainders, shifted once where the counter changes its sign |
| PaddedCiphers.Padding | thirdpart/https/aes.h:31-41 | fills a block with the number of missing bytes |
| PaddedCiphers.StringToHex | thirdpart/https/aes.h:43-52 | a block holds the C string's first 16 bytes, padded; a null pointer gives a block of padding |
| PaddedCiphers.AesEcbEncrypt | thirdpart/https/aes.h:55-93 | the Base64 text of the encrypted blocks of the padded text |
| PaddedCiphers.ChunksArePkcs7 | thirdpart/https/aes.h:73-89 | for text without NULs, cutting and filling up is the padding of section 6.3 of RFC 5652 |
| PaddedCiphers.ClearPadding | thirdpart/https/aes.h:95-115 | writes a NUL where the run of equal bytes at the end starts, if it is found |
| PaddedCiphers.ClearingUndoesPkcs7 | thirdpart/https/aes.h:95-115 | that NUL and C-string truncation undo the padding for every pad length |
| PaddedCiphers.AesEcbDecrypt | thirdpart/https/aes.h:164-195 | decrypts block by block, unpads, and gives back only texts the regular expression accepts; it leaves its arrays when the decoded text is not made of whole blocks or nothing may be written behind it |
| PaddedCiphers.EcbRoundTrip | thirdpart/https/aes.h:178-182 | block-wise decryption undoes block-wise encryption |
| PaddedCiphers.AesRoundTrip | thirdpart/https/aes.h:55-195 | decrypting an encrypted text gives it back if and only if every byte of it is accepted and the byte behind the array may be written |
| CipherTexts.RejectedTextIsLost | thirdpart/https/aes.h:190-195 | a text with a byte that is not accepted comes back as the empty text, not as a part of it |
| CipherTexts.AesAllOrNothing | thirdpart/https/aes.h:164-195 | whatever the cipher text, decryption gives all of the clear text without padding, or nothing, and nothing exactly if that is empty or has a byte that is not accepted |
| CipherTexts.AesEncryptsBlocks | thirdpart/https/aes.h:55-93 | each block of the cipher text is the encryption of the same block of the padded text under the key |
| CipherTexts.CutAtRunStart | thirdpart/https/aes.h:95-115 | the heuristic cuts where the run of equal bytes at the end starts, if it has 2 to 16 bytes or is a single byte below 16, and nowhere otherwise |
| CipherTexts.Pkcs7Is | thirdpart/https/aes.h:212-224 | the padding is 1 to n bytes that tell their number and complete the last block |
| CipherTexts.PaddedText | thirdpart/https/aes.h:31-52 | literal texts, a text with a NUL among them, and their padding |
| PaddedCiphers.TerminatorOverruns | thirdpart/https/aes.h:175-184 | with the array as declared, decrypting any encrypted text with a key of AES size writes past it |
| PaddedCiphers.KeysAgree | thirdpart/https/aes.h:66-67 | encryption uses the same key as decryption if and only if the key has 16 bytes and no NUL |
| PaddedCiphers.OtherKeysLoseTheText | thirdpart/https/aes.h:167-170 | with a key of another length only the empty text comes back |
| PaddedCiphers.UnequalKeysLoseAText | thirdpart/https/aes.h:66-67 | for any other AES key, 24 and 32 bytes included, there is a cipher under which a text of one byte is lost |
| PaddedCiphers.AesKeysExactly | thirdpart/https/aes.h:55-195 | all accepted texts come back under all ciphers if and only if the key has 16 bytes and no NUL, and the byte behind the array may be written |
| PaddedCiphers.Pkcs5Padding | thirdpart/https/aes.h:212-224 | the padding of section 6.1.1 of RFC 8018 |
| PaddedCiphers.DesEncrypt | thirdpart/https/aes.h:226-252 | the Base64 text of the encrypted blocks of the padded data, or a write past the array of 1024 bytes |
| PaddedCiphers.DesDecrypt | thirdpart/https/aes.h:254-286 | decrypts block by block and removes as many bytes as the last one says, throws if those are too many, and reads out of range if there is no last byte or no whole block |
| PaddedCiphers.DesRoundTrip | thirdpart/https/aes.h:212-286 | a byte string comes back if and only if it is shorter than 1024 bytes |
| CipherTexts.DesEncryptsBlocks | thirdpart/https/aes.h:226-252 | each block of the cipher text is the encryption of the same block of the padded data under the first 8 bytes of the key |
| CipherTexts.DesDecryptsExactly | thirdpart/https/aes.h:254-286 | whatever the cipher text, the clear text is decrypted block by block, and as many bytes are removed as its last one says |
| PaddedCiphers.LongTextOverruns | thirdpart/https/aes.h:228-247 | encrypting 1024 bytes writes past the array |
| Replacing.OneByOneIsAtOnce | thirdpart/https/htmlcodec.h:297-299 | with separate search strings and inert replacements, a chain of replace_all calls is one simultaneous substitution |
| Replacing.ThereAndBack | thirdpart/https/htmlcodec.h:321-323 | replacing all at once and back finds what was put in and what was there already, and nothing else |
| Replacing.UnchangedExactly | thirdpart/https/htmlcodec.h:321-323 | a scan with shorter replacements leaves a text alone exactly when no search string occurs in it |
| HtmlCodec.TableIsGood | thirdpart/https/htmlcodec.h:24-180 | the 22 active lines: the ampersand first, every symbol one UTF-8 character, every entity a longer name of letters, all symbols and all names different |
| HtmlCodec.EncodingWorks | thirdpart/https/htmlcodec.h:24-180 | no symbol overlaps another, and no later symbol is part of an earlier entity |
| HtmlCodec.DecodingWorks | thirdpart/https/htmlcodec.h:24-180 | without the ampersand, no entity overlaps another, no symbol put in completes a later one, and symbols and entities share no first byte |
| HtmlCodec.Encode | thirdpart/https/htmlcodec.h:280-302 | ordered replacement equals one simultaneous substitution of every symbol |
| HtmlCodec.Decode | thirdpart/https/htmlcodec.h:304-326 | the entities are replaced in the order of the table |
| HtmlCodec.AmpersandsBack | thirdpart/https/htmlcodec.h:321-323 | the first step of decoding takes back exactly the encoding of ampersands |
| HtmlCodec.RoundTripDecodesOnce | thirdpart/https/htmlcodec.h:280-326 | encoding and decoding amounts to decoding, in one scan, the entities that the text contained, except "&amp;" |
| HtmlCodec.RoundTripExactly | thirdpart/https/htmlcodec.h:280-326 | the text comes back if and only if it contains no entity other than "&amp;" |
| HtmlCodec.LiteralEntityIsLost | thirdpart/https/htmlcodec.h:280-326 | the text "&lt;" comes back as "<" |
| HtmlDecoding.DecodesAtOnceExactly | thirdpart/https/htmlcodec.h:304-326 | on any text, decoding is a scan for "&amp;" and one for all other entities; it equals a single scan for all of them if and only if no entity is encoded twice |
| HtmlDecoding.ScansCompared | thirdpart/https/htmlcodec.h:321-323 | the two scans give the same as one, or something shorter exactly when an entity is encoded twice |
| HtmlDecoding.DecodedTwice | thirdpart/https/htmlcodec.h:304-326 | "&amp;lt;" is decoded to "<", which a single scan does not do |
| HtmlEntities.ThereAndBackAlone | thirdpart/https/htmlcodec.h:24-180 | each of 22 characters, given by code point, is encoded as its HTML entity and decoded from it |
| HtmlEntities.CharacterEncoded | thirdpart/https/htmlcodec.h:280-302 | such a character is encoded as its entity whatever follows |
| HtmlEntities.OtherByteEncoded | thirdpart/https/htmlcodec.h:280-302 | any byte that begins no such character is copied; with the row above this determines the encoding of every text |
| HtmlEntities.EntityDecodes | thirdpart/https/htmlcodec.h:304-326 | an entity other than "&amp;", and one whose ampersand is encoded, is decoded to its character whatever follows |
| HtmlEntities.AmpersandDecodes | thirdpart/https/htmlcodec.h:304-326 | any other "&amp;" is decoded to an ampersand |
| HtmlEntities.OtherByteDecodes | thirdpart/https/htmlcodec.h:304-326 | any byte that begins no entity is copied; with the two rows above this determines the decoding of every text |
| HtmlEntities.SomeByTheirBytes | thirdpart/https/htmlcodec.h:26-66 | three characters and their entities, byte by byte |
| Percentiles.GetPercentile | thirdpart/muduo-vip/examples/sudoku/percentile.h:80-91 | on sorted data: at least the wanted share of the data is no larger than the result and less than that share is smaller; for a share of nothing it is the smallest value |
| Percentiles.IndexInBounds | thirdpart/muduo-vip/examples/sudoku/percentile.h:84-89 | the index is in bounds, and its rank is the smallest that covers the wanted share |
| Percentiles.IndexMonotone | thirdpart/muduo-vip/examples/sudoku/percentile.h:84-89 | a larger percentage never gives an earlier index |
| Percentiles.NearestRank | thirdpart/muduo-vip/examples/sudoku/percentile.h:77-91 | on sorted data the value at the computed index meets that definition |
| Percentiles.NearestRankUnique | thirdpart/muduo-vip/examples/sudoku/percentile.h:77-91 | no other value does |
| Percentiles.CountBelowPlaces | thirdpart/muduo-vip/examples/sudoku/percentile.h:77-91 | the counts in that definition are numbers of places in the data |
| Percentiles.Save | thirdpart/muduo-vip/examples/sudoku/percentile.h:44-70 | the rows cut the data into runs, each up to the first value beyond its interval, with running sums up to the size of the data |
| Percentiles.HistogramExact | thirdpart/muduo-vip/examples/sudoku/percentile.h:44-70 | on sorted data each row counts exactly its own interval if and only if every negative value comes with the start of its interval; always so for non-negative data |
| Percentiles.RowsAreFives | thirdpart/muduo-vip/examples/sudoku/percentile.h:44-65 | rows start at multiples of five, at the first value of their run rounded towards zero |
| Percentiles.HistogramUnique | thirdpart/muduo-vip/examples/sudoku/percentile.h:44-70 | the data determine the rows |
| Percentiles.ZeroAndSeven | thirdpart/muduo-vip/examples/sudoku/percentile.h:44-70 | the values 0 and 7 are printed as one each in the rows 0 and 5 |
| Percentiles.NegativeIsMiscounted | thirdpart/muduo-vip/examples/sudoku/percentile.h:44-70 | the histogram of a single -3 is wrong |
| ReplaySlots.Slots.Clear | public/gameStruct.h:419-433 | the round is empty and the vector keeps its length |
| ReplaySlots.Slots.Add | public/gameStruct.h:436-529 | the valid slots are the round's entries in order, and the vector is as long as the longest round |
| ReplaySlots.RoundIsAdds | public/gameStruct.h:419-529 | a round consists of what was added since the last clear, in order |
| ReplaySlots.LongestIsMaximum | public/gameStruct.h:419-529 | that length is the number of entries of some round so far, and of no round less |
| Registry.Sessions.Add | Framework/game_gate/Entities.h:206-222 | returns the session that stood before, and the new one stands |
| Registry.Sessions.Get | Framework/game_gate/Entities.h:224-239 | returns the session whose login is the user's latest and was not logged out, or the empty string |
| Registry.Sessions.Remove | Framework/game_gate/Entities.h:241-256 | a late logout of a displaced session changes nothing |
| Registry.StandsUnique | Framework/game_gate/Entities.h:199 | at most one session stands for a user |
| Registry.StandsAfter | Framework/game_gate/Entities.h:206-256 | how each login and logout changes which sessions stand |
| Registry.Entities.Add | Framework/game_gate/Entities.h:99-115 | returns the connection that was registered, and after every run the map holds exactly the connections that were added and not ended since |
| Registry.Entities.Get | Framework/game_gate/Entities.h:117-131 | returns the connection that is registered for the user, or none if there is none |
| Registry.Entities.RemoveConnection | Framework/game_gate/Entities.h:150-166 | erases exactly that connection, if it is the one that is registered |
| Registry.HoldsAfter | Framework/game_gate/Entities.h:99-188 | how each addition and removal changes which connections are registered |
| Registry.LiveConnectionStays | Framework/game_gate/Entities.h:168-188 | over any run, a live connection stays registered until another one takes its place, it is removed itself, or its own session is |
| Registry.Entities.Remove | Framework/game_gate/Entities.h:168-188 | erases the user's connection exactly when it is gone or has that session; a live connection of another session stays, and the map remains exact |

## Left out

- MonitorQueues.Step: `put` and `take` are control points of a state machine and not methods with loops, since nothing bounds how often a thread waits; `Condition::notifyAll` and timed waits are not used by the queues and not modelled.
- SudokuStats.SudokuStat.RecordResponse: counters are unbounded, the overflow of the int64 totals is not modelled; responses must be at least one second after the epoch, because second 0 marks an empty window.
- Buffers.Buffer.AppendInt: one method stands for the four widths (as do PrependInt, PeekInt and ReadInt), with v == false; the other value writes the integer twice.
- Buffers.Buffer.MakeSpace: sizes are unbounded, the wrap-around of size_t near 2^64 is not modelled; a grown vector has exactly the size asked for, capacity is not modelled.
- TimingWheel.Buckets.Pop: the timer that calls it again, and references to entries held outside the wheel, are not modelled; push and update have the same body and share one method.
- PaddedCiphers.AesEcbEncrypt: the block ciphers, key schedules and Base64 are parameters, known only to be inverse to each other.
- PaddedCiphers.AesEcbDecrypt: what is in memory after leaving an array is not modelled; the byte just before the text, read for a block of nothing but padding, is an argument; so is the set of bytes the regular expression accepts.
- PaddedCiphers.DesEncrypt: what is in memory after leaving the array is not modelled.
- Percentiles.Save: the percentage column (running sum divided by size) and the text format are left out; so are minimum, maximum, mean and the sorting of the constructor.
- Registry.Entities.Remove: which connections are live, and the sessions in their contexts, are an argument; broadcasting is left out, and so is the string-keyed registry.
- `findCRLF`, `findEOL`, `readFd`, `readFull` and the SSL functions of the buffer: searches and I/O.
- The choice of a worker by a hash of the session, and the same algorithms again in the API server.
- Everything that is only declared in headers: game logic, tables, robots, RPC, websocket framing.
- Sockets, databases, logging and configuration: I/O and foreign code.
