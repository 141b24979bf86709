# A model of FileSync and what holds of it

FileSync stores files for many users: browsers upload them in chunks, hash them in a worker, share them,
move and delete them; the server keeps one physical object for equal files and counts its records.
This project models that logic in Dafny and proves what the code promises, or exactly when it does.

| module | models |
|---|---|
| `Basics`, `Numerals`, `Words`, `JsNumbers` | bytes, Go's 64-bit sums, positional numerals, 32-bit words, and JavaScript's 32-bit operators on its numbers |
| `Sha256Spec` | SHA-256 as FIPS 180-4 defines it: sections 4.1.2, 4.2.2, 5.1.1, 5.3.3 and 6.2.2 |
| `Sha256Bits` | what that definition comes to on single bits, in plain arithmetic and for its constants |
| `Sha256Words`, `Sha256Worker` | the browser's incremental hasher, refined to that definition |
| `Pat` | access tokens: long division in place, base 62, the format check |
| `Slices`, `UploadPool`, `UploadProtocol`, `UploadServer`, `ResumedUpload` | resumable chunked upload: cutting, the browser's workers, browsers and handlers as steps, the handlers themselves, and one browser's upload from status query to completion |
| `SharedStorage`, `StorageEffects`, `FileStore` | file records that share stored objects, as steps, what each step does to rows and objects, and as handlers |
| `TokenRotation` | refresh tokens and their lineages |
| `Csv` | the CSV preview's parser |
| `Paths`, `MoveDir`, `UniqueNames`, `Listing` | path names, moving a directory, numbered names, directory listings |
| `RateLimit` | the fixed-window limiter |
| `OrderLog` | orders and their status log |

Where the source changes an object step by step the model is a class; each of its methods is tied to a function
of the old state, and the lemmas are about that function: invariants and whole runs, and, under names such as
`...Does` and `...Is`, which inputs it takes and what it does to each field. Failures of the database and of the stores are
parameters of the steps (records named `...Faults`, `Write`, `failing`); whatever a handler ignores, the model ignores.

What the code does differently from what its comments say, or only under a condition, is stated as an exact
condition or an example:

- The limiter lets 2n - 1 requests through within one window length, never more (`RateLimit.SlidingWindow`,
  `RateLimit.BoundIsReached`).
- A resumed upload is matched by name, space and fingerprint only. It assembles the first browser's file in every
  run exactly when both browsers cut the same slices and the count of chunks does not wrap
  (`UploadProtocol.ResumeIff`); with one file the former means equal chunk sizes, unless both cover the file
  (`UploadProtocol.ResumeSameFileIff`).
- The count of chunks is a 64-bit sum that wraps when file size and chunk size add up to more than 2^63. It is then
  never positive (`Slices.ChunkCountIff`); when it is 0 the gate is open at once and an empty file completes
  (`UploadProtocol.WrappedCount`).
- Sending a recorded chunk again truncates its file first. When the server cannot write it to the end (a request that
  breaks off does not get that far), the completed file is cut short, and the gate does not notice (`UploadProtocol.TornRepeat`). What is assembled is still never wrong in any other
  way: it is the original exactly when its length is right (`UploadProtocol.RunsAreGood`), which the lengths of
  the chunk files tell beforehand (`UploadProtocol.CompleteIff`).
- A chunk is answered as received even if its row could not be inserted, so a browser may return normally and the gate
  stay shut (`ResumedUpload.ReturnMeansRecorded`, `ResumedUpload.LostRow`).
- A chunk index beyond the file is accepted and counted by the gate (`UploadProtocol.OutOfRangeIndex`).
- The exception of a failed upload names at most five chunks (`UploadPool.UploadAllOutcome`).
- With no worker at all `uploadAll` returns as if everything had been uploaded (`UploadPool.NoWorkers`).
- Editing a shared file changes it for everybody, and leaves the other records with the old size and hash
  (`SharedStorage.EditIff`, `SharedStorage.EditOfSharedFile`). For a record in the object store the editor writes a
  local file named like the record's whole storage path, which no record refers to (`SharedStorage.EditSafe`).
- A direct upload's hash is its client's word, and instant uploads for that hash are served its bytes
  (`SharedStorage.ForeignHash`).
- Handlers that overlap can do what single ones cannot: an instant upload whose source is purged before its insert
  (`SharedStorage.OverlappingCheckAndPurge`), and two rotations of one token
  (`TokenRotation.OverlappingRotationsSplitLineage`).
- The prefix query ignores the case of ASCII letters, so a directory move or listing also takes in directories
  that differ only in case (`MoveDir.OutsideUntouchedIff`, `MoveDir.MoveUniqueIff`, `Listing.SubdirectoryBalance`).
- Moving a directory there and back restores every name exactly when there is no such directory and the new place
  is not inside the old one (`MoveDir.MoveAndBack`).
- A numbered name leaves its directory when the last dot is in the directory part (`UniqueNames.NumberedKeepsDirectory`).
- The two listings disagree on names such as `notes.keep`, and on names that the query returns in another letter case,
  from which the share listing cuts nothing off and the web client cuts the length of the path
  (`Listing.ListingsBalance`, `Listing.ListingsAgreeIff`, `Listing.VariantSplitsListings`).
- A CSV text that ends in an empty cell without a line break loses that row (`Csv.OpenRoundTrip`).
- A lost log entry breaks an order's path, and every run that loses no other entry leaves it broken
  (`OrderLog.LostEntryBreaksForGood`); losing the entry of the change back mends it (`OrderLog.LosingBothWaysMends`).
- A token body that is well-formed may be too large to be generated (`Pat.GeneratedIff`).
- The comment at `web/sha256.worker.js:19` cites section 5.3.1 of FIPS 180-4; the initial value is that of section 5.3.3.

## Model

| member | source | states |
|---|---|---|
| JsNumbers.PackedBytes | web/sha256.worker.js:54-55 | four bytes shifted and ored together are their big-endian word, also when the signed result is negative |
| JsNumbers.LowByte | web/sha256.worker.js:149-152 | `& 0xff` of a shifted word is that byte of it |
| Words.BitwiseSums | web/sha256.worker.js:59-60 | exclusive or is the sum without the carries: twice the common bits are missing; inclusive or misses them once |
| Words.BitwiseBits | web/sha256.worker.js:70-74 | in each place `&` has the common ones, `\|` all, `^` a one where exactly one is |
| Sha256Spec.PaddingFills | web/sha256.worker.js:124-143 | a message and its padding fill whole blocks |
| Sha256Spec.PaddingIsLeast | web/sha256.worker.js:124-143 | no shorter run of zeros would do, as section 5.1.1 asks |
| Sha256Spec.FoldBlocksAppend | web/sha256.worker.js:110-113 | folding any step over a whole number of blocks and then over more is folding over both together |
| Sha256Spec.HashBlocksStep | web/sha256.worker.js:110-113 | the next 64 bytes of a message take the hash values on by one compression |
| Sha256Spec.BigEndianRoundTrip | web/sha256.worker.js:133-142 | the big-endian bytes of a number have its value, modulo what fits |
| Sha256Spec.HexStringInjective | web/sha256.worker.js:145-154 | different digests print differently |
| Sha256Bits.RotrBits | web/sha256.worker.js:44-46 | each bit of a rotated word is the bit n places up, round the end |
| Sha256Bits.ShrBits | web/sha256.worker.js:59-60 | each bit of a shifted word is the bit n places up, or zero |
| Sha256Bits.NotBits | web/sha256.worker.js:71 | complement turns every bit over |
| Sha256Bits.ChChooses | web/sha256.worker.js:71 | Ch takes the bit of f where e has a one, else that of g |
| Sha256Bits.MajCounts | web/sha256.worker.js:74 | Maj has a one where at least two of three have |
| Sha256Bits.SigmaBits | web/sha256.worker.js:70-73 | each bit of the large functions is the parity of the bits 2, 13 and 22, or 6, 11 and 25 places up |
| Sha256Bits.SmallSigmaBits | web/sha256.worker.js:59-60 | those of the small ones of the bits 7 and 18, or 17 and 19, places up round the end, and 3 or 10 up without |
| Sha256Bits.BlockWordIs | web/sha256.worker.js:52-56 | a word of a block is the value of its four bytes, highest first |
| Sha256Bits.InitialHashIs | web/sha256.worker.js:19-23 | the words of the digest start from the roots of the first eight primes, in their order |
| Sha256Bits.ScheduleIs | web/sha256.worker.js:58-62 | a word of the schedule is one sum modulo 2^32 of four terms |
| Sha256Bits.RoundIs | web/sha256.worker.js:69-81 | a round is two sums modulo 2^32, and the other registers move on by one |
| Sha256Bits.ConstantsFromFirstPrimes | web/sha256.worker.js:18-41 | the 64 constants come from the first 64 primes in order, those of the initial value from the first eight |
| Sha256Bits.PaddedLayout | web/sha256.worker.js:124-143 | the padded message is the message, 0x80, zeros, and eight bytes whose value is its length in bits |
| Sha256Bits.HexDigitIs | web/sha256.worker.js:149-152 | the digits are 0 to 9 and a to f |
| Sha256Bits.HexStringAt | web/sha256.worker.js:149-152 | each byte is printed as its high and then its low digit |
| Sha256Bits.WordBytesAt | web/sha256.worker.js:147-153 | each word as its four bytes, highest first |
| Sha256Words.RotrIsSplit | web/sha256.worker.js:44-46 | rotating a word to the right swaps its low n bits and the rest |
| Sha256Words.RotrRefined | web/sha256.worker.js:44-46 | the worker's `rotr`, taken modulo 2^32, is that rotation for every n from 1 to 31 |
| Sha256Words.BigSigma0Refined | web/sha256.worker.js:73 | `S0`, a signed 32-bit value, is the function of section 4.1.2 modulo 2^32 |
| Sha256Words.BigSigma1Refined | web/sha256.worker.js:70 | likewise `S1` |
| Sha256Words.SmallSigma0Refined | web/sha256.worker.js:59 | likewise `s0` of the schedule |
| Sha256Words.SmallSigma1Refined | web/sha256.worker.js:60 | likewise `s1` of the schedule |
| Sha256Words.ChRefined | web/sha256.worker.js:71 | likewise `ch` |
| Sha256Words.MajRefined | web/sha256.worker.js:74 | likewise `maj` |
| Sha256Words.SumOfFive | web/sha256.worker.js:72 | the untruncated sum of five terms, truncated once, is four additions of words |
| Sha256Words.SumOfFour | web/sha256.worker.js:61 | the same for the schedule's four terms |
| Sha256Worker.NextWordRefined | web/sha256.worker.js:58-62 | one pass of the second loop computes the next word of the schedule |
| Sha256Worker.RoundRefined | web/sha256.worker.js:69-81 | one pass of the third loop is one round of section 6.2.2 |
| Sha256Worker.Sha256.constructor | web/sha256.worker.js:18-29 | a new hasher has absorbed the empty message |
| Sha256Worker.Sha256.MessageSchedule | web/sha256.worker.js:50-62 | the first two loops compute the message schedule of section 6.2.2 |
| Sha256Worker.Sha256.ProcessBlock | web/sha256.worker.js:49-92 | for every state and block, h becomes the compression of h and the block |
| Sha256Worker.Sha256.TopUp | web/sha256.worker.js:97-108 | filling the carry buffer keeps h the fold over the blocks so far and the buffer the tail |
| Sha256Worker.Sha256.KeepRest | web/sha256.worker.js:114-120 | the last bytes are kept, and the hasher has absorbed all of the message |
| Sha256Worker.Sha256.Update | web/sha256.worker.js:95-121 | after any call the hasher has absorbed everything passed to it so far, in order: h is the fold over the complete blocks, the buffer the tail, bufferLen = totalLen mod 64 |
| Sha256Worker.MakePadding | web/sha256.worker.js:124-142 | the bytes appended are exactly the padding of section 5.1.1 |
| Sha256Worker.LengthBytes | web/sha256.worker.js:133-142 | the eight bytes taken from two 32-bit halves are the 64-bit length in bits |
| Sha256Worker.Sha256.PadMessage | web/sha256.worker.js:124-143 | padding leaves the digest in h and nothing in the buffer |
| Sha256Worker.ByteHexed | web/sha256.worker.js:149 | `toString(16).padStart(2, '0')` is the byte's two digits |
| Sha256Worker.WordHexed | web/sha256.worker.js:148-152 | the four pieces appended for a word are its eight digits |
| Sha256Worker.HexOf | web/sha256.worker.js:145-154 | the output loop prints the eight words |
| Sha256Worker.Sha256.Hex | web/sha256.worker.js:124-155 | whatever updates came before, the result is the SHA-256 of all their bytes, below 2^53 bytes |
| Sha256Worker.ComputeFileSha256 | web/sha256.worker.js:164-183 | the result is the SHA-256 of the file for every chunk size above zero |
| Pat.DivideBy62 | internal/auth/pat.go:62-71 | old value = 62 * new value + rem, rem < 62, every quotient digit a byte; allZero tells whether the new value is zero |
| Pat.DigitCount | internal/auth/pat.go:60-76 | while something of at most 32 bytes is left to divide there are fewer than 43 digits |
| Pat.FortyThreeDigits | internal/auth/pat.go:24-25 | 62^42 < 256^32 < 62^43, so 43 digits are needed and enough |
| Pat.Base62Digits | internal/auth/pat.go:52-76 | for any bytes the loop ends, and the reversed digits have their value |
| Pat.Printed | internal/auth/pat.go:78-82 | the printed string spells the digits in reading order |
| Pat.EncodeBase62Big | internal/auth/pat.go:52-89 | prefix and body spell a number equal to that of the bytes; 32 bytes give exactly 43 characters |
| Numerals.ValueInjective | internal/auth/pat.go:52-89 | equally long digit strings of one value are equal |
| Pat.SpellsUnique | internal/auth/pat.go:38 | a string spells at most one list of digits |
| Pat.TokensInjective | internal/auth/pat.go:42-49 | different 32 bytes give different tokens |
| Pat.TokenUnique | internal/auth/pat.go:52-89 | the bytes determine the token |
| Pat.TokensWellFormed | internal/auth/pat.go:102-116 | every generated token passes the check |
| Pat.TokenText | internal/auth/pat.go:22-38 | a token reads "fsk_" and 43 characters, and these stand for digits of the bytes' number: 0-9, A-Z, a-z for 0 to 61 |
| Pat.WellFormedSpells | internal/auth/pat.go:102-116 | the body of every well-formed string spells a number |
| Pat.GeneratedIff | internal/auth/pat.go:52-89 | such a string is the token of some 32 bytes exactly when that number is below 256^32 |
| Pat.NotEveryWellFormedTokenIsGenerated | internal/auth/pat.go:102-116 | so no body that starts with 'z' is ever generated |
| Pat.ValidatePatPlain | internal/auth/pat.go:103-116 | accepts exactly the well-formed strings, and says which of the first two checks failed |
| Slices.SlicesTile | web/app.js:734-737 | the slices of a file, as many as the server counts, glue together to the file, and none is empty |
| Slices.ChunkCountIff | internal/handler/upload_init.go:84 | the server's 64-bit count is the least number of chunks that cover the file exactly when file size and chunk size add up to at most 2^63; otherwise it is not positive |
| Slices.SliceHasLength | web/app.js:734-737 | the length of a slice follows from the file's size and the chunk size |
| Slices.GluePrefixes | internal/storage/local.go:190-201 | chunks that are prefixes of the right slices have the right total length exactly when every one of them is whole |
| Slices.MixIff | internal/handler/upload_init.go:160-197 | chunks of two browsers assemble to the first one's file in every mixture exactly when both cut the same slices |
| Slices.SameFileIff | internal/handler/upload_init.go:160-197 | of one file two chunk sizes cut the same slices exactly when they are equal or both cover it |
| Slices.PartSizeAllowed | internal/storage/storage.go:94-107 | parts are at least 5 MiB and at most 10000, exactly when file size and part size add up to at most 2^63; otherwise the count is not positive |
| Slices.BuildParts | internal/handler/upload_init.go:317-339 | under that condition the parts are numbered, adjoin, cover the file from its first to its last byte, none is empty, and only the last may be below 5 MiB; otherwise there is none |
| Slices.SmallFileOnePart | internal/storage/storage.go:96-99 | a file below 5 MiB is one part, whole |
| Slices.TilingCovers | internal/handler/upload_init.go:317-339 | every byte of a file in parts lies in exactly one of them |
| UploadPool.StepKeepsInv | web/app.js:770-788 | each step of each worker keeps the balance of taken, received, in flight and failed |
| UploadPool.RunsKeepInv | web/app.js:770-792 | in every interleaving what was taken is the disjoint union of what was received since, is in flight or failed, and each missing index is started once, in order |
| UploadPool.StepsDecrease | web/app.js:770-788 | every step brings the pool nearer to its end |
| UploadPool.Progress | web/app.js:770-792 | some step is possible exactly until all workers have returned |
| UploadPool.RunsEnd | web/app.js:770-792 | no interleaving has more than three steps an index and one a worker |
| UploadPool.RoundSplits | web/app.js:805-818 | a round tries each failed index once, adds those that succeed and keeps exactly the others |
| UploadPool.RetriesSplit | web/app.js:797-820 | the retries end with exactly the indices that were not received, each tried once more a round until it succeeds |
| UploadPool.ReportTells | web/app.js:821-824 | the message has the number of failed chunks and the first five, all of them exactly when there are at most five |
| UploadPool.UploadAllOutcome | web/app.js:758-825 | with at least one worker: a normal return means every missing index is received; an exception gives the number of those that are not, and five of them at most, distinct; every missing index is tried one to three times, one that stays missing three times, any other never |
| UploadPool.NoWorkers | web/app.js:789-792 | without workers the call returns normally with nothing new received |
| UploadPool.MissingIs | web/app.js:759-762 | the missing list is the indices below the total that are not received, each once |
| UploadPool.NothingMissing | web/app.js:763 | it is empty exactly when every index is received |
| UploadPool.EveryChunkReceived | web/app.js:758-825 | from the server's answer to the end: the return is normal exactly when every chunk of the file is received |
| UploadPool.UploadedGrows | web/app.js:747-751 | more received chunks never show less progress, and never more than the file |
| UploadPool.UploadedNeverDecreases | web/app.js:747-751 | in every interleaving, from any moment to the end of the workers' phase and of the retries, the bytes shown never decrease |
| UploadPool.UploadTask.CheckResumable | web/app.js:719-731 | received becomes what the server answered, and the progress shown fits it |
| UploadPool.UploadTask.Prepare | web/app.js:758-791 | uploadAll starts from exactly the missing indices with cursor 0 |
| UploadPool.UploadTask.ChunkStored | web/app.js:746-752 | exactly the index is added, and the progress shown does not go back |
| UploadPool.UploadTask.WorkerStep | web/app.js:770-788 | a stretch of a worker is one step of the pool, and the progress shown does not go back |
| UploadPool.UploadTask.RetryRound | web/app.js:805-818 | one round of retries, against its specification |
| UploadPool.UploadTask.FinishUpload | web/app.js:797-825 | the return or the exception with its count and first five indices, and the received set, are those UploadAllOutcome speaks of |
| UploadProtocol.InitResumes | internal/store/session_repo.go:52-61 | a request resumes only an active session of its own space, name and non-empty fingerprint, and changes nothing then |
| UploadProtocol.InitOpens | internal/handler/upload_init.go:228-252 | a new session has the request's terms, 512 KiB chunks by default, no chunk, and stands beside the others unchanged |
| UploadProtocol.InitRefuses | internal/handler/upload_init.go:46-71 | malformed, over-quota and conflicting requests open nothing; sound ones open or resume unless the insert fails; a matching session that was found is resumed |
| UploadProtocol.SaveChunkDoes | internal/handler/upload_chunk.go:114-136 | a chunk's bytes go, whole or cut short, to its own file of its own session, if that is or was seen active; nothing else changes |
| UploadProtocol.RowsDo | internal/store/session_repo.go:104-120 | recording, marking and clearing touch one field of one session each |
| UploadProtocol.AssembleDoes | internal/storage/local.go:169-207 | the gate compares two numbers; assembling adds one file exactly when every chunk file is there |
| UploadProtocol.AssembledAt | internal/storage/local.go:190-201 | each chunk stands in the assembled file right after those before it |
| UploadProtocol.NextDoes | internal/handler/upload_chunk.go:114-136 | what an event changes besides its handler's step: a browser keeps its own file and chunk size |
| UploadProtocol.StepExtends | internal/store/session_repo.go:114-120 | no step changes a session's size, chunk size or total, or takes back a recorded chunk |
| UploadProtocol.RunsKeepInv | internal/handler/upload_chunk.go:113-146 | in every run of browsers and handlers a recorded chunk has been stored whole, and is there until the session's file is assembled |
| UploadProtocol.FaithfulTotal | internal/handler/upload_init.go:84 | a session's count is that of its file's slices exactly when it did not wrap, and never larger |
| UploadProtocol.AssembledPrefixes | internal/storage/local.go:190-206 | what is assembled from prefixes of the slices is the original exactly when each of them is whole and the count did not wrap |
| UploadProtocol.RunsAreGood | internal/handler/upload_complete.go:237-250 | in every run whose browsers cut the same slices: stored chunks are prefixes of the right ones, and an assembled file is the original exactly when its length is right, and never longer |
| UploadProtocol.GateMeansAll | internal/handler/upload_complete.go:237-241 | the gate never opens for a negative count; else it opens when every chunk is recorded and none besides, and an open gate means that exactly when no recorded index is out of range |
| UploadProtocol.AssembledIsOriginal | internal/handler/upload_complete.go:237-275 | in every run, with any order, repetition, failure and interruption, every assembled file is byte for byte the original, provided that the session's browsers cut the same slices, the count did not wrap, no recorded index is out of range and no stored chunk is torn by a failing repetition |
| UploadProtocol.CompleteIff | internal/handler/upload_complete.go:237-250 | without the last three premises: assembling gives the original exactly when every chunk file has the length that the session's size and chunk size give its slice, and these add up to at most 2^63 |
| UploadProtocol.GateSuffices | internal/handler/upload_complete.go:237-250 | a request that passes the gate succeeds exactly when every chunk file is there; before the file is assembled that is always so, unless an index out of range was recorded |
| UploadProtocol.SharedRunAssembles | internal/handler/upload_init.go:160-197 | the run in which two browsers share a session and upload chosen chunks assembles just that mixture, or nothing when the count wraps |
| UploadProtocol.ResumeIff | internal/store/session_repo.go:49-61 | resuming with another file or chunk size assembles the first browser's file whoever sends which chunk, exactly when both cut the same slices and the count does not wrap |
| UploadProtocol.ResumeSameFileIff | internal/store/session_repo.go:49-61 | the same for one file with two chunk sizes: exactly when they are equal or both cover the file, and the count does not wrap |
| UploadProtocol.WrappedCount | internal/handler/upload_init.go:84 | a run in which the count wraps to 0 and an empty file completes, though nothing was torn and no index is out of range |
| UploadProtocol.TornRepeat | internal/storage/local.go:106-113 | a run in which a recorded chunk is sent again, its file cannot be written to the end, and the completed file is cut short |
| UploadProtocol.OutOfRangeIndex | internal/handler/upload_chunk.go:32-36 | a run in which an index beyond the file opens the gate, and the completed file is cut short |
| ResumedUpload.RecordedIff | internal/handler/upload_chunk.go:131-145 | in every run a chunk is recorded exactly when some handler stored it whole and then inserted its row without error |
| ResumedUpload.ReturnMeansRecorded | web/app.js:719-825 | when a browser that resumed from the server's status returns normally from uploadAll, every chunk is recorded exactly when no row insert for what it counts as received failed for good, whatever others did meanwhile |
| ResumedUpload.LostRow | internal/handler/upload_chunk.go:138-145 | a run in which one did: the browser returns normally and the gate stays shut |
| ResumedUpload.ReturnCompletes | web/app.js:758-841 | if no row was lost, somebody has not completed before and no index is out of range, the gate is open exactly when the count is not negative, and then completing succeeds; with the other premises of AssembledIsOriginal it yields the original file |
| UploadServer.UploadHandler.InitUpload | internal/handler/upload_init.go:40-252 | rejects empty files, bad names and sizes beyond 64 bits, reports an exhausted quota, reports a conflict unless told to force or rename, defaults the chunk size, resumes an active session of the same space, name and fingerprint if there is one, else opens a session with the wrapped chunk count |
| UploadServer.UploadHandler.UploadChunk | internal/handler/upload_chunk.go:113-146 | stores the chunk only in an active session, and answers "received" exactly when it was stored whole, even if it could not be recorded |
| UploadServer.UploadHandler.GetUploadStatus | internal/handler/upload_chunk.go:215-233 | the missing list is the one the browser's pool computes, empty exactly when all is recorded |
| UploadServer.UploadHandler.AssembleFile | internal/storage/local.go:169-207 | succeeds exactly when all chunk files are there, and glues them together in order |
| UploadServer.UploadHandler.CompleteUpload | internal/handler/upload_complete.go:190-285 | completes exactly when the gate opens and the assembly succeeds; otherwise nothing changes |
| SharedStorage.ReferencesZero | internal/store/trash_repo.go:155-166 | the count is zero exactly when no row, live or trashed, has the path |
| SharedStorage.FreeKeeps | internal/handler/trash.go:211-225 | freeing never takes an object that a record needs, whatever fails |
| SharedStorage.FreeIsExact | internal/handler/trash.go:211-225 | without faults the object goes exactly when nothing refers to it |
| SharedStorage.FreeIs | internal/handler/trash.go:211-225 | with any fault: exactly when nothing refers to it and neither counting nor deleting fails |
| SharedStorage.FreeAllIsExact | cmd/server/main.go:262-279 | the start-up clean-up frees exactly the listed objects that nothing refers to and for which some entry does not fail, also when several expired rows share a path |
| SharedStorage.PurgeKeeps | internal/handler/trash.go:200-225 | permanent deletion keeps every remaining record's object and measurements, whatever fails |
| SharedStorage.PurgeOrphans | internal/handler/trash.go:200-225 | it leaves an object without a record exactly when counting or deleting fails for the last record of its path |
| SharedStorage.PurgeAllKeeps | internal/handler/trash.go:265-286 | the same for emptying the trash: an orphan is left exactly when one of its purges leaves one |
| SharedStorage.CleanUpKeeps | cmd/server/main.go:262-279 | the same for the start-up clean-up: exactly when every entry for an object that nothing refers to fails |
| SharedStorage.SaveShareKeeps | internal/handler/share_save.go:194-258 | saving a share keeps all three invariants |
| SharedStorage.StepKeeps | internal/handler/trash.go:200-225 | every step keeps "each record has its object" whatever fails, "each object has a record" exactly when it does not leak one, and "size and hash are those of the bytes" unless it is an edit |
| SharedStorage.RunsAreSafe | internal/handler/upload_check.go:83-101 | in every reachable state the object of every live or trashed record exists, whatever failed on the way |
| SharedStorage.RunsLeaveNoOrphan | internal/handler/trash.go:211-225 | throughout a run every stored object has a record exactly when no step leaks one |
| SharedStorage.EditSafe | internal/handler/file_text.go:195-207 | an edit keeps every record's object, and leaves an orphan exactly when it writes for a record of the object store |
| SharedStorage.EditIff | internal/handler/file_text.go:195-221 | an edit, whichever of its steps fails, keeps all recorded sizes and hashes true exactly when the written bytes fit every other record of that object, and for a record of the object store its untouched object fits the new bytes |
| SharedStorage.CleanEditIff | internal/handler/file_text.go:195-221 | without faults and for a local file: exactly when the new bytes keep the size and hash of every other record with that path |
| SharedStorage.StepAgreesIff | internal/handler/file_text.go:195-221 | every step whatsoever keeps recorded sizes and hashes true, except exactly an edit that does not fit |
| SharedStorage.RunsAgree | internal/handler/upload_check.go:86-92 | in every run whose edits fit, size and hash of each record measured by the server are those of its object |
| SharedStorage.InstantUploadDelivers | internal/handler/upload_check.go:62-101 | an instant upload gives the caller a record whose object exists, and has the hash and size asked for exactly when the source's record is true of it; always when the server measured the source and recorded values agree |
| SharedStorage.ForeignHash | internal/handler/upload_complete.go:344-345 | a run in which the source's hash was its client's word, and wrong |
| SharedStorage.OthersRecordsUntouched | internal/store/trash_repo.go:94-153 | whatever fails, no step changes or removes a record of somebody else, unless an administrator, a rename or the clean-up takes it |
| SharedStorage.RestoreUndoesDelete | internal/handler/trash.go:110-165 | restoring undoes a deletion exactly when no other live file has taken the name |
| SharedStorage.SavedNamesUnique | internal/handler/share_save.go:214-258 | with fewer names in use than are tried, saving never gives two live files of a space and owner one name |
| SharedStorage.LateInsertIff | internal/handler/upload_check.go:62-101 | a record inserted late is safe exactly when its object is still there, and where no object is without a record exactly when counting its path first gives more than zero |
| SharedStorage.LateInsertAfterRun | internal/handler/upload_check.go:62-101 | the same for any run between the query for the source and the insert: a positive count is always enough, and needed when no step leaked an object |
| SharedStorage.OverlappingCheckAndPurge | internal/handler/upload_check.go:62-101 | a run in which it has been |
| SharedStorage.EditOfSharedFile | internal/handler/file_text.go:195-221 | a run in which editing falsifies the record of an instant upload |
| StorageEffects.CompleteDoes | internal/handler/upload_complete.go:243-275 | the object's bytes, whole or torn, and the row's every field, or no row |
| StorageEffects.ComposeDoes | internal/handler/upload_complete.go:206-224 | the same for a direct upload, whose hash is the client's |
| StorageEffects.CreateTextDoes | internal/handler/file_text.go:52-96 | refused exactly when a live file the caller sees has the name; else object and row, or neither when the insert fails and the clean-up does not |
| StorageEffects.MkdirDoes | internal/handler/file_dir.go:46-95 | the same for a placeholder of no bytes |
| StorageEffects.CheckUploadDoes | internal/handler/upload_check.go:62-101 | exactly when such a live row has the hash and size asked for, no other live file of the caller has the name and nothing fails, there is a new row of the caller's owner, space and name that otherwise copies it; nothing else changes |
| StorageEffects.SaveOneDoes | internal/handler/share_save.go:194-258 | saved is exactly what the share offers and is no placeholder; the new row is the caller's and otherwise a copy |
| StorageEffects.SavedName | internal/handler/share_save.go:214-221 | under the last segment of its name in the target directory, unchanged if that is free |
| StorageEffects.DeleteDoes | internal/handler/file_delete.go:23-41 | a deletion marks one live row of the caller, or of anybody for an administrator |
| StorageEffects.BatchDeleteDoes | internal/handler/file_delete.go:129-153 | a batch marks exactly the listed rows for which that holds and whose update succeeds |
| StorageEffects.DeleteDirTakes | internal/store/trash_repo.go:24-52 | a directory deletion marks exactly the caller's live rows of the space whose names the prefix query matches |
| StorageEffects.RestoreDoes | internal/handler/trash.go:128-157 | a trashed row the caller sees is unmarked exactly when no live one has its name |
| StorageEffects.PurgeDoes | internal/store/trash_repo.go:121-153 | only a trashed row of the caller goes, and no object changes |
| StorageEffects.PurgeAllDoes | internal/handler/trash.go:265-286 | of a list exactly those rows, except where the deletion fails |
| StorageEffects.EmptyTrashDoes | internal/handler/trash.go:239-286 | emptying takes all of the caller's trash in the space and nothing else |
| StorageEffects.CleanUpDoes | internal/store/trash_repo.go:172-219 | the start-up clean-up takes exactly the rows trashed before the cutoff |
| StorageEffects.CleanUpSpares | internal/store/trash_repo.go:172-219 | a live row, or one trashed later, never goes |
| StorageEffects.ReportedIs | cmd/server/main.go:262-279 | the number it logs is that of the entries without a record left whose count worked, even where the deletion then failed |
| StorageEffects.RenameDoes | internal/handler/file_dir.go:240-254 | a rename changes only names, and only those of the rows it lists |
| StorageEffects.EditDoes | internal/handler/file_text.go:168-221 | an edit overwrites the file of one live row the caller may change, and that row's size and hash |
| FileStore.StaysSafe | internal/handler/trash.go:200-225 | every request to the handlers below keeps "each record has its object", and each of them ensures it |
| FileStore.Repository.CompleteUpload | internal/handler/upload_complete.go:243-275 | a record whose size and hash are measured, or none if the row cannot be inserted, which goes unnoticed |
| FileStore.Repository.CreateTextFile | internal/handler/file_text.go:52-96 | refused when the name is taken; the object is removed again when the row cannot be inserted |
| FileStore.Repository.Mkdir | internal/handler/file_dir.go:46-95 | a placeholder object and record, or neither unless the removal fails too |
| FileStore.Repository.CheckUpload | internal/handler/upload_check.go:62-101 | a record that shares a live source's object, exactly when a source matches and no other file has the name |
| FileStore.Repository.SaveShareToMyFiles | internal/handler/share_save.go:194-258 | one record a saved file, sharing its object, under the name returned |
| FileStore.Repository.DeleteFileByID | internal/handler/file_delete.go:15-57 | marks the file exactly when it is live and the caller may delete it |
| FileStore.Repository.BatchDelete | internal/handler/file_delete.go:129-153 | marks them one after another; the successes are the number of files that went to the trash, and with the failures add up to the request |
| FileStore.Repository.DeleteDir | internal/handler/file_delete.go:61-108 | marks exactly the live visible files that the prefix query finds, or none, and reports their number |
| FileStore.Repository.MarkAll | internal/store/trash_repo.go:39-47 | the transaction's loop marks exactly the listed rows |
| FileStore.Repository.Restore | internal/handler/trash.go:110-165 | unmarks a visible trashed file unless its name is taken; succeeds exactly when something changes |
| FileStore.Repository.FreeObject | internal/handler/trash.go:211-225 | counting first, then deleting: the step that FreeIsExact speaks of; it reports a deletion exactly when the count was made and is zero, even if the deletion fails |
| FileStore.Repository.PermanentDelete | internal/handler/trash.go:185-225 | removes one row and perhaps its object, or changes nothing |
| FileStore.Repository.ListTrashedFiles | internal/store/trash_repo.go:54-92 | all trashed rows the caller sees in the space, each once |
| FileStore.Repository.EmptyTrash | internal/handler/trash.go:239-286 | purges exactly these; the reported number of successes is the number of rows that are gone |
| FileStore.Repository.ListExpired | internal/store/trash_repo.go:172-198 | all rows trashed before the cutoff, each once |
| FileStore.Repository.CleanUpTrash | cmd/server/main.go:262-279 | all these rows first, then their objects one by one; the number logged counts each listed row whose path nothing refers to |
| FileStore.Repository.UpdateFileContent | internal/handler/file_text.go:159-221 | writes in place and then updates only the edited row; succeeds exactly when the caller may and nothing fails |
| TokenRotation.IssueIsLive | internal/auth/token_rotate.go:130-198 | a login is live at once with its user and scope, unless signing or storing fails |
| TokenRotation.GoodTokenRotates | internal/auth/token_rotate.go:216-309 | a live, unexpired token of the right user is rotated: the answer and the new row carry the user and scope of its login |
| TokenRotation.RotatesIff | internal/auth/token_rotate.go:207-300 | and exactly such a token is, not blacklisted as far as that can be read, with nothing needed for the answer failing |
| TokenRotation.RefusalsHaveReasons | internal/auth/token_rotate.go:207-300 | each refusal names its reason and leaves sessions and history as they were |
| TokenRotation.BlacklistAfterRotate | internal/auth/token_rotate.go:302-309 | a rotation touches at most its own token's blacklist entry, which lasts as long as the token |
| TokenRotation.RotateWithoutStore | internal/auth/token_rotate.go:225-240 | without a session store nothing else is kept and no scope is granted |
| TokenRotation.RevokeDoes | internal/auth/token_rotate.go:320-340 | a revocation touches one row and one blacklist entry |
| TokenRotation.UserCallsDo | internal/store/oauth_repo.go:455-466 | revoking or deleting a user touches that user's rows only |
| TokenRotation.LoginAndRefresh | internal/auth/token_rotate.go:130-309 | a run: login, refresh, and the first token refused after it |
| TokenRotation.StepKeepsInv | internal/auth/token_rotate.go:216-309 | every call, with the blacklist absent or failing, keeps: no token rotated twice, one live token a lineage, user and scope as granted |
| TokenRotation.RunsKeepInv | internal/auth/token_rotate.go:130-348 | the same over every run |
| TokenRotation.ReachableInv | internal/auth/token_rotate.go:130-348 | so it holds in every state reachable from empty stores |
| TokenRotation.DeadStaysDead | internal/store/oauth_repo.go:428-473 | no call revives a revoked or rotated token |
| TokenRotation.NeverAcceptedAgain | internal/auth/token_rotate.go:216-309 | it is refused after any further calls, whatever the blacklist does |
| TokenRotation.RevocationEndsSession | internal/store/oauth_repo.go:469-473 | the row is revoked exactly when the token parses and the store accepts the write |
| TokenRotation.RevocationTakesEffect | internal/auth/token_rotate.go:320-340 | a rotation that would have succeeded is refused after the revocation exactly when the session store accepted it, or the blacklist did and can be read |
| TokenRotation.RevokeAllTakesEffect | internal/auth/token_rotate.go:343-348 | revoking a user ends that user's sessions and no other |
| TokenRotation.EndedForever | internal/auth/token_rotate.go:216-309 | a login none of whose tokens is live never gets a live one again, in any run |
| TokenRotation.EndedIsRefused | internal/auth/token_rotate.go:225-234 | and none of its tokens is rotated |
| TokenRotation.RevocationEndsLogin | internal/auth/token_rotate.go:320-340 | so revoking the live token ends the whole login for good |
| TokenRotation.RevokeAllEndsLogins | internal/auth/token_rotate.go:343-348 | and revoking a user ends all of that user's logins for good |
| TokenRotation.ReplayWithoutStore | internal/auth/token_rotate.go:216-309 | without a session store a rotated token can be rotated again at any later time before it expires, exactly when the blacklist is absent, was not written or cannot be read then |
| TokenRotation.CommitAfterCheck | internal/store/oauth_repo.go:428-453 | the unconditional commit keeps the invariant exactly when the token was not rotated meanwhile and nothing else of its lineage is live |
| TokenRotation.OverlappingRotationsSplitLineage | internal/store/oauth_repo.go:428-453 | two overlapping rotations leave a lineage with two live tokens |
| TokenRotation.RefreshTokenManager.IssueTokenPair | internal/auth/token_rotate.go:130-198 | issuing, against its step |
| TokenRotation.RefreshTokenManager.RotateTokens | internal/auth/token_rotate.go:202-317 | rotating, with every refusal in the order of the checks, against its step |
| TokenRotation.RefreshTokenManager.RevokeRefreshToken | internal/auth/token_rotate.go:320-340 | revoking one token, against its step |
| TokenRotation.RefreshTokenManager.RevokeAllUserTokens | internal/auth/token_rotate.go:343-348 | revoking a user's tokens, against its step |
| Csv.ParseCsv | web/app.js:2476-2519 | the loop is the state machine that the lemmas speak of |
| Csv.RoundTrip | web/app.js:2476-2519 | parsing inverts printing for every list of non-empty rows of arbitrary strings, whichever cells are quoted, for LF and CRLF, as section 2 of RFC 4180 asks |
| Csv.FitsIs | web/app.js:2496-2509 | any cell may be quoted; one without comma, quote and line break need not be |
| Csv.ParseText | web/app.js:2476-2519 | on a text: plain cells between commas, CRLF, a quoted cell with a doubled quote, LF |
| Csv.OpenRoundTrip | web/app.js:2513-2517 | without the last line break: exactly when the last row is not one empty cell, which is lost |
| Csv.ParsedRowsNonEmpty | web/app.js:2476-2519 | no parsed row is empty |
| Csv.ParseIsStable | web/app.js:2476-2519 | printing what was parsed from any text, in full quotes, and parsing again gives the same table |
| Csv.RunDoubled | web/app.js:2486-2494 | inside quotes any string with its quotes doubled is read back |
| Paths.EscapeLikePrefix | internal/store/file_repo.go:309-319 | the loop escapes each special character and keeps the others |
| Paths.EscapedPrefixQuery | internal/store/file_repo.go:120-126 | no wildcard survives: the query selects exactly the names with that prefix, up to ASCII case |
| Paths.LikeIs | internal/store/file_repo.go:120-126 | the LIKE operator by a pattern's first character: `%` any run, `_` any one, `\|` the next literally, others themselves up to case |
| Paths.LowerIs | internal/store/file_repo.go:120-126 | the case that is ignored is that of A to Z |
| Paths.TrimSpaceIs | internal/handler/file.go:232 | white space goes at both ends up to what is none |
| Paths.CollapsedFacts | internal/handler/file.go:231-243 | a pass that collapses double slashes shortens the string and keeps its segments |
| Paths.SegmentsAre | internal/handler/file.go:231-243 | the segments are what stands between the slashes, without the empty ones |
| Paths.NormalizeDirPath | internal/handler/file.go:231-243 | ends; the result has no backslash, no double slash and a final slash unless empty, keeps the non-empty segments, and still starts with a slash exactly when the trimmed input starts with two |
| Paths.ValidateFilePath | internal/handler/upload_util.go:63-86 | accepts exactly the names of at most 1024 bytes without backslash whose segments are none of "", "." and ".." |
| Paths.WellFormedIs | internal/handler/upload_util.go:63-86 | for a name put together from segments: exactly when no segment is empty or dots, there is no backslash and at most 1024 bytes |
| Paths.ByteLengthIs | internal/handler/upload_util.go:63-86 | a character counts its one to four bytes in UTF-8 |
| Paths.SplitEmpties | internal/handler/upload_util.go:63-86 | the checks for a leading slash and for double slashes are implied by the one for empty segments |
| MoveDir.FileTable.MoveDir | internal/handler/file_dir.go:189-265 | the checks in order, then the loop, for normalised prefixes |
| MoveDir.FileTable.RenameAll | internal/handler/file_dir.go:240-254 | renames exactly the listed files whose update succeeds, and counts both kinds |
| MoveDir.MoveKeepsNamesUnique | internal/handler/file_dir.go:240-254 | after every iteration live names are unique, unless a case variant of the directory collides |
| MoveDir.MoveUniqueIff | internal/handler/file_dir.go:202-254 | a complete move keeps names unique exactly when none collides |
| MoveDir.CaseVariantExample | internal/store/file_repo.go:120-126 | a table in which one does |
| MoveDir.OutsideUntouchedIff | internal/handler/file_dir.go:240-254 | files outside the old prefix are untouched exactly when no visible file is a case variant of it |
| MoveDir.OnlyNamesChange | internal/handler/file_dir.go:240-254 | no file appears or disappears, and storage paths, owners and spaces never change |
| MoveDir.MoveAnswers | internal/handler/file_dir.go:202-262 | each refusal exactly when its check fails on the files the caller's query returns, and the two counts |
| MoveDir.ForeignUntouched | internal/store/file_repo.go:124-126 | deleted files and files of other users and spaces stay where they are, whatever fails |
| MoveDir.OwnMoved | internal/handler/file_dir.go:240-254 | the caller's live files below the directory keep the rest of their names |
| MoveDir.AncestorRefused | internal/handler/file_dir.go:202-238 | a move to a directory above changes nothing |
| MoveDir.MoveAndBack | internal/handler/file_dir.go:202-254 | after any complete move, moving back restores the table exactly when the new directory is not below the old one, in any letter case, and no visible file is a case variant of the old one; a nested move back is refused |
| MoveDir.NestedMoveStays | internal/handler/file_dir.go:202-238 | a table whose move below itself cannot be undone |
| MoveDir.CaseVariantStays | internal/store/file_repo.go:120-126 | a table in which a case variant does not get its name back |
| UniqueNames.ItoaInjective | internal/handler/share_misc.go:105 | different numbers print differently |
| UniqueNames.CandidatesDistinct | internal/handler/share_misc.go:90-110 | the 10000 names tried are pairwise distinct |
| UniqueNames.GenerateUniqueFilename | internal/handler/share_misc.go:90-113 | the first of them that is free, else the one with the time |
| UniqueNames.UniqueNameIs | internal/handler/share_misc.go:90-113 | a free name is kept; else the lowest free number from 1 to 9999 is taken, else the time |
| UniqueNames.NumberedIs | internal/handler/share_misc.go:96-105 | the number goes between an underscore and the extension |
| UniqueNames.NumberedPlain | internal/handler/share_misc.go:96-105 | or at the end when there is no dot, or only a leading one |
| UniqueNames.ItoaReads | internal/handler/share_misc.go:105 | the numeral is decimal, reads back as the number and has no leading zero |
| UniqueNames.CandidatesFill | internal/handler/share_misc.go:104-110 | as many names are in use as candidates were taken |
| UniqueNames.UniqueNameIsFree | internal/handler/share_misc.go:86-113 | with at most 9999 names in use the result is unused |
| UniqueNames.UniqueNameTaken | internal/handler/share_misc.go:86-113 | it is in use exactly when all candidates and the name with the time are |
| UniqueNames.SavedNamesFresh | internal/handler/share_save.go:214-221 | the names of one save loop are distinct from all earlier ones and from those in use |
| UniqueNames.NumberedKeepsDirectory | internal/handler/share_misc.go:96-102 | a numbered name stays in its directory exactly when the last dot is not inside the directory part |
| Listing.ListShareDir | internal/handler/share_download.go:409-432 | the loop is the fold that the lemmas speak of |
| Listing.SharePlaceIs | internal/handler/share_download.go:411-431 | where the share listing puts a name: nowhere, here, or below its first segment |
| Listing.CountsAddUp | internal/handler/share_download.go:409-432 | the subdirectories' counts and the direct files add up to the files shown |
| Listing.ListingTotal | internal/handler/share_download.go:409-432 | for well-formed names they add up to the number of names that do not end in ".keep" |
| Listing.QueryTotal | internal/handler/share_download.go:409-432 | for what the query returns: the files under the path that do not end in ".keep", and those it returns in another letter case |
| Listing.CountOfIsCount | internal/handler/share_download.go:419-422 | each count is the number of files below that subdirectory |
| Listing.SubdirectoryBalance | internal/handler/share_download.go:409-438 | for well-formed names, the total of listing a subdirectory and the count its directory shows for it differ exactly by the names that match in another letter case, each kind counted on one side |
| Listing.SubdirectoryCount | internal/handler/share_download.go:409-438 | so the count is that total exactly when both kinds are equally many |
| Listing.CaseVariantListing | internal/store/file_repo.go:120-126 | two files for which they differ |
| Listing.BuildChildren | web/app.js:1530-1555 | the loop is the fold that the lemmas speak of |
| Listing.ChildPlaceIs | web/app.js:1534-1552 | where the web client puts it, and that a placeholder makes its directory appear with no file |
| Listing.WellFormedIsRegular | internal/handler/upload_util.go:63-86 | well-formed names under a directory meet what both listings ask |
| Listing.PlacesMove | web/app.js:1530-1555 | what one more name returned by the query adds to either listing |
| Listing.ListingsBalance | web/app.js:1530-1555 | for all that the query returns of well-formed names, each subdirectory's counts and the numbers of direct files in the two listings differ exactly by the names that only end in ".keep" or match in another letter case |
| Listing.ListingsAgreeIff | web/app.js:1530-1555 | both show the same direct files and non-zero counts exactly when the web client shows none of those names as a direct file and each subdirectory gets equally many of them in both |
| Listing.UsualListingsAgree | web/app.js:1530-1555 | so they agree when there is no such name |
| Listing.VariantSplitsListings | internal/store/file_repo.go:120-126 | two names, none of them ending in ".keep", for which they differ |
| RateLimit.Limiter.Allow | cmd/auth-svc/main.go:206-222 | one request changes its own bucket only, by one step of the window |
| RateLimit.StepKeepsInv | cmd/auth-svc/main.go:208-220 | each step keeps the bounds on the current and the previous window |
| RateLimit.RunKeepsInv | cmd/auth-svc/main.go:206-222 | in every run with non-decreasing times the current window holds as many admissions as it counts, at most n |
| RateLimit.SlidingWindow | cmd/auth-svc/main.go:198-223 | any closed interval as long as the window sees at most 2n - 1 admissions |
| RateLimit.BurstAdmitted | cmd/auth-svc/main.go:206-222 | a burst around the end of a window is admitted entirely |
| RateLimit.BoundIsReached | cmd/auth-svc/main.go:206-222 | and reaches 2n - 1 within one window length, for every n and window |
| RateLimit.NothingAdmitted | cmd/auth-svc/main.go:215-219 | a limit below one admits nothing |
| OrderLog.Store.CreateOrder | internal/biz/order.go:16-38 | a new order with its first entry from "" |
| OrderLog.Store.UpdateOrderStatus | internal/biz/order.go:104-122 | nothing when the status stays, else the status and one entry from the old to the new one; without error the order has the status asked for |
| OrderLog.Store.PayOrder | internal/biz/order.go:125-139 | nothing when already paid or delivering; without error the order is one of these |
| OrderLog.Store.CreateRefund | internal/biz/order.go:170-184 | a pending refund, and the order is being refunded |
| OrderLog.Store.AuditRefund | internal/biz/order.go:187-210 | the refund's decision; without error the order is refunded or paid again unless its own update fails |
| OrderLog.CreateDoes | internal/biz/order.go:16-38 | the row, pending by default, and its first entry |
| OrderLog.UpdateDoes | internal/biz/order.go:104-122 | a status is set and logged exactly when it changes and no statement fails |
| OrderLog.PayDoes | internal/biz/order.go:125-139 | paid is set and logged unless the order is paid or delivering |
| OrderLog.OpenRefundDoes | internal/biz/order.go:170-184 | the refund is pending and its order updated to refunding |
| OrderLog.AuditDecides | internal/biz/order.go:187-210 | an approved refund is completed and its order refunded, a rejected one leaves its order paid |
| OrderLog.PathIs | internal/biz/order.go:141-145 | what a path is, entry by entry |
| OrderLog.StepKeepsConsistent | internal/biz/order.go:104-145 | each call keeps every order's log a path without stutter to its status |
| OrderLog.LogsArePaths | internal/biz/order.go:16-210 | in every run whose log inserts succeed: the first entry starts from "", each entry starts where the one before ended, none stays in place, and the last ends in the current status |
| OrderLog.OthersUntouched | internal/biz/order.go:104-210 | a call leaves status and log of every other order alone, whatever fails |
| OrderLog.LostEntryBreaksPath | internal/biz/order.go:116-121 | when the log insert of a call fails, the logs still lead to the statuses exactly when nothing was changed |
| OrderLog.LostEntryBreaksForGood | internal/biz/order.go:116-121 | otherwise the order's log is broken after every further run that loses no entry |
| OrderLog.LosingBothWaysMends | internal/biz/order.go:116-121 | but losing the entry of the change back restores the tables as they were |

## Left out

- Sha256Worker.Sha256.Hex: for 2^53 bytes and more, where JavaScript's numbers are no longer exact; files that long cannot be opened in a browser.
- UploadProtocol.AssembledIsOriginal: its premises on the count, repetitions and indices are sufficient; it is false without them (UploadProtocol.WrappedCount, UploadProtocol.TornRepeat, UploadProtocol.OutOfRangeIndex), and UploadProtocol.CompleteIff is exact.
- UploadProtocol.RunsAreGood: one write to a chunk file is one step; two handlers that write one chunk at the same moment, and an assembly that reads a chunk while it is being written, are not modelled.
- SharedStorage.StepKeeps: a handler is one step; what overlapping handlers can do is shown by SharedStorage.LateInsertIff and TokenRotation.CommitAfterCheck only.
- UploadPool.UploadAllOutcome: pausing and cancelling; after a pause the worker takes an index without checking the bound again.
- UploadServer.UploadHandler.InitUpload: the answers of the query for a file of that name and of the quota are parameters.
- MoveDir.MoveKeepsNamesUnique: an administrator over all spaces, for whom names are not unique to begin with.
- The direct-upload workers (`web/app.js:883-933`) are the same pool over parts and are not repeated.
- The upload path with Redis, which marks a chunk received before its data is read, so that recorded does not imply stored.
- Completion of direct uploads beyond the record it creates: the client's hash is taken on trust.
- The command-line client, whose file position does not move past chunks it skips.
- Files written by the agent service, WebDAV, archives, thumbnails and video segments.
- Cryptography: signatures and `HashPAT` are abstract, stored bytes are hashed by an arbitrary function, random ids are assumed new.
- Database errors inside name look-ups, which the code treats as "no such file".
- MySQL's collation; letters outside ASCII are compared exactly, as SQLite does.
- Unicode white space beyond the listed characters in trimming, and text as UTF-8 or UTF-16: characters are Dafny's.
- Expiry and rotation times other than refresh tokens', cookies, the accounting of quotas, roles, services and tickets.
- Refund amounts, and an order's payment fields.
