# A verified model of the node library's queue, explorer and codecs

This project models seven parts of the repository in Dafny and proves what they are for.

- **The bounded queue** (`BlockingQueue.dfy`, `GroupClose.dfy`). `push`, `pop` and `close` run in any number
  of threads over one mutex and two condition variables. The model is a step system: a thread calls, gets
  the lock, runs its critical section up to a wait or a return, or wakes up for no reason. What a
  notification wakes is any one waiting thread. Every run is explained by a sequential log of the queue's
  operations, no wake-up is lost, and without new calls the queue comes to rest with only blocked threads asleep.
  `GroupClose` is modelled with its two separate atomic accesses and a counter that wraps.
- **The explorer's tracking** (`PoolUpdate.dfy`, `PoolTracking.dfy`, `ChainUpdate.dfy`). The three-state guard with its
  compare-and-exchange loops, the chain of callbacks that hands on the duty to end an update, the set of
  known pool transactions, the windows of heights asked for, and the classification of the blocks in a reply.
- **The address codec** (`Digits.dfy`, `Words.dfy`, `Blocks.dfy`, `Base58.dfy`, `Varint.dfy`, `Streams.dfy`,
  `Address.dfy`). Base58 over 64-bit words with 128-bit products, variable-length integers over byte ranges
  and over streams that cut every call short, and addresses with a checksum. The hash function is a parameter.
- **JSON** (`Json.dfy`, `JsonGrammar.dfy`, `JsonNumbers.dfy`, `JsonLaws.dfy`, `JsonReader.dfy`). The printer, the reader as loops
  over a stream, the reader as functions, and a grammar of spellings that says what is accepted without
  mentioning the reader.
- **The shuffle generator** (`Shuffle.dfy`). A map in place of an array.
- **The body of an HTTP response** (`Chunked.dfy`, `HttpBody.dfy`). The decoder as an automaton over bytes and
  what it forgets between two receives, the loops that implement it, and the cut at the Content-Length.
- **Base 64** (`Base64.dfy`). The decoder against the encoding of section 4 of RFC 4648.

Machine integers are unbounded integers with the wrap-around written out; bit operations are functions on
natural numbers (`BitOr`, `BitAnd`, `Shl`, `Shr` in `Words.dfy`). Exceptions and error codes are result values.
What comes from outside is a parameter or a step: thread scheduling, which waiting thread a notification
wakes, node replies, random choices, received pieces, how many bytes a stream moves at a time, the hash.

Some things the code does are worth knowing before reading the contracts.

- A tag that runs into the end of an address body is accepted with the bits read so far, so some accepted
  addresses are not the text that would be written for what they stand for (`Address.ReencodesIff`,
  `Address.SomeTextDoesNotReencode`).
- JSON strings lose their white space when they are read (`JsonLaws.BlanksAreLost`), and blanks may not stand
  inside a number or a word (`JsonGrammar.AcceptedIff`). A lone minus sign reads as zero
  (`JsonNumbers.LoneMinusIsZero`), integers out of range become the nearest 64-bit one
  (`JsonNumbers.IntegerIsExactIff`, `JsonNumbers.LargeIsClamped`), and a number with a dot and no exponent is
  refused exactly at the very end of the input (`JsonNumbers.DecimalRefusedIff`).
- Between two receives the chunk decoder keeps only the size left and the digits collected. It forgets that it
  was inside a chunk extension, and that it has already skipped a line end before a size line. Decoding in pieces
  takes the same steps as decoding in one piece exactly if no split falls where that matters
  (`Chunked.SameStepsIff`); both kinds of loss occur (`Chunked.ASplitExtensionIsMisread`,
  `Chunked.ASplitEmptyLineIsSkipped`). Only 31 digits of a size are kept.
- A chunk size whose low 32 bits are 2^31 or more is negative in the comparison that limits the copy, so more
  bytes would be copied than are there (`HttpBody.CopyStaysInsideIff`, `Chunked.SizeOverrunsIff`,
  `Chunked.SomeSizeOverruns`). What happens then is not modelled further.
- If the details of new pool transactions cannot be fetched, observers do not hear of that difference. They are
  right about a transaction exactly if an even number of lost differences changed it since they were last told
  of it (`PoolTracking.ObserversAgreeIff`, `PoolTracking.SomeRunLosesAnUpdate`,
  `PoolTracking.SomeRunMakesUpForIt`).
- The counter of `GroupClose` can wrap exactly with more callers than members (`GroupClose.CanWrapIff`).
- In a reply that is not in ascending order the new top need not be the tallest block; it is exactly if the
  tallest block leads (`ChainUpdate.TopIsTallestIff`, `ChainUpdate.UnorderedTop`).

## Model

| member | source | states |
|---|---|---|
| BlockingQueue.StepKeepsInv | src/Common/BlockingQueue.h:99-150 | every step of every thread keeps the invariant: one lock holder, enough notified threads for every slot and item a sleeper could use, and a log that explains the queue |
| BlockingQueue.RunKeepsInv | src/Common/BlockingQueue.h:99-150 | the invariant holds after every run from a state in which it holds |
| BlockingQueue.PushKeepsInv | src/Common/BlockingQueue.h:100-114 | a push that sleeps, is refused or stores its item keeps the invariant, whichever popper it notifies |
| BlockingQueue.PopKeepsInv | src/Common/BlockingQueue.h:116-137 | so does a pop that sleeps, fails or takes an item |
| BlockingQueue.TakeKeepsInv | src/Common/BlockingQueue.h:127-136 | taking an item frees one slot and notifies one pusher, or every thread once a closed queue is empty |
| BlockingQueue.CloseKeepsInv | src/Common/BlockingQueue.h:139-150 | closing wakes both sides, and waiting for the drain keeps the invariant |
| BlockingQueue.SleepKeepsInv | src/Common/BlockingQueue.h:103-105 | a thread that goes to sleep because it is blocked is covered by the notifications already made |
| BlockingQueue.RunnerKeepsCover | src/Common/BlockingQueue.h:103-105 | a notified thread that runs uses up one notification and one slot or item |
| BlockingQueue.SignalKeepsCover | src/Common/BlockingQueue.h:111-112 | one more slot or item with one more notification leaves nobody uncovered |
| BlockingQueue.LegalConserves | src/Common/BlockingQueue.h:99-150 | in every legal history the items accepted are those delivered followed by those queued, never more than the maximum |
| BlockingQueue.RunsAreLinearizable | src/Common/BlockingQueue.h:99-150 | in every run the log is a legal sequential history of the queue; items come out in order, no push succeeds after closing, a pop fails only when closed and empty, and a waiting close returns only when everything is delivered |
| BlockingQueue.StepLogs | src/Common/BlockingQueue.h:99-150 | the history is written only from inside a call, about that call's own operation, and a call returns with the step that writes its result |
| BlockingQueue.LogOnlyGrows | src/Common/BlockingQueue.h:99-150 | what was written when a call returned stands before everything written for later calls, so the history keeps their order |
| BlockingQueue.OperationIsKept | src/Common/BlockingQueue.h:99-150 | over any stretch of a run without a new call of a thread, the thread is inside its call at the end only if it was at the start, and with the same operation |
| BlockingQueue.CalledAs | src/Common/BlockingQueue.h:99-150 | a thread that called with an operation has that operation until it returns |
| BlockingQueue.CallIsCarriedOut | src/Common/BlockingQueue.h:99-150 | whatever happens between a call and the moment its thread runs, everything written belongs to the operation called; the thread sleeps exactly if open and full (push), open and empty (pop) or draining and not empty (close), and otherwise returns the pushed item with whether the queue is open, the first item, a failure, or the kind of close called |
| BlockingQueue.NoLostWakeUps | src/Common/BlockingQueue.h:103-124 | a thread asleep though its condition allows it to go on is matched by another one, notified on the same condition and still to run; at most one thread holds the lock |
| BlockingQueue.AsleepOnlyIfBlocked | src/Common/BlockingQueue.h:103-149 | once nobody can run, every thread left is asleep and blocked by the fields as they are: a push by an open full queue, a pop by an open empty one, a draining close by items left |
| BlockingQueue.SettledIsFree | src/Common/BlockingQueue.h:99-150 | a settled queue has its lock free and only sleeping threads |
| BlockingQueue.StepLowersRank | src/Common/BlockingQueue.h:99-150 | without new calls and spurious wake-ups every step lowers a rank |
| BlockingQueue.SettlesWithinRank | src/Common/BlockingQueue.h:99-150 | so the number of such steps is bounded |
| BlockingQueue.ComesToRest | src/Common/BlockingQueue.h:99-150 | from any state steps lead, within that bound, to one in which nobody can run |
| BlockingQueue.OnlyBlockedRemain | src/Common/BlockingQueue.h:99-150 | every run goes on, without new calls, until only sleeping and truly blocked threads are left: what can complete does complete |
| BlockingQueue.Monitor.constructor | src/Common/BlockingQueue.h:96-97 | a new queue is empty, open and keeps the invariant |
| BlockingQueue.Monitor.Push | src/Common/BlockingQueue.h:100-114 | the critical section of push does the step of the model: it sleeps exactly if the queue is open and full, succeeds exactly if it is open, and then the item is the last in the queue; otherwise the queue is unchanged |
| BlockingQueue.Monitor.Pop | src/Common/BlockingQueue.h:116-137 | the critical section of pop sleeps exactly if the queue is open and empty, fails if it is closed and empty, and otherwise delivers and removes the first item |
| BlockingQueue.Monitor.BeginClosing | src/Common/BlockingQueue.h:140-143 | closing marks the queue and wakes everybody |
| BlockingQueue.Monitor.Close | src/Common/BlockingQueue.h:139-150 | close marks the queue, leaves the items alone, and returns unless it was asked to wait and items are left |
| GroupClose.StepKeepsInv | src/Common/BlockingQueue.h:179-184 | the counter is the group size less the subtractions, modulo the word, and the closes are those that passed one |
| GroupClose.TestOnlyLooks | src/Common/BlockingQueue.h:179-181 | a caller who reads zero returns and leaves the counter alone; any other goes on to subtract |
| GroupClose.CounterFollowsSubtractions | src/Common/BlockingQueue.h:179-184 | over any run the counter falls by the number of subtractions, modulo the word, and nothing else changes it or closes the queue |
| GroupClose.GroupClosesOnce | src/Common/BlockingQueue.h:176-184 | with at most as many callers as the group size the queue is closed exactly when the last one subtracts |
| GroupClose.ClosesAtMostOnceIff | src/Common/BlockingQueue.h:176-184 | in any run it is closed at most once if and only if the subtractions stay below the group size plus one round of the counter |
| GroupClose.ZeroMeansAllSubtracted | src/Common/BlockingQueue.h:180-181 | a caller that still runs and sees zero is one too many |
| GroupClose.CountIsExactIff | src/Common/BlockingQueue.h:179-184 | the counter is the rest of the group if and only if there were no more subtractions than members, as there are whenever there were no more callers |
| GroupClose.CanWrapIff | src/Common/BlockingQueue.h:179-184 | for every positive group size some run with n callers wraps the counter if and only if n exceeds the group size |
| GroupClose.CounterCanWrap | src/Common/BlockingQueue.h:180-183 | one caller too many can leave the counter at its largest value, for every positive group size |
| PoolUpdate.StepKeepsInv | src/BlockchainExplorer/BlockchainExplorer.cpp:146-185 | every atomic access, reply and flag change keeps the invariant: the guard is taken exactly while one activity owes the end of an update |
| PoolUpdate.RunKeepsInv | src/BlockchainExplorer/BlockchainExplorer.cpp:554-667 | the invariant holds after every run |
| PoolUpdate.UpdatesAreExclusive | src/BlockchainExplorer/BlockchainExplorer.cpp:150-185 | at most one update is under way, every one begun but the current one has ended exactly once, and the assertion in the end of an update holds |
| PoolUpdate.NoRefusalIsForgotten | src/BlockchainExplorer/BlockchainExplorer.cpp:561-563 | a recorded refusal is remembered by the guard or by an activity that will ask again, until a later fetch serves it or it is dropped; that every refusal is recorded is `PoolUpdate.NoNotificationIsLost` |
| PoolUpdate.RefusalsSettleForAReason | src/BlockchainExplorer/BlockchainExplorer.cpp:554-667 | it is settled only by a step that sends a later request, or by one that finds no synchronisation or no observers |
| PoolUpdate.RefusalsMoveForAReason | src/BlockchainExplorer/BlockchainExplorer.cpp:554-667 | no other step moves it on |
| PoolUpdate.SettledStays | src/BlockchainExplorer/BlockchainExplorer.cpp:554-667 | once settled it stays so |
| PoolUpdate.ActivitiesLeaveForAReason | src/BlockchainExplorer/BlockchainExplorer.cpp:150-185 | who handles a notification leaves only if there is no synchronisation, if there are no observers, if its update ends without a rerun wanted, or if it is refused while an update is under way, and then the guard asks for a rerun and the refusal is on record |
| PoolUpdate.NoNotificationIsLost | src/BlockchainExplorer/BlockchainExplorer.cpp:554-567 | over any stretch of a run: a notification taken up at its start and gone at its end left at some step for one of these reasons |
| PoolUpdate.OneLeavesAtATime | src/BlockchainExplorer/BlockchainExplorer.cpp:554-667 | a step that lets one activity leave touches no other |
| PoolUpdate.GuardChangesForAReason | src/BlockchainExplorer/BlockchainExplorer.cpp:150-185 | the guard is taken exactly when an update begins and given up exactly when one ends; the third state is set only while an update is under way, by one refusal that is recorded |
| PoolUpdate.ExchangesSucceed | src/BlockchainExplorer/BlockchainExplorer.cpp:155-182 | an exchange that is not disturbed and does not fail by chance begins, refuses or ends |
| PoolUpdate.RerunStartsOver | src/BlockchainExplorer/BlockchainExplorer.cpp:663-667 | an update that ends starts over like a fresh notification if and only if a refusal is on record |
| PoolTracking.AddedByIsExact | src/BlockchainExplorer/BlockchainExplorer.cpp:602-610 | the reported additions are the new hashes not known before, each once, whatever duplicates the reply holds |
| PoolTracking.GoneByIsExact | src/BlockchainExplorer/BlockchainExplorer.cpp:612-622 | the reported removals are the removed hashes that were known, each once |
| PoolTracking.AddedByConcat | src/BlockchainExplorer/BlockchainExplorer.cpp:602-610 | additions are reported in the order of the reply, each hash on its first occurrence only |
| PoolTracking.GoneByConcat | src/BlockchainExplorer/BlockchainExplorer.cpp:612-622 | so are removals |
| PoolTracking.TrackingIsExact | src/BlockchainExplorer/BlockchainExplorer.cpp:569-622 | after a truthful reply the known set is the node's pool, and what is reported is the exact difference both ways, without duplicates |
| PoolTracking.StepIsFollowed | src/BlockchainExplorer/BlockchainExplorer.cpp:599-657 | every step keeps the known set what the differences learned lead to, and the observers' view what those told lead to |
| PoolTracking.DetailsAreFollowed | src/BlockchainExplorer/BlockchainExplorer.cpp:641-655 | details that arrive are told with the removals, details that fail are lost |
| PoolTracking.ObserversSeeThePool | src/BlockchainExplorer/BlockchainExplorer.cpp:599-657 | over runs in which every detail request was answered with the transactions asked for, in any order, the notifications add up to the known set, up to the one being delivered |
| PoolTracking.FailedDetailsLoseTheUpdate | src/BlockchainExplorer/BlockchainExplorer.cpp:644-647 | right after a failed detail request up-to-date observers are still up to date if and only if there was no difference |
| PoolTracking.ViewAgreesIff | src/BlockchainExplorer/BlockchainExplorer.cpp:602-655 | over any list of differences, told or lost, the view and the known set agree on a transaction if and only if an even number of lost ones changed it since the last one told that mentions it |
| PoolTracking.ObserversAgreeIff | src/BlockchainExplorer/BlockchainExplorer.cpp:554-657 | the same for the observers in every run, while no details are awaited |
| PoolTracking.SomeRunLosesAnUpdate | src/BlockchainExplorer/BlockchainExplorer.cpp:644-647 | a run from the start after which a known transaction was never told |
| PoolTracking.SomeRunMakesUpForIt | src/BlockchainExplorer/BlockchainExplorer.cpp:644-655 | a longer run after which observers are right again |
| PoolTracking.ReachesQuestion | src/BlockchainExplorer/BlockchainExplorer.cpp:554-590 | from any idle state a notification gets as far as the question for the difference |
| PoolTracking.ReachesEnd | src/BlockchainExplorer/BlockchainExplorer.cpp:590-667 | and from there, whatever the replies, to an idle state again with the difference learned |
| PoolTracking.Explorer.ApplyDifference | src/BlockchainExplorer/BlockchainExplorer.cpp:601-622 | the two loops change the known set by the reply and report exactly what changed |
| ChainUpdate.NoHeightIsSkipped | src/BlockchainExplorer/BlockchainExplorer.cpp:728-747 | while observers are present the windows asked for cover every height from the first known one to the last |
| ChainUpdate.OverlapOnlyAtBoundaries | src/BlockchainExplorer/BlockchainExplorer.cpp:728-747 | a height asked for twice is the end of one window and the start of the other |
| ChainUpdate.OnlyThePasserAsks | src/BlockchainExplorer/BlockchainExplorer.cpp:728-747 | a height strictly inside a window lies in no other |
| ChainUpdate.AskedForIffObserved | src/BlockchainExplorer/BlockchainExplorer.cpp:731-747 | a height passed by an update is ever asked for if and only if observers were present at that update |
| ChainUpdate.HeightLoopEndsIff | src/BlockchainExplorer/BlockchainExplorer.cpp:743-745 | the 32-bit loop over heights ends if and only if the height is not the largest one |
| ChainUpdate.EveryBlockHasOneKind | src/BlockchainExplorer/BlockchainExplorer.cpp:780-795 | every block of a reply is orphaned, new or the known top, exactly one of them, with its multiplicity; which one is `ChainUpdate.KindsByFields` |
| ChainUpdate.KindsByFields | src/BlockchainExplorer/BlockchainExplorer.cpp:782-795 | each list holds every occurrence of its blocks and no others: the orphaned ones; the new ones, in the main chain and above the known top or of another hash; the known top itself |
| ChainUpdate.SelectConcat | src/BlockchainExplorer/BlockchainExplorer.cpp:780-795 | the lists keep the order of the blocks |
| ChainUpdate.FlattenConcat | src/BlockchainExplorer/BlockchainExplorer.cpp:780-781 | the blocks of a reply are taken height by height, in order |
| ChainUpdate.ReportedIff | src/BlockchainExplorer/BlockchainExplorer.cpp:780-795 | a block is reported new if and only if the reply holds it under some height, it is in the main chain, and it is above the known top or has another hash; orphaned if and only if the reply holds it and it is orphaned |
| ChainUpdate.TopIsTallestIff | src/BlockchainExplorer/BlockchainExplorer.cpp:780-799 | the new top is as tall as any block of the reply if and only if, after the first tallest block, no lower block of the main chain comes before one of that height |
| ChainUpdate.AscendingTop | src/BlockchainExplorer/BlockchainExplorer.cpp:780-799 | in a reply of ascending heights the new top is the first block in the main chain at the greatest height |
| ChainUpdate.UnorderedTop | src/BlockchainExplorer/BlockchainExplorer.cpp:780-799 | a tallest orphan directly before a lower block of the main chain makes the lower block the top, whatever stands around them |
| ChainUpdate.DescribesNext | src/BlockchainExplorer/BlockchainExplorer.cpp:781-794 | one more block extends the lists by its kind and keeps or replaces the top |
| ChainUpdate.Concludes | src/BlockchainExplorer/BlockchainExplorer.cpp:801-806 | a top is found exactly if the blocks from the tallest on are not all orphaned |
| ChainUpdate.Tracker.LocalBlockchainUpdated | src/BlockchainExplorer/BlockchainExplorer.cpp:728-747 | without observers nothing is asked for; otherwise every height from the known one to the new one, in order; a height that goes down fails the assertion |
| ChainUpdate.Tracker.Consider | src/BlockchainExplorer/BlockchainExplorer.cpp:782-795 | one block is added to the orphaned ones if it is orphaned, to the new ones if it is in the main chain and above the known top or of another hash, and keeps or replaces the top found so far |
| ChainUpdate.Tracker.ConsiderAll | src/BlockchainExplorer/BlockchainExplorer.cpp:781-796 | so are the blocks of one height |
| ChainUpdate.Tracker.BlocksReceived | src/BlockchainExplorer/BlockchainExplorer.cpp:772-806 | a block is reported new if and only if it is in the reply, not orphaned, and above the old top or of another hash, and orphaned if and only if it is in the reply and orphaned, both in the order of the reply; the known top changes only to the top found, which is the tallest if and only if the tallest leads in the reply |
| Words.Dwords | src/Common/int-util.h:116-122 | the two halves make up the word |
| Words.Mul128 | src/Common/int-util.h:124-148 | the high and low words are the exact product |
| Words.AddPartialProducts | src/Common/int-util.h:136-147 | the four partial products are summed with both carries and the high word does not overflow |
| Words.DivWithRemainder | src/Common/int-util.h:150-154 | one step of long division: quotient and remainder of the joined words |
| Words.LongDivision | src/Common/int-util.h:166-169 | four such steps divide the four-digit number |
| Words.Div128By32 | src/Common/int-util.h:157-172 | quotient times divisor plus remainder is the dividend and the remainder is below the divisor; no bit is lost in shifts and ors |
| Words.SwapReadsMemory | src/Common/int-util.h:181-188 | swapping the bytes of a word reads its memory in the other order |
| Words.MemoryIsReversedDigits | src/Common/int-util.h:181-188 | the memory of a word holds its base-256 digits, last first |
| Words.BigEndianIsDigits | src/Common/Base58.cpp:178-184 | storing big-endian writes the last base-256 digits of the number |
| Words.FromBigEndian | src/Common/Base58.cpp:157-176 | reading up to eight bytes gives their base-256 value |
| Base58.SymbolsAreTheAlphabet | src/Common/Base58.cpp:98-98 | the symbol of every digit is the one in the alphabet |
| Base58.ReverseAlphabet | src/Common/Base58.cpp:105-128 | the lookup table gives every symbol its digit and every other character -1 |
| Base58.DecodedBlockSizes | src/Common/Base58.cpp:132-153 | the table of decoded sizes inverts the table of encoded sizes |
| Base58.SizesAreLeast | src/Common/Base58.cpp:100-102 | 256^n is at most 58^len(n), and one symbol less would not do |
| Base58.BlockRoundTrip | src/Common/Base58.cpp:186-232 | decoding a block undoes encoding it |
| Base58.BlockRoundTripBack | src/Common/Base58.cpp:186-232 | encoding undoes decoding wherever decoding succeeds |
| Base58.EncodedBlockValue | src/Common/Base58.cpp:186-199 | the symbols of a block are its bytes as one number, in base 58, in the length its size calls for |
| Base58.EncodedByBlocks | src/Common/Base58.cpp:244-253 | eight bytes at a time are encoded by themselves, then the rest |
| Base58.EncodeBlock | src/Common/Base58.cpp:186-199 | a block is written as its exact base-58 digits padded with the first symbol, and nothing outside its place changes |
| Base58.WriteSymbols | src/Common/Base58.cpp:190-198 | the digit loop never runs past the start of the block |
| Base58.AddDigit | src/Common/Base58.cpp:217-222 | the two overflow tests together notice exactly the sums that do not fit a word |
| Base58.OverflowIsFinal | src/Common/Base58.cpp:210-224 | a partial sum that does not fit makes the whole block too large |
| Base58.StoreBlock | src/Common/Base58.cpp:226-230 | a number is stored exactly if it fits the decoded size |
| Base58.DecodeBlock | src/Common/Base58.cpp:201-232 | exactly the blocks of a legal size, made of symbols, with a value below 256^n are accepted, and that value is stored |
| Base58.Encode | src/Common/Base58.cpp:235-256 | a byte string is encoded block by block |
| Base58.EncodeFullBlocks | src/Common/Base58.cpp:244-248 | the loop writes full blocks in order and leaves the rest of the buffer blank |
| Base58.EncodeLastBlock | src/Common/Base58.cpp:250-253 | the shorter last block completes the encoding |
| Base58.Decode | src/Common/Base58.cpp:258-288 | a text is decoded block by block, and one bad block spoils it |
| Base58.DecodeUndoesEncode | src/Common/Base58.cpp:235-288 | decode(encode(d)) is d for every byte string |
| Base58.EncodeUndoesDecode | src/Common/Base58.cpp:235-288 | encode(decode(e)) is e for every text that decodes |
| Base58.DecodesIffEncoded | src/Common/Base58.cpp:235-288 | a text decodes to some bytes if and only if it is their encoding |
| Varint.WriteVarint | src/Common/Varint.h:94-100 | seven bits to a byte, lowest first |
| Varint.Payload | src/Common/Varint.h:96-127 | the mask gives the low seven bits |
| Varint.Marked | src/Common/Varint.h:96-96 | the or sets the high bit |
| Varint.Collect | src/Common/Varint.h:127-127 | shifting and or-ing adds seven bits above those collected, and loses none |
| Varint.WrittenIsShortest | src/Common/Varint.h:94-100 | what is written is one terminated group in shortest form with the number as its value |
| Varint.ShortestIsWritten | src/Common/Varint.h:94-126 | a terminated group in shortest form is what is written for its value |
| Varint.GroupIsNumeral | src/Common/Varint.h:94-127 | a group is a number in base 128, its digits the low seven bits of the bytes, the last byte the highest |
| Varint.RefusedBecause | src/Common/Varint.h:119-126 | which group is refused as not shortest and which as too large, and which unfinished input still counts |
| Varint.ReadVarint | src/Common/Varint.h:110-133 | the loop gives the number and its length, -1 for a number too large, -2 for one not in shortest form, and the bits so far at the end of the input |
| Varint.NextByteDecides | src/Common/Varint.h:119-130 | the overflow test, the zero test and the high bit decide each byte correctly at every width |
| Varint.AcceptsExactly | src/Common/Varint.h:110-133 | a reader of any width accepts a group exactly if the number fits and the group is what would be written |
| Varint.AcceptedIsWritten | src/Common/Varint.h:110-133 | what was accepted is a prefix of the input equal to what would be written |
| Varint.ReadsBack | src/Common/Varint.h:94-133 | what is written reads back, whatever follows |
| Varint.AllReadBack | src/Common/Varint.h:94-133 | numbers written back to back are read back, and nothing more is consumed |
| Varint.WrittenAllIsInjective | src/Common/Varint.h:94-100 | two lists of numbers written back to back differ unless they are the same list |
| Streams.InputStream.EndOfStream | src/Common/MemoryInputStream.cpp:96-98 | the end is reached when nothing is left |
| Streams.InputStream.ReadSome | src/Common/MemoryInputStream.cpp:100-110 | the next bytes are handed out and skipped, at least one if one is wanted and left |
| Streams.InputStream.Read | src/Common/StreamTools.cpp:89-99 | the whole transfer succeeds exactly if enough bytes are left, however the calls are cut short |
| Streams.OutputStream.WriteSome | src/Common/StreamTools.cpp:240-240 | a prefix of the bytes is taken in, at least one if there is one |
| Streams.OutputStream.Write | src/Common/StreamTools.cpp:238-248 | all bytes arrive in order, however the calls are cut short |
| Streams.MarkedLow | src/Common/StreamTools.cpp:298-298 | the low byte of value or 0x80 is the low seven bits with the high bit set |
| Streams.WriteVarint | src/Common/StreamTools.cpp:296-312 | the stream writer appends the same bytes as the other writer |
| Streams.TakePiece | src/Common/StreamTools.cpp:155-169 | one piece ends the number, fails or is collected, as the common outcome says |
| Streams.ReadVarint | src/Common/StreamTools.cpp:150-236 | at each of the four widths the stream reader succeeds exactly where the other reader finds a whole number, with the same value, and consumes the bytes looked at |
| Streams.WriteThenRead | src/Common/StreamTools.cpp:89-312 | any list of 64-bit numbers written to one stream and read from another comes back, whatever both streams move at a time |
| Address.EncodeAddr | src/Common/Base58.cpp:290-298 | the text decodes to the tag as a variable-length integer, the payload, and the first four bytes of the hash of both |
| Address.DecodeAddr | src/Common/Base58.cpp:300-320 | a text is accepted only if it decodes to a body that is not empty with the first four bytes of its hash behind it, and then exactly if the body starts with a tag; tag and payload are returned |
| Address.OpensIffSealed | src/Common/Base58.cpp:290-313 | a text opens to a body if and only if it is that body sealed with its checksum |
| Address.OpensIff | src/Common/Base58.cpp:290-313 | a text opens to a body if and only if the body is not empty and the text decodes to it with the first four bytes of its hash behind it |
| Address.AddressRoundTrip | src/Common/Base58.cpp:290-320 | every 64-bit tag and payload come back from the encoding of tag, payload and the first four bytes of the hash of both, for any hash function |
| Address.ReencodesIff | src/Common/Base58.cpp:290-320 | an accepted text is the address of what it stands for if and only if its tag ends before its body does |
| Address.SomeTextDoesNotReencode | src/Common/Base58.cpp:315-318 | for every hash function some accepted text is not the address of what it stands for |
| JsonReader.Reader.ReadChar | src/Common/JsonValue.cpp:716-734 | the next character that is not white space |
| JsonReader.Reader.ReadStringToken | src/Common/JsonValue.cpp:736-756 | a string up to its closing quote, backslash pairs kept |
| JsonReader.Reader.ReadWord | src/Common/JsonValue.cpp:832-873 | true, false and null are taken letter by letter, with nothing skipped |
| JsonReader.Reader.ReadRun | src/Common/JsonValue.cpp:879-891 | the longest run of digits and dots is taken and its dots are counted |
| JsonReader.Reader.ReadMark | src/Common/JsonValue.cpp:899-911 | the exponent mark and a sign if there is one |
| JsonReader.Reader.ReadDigits | src/Common/JsonValue.cpp:913-921 | the longest run of digits is taken |
| JsonReader.Reader.ReadNumber | src/Common/JsonValue.cpp:875-946 | digits and dots are taken greedily and become an integer, a real or an error |
| JsonReader.Reader.ReadReal | src/Common/JsonValue.cpp:893-921 | the optional exponent of a real |
| JsonReader.Reader.ReadValue | src/Common/JsonValue.cpp:761-783 | the reader over the stream gives what the reader over strings gives and leaves the same rest |
| JsonReader.Reader.ReadArray | src/Common/JsonValue.cpp:801-830 | so does the loop over items |
| JsonReader.Reader.ReadObject | src/Common/JsonValue.cpp:948-990 | and the loop over members |
| JsonReader.Reader.ReadMember | src/Common/JsonValue.cpp:956-967 | a quoted name, a colon and a value |
| JsonReader.FromString | src/Common/JsonValue.cpp:638-647 | a text is accepted exactly if it starts with a spelling of some value by the grammar, and gives that value |
| JsonGrammar.AcceptedIff | src/Common/JsonValue.cpp:716-1003 | a text is read as a value with some rest if and only if it starts with a spelling of that value, with blanks only before its atoms, and the rest does not prolong it; numbers mean the base-10 value of their character codes |
| JsonGrammar.SpellingReads | src/Common/JsonValue.cpp:716-1003 | every spelling, laid out with blanks before any of its atoms, is read as what it means, and exactly what follows it is left |
| JsonGrammar.ValueTaken | src/Common/JsonValue.cpp:716-1003 | everything that is read starts with a spelling of the value so laid out: nothing else is accepted |
| JsonGrammar.NumberTaken | src/Common/JsonValue.cpp:875-946 | an accepted number is an integer without leading zeros or a decimal with one dot and a complete exponent |
| JsonGrammar.TokenTaken | src/Common/JsonValue.cpp:736-756 | whatever is taken for a string consists of plain characters and backslash pairs, with blanks between them dropped |
| JsonGrammar.NatOfIsValue | src/Common/JsonValue.cpp:933-944 | digits are converted to their base-10 value, by character codes |
| JsonGrammar.IntegerIff | src/Common/JsonValue.cpp:933-944 | the integers of the grammar, an optional sign and digits without leading zero, are what the reader takes for one |
| JsonGrammar.DecimalIff | src/Common/JsonValue.cpp:879-897 | the decimals of the grammar, with digits around one dot, are what the reader takes for one |
| JsonGrammar.ExponentIff | src/Common/JsonValue.cpp:899-921 | an exponent is an e, an optional sign and at least one digit |
| JsonNumbers.IntegerIsExactIff | src/Common/JsonValue.cpp:933-944 | an integer is read as the number it denotes if and only if that is in range, and otherwise as the nearest one |
| JsonNumbers.DigitsAcceptedIff | src/Common/JsonValue.cpp:933-935 | digits with a sign or not that nothing prolongs are refused if and only if they have a leading zero |
| JsonNumbers.TwoDotsAreRefused | src/Common/JsonValue.cpp:894-896 | a number with a second dot is refused |
| JsonNumbers.LoneMinusIsZero | src/Common/JsonValue.cpp:933-944 | a minus sign without digits is read as zero |
| JsonNumbers.LargeIsClamped | src/Common/JsonValue.cpp:937-938 | ten to the power of nineteen is read as the largest integer |
| JsonNumbers.DecimalRefusedIff | src/Common/JsonValue.cpp:898-899 | a decimal without exponent that nothing prolongs is refused if and only if the input ends there |
| JsonLaws.PutKeepsSorted | src/Common/JsonValue.cpp:967-967 | storing a member under its name keeps keys sorted and distinct |
| JsonLaws.LessIff | src/Common/JsonValue.cpp:967-967 | keys are ordered by the first character in which they differ, and a proper prefix comes first |
| JsonLaws.PutStores | src/Common/JsonValue.cpp:967-967 | storing a member gives its name its value and leaves other names alone |
| JsonLaws.LastFieldWins | src/Common/JsonValue.cpp:948-990 | of several fields of one name the last one counts |
| JsonLaws.TokenIff | src/Common/JsonValue.cpp:736-756 | the strings that can be read back are those without white space in which every quote follows an odd number of backslashes and the end does not |
| JsonLaws.PrintedForms | src/Common/JsonValue.cpp:655-711 | null, true, false, quoted strings, integers that denote their value, items between brackets and members between braces with commas between them |
| JsonLaws.PrintSpells | src/Common/JsonValue.cpp:655-711 | what is printed is a spelling of the value without blanks |
| JsonLaws.IntIsSpelled | src/Common/JsonValue.cpp:673-675 | the printed form of an integer denotes it, without leading zeros |
| JsonLaws.ReadIsSound | src/Common/JsonValue.cpp:716-1003 | everything the reader builds has sorted keys, 64-bit integers and strings that can be printed as they are |
| JsonLaws.ReadUndoesPrintIff | src/Common/JsonValue.cpp:655-783 | a printed value followed by anything reads back as itself and leaves that, if and only if its strings are whitespace-free plain characters and backslash pairs and nothing prolongs a number |
| JsonLaws.AcceptedTextNormalises | src/Common/JsonValue.cpp:638-653 | if fromString accepts a text and the value has no reals, fromString(toString(value)) is that value |
| JsonLaws.PrintIsInjective | src/Common/JsonValue.cpp:649-711 | different printable values print differently |
| JsonLaws.BlanksAreLost | src/Common/JsonValue.cpp:716-756 | a string with a blank reads back without it |
| Shuffle.ShuffleGenerator.constructor | src/Common/ShuffleGenerator.h:91-92 | the map starts as the array of all numbers in order |
| Shuffle.ShuffleGenerator.Next | src/Common/ShuffleGenerator.h:94-120 | a call gives the number at the chosen place of the array that the map stands for and moves the last one there; stale entries do not matter; an exhausted generator fails |
| Shuffle.ShuffleGenerator.Reset | src/Common/ShuffleGenerator.h:122-125 | all numbers are back in order |
| Shuffle.Shuffle | src/Common/ShuffleGenerator.h:94-120 | a row of calls gives the outputs of the array shuffle |
| Shuffle.OutputsConserve | src/Common/ShuffleGenerator.h:94-120 | what was given out and what is left are the numbers at the start |
| Shuffle.OutputsAreDistinct | src/Common/ShuffleGenerator.h:94-120 | no number is given out twice |
| Shuffle.AllCallsGiveAPermutation | src/Common/ShuffleGenerator.h:94-120 | N calls give every number below N once |
| Shuffle.EveryOrderOnce | src/Common/ShuffleGenerator.h:94-120 | the outputs of k calls are exactly the lists of k distinct numbers below N, each from exactly one list of choices |
| Chunked.StepsAlikeIff | external/miniupnpc/miniwget.c:182-227 | for every phase and next byte: a split before that byte changes what it does if and only if it is one of the listed cases |
| Chunked.AlwaysAlikeIff | external/miniupnpc/miniwget.c:182-227 | a split in a phase never matters if and only if it is not after a skipped line end or CR of an empty line, nor in an extension with room for digits |
| Chunked.SameStepsIff | external/miniupnpc/miniwget.c:177-244 | for any bytes and any partition: decoding in pieces goes through the same phases as decoding in one piece if and only if every split leaves no mark |
| Chunked.SplittingDoesNotMatter | external/miniupnpc/miniwget.c:177-244 | any bytes so split give the same data and state as in one piece |
| Chunked.WellFormedIsSafeIff | external/miniupnpc/miniwget.c:177-244 | a well-formed body is so split if and only if no piece starts with a digit inside an extension; without extensions it always is |
| Chunked.ExtendedBodyDecodes | external/miniupnpc/miniwget.c:177-244 | a chunked body with extensions goes through the same phases if and only if it is not cut there, and then gives the chunk data and ends at the zero chunk |
| Chunked.ChunkedBodyDecodes | external/miniupnpc/miniwget.c:177-244 | any partition of a chunked body of section 4.1 of RFC 7230 without extensions gives the concatenated chunk data and ends at the zero chunk |
| Chunked.ASplitExtensionIsMisread | external/miniupnpc/miniwget.c:191-198 | an extension split before a hexadecimal digit gives another chunk size |
| Chunked.ASplitEmptyLineIsSkipped | external/miniupnpc/miniwget.c:185-200 | an empty line that would end the body is skipped if it starts a piece |
| Chunked.SizeOverrunsIff | external/miniupnpc/miniwget.c:200-228 | a size line leads to a size that cannot be copied if and only if its low 32 bits are 2^31 or more |
| Chunked.HexIsValue | external/miniupnpc/miniwget.c:202-208 | the size is the base-16 value of the characters of its line, letters in either case |
| Chunked.DigitsAreCollected | external/miniupnpc/miniwget.c:190-198 | the first 31 digits of a line are kept and no others |
| Chunked.SomeSizeOverruns | external/miniupnpc/miniwget.c:200-228 | the line 80000000 is one of those |
| HttpBody.ReadSizeLine | external/miniupnpc/miniwget.c:185-215 | the four loops and tests over a size line follow the automaton, and always move on |
| HttpBody.SkipLead | external/miniupnpc/miniwget.c:185-189 | one CR and one LF are skipped only before the first digit, as the automaton does |
| HttpBody.TakeDigits | external/miniupnpc/miniwget.c:190-196 | digits are collected as long as there is room for them |
| HttpBody.SkipExtension | external/miniupnpc/miniwget.c:197-198 | the rest of the line is discarded, and what is forgotten at its end makes no difference |
| HttpBody.EndLine | external/miniupnpc/miniwget.c:199-215 | the line ends at LF, with or without a CR; otherwise the decoder starts over with the digits it has |
| HttpBody.DigitValue | external/miniupnpc/miniwget.c:203-207 | setting the case bit gives letters of either case their value |
| HttpBody.ParseSize | external/miniupnpc/miniwget.c:202-208 | the size is the hexadecimal value modulo 2^32 |
| HttpBody.Response.Append | external/miniupnpc/miniwget.c:229-240 | the bytes are appended and the buffer is large enough for them |
| HttpBody.Response.constructor | external/miniupnpc/miniwget.c:65-86 | a new response has no content and is before a size line |
| HttpBody.Response.ReadSize | external/miniupnpc/miniwget.c:182-227 | a finished size line sets the chunk size or ends the body |
| HttpBody.CopyStaysInsideIff | external/miniupnpc/miniwget.c:228-228 | the signed comparison limits the copy to the bytes that are there if and only if the chunk size is an int |
| HttpBody.Response.CopyData | external/miniupnpc/miniwget.c:228-242 | what there is of the chunk is copied, and no more; a count beyond the bytes that are there is reported, exactly for sizes of 2^31 or more |
| HttpBody.Response.ReceiveChunked | external/miniupnpc/miniwget.c:177-244 | one receive appends exactly the data the automaton gives out and leaves the state it leaves, for any bytes |
| HttpBody.Response.ReceivePlain | external/miniupnpc/miniwget.c:245-265 | one receive of a plain body keeps it up to the Content-Length |
| HttpBody.Response.IsComplete | external/miniupnpc/miniwget.c:268-274 | receiving stops exactly when a positive Content-Length is reached |
| HttpBody.ReceiveAllChunked | external/miniupnpc/miniwget.c:89-276 | a sequence of receives gives what the automaton gives over the pieces taken: up to the first after which the body has ended or a positive Content-Length is reached, or all |
| HttpBody.ReceiveUnannounced | external/miniupnpc/miniwget.c:89-276 | without a Content-Length it gives what the automaton gives over all pieces |
| HttpBody.ReceiveAllPlain | external/miniupnpc/miniwget.c:89-276 | a plain body with a positive Content-Length gives that many leading bytes, and otherwise all of them |
| HttpBody.CutIsExactIff | external/miniupnpc/miniwget.c:248-252 | the signed comparison cuts at the right place if and only if the size still fits an int |
| Base64.Decode | src/Common/StringTools.cpp:290-329 | the symbols up to the first other character are decoded four at a time, the last ones as far as they go |
| Base64.FindIsPosition | src/Common/StringTools.cpp:279-302 | a character is looked up as its place in the alphabet of RFC 4648, and not found exactly if it has none |
| Base64.GroupsAreNumeral | src/Common/StringTools.cpp:304-323 | the groups of up to three bytes are the bytes as one number in base 64, filled up with zero bits |
| Base64.DecodeRest | src/Common/StringTools.cpp:314-326 | the symbols left over give one byte less than there are |
| Base64.JoinGroups | src/Common/StringTools.cpp:304-323 | masks and shifts join groups of six bits into bytes, and a failed lookup spoils only bytes that are not kept |
| Base64.Field | src/Common/StringTools.cpp:304-306 | a mask and a shift select a field of bits |
| Base64.DecodeBlock | src/Common/StringTools.cpp:300-325 | a block gives one byte less than it has symbols |
| Base64.DecodeUndoesEncode | src/Common/StringTools.cpp:290-329 | decoding inverts the encoding of section 4 of RFC 4648 for every byte string, whatever other character follows |
| Base64.DecodeUndoesPadded | src/Common/StringTools.cpp:290-329 | also with the padding |
| Base64.EncodeUndoesDecodeIff | src/Common/StringTools.cpp:290-329 | symbols are the encoding of what they decode to if and only if no symbol and no bit is left over |

## Left out

- Memory model and lock implementation: a critical section is one atomic step between acquiring the mutex and releasing or waiting.
- `size` and `capacity` of the queue: they only read one field.
- Logging, exceptions thrown by the node, thread creation and the counter of asynchronous contexts of the explorer.
- Adding and removing observers, and the other queries of the explorer: the number of observers is a parameter that changes at any time.
- Details of blocks and transactions: a block is its hash, its height and whether it is orphaned; a transaction is its hash.
- ChainUpdate.Tracker.LocalBlockchainUpdated: with observers, the largest 32-bit height is excluded, since the loop of the source does not end on it (`ChainUpdate.HeightLoopEndsIff`).
- `swap64`, the 32-bit swaps and the loops that swap buffers in int-util.h: further byte orders of the same kind as the one modelled.
- The hash function: any function with 32 bytes of output.
- Streams that fail before their end: a call that moves no byte although some are left; the fixed-width reads and writes, which only repeat the whole-transfer loop.
- JSON reals: their text is kept, their value and their printing are not modelled.
- The storage of a JSON value, its accessors and its copying.
- JsonReader.Reader.ReadWord: a short read is a failure at once; the source compares what the buffer then holds, and fails at the next read.
- Characters are not bytes in the JSON and base 64 models; keys are ordered by character.
- The random distribution of the shuffle: the choice is a parameter within its bounds.
- The headers of an HTTP response, sockets and time-outs.
- HttpBody.Response.ReceiveChunked: responses of 2^31 bytes or more are excluded, since the size is returned in an int; after a copy beyond the bytes received nothing is said.
- Files, paths, consoles, command lines and configuration.
