# A verified model of the originnet core

originnet is a Go framework for game servers: a node hosts services, a service is a tree of modules,
services call each other by RPC over framed TCP connections, and timers fire by cron expressions.
This project models the parts of it in which the hard reasoning sits, and proves what they promise
over every input, every interleaving or every run of operations.

| file | models |
|---|---|
| `Common.dfy`, `Arith.dfy`, `Bits.dfy`, `Calendar.dfy` | shared types, integer division, 64-bit masks as numbers, the proleptic Gregorian calendar in UTC |
| `CronText.dfy`, `CronCompile.dfy`, `CronSchedule.dfy` | the cron grammar and its meaning, its compilation into masks, the mask tests |
| `CronMeaning.dfy` | what a compiled expression means at an instant, and exactly when that is what its text says |
| `CronNext.dfy`, `CronFiring.dfy` | the next-fire search, repeated searches, and both together with compilation |
| `CronForms.dfy` | the documented forms of a field and some everyday expressions, in plain arithmetic |
| `RingQueue.dfy` | the ring-buffer queue |
| `RandPick.dfy` | the sparse Fisher-Yates sampler and the weighted choice |
| `MsgFraming.dfy` | the length-prefixed message codec |
| `TcpConn.dfy`, `TcpServer.dfy` | a connection's write queue and the server's admission and shutdown, as interleaved atomic steps |
| `ModuleIds.dfy`, `ModuleTree.dfy`, `ModuleSession.dfy` | the module tree: ancestry by ids, the mutable tree with its flat index, whole runs |
| `RpcCorrelation.dfy` | asynchronous calls: sequence numbers, the pending table, replies |

How the source's forms were carried over:

- Structs whose methods update them in place are classes (`Queue`, `MsgParser`, `ByteStream`, `Module`);
  loops are loops with invariants; `goto retry` is a labelled `continue`.
- Code whose point is concurrency (`network/tcp_conn.go`, `network/tcp_server.go`, `rpc/client.go`,
  `rpc/server.go`) is a step machine: `Enabled` and `Next` give the atomic steps, `After` the state at
  the end of a run, and the theorems are about every run of any length.
- Integer widths are explicit wherever they matter: the 64-bit counter of the cron stepping loop, the
  32-bit sums of the codec and of the weighted choice, the 64-bit RPC sequence numbers. Masks are
  numbers below 2^64 with `And`, `Or`, `Not` and `Shl` defined digit by digit.
- Random draws, what the socket takes, what a decoder reports and what a module's `OnInit` adds are
  inputs. Times are whole seconds since 0001-01-01 UTC; the argument of `Next` is in nanoseconds.

## Where the code falls short, and exactly when

- A cron step so large that its counter wraps around 2^64 twice sets digits below its start:
  `5/9223372036854775807` also sets 3 and 1 (`HugeStepMisfires`), so that `5/9223372036854775807 * * * *`
  fires at 00:03:00 (`HugeStepFiresEarly`), and in the day-of-month field `2/9223372036854775807` sets day 0
  (`HugeStepBelowMinimum`). One item is exact if and only if `start + 2 * incr < 2^64` (`StepsExact`); a field,
  or the masks of all six, if and only if some item admits what strays (`FieldExact`, `CompiledExact`); a
  field's digits stay in range if and only if nothing strays below the minimum (`MaskInRange`). A whole
  expression fires exactly when its text says so if and only if no stray digit changes a date that can occur
  and, should the text name any date at all, none changes a time of day (`CompiledMeaning`).
- `MsgParser.Write` adds lengths in 32 bits. It does what it is meant to do if and only if header and message
  fit together, or the length is refused either way (`Exact`). A message of 2^32 - 1 bytes panics
  (`LongestMessagePanics`), and of one of 2^32 + 5 bytes five are sent (`OversizedMessageIsCut`). Even then
  what is sent is a well-formed frame.
- `RandGroup` adds weights in 32 bits and returns index 0 without a draw when the total is 0. It is exactly
  weighted if and only if the sum is positive and below 2^32; the index it returns has positive weight if and
  only if a draw is made or the first weight is positive. `OverflowMisweights` and `OverflowDropsWeights` are
  inputs for which it is not weighted.
- `RandIntervalN` returns `min(n, max-min+1)` values if and only if the bounds differ or `n > 0`: with equal
  bounds it returns one value even for `n == 0`.
- RPC sequence numbers wrap. Every callback gets an answer to its own request if and only if no more than 2^64
  calls are issued (`OwnAnswerExactly`; `LateAnswer` is the run in which it does not).
- The client's receive loop dereferences the callback of every call it completes; a call that waits for its
  answer, or asks for no reply, has none. The loop outlives every run of at most n calls if and only if n is 0,
  or no call waits and, beyond 2^64 calls, calls with a callback and calls without a reply are not mixed
  (`SurvivesExactly`). `WaitingCallCrashes` and `LateAnswerCrashes` are runs in which it does not.
- `ReleaseModule` panics if and only if the id is not registered, or the module it is asked of lies properly below
  the one to be released (`ReleaseFromBelow`) or has itself been released, or some module to be released lists one that
  is gone (`ReleaseAfterwards`). When it does not panic it restores agreement if and only if it is asked of the
  direct parent; `GrandparentRelease` builds a service in which it is not.
- The comments in `util/queue/queue.go` say that `Peek`, `Get` and `Pop` panic on an empty queue or a
  bad index. The code returns nil, and so does the model.
- `Service.Init` never sets the service's own `self`, so the `parent` of a first-level module is nil.

## Model

| member | source | states |
|---|---|---|
| `Calendar.YearLength` | util/timer/cronexpr.go:190-214 | consecutive new years, by the closed formula the search's years rest on, are 366 or 365 days apart by the leap-year rule |
| `Calendar.YearOfDay` | util/timer/cronexpr.go:194-199 | the year found for any day, also before year 1, is the one whose first day is at or before it and whose successor's is after it |
| `Calendar.DateUnique` | util/timer/cronexpr.go:204-227 | day number to date inverts date to day number: every valid date is the one read back |
| `Calendar.KnownDays` | util/timer/cronexpr.go:190-201 | the origin is 1 January of year 1, and the Unix epoch starts 62135596800 seconds later, on 1 January 1970 |
| `Calendar.MonthLength` | util/timer/cronexpr.go:204-214 | every month has its length, February by the leap-year rule, and the months fill the year |
| `Calendar.WeekdayCycle` | util/timer/cronexpr.go:174-187 | a day keeps its weekday, the next day has the next one, and 1 January 2001 was a Monday |
| `Calendar.WeekdayOfDate` | util/timer/cronexpr.go:174-187 | every date has the weekday that counting days from that Monday gives |
| `Calendar.ClockOfDay` | util/timer/cronexpr.go:230-265 | hour, minute and second are what the seconds of the day count up to, and year, month and day those of its date |
| `Calendar.MonthSpan` | util/timer/cronexpr.go:204-214 | the seconds from a month's first midnight up to the next month's are exactly those with the same year and month |
| `Calendar.AddMonthMoves` | util/timer/cronexpr.go:210 | a step by a month moves on by the days of the month and keeps the time of day |
| `CronText.SplitJoins` | util/timer/cronexpr.go:86-95 | splitting yields separator-free pieces that join back to the text |
| `CronText.SplitUnique` | util/timer/cronexpr.go:86-95 | those are the only pieces that do |
| `CronText.FieldsOfLayout` | util/timer/cronexpr.go:31 | however an expression's words are spaced, leading and trailing space included, its fields are exactly those words |
| `CronText.FieldsOfJoin` | util/timer/cronexpr.go:31 | in particular with single spaces between them |
| `CronText.SpaceCharacters` | util/timer/cronexpr.go:31 | white space are tabs, line breaks, the space and the other characters that Unicode counts as such |
| `CronText.DecimalRoundTrip` | util/timer/cronexpr.go:111-150 | reading the decimal notation of a number returns the number |
| `CronText.AtoiDigits` | util/timer/cronexpr.go:111-150 | a digit reads as itself, and one more digit multiplies by ten and adds, as long as 64 bits hold it |
| `CronText.AtoiPrefixes` | util/timer/cronexpr.go:111-150 | leading zeros and a plus sign change nothing, a minus sign negates, within 64 bits |
| `CronText.AtoiOnlyDigits` | util/timer/cronexpr.go:111-150 | nothing but digits behind at most one sign is a number |
| `CronText.ReadFieldExact` | util/timer/cronexpr.go:79-130 | the field grammar is unambiguous: a text reads as a list of items if and only if it is a comma list of texts of those items |
| `CronCompile.ParseItemExact` | util/timer/cronexpr.go:88-159 | an item is accepted if and only if the grammar reads it as well formed within the field's limits, and then start, end and increment are the item's own |
| `CronCompile.WhichError` | util/timer/cronexpr.go:88-158 | which error a refused item gets, by its slashes, its hyphens, the order and limits of its range and its increment, in this order of precedence |
| `CronCompile.WordArithmetic` | util/timer/cronexpr.go:165-166 | the counter's addition and its conversion keep the number modulo 2^64 and land in range |
| `CronCompile.AddSteps` | util/timer/cronexpr.go:165-167 | the stepping loop ends for every increment, also when its counter wraps, and sets exactly the progression and, for a counter that wraps twice, the stray values |
| `CronCompile.StepsExact` | util/timer/cronexpr.go:165-167 | a stepped item yields its progression and nothing else if and only if start plus twice the increment is below 2^64 |
| `CronCompile.AddItem` | util/timer/cronexpr.go:161-168 | the shift-mask branch and the loop set digits of one and the same kind of progression |
| `CronCompile.ParseCronField` | util/timer/cronexpr.go:85-172 | a field is accepted if and only if it reads as well-formed items, and its digits are exactly what those items compile to; else the error is that of its first refused item |
| `CronCompile.FieldExact` | util/timer/cronexpr.go:161-168 | a field's mask has the meaning of its text if and only if whatever strays is admitted by some item |
| `CronCompile.MaskInRange` | util/timer/cronexpr.go:85-172 | no digit above the maximum is ever set; all digits are within the limits if and only if no counter wraps below the minimum |
| `CronCompile.FullMask` | util/timer/cronexpr.go:174-187 | a mask equals the pattern of a full field if and only if the text admits every value |
| `CronCompile.ExactMeaning` | util/timer/cronexpr.go:174-187 | with exact masks an instant passes the five tests if and only if the text says so, either-day rule included |
| `CronCompile.CompiledExact` | util/timer/cronexpr.go:30-77 | the six masks of an expression have the meaning of their texts if and only if every field covers what strays |
| `CronCompile.TameScheduleIsCovered` | util/timer/cronexpr.go:165-167 | which is so whenever each start plus twice its increment is below 2^64 |
| `CronMeaning.SomeInstant` | util/timer/cronexpr.go:174-187 | every combination of month, day the month can have, weekday and time of day occurs at some instant |
| `CronMeaning.MatchesCompiled` | util/timer/cronexpr.go:174-268 | the five mask tests of an instant in terms of what the six fields compile to, the blank patterns of the day rule included |
| `CronMeaning.DifferenceShows` | util/timer/cronexpr.go:85-187 | if a stray digit matters, there is an instant at which masks and text differ |
| `CronMeaning.CompiledMeaning` | util/timer/cronexpr.go:85-187 | compilation preserves the meaning of an expression at every instant if and only if no stray digit changes a real date and, should the text name a date, none changes a time of day; covered fields are always so |
| `CronMeaning.NewCronExpr` | util/timer/cronexpr.go:30-77 | an expression is accepted if and only if it has 5 or 6 well-formed fields; the result is compiled from them (seconds `0` when left out); its masks are exact if and only if every field covers what strays, and it fires exactly when the text says so if and only if no stray digit matters; else the error gives the number of words or is that of the first refused field |
| `CronMeaning.RefusedMeans` | util/timer/cronexpr.go:43-76 | the error of a refused expression is that of the first refused item of its first refused field |
| `CronCompile.HugeStepMisfires` | util/timer/cronexpr.go:165-167 | the text `5/9223372036854775807` admits 5 alone, is accepted, and compiles to a mask that holds 3 and 1 too |
| `CronCompile.HugeStepBelowMinimum` | util/timer/cronexpr.go:165-167 | a day-of-month text that is accepted and sets day 0 |
| `CronNext.MonthTurn` | util/timer/cronexpr.go:204-214 | one turn of the month loop, floored or not, moves forward to a month start, skips no match, stays within the horizon and leaves the search aligned |
| `CronNext.DayTurn` | util/timer/cronexpr.go:217-227 | the same for the day loop; without a carry the month still matches |
| `CronNext.HourTurn` | util/timer/cronexpr.go:230-240 | the same for the hour loop; without a carry month and day still match |
| `CronNext.MinuteTurn` | util/timer/cronexpr.go:243-253 | the same for the minute loop; without a carry month, day and hour still match |
| `CronNext.SecondTurn` | util/timer/cronexpr.go:256-265 | the same for the second loop; without a carry all outer tests still hold |
| `CronNext.HorizonReached` | util/timer/cronexpr.go:197-201 | no step of any loop jumps over the first midnight of a year, so every year crossing meets the check at `retry` |
| `CronNext.Next` | util/timer/cronexpr.go:190-268 | ends for every mask and time; a result is the least matching second strictly after the argument; none comes back if and only if nothing matches up to the end of the year after the upcoming second's |
| `CronNext.SecondsAfter` | util/timer/cronexpr.go:192 | the upcoming second is the least whole second strictly after the argument, given in nanoseconds |
| `CronNext.ChainEnumerates` | util/timer/cronexpr.go:190-268 | repeated searches list strictly increasing instants, and up to the last one exactly all the matching ones |
| `CronNext.FireTimes` | util/timer/cronexpr.go:190-268 | a loop of searches returns such a chain, cut short only where nothing fires in reach |
| `CronFiring.SearchExact` | util/timer/cronexpr.go:30-268 | every search of a compiled expression finds what its text says comes next if and only if no stray digit matters |
| `CronFiring.NextOfText` | util/timer/cronexpr.go:30-268 | from text to instant: accepted if and only if the text reads as an expression; the result is the least second after the argument among those the text compiles to, stray ones included, and none if and only if there is none up to the end of the following year; unless a stray digit matters, these are the seconds at which the text fires |
| `CronFiring.HugeStepFiresEarly` | util/timer/cronexpr.go:165-167 | the expression `5/9223372036854775807 * * * *` reads as minute 5 of every hour and, compiled, fires at 00:03:00, where its text does not |
| `CronFiring.TextEnumerated` | util/timer/cronexpr.go:30-268 | repeated searches list, in order, exactly the instants the text names up to the last one |
| `CronForms.FormStar` | util/timer/cronexpr.go:79 | `*` admits every value |
| `CronForms.FormNumber` | util/timer/cronexpr.go:80 | a number admits itself and is accepted if and only if it is within the limits |
| `CronForms.FormRange` | util/timer/cronexpr.go:81 | a range admits what lies between its ends, which must be in order and within the limits |
| `CronForms.FormStarStep` | util/timer/cronexpr.go:82 | `*` with a step admits the minimum and every step from there; the step must be positive |
| `CronForms.FormNumberStep` | util/timer/cronexpr.go:83 | a number with a step runs up to the maximum |
| `CronForms.FormRangeStep` | util/timer/cronexpr.go:84 | a range with a step |
| `CronForms.FormList` | util/timer/cronexpr.go:86 | a comma list is accepted if and only if its parts are, and admits what either admits |
| `CronForms.NoOtherForms` | util/timer/cronexpr.go:79-156 | a text that is accepted and has no comma has one of these forms |
| `CronForms.FieldsFire` | util/timer/cronexpr.go:12-77 | an expression of 5 or 6 words is accepted if and only if its words are fields with the documented limits; it fires when second, minute, hour and month are named and so is the day: by both day fields if one of them names every value, else by either |
| `CronForms.OtherWordCounts` | util/timer/cronexpr.go:32-35 | any other number of words is refused |
| `CronForms.Daily` | util/timer/cronexpr.go:30-187 | `m h * * *` fires every day at that time |
| `CronForms.Weekly` | util/timer/cronexpr.go:30-187 | `m h * * w` fires at that time on that weekday |
| `CronForms.DayOrWeekday` | util/timer/cronexpr.go:174-187 | `m h d * w` fires at that time on that day of the month and on that weekday |
| `CronForms.MondayMorning` | util/timer/cronexpr.go:190-268 | `0 9 * * 1`, asked in the last second of 2023, next fires on 1 January 2024 at nine |
| `RingQueue.CapacityMask` | util/queue/queue.go:10-12 | for every capacity that occurs, masking with capacity - 1 is the remainder |
| `RingQueue.RingAdd` | util/queue/queue.go:55-58 | writing the tail slot and advancing it by mask keeps the ring's shape and appends to the sequence it holds |
| `RingQueue.RingPop` | util/queue/queue.go:94-98 | clearing the head slot and advancing it by mask keeps the shape and drops the first element |
| `RingQueue.Queue.constructor` | util/queue/queue.go:21-25 | a new queue satisfies the invariant and is empty |
| `RingQueue.Queue.Length` | util/queue/queue.go:28-30 | the length of the sequence |
| `RingQueue.Queue.Resize` | util/queue/queue.go:34-47 | contents are kept across wrap-around, growing and shrinking, in a buffer of exactly twice their number, at a cost of one copy each |
| `RingQueue.Queue.Add` | util/queue/queue.go:50-59 | appends, keeping the invariant, and doubles the buffer if and only if it was full |
| `RingQueue.Queue.Peek` | util/queue/queue.go:63-69 | the first element, nil when empty |
| `RingQueue.Queue.Get` | util/queue/queue.go:75-85 | indexes the sequence from the front or, for negative indices, from the end; nil out of range |
| `RingQueue.Queue.Pop` | util/queue/queue.go:89-104 | removes and returns the front, nil when empty, keeping the invariant, and halves the buffer if and only if it is longer than 16 and a quarter full afterwards |
| `RingQueue.ValidMeans` | util/queue/queue.go:10-104 | the invariant: capacity a power of two of at least 16, more than a quarter in use unless 16, the elements from the head on around the end, nil in all other slots, copies paid for |
| `RingQueue.Run` | util/queue/queue.go:21-104 | any run of operations answers as a plain sequence does, and resizing copies at most 2 times the Adds plus the Pops |
| `RingQueue.ApplyMeans` | util/queue/queue.go:50-104 | what the plain sequence answers to each operation |
| `RingQueue.ApplyMore` | util/queue/queue.go:21-104 | runs take their operations one by one, and operations are counted one by one |
| `RandPick.PickDistinct` | util/rand/rand.go:67-88 | the dense shuffle returns distinct elements of its array |
| `RandPick.PickOnto` | util/rand/rand.go:67-88 | every duplicate-free selection is the result of some draws |
| `RandPick.PickOneToOne` | util/rand/rand.go:67-88 | the draws can be read back from the result, so no two draw vectors agree on it |
| `RandPick.SparseTurn` | util/rand/rand.go:69-88 | one turn with the sparse map is one turn of the dense shuffle on the array the map stands for, and its draw has a non-empty range |
| `RandPick.PickFirst` | util/rand/rand.go:69-88 | the first draw takes its element, and the last one moves there for the draws to come |
| `RandPick.Sample` | util/rand/rand.go:62-90 | the sparse loop returns exactly what dense Fisher-Yates returns |
| `RandPick.RandIntervalN` | util/rand/rand.go:53-91 | for differing bounds in either order, the dense shuffle of the whole interval cut to min(n, size): distinct values between the bounds, both included, and all of them when n reaches the size; for equal bounds one value; the length is min(n, size) if and only if the bounds differ or n > 0 |
| `RandPick.SampleUniform` | util/rand/rand.go:53-91 | every duplicate-free sequence over the interval comes from exactly one draw vector, so uniform draws give uniform samples |
| `RandPick.RandGroup` | util/rand/rand.go:12-39 | panics if and only if there are no weights; otherwise picks the first index whose wrapped running total exceeds the draw, or 0 when the total is 0; without overflow the draw lies between the sums before and after the index; the index has positive weight if and only if a draw is made or the first weight is positive |
| `RandPick.SelectedHasWeight` | util/rand/rand.go:17-36 | whether or not the totals wrap, no draw selects an index of weight zero |
| `RandPick.ChosenIsRange` | util/rand/rand.go:17-36 | without overflow the draws that choose an index are those between its two running totals |
| `RandPick.ChosenPartition` | util/rand/rand.go:31-36 | even with overflow every draw chooses exactly one index: the choices add up to the draws |
| `RandPick.ExactlyWeighted` | util/rand/rand.go:12-39 | a draw is made and every index is chosen by exactly as many draws as its weight if and only if the weights sum to a positive number below 2^32 |
| `RandPick.OverflowMisweights` | util/rand/rand.go:22-31 | with weights 2^32 - 1 and 2 the only draw chooses the first index |
| `RandPick.OverflowDropsWeights` | util/rand/rand.go:22-29 | with weights 2^32 - 1 and 1 no draw is made at all |
| `MsgFraming.HeaderRoundTrip` | network/tcp_msg.go:74-91 | for each width and byte order the header of every length it can hold reads back as that length |
| `MsgFraming.ReachableMeans` | network/tcp_msg.go:20-57 | the settings that the constructor and the setters keep to |
| `MsgFraming.HeaderBytes` | network/tcp_msg.go:126-142 | the bytes of a header of each width in either order, and the largest length each width holds |
| `MsgFraming.HeaderOnto` | network/tcp_msg.go:74-91 | every sequence of bytes as long as a header is the header of the length it reads as |
| `MsgFraming.DecodeAnswers` | network/tcp_msg.go:93-106 | the answer to every header: too long, else too short, else as many bytes as it says or the end of input |
| `MsgFraming.DecodeLimits` | network/tcp_msg.go:69-98 | an input shorter than a header is at its end, and a message returned has a length within the limits |
| `MsgFraming.DecodeFrame` | network/tcp_msg.go:65-107 | from any part of a stream that begins with a frame, reading waits for the rest or returns the message and leaves what follows |
| `MsgFraming.DecodePrefix` | network/tcp_msg.go:65-154 | reading any byte prefix of the frames of a list returns exactly the messages complete in it, then end of input |
| `MsgFraming.DecodeStream` | network/tcp_msg.go:65-154 | reading all the frames returns the list |
| `MsgFraming.MsgParser.constructor` | network/tcp_msg.go:20-28 | the default settings, which are reachable ones |
| `MsgFraming.MsgParser.SetMsgLen` | network/tcp_msg.go:31-57 | unusable arguments leave a setting alone, both limits are brought down to what the header holds, and reachability is kept |
| `MsgFraming.MsgParser.SetByteOrder` | network/tcp_msg.go:60-62 | only the byte order changes |
| `MsgFraming.MsgParser.Read` | network/tcp_msg.go:65-107 | returns what the decoder says of the pending bytes, which `DecodeAnswers` gives for every input, and leaves behind what follows the frame, what follows the header of a refused length, or nothing when the input ends |
| `MsgFraming.MsgParser.Write` | network/tcp_msg.go:110-154 | the outcome for every split of every length; below 2^32 - 4 bytes the message is sent behind its header if and only if its length is within the limits, else refused as too long or too short; the outcome is the intended one if and only if no 32-bit sum does harm, and whatever is sent is the frame of a message within the limits |
| `MsgFraming.WrittenAsIntended` | network/tcp_msg.go:110-154 | that outcome is the intended one if and only if header and message fit in 32 bits or the length is refused either way |
| `MsgFraming.WrittenShort` | network/tcp_msg.go:110-154 | the same for lengths below 2^32 - 4, as a statement about the outcome alone |
| `MsgFraming.WrittenIsFrame` | network/tcp_msg.go:124-151 | even with a wrapped length what is sent is the frame of a message within the limits, an initial part of the pieces |
| `MsgFraming.LongestMessagePanics` | network/tcp_msg.go:124-142 | with a four-byte header a message of 2^32 - 1 bytes is within the limits and writing it panics |
| `MsgFraming.OversizedMessageIsCut` | network/tcp_msg.go:112-151 | one piece of 2^32 + 5 bytes should be refused, and five of its bytes are sent |
| `MsgFraming.SumLengths` | network/tcp_msg.go:112-115 | the 32-bit sum is the true length modulo 2^32 |
| `MsgFraming.CopyPieces` | network/tcp_msg.go:144-149 | the pieces follow the header in order as far as there is room, and a piece that starts behind the end panics |
| `MsgFraming.Fill` | network/tcp_msg.go:124-149 | the buffer is a frame of the first bytes of the message, as many as the 32-bit length says; it panics exactly when too short for its header or when the last piece starts behind its end |
| `TcpConn.RunInv` | network/tcp_conn.go:25-93 | in every state of every interleaving: the close flag shuts out senders, the sentinel ends the queue, and accepted messages are written, in writing or queued, in order |
| `TcpConn.NewConnection` | network/tcp_conn.go:19-44 | a new connection is open in every respect and has nothing in its channel |
| `TcpConn.StepsPossible` | network/tcp_conn.go:25-93 | the mutex can be taken whenever it is free, the drain receives whenever there is something or the channel is closed, and the socket may take any part of a write or fail |
| `TcpConn.WriteOutcome` | network/tcp_conn.go:74-93 | every `Write` in every interleaving: with the flag set it does nothing; with room at the time of the call it appends the bytes and leaves the connection open; else it appends them or destroys the connection |
| `TcpConn.WriteNil` | network/tcp_conn.go:85-90 | a nil slice is ignored |
| `TcpConn.CloseOutcome` | network/tcp_conn.go:63-72 | after every `Close` the flag is set and nothing was accepted; unless it was set before, the sentinel is in the channel or, the channel being full, the connection is destroyed |
| `TcpConn.DestroyOutcome` | network/tcp_conn.go:46-61 | after every `Destroy` the socket is closed, the flag is set and, unless it was set before, the channel is closed |
| `TcpConn.CallReturns` | network/tcp_conn.go:46-93 | every call comes to its end, even if nothing else moves |
| `TcpConn.DrainDelivers` | network/tcp_conn.go:26-35 | whatever else goes on, the drain can hand the first message of the channel to the socket as a whole |
| `TcpConn.DrainLeaves` | network/tcp_conn.go:26-40 | the sentinel, a closed channel or a failed write end the loop; at the end of the drain the socket is closed and the flag set |
| `TcpConn.DrainFinishes` | network/tcp_conn.go:37-40 | out of its loop and with the mutex free the drain closes the socket, sets the flag and ends |
| `TcpConn.PanicMeans` | network/tcp_conn.go:51-81 | sending to a closed channel and closing it again are what panics |
| `TcpConn.HolderNeverBlocks` | network/tcp_conn.go:46-93 | the holder of the mutex can always take a step, also after the drain goroutine has died, and each step brings the release closer |
| `TcpConn.NoPanic` | network/tcp_conn.go:46-82 | the channel is closed at most once, nothing is sent to it afterwards, it never overflows, and closed implies the flag |
| `TcpConn.NothingAfterClose` | network/tcp_conn.go:56-93 | after a close, a destroy or a sentinel no continuation accepts another message |
| `TcpConn.GracefulClose` | network/tcp_conn.go:25-41 | a drain that ends at the sentinel has handed every accepted message to the socket, in order |
| `TcpConn.WireIsPrefix` | network/tcp_conn.go:25-35 | what the socket took, partial and failed writes included, is an initial part of what was accepted |
| `TcpConn.SentIsFrame` | network/tcp_msg.go:110-154 | whatever `WriteMsg` hands to the connection is a frame of an initial part of its pieces, and of all of them for an exact length |
| `TcpConn.EndToEnd` | network/tcp_conn.go:25-113 | in every interleaving in which data is written by `WriteMsg`, with pieces of any length, a peer that has received any part of the wire decodes a prefix of the messages in the accepted frames, byte for byte and in order, and then end of input |
| `TcpServer.RunInv` | network/tcp_server.go:62-127 | wait groups count what runs, the tracked set is the busy connections, and the closing stages imply what they wait for, in every interleaving with any number of `Close` calls |
| `TcpServer.NewServer` | network/tcp_server.go:62-67 | a new server tracks nothing, its listener is open and nothing runs |
| `TcpServer.PanicMeans` | network/tcp_server.go:94-111 | writing to the nil set and taking a wait group below zero are what panics |
| `TcpServer.Admits` | network/tcp_server.go:87-112 | below the limit a new connection is tracked, counted and given its goroutine |
| `TcpServer.Refuses` | network/tcp_server.go:88-93 | at the limit it is closed and nothing else changes |
| `TcpServer.Departs` | network/tcp_server.go:101-112 | when its agent returns, a connection is closed, leaves the set and is no longer waited for |
| `TcpServer.Retries` | network/tcp_server.go:69-85 | after a temporary failure the delay is 5 ms, then doubles, up to a second |
| `TcpServer.LoopEnds` | network/tcp_server.go:63-84 | any other failure ends the loop, and on a closed listener nothing is accepted or retried |
| `TcpServer.Admission` | network/tcp_server.go:62-114 | never more busy connections than the limit, the tracked set exactly those, no write to the nil set, no negative wait group, retry delay between 5 ms and 1 s |
| `TcpServer.Shutdown` | network/tcp_server.go:116-127 | once a `Close` has returned no agent runs, and in no continuation does one start |
| `TcpServer.CloseStages` | network/tcp_server.go:116-127 | `Close` closes the listener, waits for exactly the end of the loop, closes every tracked connection and drops the set, and waits for exactly the last connection goroutine |
| `TcpServer.NextStage` | network/tcp_server.go:116-127 | in this order |
| `TcpServer.NoneLeftOpen` | network/tcp_server.go:120-125 | once the set is dropped, every connection that still has a goroutine has been closed |
| `ModuleIds.ForestStep` | service/module.go:106-108 | taking the subtrees of some children out leaves the next child's subtree whole and apart from them |
| `ModuleIds.SubtreeParts` | service/module.go:105-119 | a subtree is its top and the subtrees of the top's children |
| `ModuleIds.BelowIsChain` | service/module.go:86 | a module lies below another if and only if a chain of parents leads to it |
| `ModuleIds.LoggedMeans` | service/module.go:106-109 | the logged `OnRelease` calls are for exactly the released modules, once each, a child's before its parent's |
| `ModuleIds.PlantGrows` | service/module.go:71-99 | a module and all that its nested `OnInit` calls add take consecutive fresh ids, all in its subtree, leaving other parents alone |
| `ModuleIds.PlantChild` | service/module.go:71-99 | a child added by `OnInit` gets the id after its elder siblings' modules and the added module as parent, and its own subtree are the modules of its plan |
| `ModuleIds.SizeMeans` | service/module.go:132-135 | a module without additions takes one id, and each child adds its own |
| `ModuleIds.ReleaseUndoesAdd` | service/module.go:71-130 | the subtree of an added module is exactly what came with it, so releasing it restores the parents as they were |
| `ModuleTree.Module.Root` | service/service.go:41-54 | an initialised service is an empty tree that satisfies the invariant |
| `ModuleTree.Module.NewModuleId` | service/module.go:132-135 | the root's counter plus one, the tree otherwise untouched |
| `ModuleTree.Module.AddModule` | service/module.go:71-99 | a new module, with any nesting of `OnInit` additions, is never refused: agreement is kept, the parents grow by exactly the plan's shape, the module is listed and registered, and nothing about other modules changes; a module whose id is listed already is refused and nothing changes |
| `ModuleTree.Module.OnInit` | service/module.go:90-93 | the additions made while the module itself is not registered yet keep agreement and give exactly the planned shape |
| `ModuleTree.Module.ReleaseModule` | service/module.go:101-130 | in every tree, also after releases by the wrong module: ends; panics if and only if the id is not registered, or the module it is asked of has itself been released or lies properly below the one to be released, or a module to be released lists one that is gone; otherwise removes exactly the subtree from the flat map, calls `OnRelease` once per module with children first, clears the released modules, leaves all other child maps alone and keeps agreement but for the entries that were out of date before |
| `ModuleTree.ReleaseMeans` | service/module.go:118-119 | exactly what is not the module or below it stays registered, with its parent, and lists what it listed, but for the entry taken from the module that was asked |
| `ModuleTree.GoneMeans` | service/module.go:122-129 | a released module refers to nothing any more |
| `ModuleTree.ExtendsMeans` | service/module.go:85-96 | what an addition keeps of every other module |
| `ModuleTree.ViewMeans` | service/module.go:37-51 | in every tree the modules' own fields say what the statements about trees are about |
| `ModuleTree.Module.Retire` | service/module.go:109-130 | the closing steps for a module whose children are gone repair the agreement that the release of the children had broken, or panic if and only if the module that was asked is among those children |
| `ModuleTree.ReleaseRestores` | service/module.go:101-130 | a release that does not panic restores agreement if and only if it is asked of the direct parent |
| `ModuleTree.AnyoneCanAsk` | service/module.go:101-107 | in an agreeing tree a release can be asked of any module for any registered id, and nothing to be released lists a module that is gone |
| `ModuleSession.GrandparentRelease` | service/module.go:118-119 | a service adds a child, the child a grandchild, and the service releases the grandchild: the call succeeds and leaves the flat map and the child maps in disagreement |
| `ModuleSession.ReleaseAfterwards` | service/module.go:101-108 | after that the service's release of the child panics |
| `ModuleSession.ReleaseFromBelow` | service/module.go:106-119 | the grandchild's release of the child it lies below panics |
| `ModuleTree.Found` | service/module.go:141-147 | asked of any module of the tree, also while modules are being added or released, `GetModule` finds exactly the registered modules, each under its own id |
| `ModuleTree.ParentLink` | service/module.go:85-87 | in every agreeing tree a module's parent link is what its parent holds as `self`: the parent, or nil directly below the service |
| `ModuleTree.DescendantsAreReachable` | service/module.go:95-96 | the flat map holds exactly the modules reachable through child maps |
| `ModuleTree.PathUnique` | service/module.go:95-96 | by one path each: the child maps form a tree |
| `ModuleSession.Session` | service/module.go:71-135 | after any sequence of additions and releases the tree is what the operations say, and every id ever handed out is either live or was released exactly once |
| `ModuleSession.StepMeans` | service/module.go:71-135 | what an addition and a release do to the parents and to the last id, and when they do nothing |
| `ModuleSession.AfterMore` | service/module.go:71-135 | runs begin with an empty tree and the seed 10^18 and take their operations one by one |
| `ModuleSession.SettledMeans` | service/module.go:71-135 | at the end of a run the flat map holds exactly the live modules, and every id handed out is live or was released, once |
| `ModuleSession.AddConserves` | service/module.go:71-99 | an addition keeps that balance of ids |
| `ModuleSession.ReleaseConserves` | service/module.go:101-130 | and so does a release |
| `RpcCorrelation.HandlerRpcRequest` | rpc/rpchandler.go:145-189 | without a closure there is no reply; else success is replied if and only if the method is known, the parameter decodes and the method does not fail; an unknown method draws its error alone; an undecodable parameter draws its error and then a second, failed reply |
| `RpcCorrelation.RunInv` | rpc/client.go:56-131 | in every interleaving of calls of all three kinds a request exists at most once, pending entries are issued and not taken, responses carry issued numbers |
| `RpcCorrelation.AnyOrder` | rpc/client.go:161-201 | whatever is under way may be lost or handed over in any order, and the client acts as long as its receive loop lives |
| `RpcCorrelation.Lost` | rpc/server.go:131-140 | what is lost is gone and nothing else changes |
| `RpcCorrelation.CallReaches` | rpc/server.go:102-148 | a call that is issued and sent gets the next number, is pending under it and reaches the handler, which has no reply to give if none is asked for |
| `RpcCorrelation.CallCompletes` | rpc/client.go:161-199 | from every reachable state in which the receive loop lives and reads, a call can be made and answered; the answer frees its number and queues its callback, unless it cannot be decoded |
| `RpcCorrelation.UnknownNumber` | rpc/client.go:176-180 | a response whose number is not pending is dropped |
| `RpcCorrelation.NotEncoded` | rpc/server.go:131-135 | a reply that cannot be encoded is used up without a response |
| `RpcCorrelation.QueuedOnce` | rpc/client.go:176-195 | each callback is queued at most once, only for a call that has one, and only by a response with its call's own number, whatever is repeated, reordered or lost |
| `RpcCorrelation.PendingIsOpen` | rpc/client.go:66-71 | every pending key is the number of an issued call whose callback has not been queued |
| `RpcCorrelation.AnsweredAtMostTwice` | rpc/server.go:122-148 | no request is answered more than twice |
| `RpcCorrelation.CountIsMultiplicity` | rpc/server.go:123-141 | answers are counted as often as they were given |
| `RpcCorrelation.OwnAnswer` | rpc/client.go:176-195 | the answer that queues a callback belongs to a request a whole number of wrap-arounds away, and to that very request up to 2^64 calls |
| `RpcCorrelation.OwnAnswerExactly` | rpc/client.go:66-71 | every callback gets its own answer in all runs of at most n calls if and only if n is at most 2^64 |
| `RpcCorrelation.LateAnswer` | rpc/client.go:67-70 | the run in which the first call's answer completes call 2^64 + 1 |
| `RpcCorrelation.CrashCause` | rpc/client.go:191-196 | the receive loop stops only when an answer to a call that gets one completes a call without a callback and, up to 2^64 calls, only one that waits for it |
| `RpcCorrelation.WaitingCallCrashes` | rpc/client.go:95-131 | one waiting call and its answer are enough to stop it |
| `RpcCorrelation.LateAnswerCrashes` | rpc/client.go:67-70 | so is a late answer to a call with a callback, when call 2^64 + 1, without a reply, has taken its number |
| `RpcCorrelation.SurvivesExactly` | rpc/client.go:161-201 | for every set of kinds of calls and every n, the loop outlives all runs of at most n such calls if and only if n is 0, or none waits and, beyond 2^64 calls, callback calls and calls without a reply are not mixed |

## Left out

- Time zones: instants are UTC. Offsets of whole hours shift the argument; daylight saving and fractional-hour offsets, for which `Truncate(time.Hour)` does not align with local hours, are not modelled. Neither is the range of `time.Time`.
- Cron text: a text is a sequence of characters; the error messages, the partly filled value returned next to an error, and byte sequences that are not valid UTF-8 are not modelled.
- `RandInterval`, the generator's seed and the quality of its draws: a draw is any value within the range asked for.
- RandPick.RandIntervalN: uniformity is the bijection between draw vectors and results; probabilities themselves are not modelled.
- Sockets: `SetLinger`, addresses, deadlines and the reading half of a connection; a write takes any number of bytes or fails.
- `TcpConn`, `TcpServer` and `RpcCorrelation` are step machines over values, not classes: locks and goroutines are the interleaving, and aliasing of a written byte slice by its writer is not captured.
- Of the server's closing of connections, in its cleanup, on refusal and in `Close`, only that they are closed is recorded; `agent.OnClose` is part of the step it ends, and a listener that is closed is taken to fail for good.
- RPC: what a waiting caller gets back, reconnecting, delivery of errors, liveness and JSON encoding; a read error stops the client; calls within one node take another path.
- Modules: timers, crons and events of a module, the `dispatcher` field, and the 64-bit width of the id counter.
- ModuleTree.Module.AddModule: a module that brings an id its new parent does not list, such as one released earlier, keeps that id; it can overwrite another module's entry in the flat map, and it need not be larger than its parent's, on which the ancestry of the model rests.
- ModuleTree.Module.OnInit: adds new modules below its own only; code that fails, or that adds to or releases other modules, is not modelled. After a failure the code leaves what was added registered below a module that is not.
- ModuleTree.Module.ReleaseModule: after a panic nothing is promised.
- `sysmodule` (SQL, Redis and HTTP clients), `cluster`, `node` and `log` are I/O and configuration around libraries; `util/deepcopy` and the encryption and hash helpers rest on reflection and library code; `sysservice`, `event`, `util/timer/timer.go`, `util/umap`, `util/semaphore` and the thread-safe queue keep no invariant of their own beyond that of the maps, channels and locks they wrap.
