# tower-http-cache: models and proofs

This project models the parts of `tower-http-cache` whose correctness is not visible from one
function body, and proves what they are for.

* **Stampede protection** (`Stampede*.dfy`). `CacheService::call` with its lock map, per-key
  mutexes and guards is a transition system over any finite set of concurrent callers; every
  await point, every map operation and every mutex operation is a step of its own, and time
  passing, eviction, backend errors, cancellation and auto-refresh are steps of the environment.
  Invariants over every interleaving give lock-map ownership, mutual exclusion, freedom from
  deadlock, bounded work, the number of origin calls, and where cached responses come from.
* **Wire format** (`Bytes.dfy`, `Utf8.dfy`, `LegacyFormat.dfy`, `LegacyReader.dfy`, `Envelope.dfy`). The
  cursor that reads 0.5.x records is the exact inverse of the 0.5.x writer, the reader that
  accepts both formats returns one well-defined meaning, and the sizes at which the two formats
  can be confused are exactly characterised.
* **Timestamps** (`Calendar.dfy`, `Decimal.dfy`, `TimeFormat.dfy`, `TimeOrder.dfy`). The day
  conversion is a bijection onto the Gregorian calendar, and the printed texts are those of
  section 5.6 of RFC 3339, never collide, and sort like the instants they denote.
* **Chunks and ranges** (`Range.dfy`, `RangeGrammar.dfy`, `Chunks.dfy`, `ChunkFill.dfy`). Cutting a range out of
  stored chunks gives what slicing the body gives exactly under a condition on two chunk sizes, and the two header texts of a 206 response parse back to what was
  served (section 4.2 of RFC 7233).
* **Tags and the in-memory backend** (`Tags.dfy`, `MemoryBackend.dfy`). Two maps updated by loops
  refine one relation of keys and tags, and bulk invalidation drops and counts exactly the keys
  that relation lists.

`CacheTypes.dfy` holds the values they share. Code that changes state in the repository is
written as classes and methods with loops and proved against functions or relations; the calendar
arithmetic, the range decisions and the freshness decision are functions. The stampede protocol is
a state machine because its claims are about interleavings.

Instants are natural numbers of ticks from the earliest representable instant in the cache, and
whole nanoseconds from the epoch in the printer. `SystemTime::now()` is the clock of the state
machine, and a parameter of each operation of the backend.

## What the proofs say about the code

* **A second origin call is still possible.** `acquire_handle` inserts the mutex into the map
  (src/layer.rs:1111) before it locks it (src/layer.rs:1112). A second caller that finds the
  entry in between can lock the mutex first, find nothing on its second read, find the key
  occupied again and call the origin without a guard, while the first caller goes on to call it
  too. The single-call promise of CHANGELOG.md:14-22 therefore does not hold in general;
  `TwoCallsForOneColdKey` is such a run. `SingleFlightExactly` says when it does hold: from an
  idle start, every steady run (see below) calls the origin at most once for a key if and only
  if the key reads Fresh at the start or no two callers ask for it. `SingleFlight` proves it for
  the single runs in which the key reads Fresh from the first dropped guard on and no waiter
  overtakes in this way, and `FusedSingleFlight` proves it, under the same freshness hypothesis,
  for all runs once insert and lock are one step. At most one *guarded* call is proved under
  that hypothesis even when waiters overtake.
* **Two chunk sizes.** An entry keeps the chunk size its cache was built with
  (src/layer.rs:289-292), but the fill loop steps by that of the current policy
  (src/layer.rs:968), which `CacheLayer::with_policy` (src/layer.rs:330) replaces without
  rebuilding the cache. `ReplacedPolicy` shows what follows: an empty 206 that announces two
  bytes, and a range that panics. `ServesAllIff` proves that after a fill every range is served
  with its own bytes if and only if the two sizes are equal or the body is one chunk for both,
  and `NeverWrongIff` that no range is served wrongly, or with a wrong Content-Length, if and
  only if they are equal or the body is one chunk for the step.
* **Dispatch order.** src/codec/envelope.rs:129-130 calls the order of the two decoders an
  optimisation. `FormatsSeparateExactly` proves this for exactly those buffer sizes whose excess
  over 24 does not leave 2^32 times the codec id plus 0x01434854 modulo 2^40, and
  `WrapReadBackExactly` that wrapped entries are read back at exactly the same sizes. The least
  size that fails is more than 4 GiB for every id from 1 on; the 21 MB of the comment at
  src/codec/envelope.rs:77 is that of id 0.
* **Counts and carriers.** The default `invalidate_by_tag` is documented to return the number of
  entries invalidated. It returns the number of listed keys, which is the number of dropped
  entries if and only if every listed key is still stored; `CountsEvictedKey` shows the
  difference after an eviction. Storing a key again keeps the index pairs of the entry it
  replaces, so the dropped entries are those that carry the tag if and only if the index lists no
  stored entry that lacks it; `DropsRetagged` drops one that does. The total of
  `invalidate_by_tags` is documented as possibly counting duplicates; on the in-memory backend it
  never does.
* **Completeness.** `is_complete` compares counts. It means that every chunk is present for
  every entry filled from a body (`CompleteMeansAll`), and for entries filled by hand exactly when
  no chunk number is out of range (`CompleteOnlyInRange`, with `CountedAsComplete` for the case
  that fails).
* **The first instant.** `epoch_parts` negates a second count that, for the very first instant of
  the 64-bit range alone, has no negative: `EpochPartsExact` proves the split exact for all others,
  and for this one where overflow is not checked.
* **Suffix ranges** (`bytes=-500`, section 2.1 of RFC 7233) are never accepted
  (`SuffixRangeRefused`).

## Assumptions of the state machine

* A call is not cancelled inside the await of `acquire_handle` (src/layer.rs:1112), where the map
  entry would be left behind. It can be cancelled at every other await.
* Reading the backend and classifying what was read is one step, at one instant.
* For the call bounds alone: the backend operations of the callers of that key do not fail, and
  either the key reads Fresh from the first dropped guard on (`SettledRun`), or, in terms of the
  environment only (`SteadyRun`), nothing evicts it, fails or is cancelled for it, its origin
  responses are storable, and once it has read Fresh or was stored it stays Fresh. What the key
  held before that, if anything, may be fresh, stale or expired.
* Codecs are arbitrary; `Lawful` says that what a codec encodes it decodes.

## Model

| member | source | states |
|---|---|---|
| StampedeSafety.InvStep | src/layer.rs:736-1136 | Every step of every caller and of the environment keeps the protocol invariant: map entries and program points own each other, mutexes are held exactly where the program point says so, waiters wait for a mutex of their own key, and each caller has seen what its program point, and its answer if it has one, implies |
| StampedeSafety.InvAlways | src/layer.rs:736-1136 | The invariant survives every run |
| StampedeSafety.ReachableInv | src/layer.rs:736-1136 | The invariant holds in every state that any interleaving reaches from an idle start |
| StampedeTheorems.LockMapOwnership | src/layer.rs:1107-1136 | In every reachable state a key is in the lock map if and only if a caller is between its vacant insert and its removal; that caller is unique, and the map holds its mutex |
| StampedeTheorems.DropFindsItsOwnLock | src/layer.rs:1126-1136 | Although the check and the removal in `drop` are separate steps, the check always finds the guard's own mutex, the entry is still that one at the removal, and no other owner loses its entry |
| StampedeTheorems.GuardedFetchesDisjoint | src/layer.rs:767-835 | Two origin calls under a Primary guard for one key are never in progress together |
| StampedeTheorems.WhyTheOriginIsCalled | src/layer.rs:767-835 | A keyed origin call without a guard comes only from a caller that missed, found the key occupied, waited, re-read and missed again, and found it occupied again; one with a guard only after a re-read as Primary that was not fresh |
| StampedeTheorems.NoDeadlock | src/layer.rs:767-827 | Nobody waits for a mutex while holding one; some caller can take a step if and only if some caller is unfinished; when nobody can, the lock map is empty and no mutex is locked |
| StampedeTheorems.BoundedWork | src/layer.rs:736-1070 | Whatever the others do, a call takes at most fourteen steps, looks at the lock map at most twice and waits for a foreign mutex at most once |
| StampedeTheorems.AnythingCanHappen | src/layer.rs:736-1070 | Time can pass and entries be evicted at any point, auto-refresh can store any response within bounds, and the origin can answer anything |
| StampedeTheorems.AnythingCanFail | src/layer.rs:738-1050 | Every backend operation can fail where it can succeed, and a call can be cut off at each await but that of its own lock |
| StampedeRuns.OneCallIsOneStart | src/layer.rs:834-836 | In every run, "at most one origin call for the key" is that at most one action of a caller of the key starts one |
| StampedeAnswers.AnswersFollowActions | src/layer.rs:736-1075 | In every run, a finished call failed if and only if it was cut off; it is answered with an origin response if and only if the origin sent that one and it was not cut off, whether or not the store succeeded; otherwise it is answered from the cache |
| StampedeAnswers.CarriedWasRead | src/layer.rs:738-824 | A hit in a caller's hands was read by an earlier look of that caller that did not fail, at which the backend held it and it was fresh, or stale but usable, by its times |
| StampedeAnswers.FreshLookIsAnswered | src/layer.rs:738-751 | In every run, a caller whose first look finds a fresh entry is answered with it |
| StampedeAnswers.StaleLookIsAnswered | src/layer.rs:751-778 | In every run, a caller whose first look finds a stale entry, and which then finds the key occupied, is answered with that entry without waiting |
| StampedeAnswers.AnswersFollowObservations | src/layer.rs:736-1070 | A cached answer follows a fresh look, a stale look at an occupied key, a second look after a wait that was not Expired, or the fresh look of a Primary; an origin response follows an origin call |
| StampedeSingleFlight.NoGuardedCallAfterStore | src/layer.rs:807-1070 | From any reachable state and in any interleaving: once a guarded fetch has stored, and while the key reads Fresh, no further guarded origin call for the key starts |
| StampedeSingleFlight.SingleFlight | src/layer.rs:736-1070 | When the key reads Fresh from the first dropped guard on, every run makes at most one guarded origin call for it, and at most one call at all if no waiter overtakes; `SingleFlightExactly` gives the exact condition on the start |
| StampedeSingleFlight.SingleFlightWhenSteady | src/layer.rs:736-1070 | The same from conditions on the environment alone, whatever the key held at the start: no eviction, failure or cancellation for the key, storable responses, and once fresh or stored it stays Fresh |
| StampedeOvertaking.FusedNeverOvertakes | src/layer.rs:1107-1113 | When every map insert is followed at once by its lock, no waiter ever takes the mutex first |
| StampedeExact.SingleFlightExactly | src/layer.rs:736-1123 | From any idle start, every steady run makes at most one origin call for the key if and only if the key reads Fresh at the start or no two callers ask for it |
| StampedeExact.TwoCallsFrom | src/layer.rs:779-805 | From every idle start with two callers of a key that does not read Fresh, a steady run makes two origin calls for it |
| StampedeTheorems.CalledOnce | src/layer.rs:736-835 | In every run no caller calls the origin twice |
| StampedeOvertaking.FusedSingleFlight | src/layer.rs:1092-1123 | With insert and lock fused into one step, a run in which the key reads Fresh from the first dropped guard on makes at most one origin call for it, whatever the key held at the start |
| StampedeOvertaking.FusedSingleFlightWhenSteady | src/layer.rs:1092-1123 | The same from conditions on the environment alone |
| StampedeOvertaking.OvertakingCanCallTwice | src/layer.rs:779-805 | From every state in which a waiter can take the mutex before its owner and the key reads neither Fresh nor Stale, eight error-free steps at one instant lead to two origin calls for the key |
| StampedeExact.TwoCallsForOneColdKey | src/layer.rs:1107-1113 | Without fusing, the one-call promise is false: a steady run from a cold start with two origin calls for one key |
| StampedeProvenance.ServedFromTheOrigin | src/layer.rs:736-1048 | In every run from an empty backend, a response served from the cache was read by a look of its own call, from what an earlier auto-refresh of the key or caller for it had stored, of a response that an even earlier action brought: its status, version and body, its tags, and exactly its allowed headers in order; the response may be stored, its body is within bounds and its time-to-live non-zero; both limits count from the storing, and bound the time of the look |
| StampedeProvenance.HeldWasStored | src/layer.rs:566-604 | In every run from an empty backend, every entry held was stored by an earlier auto-refresh, or caller that was brought a response that may be stored, with the stored part and the limits that follow from it |
| StampedeProvenance.ProjectIsStoredPart | src/layer.rs:1008-1042 | The stored entry has the status, version and body of the response, the extracted tags unless there are none, and exactly the allowed headers, in their order and multiplicity |
| StampedeProvenance.AllowedAreKept | src/policy.rs:200-215 | The allowlist keeps exactly the headers it allows, at strictly increasing places of the response |
| StampedeProvenance.StorePuts | src/layer.rs:1018-1048 | A successful store puts the stored part under its key, with both limits counted from now, and leaves every other key alone |
| StampedeProvenance.OthersOnlyDrop | src/backend/memory.rs:39-55 | No other step changes what is held, except that an eviction, or a successful read after the stale limit, drops the entry of its key |
| StampedeProvenance.StoredExactly | src/layer.rs:993-1048 | A call answered by the origin has tried to store the response if and only if the request has a key, the response may be stored, its body is within bounds and its time-to-live non-zero; a call answered from the cache has stored nothing |
| CacheTypes.ClassifyOnlyAges | src/layer.rs:1138-1170 | As time advances an unchanged entry only moves from Fresh to Stale to Expired, and it is Fresh exactly before its expiry less the refresh margin |
| CacheTypes.ClassifyExactly | src/layer.rs:1138-1170 | Fresh if and only if before the expiry less the refresh margin; Stale if and only if not Fresh and before the expiry, or before the stale limit with a non-zero stale window; Expired if and only if neither limit is ahead |
| CacheTypes.Lifetime | src/layer.rs:1138-1170 | An entry stored at `n` is Fresh to the refresh margin before the end of its time-to-live, then Stale to the exact end of its stale window, then Expired |
| Utf8Text.Utf8Exactly | src/codec/legacy.rs:124-127 | A byte string is taken for text if and only if it is the encoding of some sequence of Unicode scalar values |
| LegacyFormat.VersionRoundTrip | src/codec/mod.rs:102-122 | The version byte maps invert each other, a byte is accepted if and only if it is at most 4, and the versions from 0.9 to 3 are numbered 0 to 4 |
| LegacyFormat.PutInjective | tests/wire_compat.rs:352-393 | The 0.5.x writer writes different records as different bytes |
| LegacyFormat.RecordLength | src/codec/legacy.rs:129-175 | A record is 43 bytes long, plus 16 and the contents for each header, plus the body |
| LegacyFormat.RecordLayout | tests/wire_compat.rs:352-393 | Where everything lies in a record, by offsets: the payload length, status, version byte, number of headers, each header's name and value behind those before it, the body, and both timestamps |
| LegacyReader.Cursor.constructor | src/codec/legacy.rs:65-67 | A cursor starts with the whole buffer ahead |
| LegacyReader.Cursor.Take | src/codec/legacy.rs:73-88 | Succeeds if and only if that many bytes are left, and consumes exactly those; the cursor stays in the buffer |
| LegacyReader.Cursor.TakeU8 | src/codec/legacy.rs:90-92 | Consumes one byte and returns it; fails only at the end |
| LegacyReader.Cursor.TakeU16 | src/codec/legacy.rs:94-96 | Returns the number whose two-byte little-endian form it consumed; fails only when fewer bytes are left |
| LegacyReader.Cursor.TakeU64 | src/codec/legacy.rs:98-100 | The same for eight bytes |
| LegacyReader.Cursor.TakeLen | src/codec/legacy.rs:107-117 | Returns a length that is within the bytes left, and fails only if no such length is written at the cursor |
| LegacyReader.Cursor.TakeBytes | src/codec/legacy.rs:119-122 | Consumes exactly the written form of the byte string it returns, and fails only if none is written at the cursor |
| LegacyReader.Cursor.TakeString | src/codec/legacy.rs:124-127 | The same for byte strings that are UTF-8 |
| LegacyReader.Cursor.TakeHeaders | src/codec/legacy.rs:129-140 | Consumes exactly the written form of the headers it returns and fails only if none is written; the headers fit the capacity reserved, which the bytes left bound |
| LegacyReader.Cursor.Finish | src/codec/legacy.rs:144-152 | Succeeds if and only if nothing is left |
| LegacyReader.DecodePayload | src/codec/legacy.rs:169-186 | Accepts a payload if and only if some entry without tags is written as exactly these bytes, and returns that entry |
| LegacyReader.DecodeLegacyRedis | src/codec/legacy.rs:163-189 | Exact inverse of the writer: accepts a buffer if and only if some record is written as exactly these bytes, and returns that record with both timestamps |
| LegacyReader.RecordsAndBuffers | src/codec/legacy.rs:163-189 | Accepted buffers and records correspond one to one |
| Envelope.Wrap | src/codec/envelope.rs:55-65 | 21 bytes of header before the payload; the header is recognised and gives back the codec id and both timestamps, the rest gives back the payload |
| Envelope.DecodeV2Exactly | src/codec/envelope.rs:92-126 | Exact inverse of the layout: accepts a buffer if and only if it is an envelope with the codec's id whose payload the codec accepts, and returns that entry and both timestamps |
| Envelope.RecordHasLength | src/codec/envelope.rs:70-85 | Whatever the 0.5.x decoder accepts satisfies the length identity |
| Envelope.HeadOfLength | src/codec/envelope.rs:67-85 | Read as a 0.5.x length, the first eight bytes of an envelope of codec `id` leave 2^32 times `id` plus 0x01434854 modulo 2^40 |
| Envelope.TryLegacy | src/codec/envelope.rs:175-191 | The one record written as these bytes, if there is one and 0.5.x support is on |
| Envelope.ReadStored | src/codec/envelope.rs:137-173 | Whatever the order of attempts, the result is the record if the bytes are one, else what the envelope holds; it is a miss if and only if the bytes are neither an enabled record nor an envelope of the codec that it accepts |
| Envelope.OrdersAgree | src/codec/envelope.rs:127-173 | Unless the size is ambiguous for the codec id, no buffer decodes as both formats, and preferring either decoder gives the same result |
| Envelope.FormatsSeparateExactly | src/codec/envelope.rs:127-173 | For every size and codec id: no buffer of that size decodes as both formats if and only if the size less 24 has another residue modulo 2^40 than 2^32 times `id` plus 0x01434854 |
| Envelope.WrapReadBack | src/codec/envelope.rs:55-173 | What is wrapped is read back with both timestamps, at every size that is not ambiguous, and at any size with 0.5.x support off |
| Envelope.WrapReadBackExactly | src/codec/envelope.rs:55-173 | For every size and codec id: all wrapped entries of that size are read back, by every lawful codec, if and only if the size is not ambiguous |
| Envelope.LegacyReadBack | src/codec/envelope.rs:70-173 | Every 0.5.x buffer of any size reads as the record it is, even with the magic in front |
| Envelope.LeastAmbiguous | src/codec/envelope.rs:70-85 | The least ambiguous size is 2^32 times `id` plus 0x01434854 plus 24, more than 4 GiB for every id but 0 |
| Calendar.EraIsFloor | src/time_fmt.rs:34-35 | The adjustment by 146096 turns division toward zero into floor division, for all integers |
| Calendar.YearOfEraFinds | src/time_fmt.rs:37-39 | The closed formula gives the year of the era in which the day lies, day 365 only in leap years |
| Calendar.CivilIsExact | src/time_fmt.rs:32-44 | For every day number the result is a valid date whose count of days from 1970-01-01 is that number |
| Calendar.CivilInverts | src/time_fmt.rs:32-44 | Every valid date is the result for its own day number |
| Calendar.CivilSteps | src/time_fmt.rs:32-44 | Day 0 is 1970-01-01 and day z+1 is the calendar successor of day z |
| Calendar.CivilOrders | src/time_fmt.rs:32-44 | Later day numbers have later dates, and conversely |
| Calendar.DayNumberNext | src/time_fmt.rs:30-31 | The two definitions of the calendar, by successor and by count, agree |
| TimeFormat.EpochPartsExact | src/time_fmt.rs:15-28 | The split into seconds and nanoseconds rounds down before and after the epoch, without loss, for every instant of the 64-bit range; only the very first one panics, where overflow is checked |
| TimeFormat.AsI64Wraps | src/time_fmt.rs:120 | The cast gives the one 64-bit integer that agrees with the second count modulo 2^64 |
| TimeFormat.CivilFromSecsExact | src/time_fmt.rs:47-52 | Every field is in range and the fields recompose to the second count |
| TimeFormat.ComputeFields | src/time_fmt.rs:47-52 | Computes the only date and time of day at that distance from the epoch |
| TimeFormat.SecondsOrder | src/time_fmt.rs:47-52 | Field order is time order, and fields are unique |
| TimeFormat.RangeConstantsExact | src/time_fmt.rs:107-108 | A second count lies between the two constants if and only if its year is in -262143..262142 |
| TimeFormat.PushYear | src/time_fmt.rs:57-66 | Appends the year text and leaves what was there |
| TimeFormat.PushDateTimeSecs | src/time_fmt.rs:69-74 | Appends the text of the date and time at that distance from the epoch |
| TimeFormat.PushFraction | src/time_fmt.rs:78-89 | Appends the fraction of 0, 3, 6 or 9 digits |
| TimeFormat.FormatRfc3339 | src/time_fmt.rs:97-104 | Returns the text of every instant of the 64-bit range, before and after the epoch, but for the panic on the very first one where overflow is checked |
| TimeFormat.FormatRfc3339FromSecs | src/time_fmt.rs:116-133 | Returns the text of the wrapped second count, and of the epoch exactly when its year is not representable |
| TimeOrder.TextsSortLikeInstants | src/time_fmt.rs:97-104 | In years 0 to 9999 lexicographic order of the texts is time order, despite fractions of different width |
| TimeOrder.TailOrder | src/time_fmt.rs:78-104 | Fraction and offset together sort like the nanoseconds |
| TimeOrder.YearTextInjective | src/time_fmt.rs:57-66 | Different years, of any sign and length, have different texts |
| TimeOrder.YearTextExactly | src/time_fmt.rs:54-66 | The year text of any year is a sign exactly outside 0 to 9999, and the digits of the magnitude padded to four and no further |
| TimeOrder.TextsAreDistinct | src/time_fmt.rs:97-104 | In all years, distinct instants have distinct texts |
| TimeOrder.TextsAreRfc3339 | src/time_fmt.rs:97-104 | In years 0 to 9999 the text has the form of section 5.6 of RFC 3339, its numbers read as the fields of the instant, and its fraction denotes the nanoseconds in the fewest of 0, 3, 6 or 9 digits |
| Range.RangeRequest.Normalize | src/range.rs:56-83 | A definite range for exactly the satisfiable requests, lying within the body; an open end becomes the last byte |
| Range.ContentRangeReadsBack | src/range.rs:181-214 | Parsing inverts building for all 64-bit triples, through decimal printing |
| Range.RangeReadsBack | src/range.rs:128-160 | A printed request, closed or open-ended, is read as itself, and a list as its first range |
| Range.SuffixRangeRefused | src/range.rs:145-152 | No suffix range is accepted |
| RangeGrammar.RangeHeaderExactly | src/range.rs:128-160 | A text is read as a request if and only if it is `bytes=`, a first byte, a dash, a last byte or nothing, and perhaps more behind a comma; any other unit, form or number is refused |
| RangeGrammar.ContentRangeExactly | src/range.rs:189-214 | A text is read as a content range if and only if it is `bytes start-end/total` |
| RangeGrammar.TrimExactly | src/range.rs:150-156 | Trimming finds the one text without outer white space that the text pads |
| RangeGrammar.NumeralExactly | src/range.rs:150-156 | A number is digits, perhaps after a plus sign, that denote it within 64 bits |
| Decimal.ParseDec | src/range.rs:209-211 | Parsing as a 64-bit number inverts decimal printing |
| Chunks.ChunkedEntry.constructor | src/chunks.rs:119-125 | An entry without chunks |
| Chunks.ChunkedEntry.AddChunk | src/chunks.rs:152-154 | Sets that chunk and no other |
| Chunks.ChunkedEntry.GetRange | src/chunks.rs:224-253 | For any entry and range, the loop returns what gathering the pieces of chunks `start / size` to `end / size` gives, a missing chunk or a slice out of bounds included |
| Chunks.ServedIsSlice | src/chunks.rs:224-253 | For chunks cut from a body: nothing if and only if a chunk that shares an offset with the range is missing; otherwise exactly the slice of the body |
| Chunks.TouchedIsBetween | src/chunks.rs:225-230 | Those chunks are the ones from `start / size` to `end / size` |
| Chunks.CompleteMeansAll | src/chunks.rs:282-286 | For an entry that describes a body: complete if and only if every chunk of it is present, and if and only if the bytes held are as many as the body has |
| Chunks.CompleteOnlyInRange | src/chunks.rs:255-286 | For any entry counted as complete, all chunks are present if and only if no chunk number is out of range |
| Chunks.CountedAsComplete | src/chunks.rs:255-286 | An entry counted as complete with a chunk missing |
| Chunks.HeldBytes | src/chunks.rs:497-503 | The chunks present never hold more bytes than the body, and as many only when all are there |
| Chunks.ChunkedEntry.CountBytes | src/chunks.rs:496-498 | The inner loop sums the sizes of all chunks of an entry |
| Chunks.ChunkCache.Stats | src/chunks.rs:484-511 | Every total is the sum, or the number, over all entries, each counted once |
| Chunks.BytesTellCompleteness | src/chunks.rs:484-511 | When every entry describes a body, the byte total is at most that of all bodies, and equal to it if and only if every entry is counted as complete |
| Chunks.SizesAddUp | src/chunks.rs:497-503 | The sizes of the first n chunks sum to the part of the body they cover |
| ChunkFill.ChunkAdded | src/layer.rs:972-979 | Each turn of the loop adds the next chunk of the body, of the size of the step |
| ChunkFill.SameSizeFills | src/layer.rs:967-979 | With the step of its own size, the fill keeps an entry describing the body and leaves exactly the chunk numbers below the rounded-up quotient |
| ChunkFill.FilledIsCutIff | src/layer.rs:967-979 | For any step and size, the stored chunks are those the entry stands for if and only if step and size are equal or the body is one chunk for both |
| ChunkFill.ServesAllIff | src/layer.rs:967-979 | After a fill every range is served as the slice of the body under the same condition, and only then |
| ChunkFill.NeverWrongIff | src/layer.rs:967-979 | No range is served wrongly, and none with another length than announced, if and only if step and size are equal or the body is one chunk for the step |
| ChunkFill.ShortStep | src/layer.rs:967-979 | A step shorter than the size serves a byte of the body as nothing, and makes the range behind it panic |
| ChunkFill.LongStep | src/layer.rs:967-979 | A step longer than the size serves a range with one byte too many, or not at all |
| ChunkFill.ReplacedPolicy | src/layer.rs:330-333 | Cache built with size 4, policy replaced by one with size 2, body of eight bytes: an empty 206 that announces two bytes, and a panic |
| ChunkFill.Populate | src/layer.rs:964-979 | Under a new key the entry has the size of the cache and exactly the chunks the loop stored; under an old one it is the same entry with these chunks on top |
| ChunkFill.Fill | src/layer.rs:967-979 | For any entry, body and positive step, the loop stores exactly the chunks of the body of the size of the step, and leaves every other chunk as it was |
| Chunks.WholeBody | src/chunks.rs:224-286 | A complete entry gives back the whole of a non-empty body |
| ChunkFill.ServePartial | src/layer.rs:670-727 | For any entry: a 206 is sent if and only if the range is satisfiable and gathering it succeeds; its headers read as the range, the total and the length of the range |
| ChunkFill.ServeBody | src/layer.rs:670-727 | From an entry that describes a body: sent if and only if the range is satisfiable and its chunks are there; the data is the slice, as long as the Content-Length says |
| Chunks.ChunkCache.constructor | src/chunks.rs:351-356 | A cache without entries |
| Chunks.ChunkCache.GetOrCreate | src/chunks.rs:387-392 | An existing entry is returned as it is, whatever metadata is offered; otherwise a new empty one is added and returned |
| Tags.TagIndex.constructor | src/tags.rs:26-31 | The empty relation |
| Tags.TagIndex.Index | src/tags.rs:37-52 | Adds the pairs of the key with the tags and no other; the two maps stay inverse and without empty sets |
| Tags.TagIndex.GetKeysByTag | src/tags.rs:55-60 | The keys of the tag, each once |
| Tags.TagIndex.GetTagsByKey | src/tags.rs:63-68 | The tags of the key, each once |
| Tags.TagIndex.Remove | src/tags.rs:74-90 | Takes out the pairs of the key and no other, keeping the maps inverse and without empty sets |
| Tags.TagIndex.RemoveByTag | src/tags.rs:94-113 | Takes out the pairs of the tag and no other, and returns its keys, each once |
| Tags.TagIndex.RemoveByTags | src/tags.rs:118-127 | Takes out the pairs of all listed tags and no other, and returns the keys that carried one, each once |
| Tags.TagIndex.Clear | src/tags.rs:148-151 | The empty relation again |
| Tags.InverseWithout | src/tags.rs:74-90 | Dropping a row on one side and its member on the other keeps the maps inverse |
| Tags.InverseWith | src/tags.rs:37-52 | Adding a member on one side and the row entries on the other keeps the maps inverse |
| MemoryBackend.InMemoryBackend.constructor | src/backend/memory.rs:29-35 | An empty store and an empty relation |
| MemoryBackend.InMemoryBackend.Get | src/backend/memory.rs:39-55 | The entry with both times unless the clock has passed the stale limit, in which case it is dropped |
| MemoryBackend.InMemoryBackend.Set | src/backend/memory.rs:57-86 | Stores with both limits counted from now and adds the tags to the relation; with a zero time-to-live changes nothing |
| MemoryBackend.SetThenGet | src/backend/memory.rs:39-86 | An entry stored at `n` and not stored over is read back with expiry `n + ttl` and stale limit `n + ttl + staleFor`, up to that limit and not after; a read after the limit drops it for every clock |
| MemoryBackend.OthersUndisturbed | src/backend/memory.rs:39-86 | Storing or reading one key leaves what every other key reads as alone |
| MemoryBackend.InMemoryBackend.Invalidate | src/backend/memory.rs:88-92 | Drops the key from the store and from every row of the index |
| MemoryBackend.InMemoryBackend.InvalidateByTag | src/backend/mod.rs:249-264 | Drops exactly the listed keys, afterwards no stored entry carries the tag; the count is that of the listed keys, and that of the dropped entries if and only if all listed keys were stored; the dropped entries are those that carried the tag if and only if the index listed no stored entry that lacked it |
| MemoryBackend.InMemoryBackend.InvalidateByTags | src/backend/mod.rs:266-281 | The same for several tags; the total is the size of the union of their key sets, however often a tag is repeated |
| MemoryBackend.CountsEvictedKey | src/backend/mod.rs:249-264 | After an eviction the count exceeds the number of entries dropped |
| MemoryBackend.DropsCarriers | src/backend/mod.rs:249-264 | Dropping a listed row drops all carriers of the tag, and nothing else if and only if the row lists no stored entry that lacks it |
| MemoryBackend.DropsRetagged | src/backend/memory.rs:71-85 | An entry stored anew without the tag is dropped all the same |
| MemoryBackend.NoneCarries | src/backend/mod.rs:249-264 | An emptied row means that no stored entry carries the tag |
| MemoryBackend.Dropped | src/backend/mod.rs:249-281 | The number of keys asked for is the number of entries lost if and only if all were stored |

## Left out

- StampedeSingleFlight.SingleFlight: backend errors and eviction during the first fetch are excluded by hypothesis; with them the origin may rightly be called again.
- StampedeTheorems.NoDeadlock: progress of some caller; fairness among the waiters of one mutex is tokio's and is not modelled.
- StampedeProvenance.ServedFromTheOrigin: bodies are stored as received, that is, with compression off.
- Chunks.ChunkedEntry.GetRange: chunks added by others during one call are not interleaved with its loop; a chunk size of zero, with which the division panics, is outside.
- ChunkFill.Fill: a step of zero, with which the loop does not end, is outside. Refilling a key with another body is covered by the contract, but what such mixed entries serve is not characterised.
- LegacyReader.DecodeLegacyRedis: error messages and the order in which errors are reported; every failure is one `Err`. Buffers have fewer than 2^64 bytes.
- `format_iso8601_millis`, which prints the same fields with a fixed fraction; platforms whose `SystemTime` has another range than 64-bit seconds.
- Range.RangeReadsBack: header values with more than visible ASCII, and repeated headers; the header map is reduced to one optional text.
- MemoryBackend.InMemoryBackend.InvalidateByTag: operations one after the other; concurrent operations on the two maps of the tag index, which are not atomic together, are not modelled.
- Cancellation inside the await of `acquire_handle`, and time passing between a backend read and its classification.
- The response-side decisions `should_stream`, `cache_control_disallows` and `respect_cache_control`: one uninterpreted predicate, `mayStore`; with `CachePolicy` reduced to the fields the protocol reads.
- The request side of `call` (method, key extraction, bypass headers), and `into_response`, which drops headers it cannot represent.
- Time-to-live arithmetic that overflows `SystemTime`.
- Auto-refresh bookkeeping (src/refresh.rs), reduced to a step that stores a response on its own; rates and timers are floating point.
- Postcard and the compression codecs: libraries behind the `Codec` contract.
- Redis, memcached and multi-tier backends, metrics, tracing, admin routes, request ids and logging: I/O or thin wrappers.
- `coverage`: a floating-point quotient; and `ChunkCache::get` and `remove`, one-line map operations.
- `list_tags`, `tag_count`, `key_count`, `validate_tags`: one-line reads.
