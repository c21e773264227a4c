# Askr shared-memory engine: a verified model

Askr keeps its caches, its rate limiter and its broadcast ring in fixed-slot tables in one shared
mapping, changed by many processes under per-slot locks or none. This project models those tables and
the algorithms on them, and proves what they promise.

- **Key-value cache** (`cache.rs`). Three views of one table. `Seqlock` is a single slot written one
  field and one byte at a time while readers take no lock and writers may die anywhere, and
  `SeqlockHistory` its answers by what was stored before. `CacheSteps`, `CacheRaces` and `CacheReads`
  interleave operations one locked slot visit at a time; `CacheSolo` runs one of them alone and finds the
  region's operation. `CacheRegion` and `Cache`
  are the code itself, in place on an array, refining a map with expiry. `Namespace` (`ns.rs`) keeps
  applications apart.
- **Durable cache** (`cache_sql.rs`). `TwoTier` is the SQL map and the front as a machine over whole
  runs, and `TableLaws` what that map answers; `DurableCache` is the code over the real two-region cache,
  refining the machine; `TwoTierSteps` interleaves workers between table and front.
- **Response cache** (`rcache.rs`). `ResponseTable` and `ResponseCache` are the table in place with
  its deadlines, purges and bans; `PurgeKeys` is which keys a URL means; `TagTable` and
  `TagGenerations` are tag invalidation, sequentially and one memory access at a time, with stops and
  boots; `Glob` is the matcher.
- **Rate limiter** (`ratelimit.rs`). `TokenBucket` (in `RateLimit.dfy`) and `RateDrift` are the
  arithmetic of one bucket over whole runs, `RateVerdicts` what it tells its client; `RateTable` is the
  probed table.
- **Broadcast ring** (`broadcast.rs`). `Ring` in place, refining a log; `RingSteps` one access at a
  time; `RingSubscribers` a subscriber's polls over those accesses.
- **Algorithms**. `Civil` (`observ_sql.rs`), `TrafficLog`, `TrafficReading` and `Simulator` (`oracle.rs`),
  `Esi`, `EsiTags` and `EsiPages` (`esi.rs`). `Text` is UTF-8 and its lossy reading; `Common` and `Arith` hold shared definitions.

Taken as given: a mapped table, per-slot mutual exclusion, sequentially consistent memory, the clock
as a parameter, hashes as arbitrary functions, and table counts and clocks that do not exceed 64 bits
where the code adds without saturating.

## Where the code does not do what was hoped

Each is shown by a concrete input or run, and a condition that separates the good cases from the bad is
proved in both directions.

- The glob matcher refuses some patterns on a text that contains a literal `*`, and only on such a
  text (`Glob.FaithfulIffNoStarInText`).
- The refill rounds up by less than `limit` units per call; the budget without that gift holds exactly
  when `limit` and `window` divide one another (`RateDrift.ExactBudgetIffDividing`).
- A writer that dies inside a value leaves its key with a value spliced from its own and whatever the slot
  held before, be it another key's: `get` finds the counter odd, takes the lock and serves it at once,
  exactly unless what the writer did not come to write was there already
  (`Seqlock.DeathMidWriteSplices`, `Seqlock.DeathOverOldValue`, `Seqlock.ValueNobodyWrote`,
  `Seqlock.ValueOfAnotherKey`). One that dies after its first store brings a deleted entry back
  (`Seqlock.DeathRevivesDeleted`). The comment at `cache.rs:387-390` takes the odd counter to be all that is
  left of the dead writer.
- The number of calls an allowed call says are left can be too low: what one millisecond brings in is not
  charged where it is worth less than one, and comes in again with the next call at the same instant
  (`RateVerdicts.MoreThanRemaining`). It is right exactly when that does not make a token
  (`RateVerdicts.RemainingIsExactIff`).
- A refusal's retry time is not kept for windows so long that what is missing does not fit one 64-bit
  refill, and only for those (`TokenBucket.RetryAfterHonouredIff`).
- The durable front is invisible exactly when no two keys become the same row and no value exceeds the
  front (`TwoTier.AgreesIff`). Row keys are lossy text, so keys that are not UTF-8 can become one row:
  FF and FE do (`TwoTier.BytesShareARow`). The comment at `cache_sql.rs:212-217` says that workers see
  writes immediately.
- Nor are they seen at once when a reader that missed fills the front after another worker's set: the old
  value stays there (`TwoTierSteps.SlowReaderLeavesOld`). The front is right, or will be put right, exactly
  when no worker leaves there what is not the row's (`TwoTierSteps.MendedIffNothingOldIsLeft`), and that is
  so if no row changes while a worker carries its value (`TwoTierSteps.SmoothRunsAgree`).
- A forget that publishes generation 1 after two others counted up brings a forgotten entry back
  (`TagGenerations.ThreeForgetsLower`), and one that loses the race for its tag's first cell can finish
  where nobody reads (`TagGenerations.LosingForgetIsNotSeen`). Overlapping forgets are harmless exactly
  when neither happens (`TagGenerations.HarmlessIff`), and neither does once the first forget of the
  tag has been let finish (`TagGenerations.FirstAloneIsClear`). The comment at `rcache.rs:312-313`
  promises that every entry becomes stale at once.
- The cache is written to disk only on a graceful stop and loaded at every boot. After a crash the boot loads
  the image of an earlier stop, tag table included, and a tag forgotten since is no longer forgotten
  (`TagGenerations.ForgottenComesBack`). Loading is safe exactly when no kept entry that the image serves
  has a tag of which a forget has finished since (`TagGenerations.RestoreIsSafeIff`,
  `TagGenerations.AlwaysSafeIff`).
- The comment at `rcache.rs:66-68` says a truncated key matches no purge. It can match the purge of
  another URL, and its own URL's purge misses it (`PurgeKeys.CutKeyTakenForAnother`,
  `PurgeKeys.PurgesFaithfullyIff`).
- The comment at `broadcast.rs:97-98` says that publishers a ring apart are caught by the reader's
  check. If they overlap in time, they are not: deliveries are right exactly when publishers of a slot
  are never inside it together (`RingSteps.RightIffApart`).
- A subscriber passes over a number that was drawn and is not committed, and never comes back to it: even one
  that keeps up misses exactly the events it looked for before their commit
  (`RingSubscribers.GivenIffCommitted`, `RingSubscribers.CommitsTooLate`).
- `increment` leaves a second copy of a key that the large region holds exactly where the small region
  has a place for it (`Cache.Cache.Increment`), and
  a `set` of a value for the large region while that is disabled drops the key (`Cache.Cache.Set`).

## Model

| member | source | states |
|---|---|---|
| `Seqlock.PeekSawOneInstant` | crates/askr/src/cache.rs:318-405 | In every interleaving of single-field writes and lock-free reads, with writers dying after any write, a peek that does not answer Torn, and the locked read that get falls back to, answers as the slot stood when it began, with no writer inside |
| `Seqlock.SeenIsAnInstant` | crates/askr/src/cache.rs:318-405 | The entry a reader that is not Torn is held to is the slot at the moment of its own last sample or locked read, when no writer was inside |
| `Seqlock.HitIsOneWrite` | crates/askr/src/cache.rs:268-288 | A Hit at an instant with no half-dead write is the value of one complete write under exactly that key |
| `Seqlock.CrashFreeHitIsOneWrite` | crates/askr/src/cache.rs:318-369 | In runs where no writer dies inside a write, every Hit is the value of the last write completed, under exactly that key and hash, at an instant within the run |
| `Seqlock.DeathMidWriteSplices` | crates/askr/src/cache.rs:268-405 | A writer dies inside its value, whatever the slot held before: get of its key finds every peek torn, reads under the lock and, unless the new deadline has passed, is given the bytes written so far followed by what was in the buffer, which is the value written if and only if the rest of it was there already |
| `Seqlock.DeathOverOldValue` | crates/askr/src/cache.rs:268-405 | Over a value of the same key, after any number of the stores: exactly what get is given and under which deadline, and that it is one of the two values if and only if the length was not reached, or the bytes not reached were in the buffer already, or the lengths agree and the bytes written are those of the old value |
| `Seqlock.DeathRevivesDeleted` | crates/askr/src/cache.rs:268-405 | A writer of any key that dies after its first store makes get of the key the slot last held answer with that value again, even if it was deleted, until its deadline |
| `Seqlock.TouchExposesSplice` | crates/askr/src/cache.rs:296-369 | If the key is touched after that, lock-free peeks are given the same, with the same condition |
| `Seqlock.SplicedUnlessAlike` | crates/askr/src/cache.rs:268-288 | For values of one length, dying after p bytes leaves one of the two values if and only if they agree up to p or from p on |
| `Seqlock.ValueNobodyWrote` | crates/askr/src/cache.rs:268-405 | A run from a freshly mapped slot in which a reader is given a value no write ever carried |
| `Seqlock.ValueOfAnotherKey` | crates/askr/src/cache.rs:268-405 | A run from a freshly mapped slot in which get of one key is given a value that was only ever written under another |
| `Seqlock.InvHolds` | crates/askr/src/cache.rs:165-190 | Every run keeps: the version is odd while a writer is inside, and each reader's partial view is that of the slot at its first sample for as long as the version has not moved |
| `SeqlockHistory.FinishedOp` | crates/askr/src/cache.rs:268-299 | In every run, whatever readers do meanwhile, an operation that finishes has changed exactly this: a write every field and the bytes of key and value, a mark the state, a touch the deadline |
| `SeqlockHistory.EntryIsStored` | crates/askr/src/cache.rs:268-299 | In every run, deaths included, the state and the deadline of the slot are those stored last |
| `SeqlockHistory.ChainEndIffUnused` | crates/askr/src/cache.rs:343-350 | In every run in which no slot is marked empty, deaths included, a look answers ChainEnd if and only if no write or mark had stored the slot's state before it |
| `SeqlockHistory.PeekIsHistory` | crates/askr/src/cache.rs:318-405 | In runs where no writer dies inside a write, every look that is not Torn answers as the history before it says: ChainEnd, the value of the last whole write of its key, Expired if and only if the deadline stored last, by that write or a later touch, is non-zero and past, or Other |
| `CacheSteps.ChainsHold` | crates/askr/src/cache.rs:429-520 | In every interleaving of locked slot visits of get, set, add, delete, touch, increment and flush, no slot becomes empty again and every live copy has only non-empty slots before it in its probe order |
| `CacheSteps.StepKeepsInv` | crates/askr/src/cache.rs:371-696 | One locked visit of any operation keeps that chain invariant and what each operation under way knows of its window |
| `CacheRaces.DeletedMeansDeleted` | crates/askr/src/cache.rs:572-598 | A delete overlapping no write of its key leaves no live copy anywhere, however many duplicates earlier races left |
| `CacheRaces.DeleteCleansUp` | crates/askr/src/cache.rs:572-598 | At every point of such a delete, the part of the probe order behind it holds no copy of the key |
| `CacheRaces.RacingSetsConverge` | crates/askr/src/cache.rs:429-521 | Once racing sets of a key have all finished, at most one copy is live |
| `CacheRaces.PairsKeepResolving` | crates/askr/src/cache.rs:503-521 | While sets race, for every two live copies some set still under way is going to come across one of them |
| `CacheRaces.OneAddWins` | crates/askr/src/cache.rs:523-570 | Racing adds of an absent key, with only insertions of other keys around them: at most one returns true |
| `CacheReads.SetMeansSet` | crates/askr/src/cache.rs:429-521 | However everything else interleaves, a set of a key with at most one copy that no other write or touch of it overlaps leaves every live copy with its value and deadline |
| `CacheReads.GetIsGiven` | crates/askr/src/cache.rs:371-427 | While nobody changes entries of the key and it is not removed, a get answers with the value all its copies have until the deadline, and with nothing after it |
| `CacheReads.SetIsRead` | crates/askr/src/cache.rs:371-521 | A set and then a get, with no other write, touch or removal of the key in between: the get is given what was set, until the deadline |
| `CacheReads.CountsKeepDeadline` | crates/askr/src/cache.rs:627-696 | Throughout any run in which a key's entry is only counted up before it expires, its deadline stays, also where an increment finds the key stored by another in the slot it chose |
| `CacheSolo.AloneIsARun` | crates/askr/src/cache.rs:371-731 | An operation run alone to its end is a run of the step system |
| `CacheSolo.SetAlone` | crates/askr/src/cache.rs:429-521 | Alone, a set gives the map update and the eviction rule of the region's set |
| `CacheSolo.AddAlone` | crates/askr/src/cache.rs:523-570 | Alone, an add succeeds if and only if no live entry holds the key and there is a place for it; then it is stored, otherwise nothing changes |
| `CacheSolo.IncrementAlone` | crates/askr/src/cache.rs:627-696 | Alone, an increment stores the new value under the deadline the live counter had, else the new one; without a place nothing changes |
| `CacheSolo.DeleteAlone` | crates/askr/src/cache.rs:572-598 | Alone, in a table with any number of copies, a delete tombstones every one and says whether there was one |
| `CacheSolo.TouchAlone` | crates/askr/src/cache.rs:601-624 | Alone, a touch moves the deadline of a live entry and nothing else; an expired one goes |
| `CacheSolo.GetAlone` | crates/askr/src/cache.rs:371-427 | Alone, a get answers with the value held unless expired, and drops it if it is |
| `CacheSolo.FlushAlone` | crates/askr/src/cache.rs:713-731 | Alone, a flush drops exactly the keys with the prefix |
| `CacheRegion.Region.constructor` | crates/askr/src/cache.rs:200-234 | A mapped region is an empty map with the slots asked for, and at least 16 |
| `CacheRegion.Region.Get` | crates/askr/src/cache.rs:371-427 | Answers the stored value unless expired; an expired entry is dropped; every other key is as it was |
| `CacheRegion.Region.Choose` | crates/askr/src/cache.rs:429-500 | The slot a set writes: the key's own, else a free one in its window, else an expired one, else the least recently written |
| `CacheRegion.Region.Set` | crates/askr/src/cache.rs:429-500 | The key maps to the new value; another key is lost only if the key is new and its window full, and then an expired entry or, where none has expired, one with the least write time |
| `CacheRegion.Region.TombstoneOthers` | crates/askr/src/cache.rs:503-521 | Every copy of the key but the one kept is tombstoned, and nothing else changes |
| `CacheRegion.Region.Add` | crates/askr/src/cache.rs:523-570 | Stores exactly when no live entry holds the key and there is a slot for it; no other key is lost; otherwise nothing changes |
| `CacheRegion.Region.Delete` | crates/askr/src/cache.rs:572-598 | The key is gone, no other key changes, and the answer says whether it was there |
| `CacheRegion.Region.Touch` | crates/askr/src/cache.rs:601-624 | Only the expiry of a live entry changes |
| `CacheRegion.Region.Increment` | crates/askr/src/cache.rs:627-696 | The counter under the key plus delta, saturating; expired counts as 0; stored where there is a slot, and no other key is touched |
| `CacheRegion.Region.FlushPrefix` | crates/askr/src/cache.rs:713-731 | Exactly the keys with the prefix are gone |
| `CacheRegion.StoredIsRead` | crates/askr/src/cache.rs:301-304 | What was stored with a ttl is read up to and in the second it ends, without one for ever |
| `CacheRegion.TouchedIsRead` | crates/askr/src/cache.rs:601-624 | A touch keeps the value of what is read and moves its end; what is not read stays so |
| `CacheRegion.KeptIsRead` | crates/askr/src/cache.rs:371-427 | A lookup, which drops an expired entry, changes nothing for any later one |
| `CacheRegion.SumIsClipped` | crates/askr/src/cache.rs:627-696 | A counter's sum is exact within 64 bits and otherwise the end of the range it would pass |
| `CacheRegion.CounterIsRead` | crates/askr/src/cache.rs:627-696 | A counter is read for as long as what it counted on from would be, or for its own ttl if that was not read |
| `CacheRegion.StoreFind` | crates/askr/src/cache.rs:268-288 | Writing a slot where the key can be found displaces only what was in that slot, and keeps every other key findable |
| `CacheRegion.TombstoneFind` | crates/askr/src/cache.rs:290-294 | Tombstoning a slot removes its key from the map and nothing else, because probe chains go on past it |
| `CacheRegion.SetTargetMeans` | crates/askr/src/cache.rs:429-500 | Any slot the choice rule allows gives the map update and the eviction rule stated for set |
| `Cache.Cache.constructor` | crates/askr/src/cache.rs:738-743 | Two empty regions, or one where no large slots are asked for |
| `Cache.Cache.Get` | crates/askr/src/cache.rs:754-762 | The value held in either region unless expired, under the application's own name for the key |
| `Cache.Cache.Set` | crates/askr/src/cache.rs:765-781 | Routed by size and cleared from the other region, so the key is held once with this value; too large a value is refused; a value for the large region while it is disabled drops the key and is refused |
| `Cache.Cache.Add` | crates/askr/src/cache.rs:784-795 | Blocked by a live entry in either region; the key is never in both |
| `Cache.Cache.Delete` | crates/askr/src/cache.rs:798-806 | Gone from both regions |
| `Cache.Cache.Touch` | crates/askr/src/cache.rs:809-817 | Refreshes a live entry in whichever region holds it; the key stays in one region |
| `Cache.Cache.Increment` | crates/askr/src/cache.rs:819-829 | Looks at the small region only; afterwards the key is in one region if and only if the large region did not hold it, or the key is too long, or the small region has no place for it; without a place nothing changes |
| `Cache.Cache.FlushApp` | crates/askr/src/cache.rs:832-836 | Every key that begins with the application's prefix is unfindable, so all of the application's own, and every other key answers as before, so every other application's |
| `Namespace.Parse` | crates/askr/src/ns.rs:88-98 | An application exactly for sixteen hex digits, lower-cased digit by digit |
| `Namespace.HexDigitsAre` | crates/askr/src/ns.rs:88-98 | The hex digits are 0-9, a-f and A-F, and their lower case 0-9 and a-f |
| `Namespace.AppParsesToItself` | crates/askr/src/ns.rs:88-111 | An application's own text parses back to it |
| `Namespace.SplitUndoesKey` | crates/askr/src/ns.rs:302-348 | Splitting a stored key gives back the application and the key it was made from, for every application and key |
| `Namespace.StoredInjective` | crates/askr/src/ns.rs:302-311 | Distinct applications, or distinct keys of one, never share a stored key |
| `Namespace.OwnedByItsApp` | crates/askr/src/ns.rs:323-333 | A prefix belongs to a stored key exactly when the application is the one it was stored by |
| `Namespace.OwnsExactly` | crates/askr/src/ns.rs:323-333 | An application owns exactly the stored keys that split to it and that it would store |
| `Namespace.Context.SetFromRequest` | crates/askr/src/ns.rs:278-286 | A well-formed text becomes the current application; anything else clears it |
| `TwoTier.StepAgrees` | crates/askr/src/cache_sql.rs:225-311 | One call through the front keeps front and table in step and answers as the table alone, except a read in the second its entry expires, which does differ |
| `TwoTier.FrontIsInvisible` | crates/askr/src/cache_sql.rs:218-311 | Every run of get, set, add, delete, increment, touch and flush, with entries evicted at any time, answers call by call as the SQL map alone, but for that second |
| `TwoTier.AgreesIff` | crates/askr/src/cache_sql.rs:225-311 | For any mapping of keys to rows, all runs agree if and only if no two keys share a row and no value is larger than the front can hold |
| `TwoTier.StaleHit` | crates/askr/src/cache_sql.rs:104-112 | Two keys in one row, or a value over 64 KiB, give a run in which the front answers with an old value |
| `TwoTier.NamedAppsAgree` | crates/askr/src/cache_sql.rs:218-311 | With every application named and values up to 64 KiB, the front is invisible if and only if no two keys become the same lossy text; so for all keys that are UTF-8 |
| `TwoTier.LoneAppAgrees` | crates/askr/src/cache_sql.rs:283-294 | With a single unnamed application, likewise |
| `TwoTier.BytesShareARow` | crates/askr/src/cache_sql.rs:76-112 | An application that uses the keys FF and FE, neither of them UTF-8, is given an old value |
| `TableLaws.GetReads` | crates/askr/src/cache_sql.rs:92-101 | A read answers with a value or nothing and leaves the table |
| `TableLaws.SetIsRead` | crates/askr/src/cache_sql.rs:104-112 | After a set, reads of the table are given the value until it expires, at every time |
| `TableLaws.AddIffNothingIsRead` | crates/askr/src/cache_sql.rs:115-128 | An add succeeds if and only if a read at that moment is given nothing, and is then a set; otherwise no read at any time changes |
| `TableLaws.OneHolder` | crates/askr/src/cache_sql.rs:115-128 | After an add that succeeded, through any run of calls that do not take the row away, every add of the key is refused before the deadline and let in after it, and the first value is what is read |
| `TableLaws.DeletedIsNotRead` | crates/askr/src/cache_sql.rs:130-136 | A delete says whether there was a row, expired or not, and afterwards no read is given anything |
| `TableLaws.IncrementAdds` | crates/askr/src/cache_sql.rs:139-149 | An increment answers the number stored, or 0 where nothing is read, plus delta, and reads are given that until the row's old deadline, or the new one for a new row |
| `TableLaws.IncrementsAddUp` | crates/askr/src/cache_sql.rs:139-149 | Increments of a key that was set and has not expired count on from what was set |
| `TableLaws.TouchMovesDeadline` | crates/askr/src/cache_sql.rs:152-160 | A touch says whether anything is read now, and moves the deadline of what is read and nothing else |
| `TableLaws.OtherRowsRead` | crates/askr/src/cache_sql.rs:104-160 | No call but a flush changes what is read of another row |
| `TableLaws.FlushTakes` | crates/askr/src/cache_sql.rs:164-180 | A flush takes exactly the rows it is said to take |
| `TwoTierSteps.MendedIffNothingOldIsLeft` | crates/askr/src/cache_sql.rs:225-311 | With the table access and the front update of a call as separate steps of interleaved workers: throughout a run the front holds what the table says, or a call under way has still to see to it, if and only if no worker leaves in front what is not the row's with no other call to see to it |
| `TwoTierSteps.SmoothRunsAgree` | crates/askr/src/cache_sql.rs:212-311 | If no call changes a row while another worker has yet to put in front what it took from it, and values go in front within the second they were taken, then once no call is under way the next one answers as the table alone |
| `TwoTierSteps.HitIsCurrent` | crates/askr/src/cache_sql.rs:228-230 | Where no call under way has anything left to do for a key, a hit is what the table would answer, but in the second the entry expires |
| `TwoTierSteps.SlowReaderLeavesOld` | crates/askr/src/cache_sql.rs:231-233 | For every key and two values: a reader that misses, reads the table and fills the front after another worker's set leaves the old value there for every later read, with every call returned |
| `Text.Utf8IffEncodes` | crates/askr/src/rcache.rs:472-472 | Well-formed UTF-8 is exactly what encodes a sequence of Unicode scalar values |
| `Text.GivesUpLongest` | crates/askr/src/cache_sql.rs:82-82 | Where no character begins, one replacement character stands for the longest beginning of one, or for a single byte |
| `Text.LowerIsLetterwise` | crates/askr/src/rcache.rs:431-431 | Comparing without case maps each capital letter to its small one and no other byte |
| `Text.LossyKeepsText` | crates/askr/src/cache_sql.rs:82-82 | The lossy text of UTF-8 is itself |
| `Text.LossyAfterAscii` | crates/askr/src/cache_sql.rs:82-82 | Bytes behind an ASCII prefix become text by themselves, so a prefix is kept |
| `Text.LossyCollides` | crates/askr/src/cache_sql.rs:82-82 | The bytes FF and FE both become the replacement character |
| `Text.LossyIsText` | crates/askr/src/cache_sql.rs:82-82 | Lossy text is UTF-8 for every input |
| `DurableCache.RefinedStepAgrees` | crates/askr/src/cache_sql.rs:225-311 | Whatever refines the two-tier machine up to lost entries stays in step and answers as the table alone |
| `DurableCache.Front.Warm` | crates/askr/src/cache_sql.rs:225-258 | Setting the shared-memory cache gives the front the entry the two-tier machine gives it, less entries lost to make room |
| `DurableCache.Front.Get` | crates/askr/src/cache_sql.rs:225-238 | Over the real two-region cache: a hit at once, a miss answered and populated from the table, as the two-tier machine does |
| `DurableCache.Front.Set` | crates/askr/src/cache_sql.rs:239-246 | Table, front and answer as the two-tier machine's, less lost entries |
| `DurableCache.Front.Add` | crates/askr/src/cache_sql.rs:247-258 | Decided by the table; an entry held in front of a refused add is dropped |
| `DurableCache.Front.Delete` | crates/askr/src/cache_sql.rs:259-266 | Row and front entry both go; the answer is the table's |
| `DurableCache.Front.Increment` | crates/askr/src/cache_sql.rs:267-274 | Counted in the table, keeping the row's expiry; the front entry is dropped |
| `DurableCache.Front.Touch` | crates/askr/src/cache_sql.rs:275-282 | Refreshed in the table if live; the front entry is dropped |
| `DurableCache.Front.Flush` | crates/askr/src/cache_sql.rs:283-311 | With a current application its rows and front entries go; without one the whole table goes and the front stays |
| `ResponseTable.DeadlineClasses` | crates/askr/src/rcache.rs:638-660 | Fresh up to ttl, stale up to ttl+swr, error-only up to ttl+stale-if-error, then gone; ttl 0 is fresh for ever |
| `ResponseTable.OnlyGetsWorse` | crates/askr/src/rcache.rs:540-580 | With time an entry only ever moves from fresh towards gone |
| `ResponseTable.StoredFind` | crates/askr/src/rcache.rs:723-778 | Writing an entry where its hash is reached loses only what lived in that slot, and keeps every chain and one slot per hash, tombstones included |
| `ResponseTable.TombstonedFind` | crates/askr/src/rcache.rs:477-500 | A tombstone removes its hash from the map and nothing else |
| `ResponseTable.SearchedInVain` | crates/askr/src/rcache.rs:527-545 | A lookup that meets an empty slot or the end of its window has shown the hash absent |
| `ResponseCache.Responses.Peek` | crates/askr/src/rcache.rs:522-596 | The last response stored under the hash, if present, none of its tags moved on, and within ttl + max(swr, stale-if-error) of its store; marked stale if and only if now is in the swr seconds after the ttl, and for errors only if and only if after those and in the stale-if-error seconds; otherwise nothing, and an entry that failed a check is gone for good |
| `ResponseCache.Responses.Get` | crates/askr/src/rcache.rs:504-515 | Answers if and only if the entry is present with its tags unmoved and within ttl + swr of its store, with that response and the same stale mark, never for errors only; exactly one of hits and misses is counted; the map loses at most this entry, and only where it is past its deadlines or outdated |
| `ResponseCache.Responses.Place` | crates/askr/src/rcache.rs:661-714 | The hash maps to the new entry; another is lost exactly when the whole window is live with other hashes, and it is the one in the first slot |
| `ResponseCache.Responses.Store` | crates/askr/src/rcache.rs:601-720 | Refused when too large or with more than eight tags, changing nothing; otherwise lookups find this response with its deadlines, its retained key and the generations its tags have now |
| `ResponseCache.CachedAnswers` | crates/askr/src/rcache.rs:575-596 | For every ttl, swr, stale-if-error and time: which answer an entry stored then gives now |
| `ResponseCache.Responses.ForgetTag` | crates/askr/src/rcache.rs:314-342 | Of the entries that were current, exactly those with the tag are no longer; in a full window the first cell is taken over |
| `ResponseCache.Responses.Invalidate` | crates/askr/src/rcache.rs:477-500 | Exactly the entries whose retained key is wanted are dropped, and counted |
| `ResponseCache.CountIsNumber` | crates/askr/src/rcache.rs:477-500 | The count reported is the number of slots with a wanted live entry |
| `ResponseCache.Responses.PurgeUrl` | crates/askr/src/rcache.rs:423-447 | Drops exactly the entries whose retained key is that URL's, and says how many |
| `ResponseCache.Responses.BanGlob` | crates/askr/src/rcache.rs:456-474 | Drops exactly the read-only entries of the host whose path the glob accepts, and says how many |
| `PurgeKeys.PartsUndoKey` | crates/askr/src/rcache.rs:409-415 | A key that keeps its three fields is taken apart into them, whatever follows |
| `PurgeKeys.PurgeIsExact` | crates/askr/src/rcache.rs:423-447 | For keys within the retained length a purge wants exactly the GET and HEAD variants of that host, ignoring case, and URL |
| `PurgeKeys.PurgeOfUrl` | crates/askr/src/rcache.rs:423-447 | For a key kept from verb, host, path and query: the purge takes it if and only if it is GET or HEAD, the hosts are equal in lower case, the paths are equal, and so are the queries if one is given |
| `PurgeKeys.BanIsExact` | crates/askr/src/rcache.rs:456-474 | For such a key: a ban takes it if and only if it is GET or HEAD, the hosts are equal in lower case, the path is UTF-8 and, for a path without a star, matches the pattern; with a star it takes only what matches |
| `PurgeKeys.PurgesFaithfullyIff` | crates/askr/src/rcache.rs:66-70 | For any key, purges are right if and only if it is not GET or HEAD, or its first three fields fit in what is retained |
| `PurgeKeys.CutKeyTakenForAnother` | crates/askr/src/rcache.rs:66-70 | A key cut inside its path is dropped by the purge of another URL |
| `TagTable.Table.TagGen` | crates/askr/src/rcache.rs:292-310 | Probing gives the tag's generation, 0 for one never forgotten |
| `TagTable.Table.Forget` | crates/askr/src/rcache.rs:314-342 | Away from a full window: this tag's generation goes up by one and no other changes; in a full window the first cell is taken over |
| `TagTable.Bumped` | crates/askr/src/rcache.rs:314-336 | Counting up in place, or claiming the first empty cell, adds one to the tag's generation and keeps every tag findable |
| `TagGenerations.ForgottenIsNeverServed` | crates/askr/src/rcache.rs:292-342 | In every interleaving of forgets, stores that snapshot and commit later, drops, stops that write the cache to disk and boots that load it or not, where no forget lowers what is read for its tag, none finishes unseen and no boot brings back what was forgotten since the image it loads, no lookup serves an entry with a tag forgotten since its snapshot |
| `TagGenerations.RejectedOnlyIfForgotten` | crates/askr/src/rcache.rs:558-573 | In every run, stops and boots included, a lookup rejects for tags only if a forget wrote a generation of one of them since the snapshot |
| `TagGenerations.RestoreIsSafeIff` | crates/askr/src/rcache.rs:939-1008 | In every run, loading an image that was safe when written leaves no forgotten entry served if and only if no entry it keeps that the image's tag table serves has a tag of which a forget has finished since the image was written |
| `TagGenerations.AlwaysSafeIff` | crates/askr/src/rcache.rs:866-1008 | A whole run in which forgets neither lower nor finish unseen is safe throughout if and only if none of its boots brings back an entry in that way |
| `TagGenerations.ForgottenComesBack` | crates/askr/src/rcache.rs:939-1008 | Store, stop, boot, forget, kill, boot: a run in which the forgotten entry is served again, though no forget lowered anything or finished unseen |
| `TagGenerations.HarmlessIff` | crates/askr/src/rcache.rs:314-342 | For every run of forgets, however they overlap: they are harmless to every store, wherever it falls, if and only if none publishes 1 over a higher generation where lookups read, and none finishes elsewhere while lookups read what they did when it claimed its cell or counted up |
| `TagGenerations.ThreeForgetsLower` | crates/askr/src/rcache.rs:328-336 | Three overlapping forgets of a new tag do publish over a higher generation |
| `TagGenerations.LosingForgetIsNotSeen` | crates/askr/src/rcache.rs:322-336 | Two forgets racing for the same empty cell: one can finish in a second cell nobody reads while what was stored before is still served |
| `TagGenerations.FirstAloneIsClear` | crates/askr/src/rcache.rs:314-342 | While the first forget of each tag in a table is let finish before another of it begins, neither happens, however many overlap afterwards, across stops and boots |
| `Glob.GlobMatch` | crates/askr/src/rcache.rs:376-401 | The loop over two cursors and the last star computes the scan, and terminates |
| `Glob.Sound` | crates/askr/src/rcache.rs:376-401 | Whatever is accepted matches, for all patterns and texts |
| `Glob.Complete` | crates/askr/src/rcache.rs:376-401 | On a text without a literal star every match is accepted: backtracking to the last star suffices |
| `Glob.LastStarSuffices` | crates/askr/src/rcache.rs:387-394 | A match that needs an earlier star to take more can be had from the last star alone |
| `Glob.FaithfulIffNoStarInText` | crates/askr/src/rcache.rs:376-401 | The matcher is right about a text for every pattern if and only if the text has no literal star |
| `Glob.StarTextRefused` | crates/askr/src/rcache.rs:382-386 | For any text with a star there is a pattern that matches it and is refused |
| `Civil.EpochIsDayZero` | crates/askr/src/observ_sql.rs:260-271 | Day 0 is 1970-01-01 |
| `Civil.CivilFromDays` | crates/askr/src/observ_sql.rs:260-271 | Every integer day gives a valid date of the proleptic Gregorian calendar |
| `Civil.NextDayIsSuccessor` | crates/askr/src/observ_sql.rs:260-271 | Day z+1 is the calendar successor of day z, for every integer z |
| `Civil.LaterDayLaterDate` | crates/askr/src/observ_sql.rs:260-271 | Strictly increasing over all integer days |
| `Civil.OnlyCalendar` | crates/askr/src/observ_sql.rs:260-271 | The only day count through successors with that epoch is this one |
| `Civil.DayNumberUndoesCivil` | crates/askr/src/observ_sql.rs:260-271 | Counting the days of the years and months before a day's date gives the day back, for every integer day |
| `Civil.CivilUndoesDayNumber` | crates/askr/src/observ_sql.rs:260-271 | Every valid date is the date of the day so counted |
| `Civil.LaterTimeLaterStamp` | crates/askr/src/observ_sql.rs:249-258 | A later microsecond prints strictly later fields, before and after the epoch alike |
| `Civil.StampCountsMicros` | crates/askr/src/observ_sql.rs:249-258 | The printed fields count, from 1970-01-01 00:00:00, exactly the microseconds they were made from |
| `Civil.StampKeepsInstant` | crates/askr/src/observ_sql.rs:249-258 | Two instants print the same fields if and only if they are the same microsecond |
| `TokenBucket.NeverExceedsBudget` | crates/askr/src/ratelimit.rs:166-206 | After N calls at nondecreasing times from a bucket claimed full at t0: 1000*window*allowed is at most capacity*window + elapsed*limit + N*(limit-1), even where 64-bit products saturate |
| `TokenBucket.ExactBudgetWhenDividing` | crates/askr/src/ratelimit.rs:172-190 | The N term vanishes when limit divides window or window divides limit, while elapsed*limit stays within 64 bits |
| `TokenBucket.ConsumeCredit` | crates/askr/src/ratelimit.rs:166-206 | One call: what is left plus what was spent is what there was plus less than limit units of rounding |
| `TokenBucket.RunSane` | crates/askr/src/ratelimit.rs:172-206 | Tokens never exceed capacity and the clock of the bucket never runs ahead, over every run |
| `TokenBucket.RefusalsKeepCredit` | crates/askr/src/ratelimit.rs:172-190 | Refused calls lose nothing of the unspent remainder |
| `TokenBucket.EnoughTimeAllows` | crates/askr/src/ratelimit.rs:172-206 | A call is allowed if and only if a whole token is there, or what is missing has come in since and is no more than one refill can bring in 64 bits |
| `TokenBucket.RetryAfterIsHonoured` | crates/askr/src/ratelimit.rs:207-222 | After a refusal reporting r, whatever refused calls come between, the first call at or after t + 1000*r is allowed, wherever what is missing can come in one refill |
| `TokenBucket.RetryAfterHonouredIff` | crates/askr/src/ratelimit.rs:207-222 | That promise is kept in every run if and only if what is missing can come in one refill, or the promised time is past the end of the 64-bit clock |
| `RateVerdicts.RefusedUntilRetry` | crates/askr/src/ratelimit.rs:207-222 | After a refusal reporting r > 1, a call at any time up to 1000*(r-1) past the bucket's clock is refused |
| `RateVerdicts.RetryAfterIsLeast` | crates/askr/src/ratelimit.rs:207-222 | r is the least number of whole seconds, at least one, after which a call is allowed, wherever what is missing can come in one refill; otherwise none is enough |
| `RateVerdicts.RemainingIsAllowed` | crates/askr/src/ratelimit.rs:199-206 | After an allowed call reporting m, m further calls at the same instant are allowed |
| `RateVerdicts.RemainingIsExactIff` | crates/askr/src/ratelimit.rs:172-206 | And the next is refused if and only if the thousandths left over, and what the same instant brings in again by rounding (once if limit is at most window, else with every call), do not make a token; always if one of the two divides the other |
| `RateVerdicts.RemainingIsExact` | crates/askr/src/ratelimit.rs:172-206 | Whenever the instant brings in nothing more, exactly m further calls are allowed and the next is refused |
| `RateVerdicts.MoreThanRemaining` | crates/askr/src/ratelimit.rs:172-206 | 5000 tokens in 3 seconds: a call that reports nothing left is followed at the same instant by one that is allowed |
| `RateDrift.ExactBudgetIffDividing` | crates/askr/src/ratelimit.rs:172-190 | The budget without the N term holds for all runs within 64 bits if and only if limit divides window or window divides limit |
| `RateDrift.FastOverspends` | crates/askr/src/ratelimit.rs:172-190 | Calls at a pause whose rounding gift is large get more than the exact budget |
| `RateDrift.SlowOverspends` | crates/askr/src/ratelimit.rs:172-190 | Many calls at a pause whose rounding gift is small get more than the exact budget |
| `RateTable.OthersDoNotMatter` | crates/askr/src/ratelimit.rs:107-163 | From its claim on, and while not evicted, a key's bucket is what its own calls made it, whatever other keys do |
| `RateTable.TableBudget` | crates/askr/src/ratelimit.rs:107-206 | The budget bound for a key of the shared table |
| `RateTable.RunKeepsInv` | crates/askr/src/ratelimit.rs:107-163 | Every run keeps each key in at most one bucket, where its probes find it |
| `RateTable.Limiter.Check` | crates/askr/src/ratelimit.rs:107-163 | A disabled limit allows without touching the table; otherwise the key's own bucket, a free one or the coldest of the window is charged, and no other changes |
| `RateTable.Limiter.ConsumeAt` | crates/askr/src/ratelimit.rs:166-222 | The bucket, the verdict and the retry time are those of the token-bucket step |
| `Ring.Ring.Publish` | crates/askr/src/broadcast.rs:87-120 | Appends to the log, or refuses an event that is too large and changes nothing |
| `Ring.Ring.ReadFrom` | crates/askr/src/broadcast.rs:135-170 | Exactly the newest min(w-last, 1024) events of the log, in order, and w |
| `Ring.Ring.CurrentSeq` | crates/askr/src/broadcast.rs:123-131 | A subscriber that starts here has nothing to read |
| `Ring.RebuildsIffKeepsUp` | crates/askr/src/broadcast.rs:133-170 | With atomic publishes, a subscriber rebuilds the log from where it joined, each event once, if and only if it is never more than a ring behind |
| `RingSteps.DeliveredIsPublished` | crates/askr/src/broadcast.rs:99-118 | In every interleaving of single accesses where publisher s commits before publisher s+1024 starts, every event delivered for s is exactly what publisher s wrote |
| `RingSteps.OverlapDeliversAnother` | crates/askr/src/broadcast.rs:97-118 | A run from an empty ring in which a subscriber is given for one publisher the event of another |
| `RingSteps.UnorderedDeliversAnother` | crates/askr/src/broadcast.rs:97-118 | From any run, a publisher that starts before the one a ring earlier has committed, with a different event, can end in the earlier number being delivered with the later event |
| `RingSteps.RightIffApart` | crates/askr/src/broadcast.rs:97-118 | Where publishers of one slot publish different events, deliveries are right however a run goes on without another start if and only if no publisher started on a slot while another was inside |
| `RingSteps.OrderedRunsApart` | crates/askr/src/broadcast.rs:99-118 | Committing before the publisher a ring later starts keeps publishers of a slot apart |
| `RingSteps.ApartRunsKeep` | crates/askr/src/broadcast.rs:99-118 | Runs in which no publisher starts on a slot while another is inside keep: a stamped slot holds the whole event of the publisher it names, nobody is inside it, and what subscribers have read of it is that event's |
| `RingSubscribers.GivenIffCommitted` | crates/askr/src/broadcast.rs:135-170 | Access by access, with publishers of a slot that commit in order and a ring that does not go round inside a poll: a subscriber that polls again and again is given exactly the events it did not jump, being a ring behind, and whose publishers had committed when it looked at their slots, each once and in order |
| `RingSubscribers.RebuildsIffNoneEarly` | crates/askr/src/broadcast.rs:135-170 | Such a subscriber has rebuilt the log from where it joined if and only if it jumped nothing and looked at no slot before its publisher had committed |
| `RingSubscribers.StartIsNewest` | crates/askr/src/broadcast.rs:144-148 | A poll looks at the newest min(w-last, 1024) numbers |
| `RingSubscribers.EarlyIsNeverGiven` | crates/askr/src/broadcast.rs:154-169 | An event it looked for before the commit is not given to it later, however the run goes on |
| `RingSubscribers.CommitsTooLate` | crates/askr/src/broadcast.rs:99-169 | For every event, a run in which a subscriber that keeps up has gone past it when its publisher commits, and is not given it |
| `TrafficLog.ReadUndoesPrint` | crates/askr/src/oracle.rs:45-81 | Reading a printed line gives back the sample for every sample, control characters replaced by spaces and nothing else changed |
| `TrafficLog.Located` | crates/askr/src/oracle.rs:95-98 | Every key search lands on the real key, whatever quotes, backslashes or key-like text the strings before it contain |
| `TrafficLog.UnescapeUndoesEsc` | crates/askr/src/oracle.rs:84-125 | Reading up to the closing quote undoes the escaping |
| `TrafficLog.ReadText` | crates/askr/src/oracle.rs:111-125 | The character loop reads the escaped text up to the first quote that is not escaped, or fails |
| `TrafficLog.ParseUndoesRender` | crates/askr/src/oracle.rs:100-104 | Every 64-bit number reads back as it was printed |
| `TrafficLog.PrintsOneLine` | crates/askr/src/oracle.rs:45-60 | A sample is printed on one line whatever it contains |
| `TrafficLog.LogReadBack` | crates/askr/src/oracle.rs:274-279 | The lines of a log read back as the samples written, in order |
| `TrafficReading.ReadIff` | crates/askr/src/oracle.rs:62-81 | The reader makes a sample of a line if and only if the line holds it: every field where its key first occurs, in a text it may be written as; a missing query is empty and a status is cut to 16 bits; any other line is refused |
| `TrafficReading.ParsesIff` | crates/askr/src/oracle.rs:100-104 | A number is read exactly from its decimal texts, with any leading zeros and perhaps a plus |
| `TrafficReading.TextIff` | crates/askr/src/oracle.rs:111-125 | A text is read exactly from between a quote and the next quote not escaped, each character as it is or after a backslash |
| `Simulator.Simulate` | crates/askr/src/oracle.rs:217-271 | Every counter of the verdict is the number of requests of its kind, a hit being one with a young enough stored request of its key |
| `Simulator.MissesAreFewestWindows` | crates/askr/src/oracle.rs:252-268 | On a log in order of time the misses of a key are the least number of ttl-long windows containing its eligible requests: some cover has that many, none has fewer |
| `Simulator.HitsGrowWithTtl` | crates/askr/src/oracle.rs:217-271 | On a log in order of time a longer ttl never gives fewer hits |
| `Simulator.NoDivergenceIffSafe` | crates/askr/src/oracle.rs:255-263 | No divergence is reported exactly when every replayed hit's body hash equals the stored one |
| `Simulator.HitOrMiss` | crates/askr/src/oracle.rs:250-268 | Hits and misses together are the eligible requests |
| `Simulator.SortedByTimeIsStable` | crates/askr/src/oracle.rs:278-278 | The sort keeps the order of requests at the same moment |
| `Simulator.LoadUndoesLog` | crates/askr/src/oracle.rs:274-280 | A written log loads as what was written, in order of time |
| `Esi.Plan` | crates/askr/src/esi.rs:45-90 | The one right plan: cuts in order and apart, each a closed remove block or an include with a readable src, everything of the kind cut but what lies inside the brackets of another tag, and the literals exactly what is left |
| `Esi.OnePlan` | crates/askr/src/esi.rs:45-90 | There is only one such plan for a page |
| `Esi.LiteralsAndCutsTile` | crates/askr/src/esi.rs:45-97 | Every byte of the page is in a literal of the plan or in a cut, and none in both |
| `Esi.PlanInOrder` | crates/askr/src/esi.rs:45-97 | The literals of a plan are in order, disjoint, non-empty and inside the page |
| `Esi.PlainPage` | crates/askr/src/esi.rs:34-36 | A page without a tag is one literal, or none if empty |
| `Esi.Attr` | crates/askr/src/esi.rs:99-128 | The value of the first src assignment that is not part of a longer name, quoted either way, if it is UTF-8 |
| `Esi.Find` | crates/askr/src/esi.rs:130-138 | The first place at or after the start where the text stands, ignoring case, or none |
| `EsiTags.SrcIffWritten` | crates/askr/src/esi.rs:99-128 | The reader gives a value if and only if the tag's first assignment to src, in any case and not part of a longer name, with any blanks around the equals sign, is of that value: in quotes of either kind, ended by the same quote or by the tag, and UTF-8 |
| `EsiPages.PlanUndoesPage` | crates/askr/src/esi.rs:45-97 | For every page written out of texts that open no tag, includes of any quotable source and remove blocks: the plan is the texts as literals where they lie, the sources in their places, and nothing of the blocks |

## Left out

- Mapping, forking, process ids, the slot lock itself and weak memory ordering.
- The concrete hash functions; keys of the response cache and tags are identified with their hashes.
- `rcache::flush_app` and `restore` as operations on the table: both write empty slots, which can cut
  another entry's probe chain. They are part of the tag-safety runs only, as dropped entries and
  as boots that keep some of the entries of an image.
- Request coalescing (`begin`, `end`, `is_inflight`): its claim and deadline are two separate stores.
- Header blobs of cached responses are opaque bytes; writing and parsing them is not modelled.
- Unnamed applications sharing one SQL table, and `cache_sql::forget_tag`, whose scopes in front and
  table differ by design.
- SQL itself: rows are a map keyed by lossy text, conversions between stored cells and integers are arbitrary functions,
  and an integer overflow inside SQL is not modelled.
- The traffic log's path patterns (`path_pattern`): an arbitrary function of the path.
- Floating-point code, reports, the admin pages, configuration, PHP and network glue.
- TagTable.Table.Forget: in a full window only the written cell is stated, because another tag's
  generation is lost there.
- TagGenerations.ForgottenIsNeverServed: a forget whose window is full stops there, and reading a tag's
  generation is one step; a forget's load of a matching cell and its counting up are one step too,
  since a cell in use never changes its tag.
- CacheRaces.OneAddWins: only insertions of other keys go on around the adds, as tombstoning, eviction
  or expiry in the window can let a second add in.
- RateTable.Limiter.Check: limit and burst together within 64 bits, as the code adds them unchecked.
- RateTable.TableBudget: holds while the key's bucket is not evicted, which would start it afresh.
- TokenBucket.ExactBudgetWhenDividing: elapsed time times limit within 64 bits; past that a capped refill is
  charged for less time than it stands for.
- RateDrift.ExactBudgetIffDividing: limits and windows small enough for an overspending run to fit the
  64-bit clock; past that bound the run the proof builds does not fit.
- RingSteps.RightIffApart: publishers of one slot publish different events, as equal ones cannot be told
  apart.
- Simulator.Simulate: the ttl in milliseconds is not cut to 64 bits; the code multiplies unchecked.
- DurableCache.Front.Flush: without a current application the front is not emptied, so it no longer
  agrees with the table.
- RingSubscribers.GivenIffCommitted: for publishers of a slot that commit in order, and a subscriber the ring
  does not go round on inside a poll; one overtaken there may or may not be given an event.
- Seqlock.PeekSawOneInstant: the fields a locked read loads are one step, as nobody else stores meanwhile.
- RateVerdicts.RemainingIsExactIff: elapsed time times limit within 64 bits; past that a capped refill comes
  in again for as long as the time it was charged for lasts.
- CacheSolo.AloneIsARun: all visits of the operation read one clock, whose reading only its write uses.
- PurgeKeys.BanIsExact: for a path with a literal star only that what is taken matches, as the matcher refuses
  some patterns there.
- EsiPages.PlanUndoesPage: include tags are written with `src` alone, in double quotes; other ways to write
  them are those of `EsiTags.SrcIffWritten`.
