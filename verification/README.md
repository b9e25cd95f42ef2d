# Verification of the pebble bitmap store

The store keeps a table of entities, each with string and numeric attributes,
and a bitmap index over those attributes. It is maintained from a stream of
blocks and answers boolean queries page by page. This project models that
machinery and proves what ties its parts together.

## What is modelled

- **Query normaliser** (`Language`, `Normalize`, `NormalForm`, `Semantics`).
  The methods rewrite as the source does: a negated parenthesis is inverted one
  layer at a time, then AND is distributed over OR by the cross-product loop.
  They are proved to compute `Dnf`, one structural recursion that carries the
  polarity. Queries mean what Kleene's strong three-valued logic says: a
  comparison is unknown on an entity that has no attribute of that name and
  type, and the special names `$key`, `$owner` and `$creator` compare without
  regard to case.
- **Keys** (`Encoding`, `ValueQueries`, `CurrentScan`): byte layout, 16-bit
  offsets, the carry in the upper bound of a prefix, and range scans over the
  ordered keys of a snapshot.
- **Evaluation** (`Evaluate`, `Query`): terms to bitmaps, AND and OR in place,
  and the end-to-end answer. `Answers` reads the answer off the stored rows,
  without the functions the evaluator and the reference answer share.
- **Event follower** (`Store`, `Index`, `Events`, `FollowEvents`). The methods
  of `PebbleStore` change the store in place through an indexed batch and the
  bitmap cache (`BitmapCache`); they are proved to do what the functions `Step`,
  `RunBlock`, `RunBatch` and `RunMessages` say. The theorems about those
  functions are in `Invariants` (one operation, one batch), `EntityHistory`
  (one entity's row), `EntityIndex` (one entity's bits), `Coalescing` (dropped
  updates), `Batching` (cutting and
  redelivery), `Lifecycle` (rows, IDs, order) and `Runs` (commits, failures and
  restarts).
- **Pages** (`QueryRpc`, `PageWalk`): the fill loop with its row and byte
  limits, and walks that follow cursors while batches commit in between.
- **Payload records** (`PayloadCodec`), **`$sequence`** (`Sequence`).

A database is a record with one field per key prefix. Where byte keys matter, a
`Reader` adds the ordered listing of all keys; `Faithful` ties the two together
and `SnapshotExists` shows that every database has such a listing. A `Work` is
what a running batch can change: its view of the database and the in-memory ID
counter. A state is `Reached` if it satisfies everything a run of batches,
failures and restarts keeps; the initial state is.

`strings.ToLower`, `path.Match` and `common.Hash.Hex` are parameters (`Lib`).
The one thing assumed of them is that lower-casing twice is lower-casing once.
Expiration sums wrap at 2^64, the shifts of `$sequence` lose what leaves 64
bits, and all key and record lengths are cut to the width they are stored in.

## What the code does not do

Some properties one would expect fail. Each is given here with an exact
condition, and the code is modelled as it is.

| expected | fails | holds exactly when |
|---|---|---|
| Normalisation keeps the meaning | `$owner not in ("a")` becomes `$owner in ("a")` (`LostNotExample`) | for one comparison, iff it is not, in its final polarity, a negated or numeric inclusion over a special name (`KeptExactly`); the normal form is the one with every field copied iff no comparison is (`LostNotExactly`) |
| Every query is normalised | `$owner = 5` dereferences a missing string (`NilDereferenceExample`) | iff no special name is compared with a number (`NormalizeTerm`, `NormalizeExpression`, `Answer`) |
| A query and its negation never both match | `$owner in ("a")` and its negation have the same normal form (`BothMatchExample`) | for one comparison, iff it is not a string inclusion over a special name (`ExclusiveExactly`); a query whose comparisons all pass that test passes too (`QueryOrNegation`) |
| One of them matches an entity that has the attributes mentioned | an entity with numeric `$owner` 5 matches neither `$owner in (5)` nor its negation (`NeitherMatchesExample`) | that exactly one matches: for one comparison, iff it is not an inclusion over a special name (`PartitionsExactly`) |
| Creating keeps the index right | a create over a live key reuses its ID and leaves the old bits, for one that of `$lastModifiedAtBlock` when that was another block (`StaleBitExample`) | iff the new row repeats every old indexed attribute (`CreateOverLive`, `StepKeepsValid`) |
| Dropping superseded updates cannot be observed, in success and tables | an update before the create of its key, with a later one after it, is never tried (`CoalescingHidesFailure`) | iff every dropped update names a key that is live at its turn (`CoalescingIsInvisible`) |
| Nor can it in the index | update, create and update of one live key: a value that only the dropped update writes stays behind in full, and never gets there coalesced (`LostBitExample`) | for such a block from a valid state, iff the dropped update's row and the old row agree on every attribute that neither the create nor the last update writes (`CreateBetweenExactly`); for any block it is enough that no create names, while it is live, a key with a dropped update (`CoalescingIsInvisible`) |
| The last block never decreases | a batch that ends before the stored block moves it back, and what lies between is then run again (`RedeliveryAfterStepBack`) | iff the batch does not end before it (`LastBlockMovesTo`) |
| A page is always returned | with a page size of zero and an ID left, the fill loop repeats itself unchanged | iff the page size is not zero or nothing is left to return (`FillLoopEnds`) |
| Bitmap keys decode to what they encode | offsets wrap at 2^16 | iff 5 + name + value, or 3 + name for numbers, stays below 2^16 (`StringKeyRoundTrip`, `NumericKeyRoundTrip`) |
| A scan visits the keys with its prefix | the bound keeps zeros after a carry; a name of 65536 bytes 0xFF meets a key of another name (`LongNameExample`) | the range is wider by exactly the bound cut short at its zeros (`RangeExact`); that is no stored bitmap key unless the name is too long to be stored (`StringScanExact`, `NumericScanExact`), and the answer to the query is right even then (`EvaluateStringScan`, `EvaluateNumericScan`) |
| Payload records decode to themselves | the content type has a 16-bit length | iff it is shorter than 2^16 (`PayloadRoundTrip`) |
| `$sequence` orders positions | operation 65536 packs like the next transaction (`PackOverflowExample`) | a position keeps its order with all positions in bounds iff it is in bounds: block < 2^32, transaction and operation < 2^16 (`InBoundsExactly`) |

Where the repository's own documentation differs, the code is followed: its
table of operators calls `<`, `<=`, `>` and `>=` numeric, but they compare
strings too (`pebblestore/evaluate.go:123-185`), and its table of key prefixes
has no `0x07`, under which the entity count is kept
(`pebblestore/encoding.go:10`).

## Model

| member | source | states |
|---|---|---|
| Normalize.InvertFlipsPolarity | query/normalize.go:46-63 | normalising the inverted expression gives, conjunction by conjunction and in the same order, the normal form at negative polarity, with the single-disjunct shortcut included |
| Normalize.InvertKeepsSafety | query/normalize.go:46-63 | inverting never adds nor removes a comparison that would panic |
| Normalize.InvertExpressionWork | query/normalize.go:279-287 | the polarity-aware measure does not grow at the nested invert call, although invert adds wrapper parentheses and toggles inner flags; this is what makes the normaliser terminate |
| Normalize.InvertExpressionNode | query/normalize.go:46-63 | the should-never-happen panic is unreachable |
| Normalize.InvertOrNode | query/normalize.go:76-99 | De Morgan at an OR node: the loop builds the AND of the parenthesised inverses of all disjuncts, in order |
| Normalize.InvertAndNode | query/normalize.go:174-192 | De Morgan at an AND node: the loop builds the OR of the inverses of all conjuncts, in order |
| Normalize.NormalizeTerm | query/normalize.go:206-437 | the seven leaf cases, dereferencing their literals as they go: the folded term, with IsNot and Numbers lost on special inclusions, or the nil dereference iff a special name is compared with a number |
| Normalize.NormalizeInclusion | query/normalize.go:421-437 | the loop lowers every string of a special inclusion in order, and drops IsNot and Numbers |
| Normalize.NormalizeParen | query/normalize.go:279-287 | a negated parenthesis is normalised to the nested query at flipped polarity |
| Normalize.ConvertToTerms | query/normalize.go:118-135 | the disjunction of a nested query or of a leaf; the paren panic of EqualExpr.Normalize is never hit |
| Normalize.Distribute | query/normalize.go:147-171 | the three nested loops compute the cross product of all operands, in order |
| Normalize.NormalizeAnd | query/normalize.go:137-172 | an AND node becomes the cross product of its operands' normal forms, or the panic of the first unsafe one |
| Normalize.NormalizeOr | query/normalize.go:65-74 | an OR node becomes the concatenation of its operands' normal forms |
| Normalize.NormalizeExpression | query/normalize.go:39-44 | normalisation terminates on every query and panics iff a special name is compared with a number |
| Normalize.NilDereferenceExample | query/normalize.go:397-411 | `$owner = 5` and its inverse are among the queries that panic |
| Normalize.NormalizeTopLevel | query/normalize.go:30-37 | `$all` and `*` give the empty tree, any other query its normal form |
| NormalForm.NormalFormShape | query/normalize.go:137-172 | the number of conjunctions is the polarity-aware sum-of-products count of the source, at least one, and no conjunction is empty |
| NormalForm.CrossShape | query/normalize.go:153-169 | a cross product has the product of the sizes, and exactly the pairwise joined conjunctions |
| NormalForm.NormalFormTerms | query/normalize.go:118-172 | a term occurs in the normal form iff it is a leaf of the query in the polarity of its position, normalised |
| NormalForm.TermMeaning | query/normalize.go:296-445 | a leaf, negated or not, normalised with every field kept, decides the case-insensitive three-valued comparison by exact comparison with stored values |
| NormalForm.LostNotExactly | query/normalize.go:421-437 | dropping IsNot and Numbers on special inclusions changes the normal form iff some such inclusion is effectively negated or numeric |
| NormalForm.KeptExactly | query/normalize.go:421-437 | a leaf's normal form means the same for every entity iff the leaf is not a negated or numeric special inclusion |
| NormalForm.LostNotExample | query/normalize.go:428-433 | a query that is false of an entity, as written, selects it |
| NormalForm.NormalizePreservesMeaning | query/normalize.go:30-294 | for every query and polarity, the normal form with every field kept is true of an entity iff the source is Kleene-true (at negative polarity: Kleene-false); as coded, of every query that loses nothing |
| NormalForm.DoubleNegation | query/normalize.go:279-294 | a doubly negated query has the very normal form of the query |
| NormalForm.QueryOrNegation | query/normalize.go:243-294 | a query and its negation, as coded, are never both true of an entity if no string inclusion is over a special name; and one is, of an entity that has every attribute mentioned, if neither loses anything |
| NormalForm.ExclusiveExactly | query/normalize.go:421-445 | a comparison and its negation, as coded, never both select an entity iff the comparison is not a string inclusion over a special name |
| NormalForm.PartitionsExactly | query/normalize.go:421-445 | of a comparison and its negation, as coded, exactly one selects each entity that has its attribute iff the comparison is not an inclusion over a special name |
| NormalForm.NeitherMatchesExample | query/normalize.go:428-433 | an entity with the attribute, selected by neither a query nor its negation |
| NormalForm.BothMatchExample | query/normalize.go:428-433 | an entity selected by a query and by its negation |
| Encoding.BuildPayloadKey | pebblestore/encoding.go:21-26 | the filled buffer is prefix and big-endian ID |
| Encoding.BuildEntityCurrentKey | pebblestore/encoding.go:30-35 | the filled buffer is prefix and entity key |
| Encoding.BuildNamePrefix | pebblestore/encoding.go:76-94 | the filled buffer is prefix, name length cut to 16 bits, and name |
| Encoding.BuildStringBitmapKey | pebblestore/encoding.go:49-60 | the filled buffer is the name prefix, value length cut to 16 bits, and value |
| Encoding.BuildNumericBitmapKey | pebblestore/encoding.go:64-72 | the filled buffer is the name prefix and the value in eight bytes |
| Encoding.BigEndianOrder | pebblestore/encoding.go:67-70 | fixed-width big-endian encodings are in byte order when the numbers are in order |
| Encoding.LessExactly | pebblestore/value_queries.go:78-100 | byte strings are ordered by their first difference, a proper prefix first |
| Encoding.KeyTags | pebblestore/encoding.go:5-46 | the first byte of every kind of key, and the length of those without a name: records of different kinds never share a key |
| Encoding.PayloadKeysDiffer | pebblestore/encoding.go:21-26 | payload keys are equal iff the IDs are, and in their order |
| Encoding.StringKeyRoundTrip | pebblestore/encoding.go:97-105 | a string key decodes to its name and value iff all of it is addressable in 16 bits |
| Encoding.NumericKeyRoundTrip | pebblestore/encoding.go:108-114 | a numeric key decodes to its name and value iff the name is |
| Encoding.StringKeyInjective | pebblestore/encoding.go:49-60 | no pair of any length shares the key of a pair that fits |
| Encoding.NumericKeyInjective | pebblestore/encoding.go:64-72 | the same for numeric keys |
| Encoding.ComputeUpperBound | pebblestore/encoding.go:120-130 | the carry loop increments the last byte that is not 0xFF, keeps what is before it and zeros what is after, and is unbounded iff there is none |
| Encoding.RangeExact | pebblestore/encoding.go:116-130 | a key is in the scanned range iff it has the prefix or is the bound cut short at trailing zeros |
| ValueQueries.StringScanExact | pebblestore/value_queries.go:11-34 | of all stored keys of every kind, the range of a name holds exactly the string bitmap keys of that name; for a name of 2^16 bytes or more, exactly those the bound is cut short to |
| ValueQueries.NumericScanExact | pebblestore/value_queries.go:38-59 | the same for numeric bitmap keys |
| ValueQueries.StringLookupExact | pebblestore/bitmap_ops.go:13-32 | a point lookup finds a record iff its own pair is stored, however long the name and value asked for |
| ValueQueries.NumericLookupExact | pebblestore/bitmap_ops.go:59-78 | the same for numbers |
| ValueQueries.Iterate | pebblestore/value_queries.go:13-33 | seeking to the lower bound and stopping at the upper one visits all keys in range and no other, in order |
| ValueQueries.ScanDistinctStringValues | pebblestore/value_queries.go:11-34 | exactly the values met by the scan that pass the filter, which for a name that can be stored are its own stored values, each once |
| ValueQueries.LongNameExample | pebblestore/value_queries.go:11-34 | a name too long to be stored whose scan meets a value of another name |
| ValueQueries.ScanDistinctNumericValues | pebblestore/value_queries.go:38-59 | the same for numbers, in ascending order for a name that can be stored |
| ValueQueries.NumericKeyOrder | pebblestore/encoding.go:64-72 | keys of one name are in byte order iff their numbers are in order |
| CurrentScan.CurrentScanExact | pebblestore/temporal_queries.go:12-18 | the pointer range holds the pointers of live entities and nothing else |
| CurrentScan.EvaluateAllCurrent | pebblestore/temporal_queries.go:12-39 | the IDs of all live entities, each once, newest first |
| CurrentScan.CountEntitiesByScan | pebblestore/pebblestore.go:174-193 | the migration count is the number of entity pointers |
| Index.MirrorsAfterInsert | pebblestore/follow_events.go:132-146 | adding the attributes of a new entity keeps index and table in agreement, with no empty bitmap |
| Index.MirrorsAfterReplace | pebblestore/follow_events.go:195-225 | removing every old value and then adding every new one keeps agreement, also where the two overlap |
| Index.MirrorsAfterDelete | pebblestore/follow_events.go:243-257 | removing every value of a deleted entity keeps agreement |
| Index.MirrorsAfterMove | pebblestore/follow_events.go:291-297 | moving one attribute from its old value, or from the default if it had none, keeps agreement |
| Index.MirrorsAfterOverwrite | pebblestore/follow_events.go:132-146 | adding without removing keeps agreement iff every old attribute is written again |
| Index.AgreementDetermines | pebblestore/bitmap_cache.go:129-151 | two indexes without empty bitmaps that agree with one table are equal |
| Store.PointersAreBijective | pebblestore/payload_ops.go:37-82 | pointers are injective, hit exactly the payload IDs, and the stored count is the number of payloads |
| Events.StepEffect | pebblestore/follow_events.go:98-336 | index apart, a successful operation does one of two things: upsert one row of its key, or remove one live entity |
| Invariants.StepKeepsSound | pebblestore/follow_events.go:95-337 | every operation, a create over a live key included, keeps pointers, payloads, count and counter in agreement; it succeeds iff its key is live, so the count never underflows |
| Invariants.StepKeepsValid | pebblestore/follow_events.go:95-337 | from a valid state the index stays in agreement with the table iff the operation is not a create over a live key that leaves an old indexed attribute out |
| Invariants.CreateOverLive | pebblestore/follow_events.go:120-146 | a create over a live key keeps the index right iff the new row repeats every old indexed attribute |
| Invariants.StaleBitExample | pebblestore/follow_events.go:111-146 | a create over an entity last modified at another block always leaves a bit behind |
| EntityIndex.OperationsKeepTidy | pebblestore/follow_events.go:95-337 | over a block, with or without dropped updates, the live entities of keys that no create finds live keep exactly the bits of their attributes, whatever is created over others |
| EntityIndex.StepMakesExact | pebblestore/follow_events.go:95-337 | exact bits of one entity before an operation, other than a create over it, are exact bits of its new row after it, or no bits if it is deleted |
| Runs.EventsKeepTidy | pebblestore/follow_events.go:47-421 | the same over any run of batches, failures and restarts |
| Invariants.OperationsKeepValid | pebblestore/follow_events.go:95-337 | a block succeeds iff every operation that is tried finds its key live; then the tables are sound with exactly the expected keys live, and the index agrees if every create names a key that is not live |
| Invariants.BatchKeepsValid | pebblestore/follow_events.go:59-361 | a committed batch leaves sound tables, and an index in agreement if its creates name keys that are not live; a failed one only moves the in-memory counter up |
| EntityHistory.CreatedAttributes | pebblestore/follow_events.go:104-118 | a created entity has its operation's attributes, the synthetic ones winning over equal names, and expires at (block + BTL) mod 2^64 |
| EntityHistory.CreateStores | pebblestore/follow_events.go:100-146 | after a create the row stored under the key has the operation's content, the creator as owner, the expiration (block + BTL) mod 2^64, and the block and position of the operation |
| EntityHistory.UpdateStores | pebblestore/follow_events.go:148-193 | after an update the stored row has the new content, owner and expiration (block + BTL) mod 2^64, and the creator, creation block, sequence and position it had |
| EntityHistory.ExtensionStores | pebblestore/follow_events.go:263-289 | after an extension the stored expiration is (old + BTL) mod 2^64, 0 standing for a missing one, and nothing else has changed |
| EntityHistory.OwnerChangeStores | pebblestore/follow_events.go:299-324 | after an owner change the stored owner is the new one in lower case, and nothing else has changed |
| EntityHistory.DeleteStores | pebblestore/follow_events.go:227-261 | after a deletion or expiry key and row are gone, one entity less is counted, and everything else stays |
| EntityHistory.NamesAreSpelled | pebblestore/follow_events.go:105-118 | the bytes of every synthetic name spell it |
| EntityHistory.UpdatedAttributes | pebblestore/follow_events.go:169-181 | an update replaces every attribute but creator, creation block, sequence and position, and expires at (block + BTL) mod 2^64 |
| EntityHistory.ChangesOneAttribute | pebblestore/follow_events.go:273-314 | an extension sets the expiration to (old + BTL) mod 2^64 and an owner change the lower-cased owner; payload, content type and every other attribute stay |
| EntityHistory.OriginNeverChanges | pebblestore/follow_events.go:95-337 | while an entity lives, no operation on any entity, short of a create over it, changes its key, creator, creation block, sequence number or position |
| EntityHistory.ExtensionsAdd | pebblestore/follow_events.go:273-277 | two extensions are one by their sum mod 2^64 |
| EntityHistory.LastOwnerWins | pebblestore/follow_events.go:309-312 | of two owner changes the last counts, and an owner change commutes with an extension |
| Coalescing.CoalescingIsInvisible | pebblestore/follow_events.go:86-93 | for every block, running every operation succeeds iff the coalesced run does and every dropped update had a live key; then tables, count, IDs and counter are the same, and so is the index if no create names, while it is live, a key with a dropped update |
| Coalescing.FreshCoalescing | pebblestore/follow_events.go:86-93 | from a valid state, with creates of keys that are not live, a block that succeeds in full leaves the very same store with its superseded updates dropped |
| Coalescing.CoalescedRuns | pebblestore/follow_events.go:148-154 | the coalesced run is the plain run of the operations without each update that a later one of its key in the block follows |
| Coalescing.OperationsExtend | pebblestore/follow_events.go:95-337 | a plain run makes its steps in order, each on what the others left, and stops at the first failure |
| Coalescing.RunsStayAlike | pebblestore/follow_events.go:148-154 | the simulation of the tables: rows with a pending update may differ only in what that update rewrites, and the runs end with the same rows |
| Coalescing.RunsEndEqual | pebblestore/follow_events.go:148-225 | the simulation of the index: entities of dropped keys are indexed exactly in both runs, all others have the same bits, and the runs end equal |
| Coalescing.CoalescingHidesFailure | pebblestore/follow_events.go:148-154 | update, create, update of one key fails in full and succeeds coalesced |
| Coalescing.CreateBetweenExactly | pebblestore/follow_events.go:100-225 | for update, create and update of one live key, dropping the first is invisible in the index iff its row and the old row agree on what neither of the others writes |
| Coalescing.LostBitExample | pebblestore/follow_events.go:100-225 | blocks that succeed either way, with every dropped update's key live, and leave different indexes |
| Batching.FollowerIgnoresLastBlock | pebblestore/follow_events.go:95-337 | running a block neither reads nor writes the last-block record |
| Batching.OneMoreBatch | pebblestore/follow_events.go:63-79 | once a prefix of the chain is committed, a batch that redelivers any number of its blocks commits iff a single batch with every block once would have, and leaves the same store |
| Batching.BatchingIsInvisible | pebblestore/follow_events.go:47-79 | any cutting of an increasing chain into batches, overlaps included: after each commit the store is that of one batch so far; the first cut to fail is the first whose single batch would, and the store is then the one after the last committed cut |
| Batching.FollowerRunsEachBlockOnce | pebblestore/follow_events.go:47-79 | exactly once: the store the follower ends with is that of running each block above the initially stored one once, in order, up to the end of the last committed cut, which is the last cut iff no message failed |
| Batching.FreshFollowerRunsAll | pebblestore/follow_events.go:47-79 | exactly once from a store with no block recorded: every block of the chain from 1 on is run, in order, up to the end of the last committed cut, and only a block 0 is passed over |
| Batching.FreshStoreRuns | pebblestore/pebblestore.go:127-131 | with no block recorded, a batch runs every block but a block 0 and records its end |
| Batching.RecordedBlockSkips | pebblestore/follow_events.go:76-79 | with a block recorded, a batch passes over the blocks up to it, runs those after it, and records its end |
| Batching.NewBlocksAre | pebblestore/follow_events.go:76-79 | the blocks run are those with a number above the recorded one, in their order |
| Batching.RunAllExtends | pebblestore/follow_events.go:74-346 | each block is run on what those before it left; a failure ends it |
| Batching.StopsAtError | pebblestore/follow_events.go:48-51 | an error from the iterator ends the run: the batches before it stand, none after it is applied |
| Batching.LastBlockMovesTo | pebblestore/follow_events.go:348-351 | a committed batch moves the stored last block backwards iff it ends before it |
| Batching.RedeliveryAfterStepBack | pebblestore/follow_events.go:63-79 | after a step back, a block that would have been skipped is run again |
| Sequence.PackIsSum | pebblestore/follow_events.go:115-116 | the shifts and ors are a sum while the three numbers fit their fields |
| Sequence.PackMonotone | pebblestore/follow_events.go:115-116 | within those bounds a position is earlier iff its sequence number is smaller |
| Sequence.InBoundsExactly | pebblestore/follow_events.go:115-116 | a position keeps its order with every position in bounds iff it is in bounds itself |
| Sequence.PackOverflowExample | pebblestore/follow_events.go:115-116 | past the 16-bit operation field two different positions share a number |
| Lifecycle.StepKeepsRows | pebblestore/follow_events.go:104-118 | every row keeps its synthetic attributes, in lower case, only names and values its keys can address, and a content type its record can hold |
| Lifecycle.StepAllocates | pebblestore/pebblestore.go:227-243 | an ID is taken only by a create of a key that is not live, it is the next one, and the persisted counter moves past it |
| Lifecycle.StepKeepsId | pebblestore/payload_ops.go:42-63 | a live key keeps its ID through every operation but its own deletion |
| Runs.EventsKeepId | pebblestore/payload_ops.go:42-63 | over any run of batches, failures and restarts in which nothing that deletes it is delivered, a key stays live under its ID |
| Runs.EventsKeepOrigin | pebblestore/follow_events.go:171-181 | over any such run without a create over it, an entity also keeps its creator, creation block, sequence number and position |
| Lifecycle.StepKeepsOrder | pebblestore/follow_events.go:115-116 | with operations in order, IDs and sequence numbers stay in the same order |
| Lifecycle.BatchKeepsReached | pebblestore/follow_events.go:59-361 | a batch keeps all of the above at once |
| Runs.FreshIsReached | pebblestore/pebblestore.go:70-108 | a new store starts in a reached state |
| Runs.OpenLoads | pebblestore/pebblestore.go:70-108 | opening takes the stored counter, or 1, and the stored count, or the number of pointers, and changes nothing else |
| Runs.FirstEntity | pebblestore/pebblestore.go:227-243 | the first entity of a new store has ID 1, 2 is the next, one entity is counted |
| Runs.NewStoreRuns | pebblestore/follow_events.go:63-79 | a new store runs every block of a chain from 1 on, once and in order |
| Runs.DeliveryIsMessage | pebblestore/follow_events.go:47-59 | a delivered batch does to the store what the message loop does |
| Runs.OpenIsSound | pebblestore/pebblestore.go:88-108 | opening a database that has no count gives the right one |
| Runs.OpenKeepsReached | pebblestore/pebblestore.go:70-108 | a restart, migration included, gives a reached state |
| Runs.RunsStayReached | pebblestore/follow_events.go:47-421 | every run of commits, failed or abandoned batches and restarts that is fed creates of keys that are not live and contents that fit stays in reached states; if it is also orderly, the last block never decreases |
| Runs.BlocksCreate | pebblestore/payload_ops.go:42-50 | the creations a batch executes, also of entities it deletes again, are given the IDs from the counter on, in order and without a gap |
| Runs.IdsNeverReused | pebblestore/pebblestore.go:227-243 | over any run whatever, creates over live keys included, the tables stay sound, the IDs given to committed creations of new entities are strictly increasing and below the persisted counter, and every stored ID is one of them |
| Runs.CrashesAreInvisible | pebblestore/pebblestore.go:70-86 | batches abandoned half-way and restarts between batches that commit leave no trace, not even in the IDs |
| Runs.ExactlyOnceAcrossCrashes | pebblestore/follow_events.go:47-421 | a chain delivered in overlapping cuts, with crashes and restarts anywhere, leaves the store of one process running every new block once |
| Runs.NewestFirst | pebblestore/query_rpc.go:200-201 | in reached states of an orderly run, newest first by ID is descending sequence number |
| BitmapCache.GetBitmap | pebblestore/bitmap_ops.go:13-32 | an absent key is the empty bitmap, and the bitmap returned is fresh, so that changing it cannot change what is stored |
| BitmapCache.Bitmap.Or | pebblestore/evaluate.go:37 | in-place union, leaving the operand alone |
| BitmapCache.Bitmap.And | pebblestore/evaluate.go:55 | in-place intersection, leaving the operand alone |
| BitmapCache.Bitmap.AddRange | pebblestore/query_rpc.go:195-196 | adds exactly the IDs from the lower up to the upper bound |
| BitmapCache.BitmapCache.Load | pebblestore/bitmap_cache.go:37-47 | loading keeps the cache equal to the written-through index |
| BitmapCache.BitmapCache.AddToBitmap | pebblestore/bitmap_cache.go:37-51 | cache over batch is the index with the ID written through; the batch is untouched |
| BitmapCache.BitmapCache.RemoveFromBitmap | pebblestore/bitmap_cache.go:53-67 | the same for a removal |
| BitmapCache.BitmapCache.Flush | pebblestore/bitmap_cache.go:101-154 | the batch alone becomes the written-through index, with no empty bitmap |
| BitmapCache.BitmapCache.AddAttributes | pebblestore/follow_events.go:132-146 | the loop, in whatever order the map is visited, adds the ID to every indexed attribute and to no other |
| BitmapCache.BitmapCache.RemoveAttributes | pebblestore/follow_events.go:195-209 | the same for removal |
| FollowEvents.PebbleStore.NextID | pebblestore/pebblestore.go:227-243 | takes the next ID and persists the one after it |
| FollowEvents.PebbleStore.IncrementEntityCount | pebblestore/pebblestore.go:197-206 | one more in the batch's own view |
| FollowEvents.PebbleStore.DecrementEntityCount | pebblestore/pebblestore.go:210-222 | fails iff the count is zero, changing nothing |
| FollowEvents.PebbleStore.UpsertPayload | pebblestore/payload_ops.go:37-82 | a live key keeps its ID and the count; a new one takes the next ID, is counted, and the counter is persisted |
| FollowEvents.PebbleStore.DeletePayloadForEntityKey | pebblestore/payload_ops.go:130-159 | removes payload and pointer and counts down; fails iff the key is not live or the count is zero |
| FollowEvents.PebbleStore.ApplyCreate | pebblestore/follow_events.go:100-146 | through batch and cache, exactly the create step with the index written directly |
| FollowEvents.PebbleStore.ApplyUpdate | pebblestore/follow_events.go:148-225 | exactly the update step, and failure iff the key is not live |
| FollowEvents.PebbleStore.ApplyDelete | pebblestore/follow_events.go:227-261 | exactly the delete step |
| FollowEvents.PebbleStore.ApplyExtend | pebblestore/follow_events.go:263-297 | exactly the extension step |
| FollowEvents.PebbleStore.ApplyChangeOwner | pebblestore/follow_events.go:299-332 | exactly the owner change step |
| FollowEvents.PebbleStore.ApplyOperation | pebblestore/follow_events.go:98-336 | the five cases, and the error for an operation that is none of them |
| FollowEvents.PebbleStore.CollectUpdates | pebblestore/follow_events.go:86-93 | every updated key is listed, and its last entry is its last update in the block |
| FollowEvents.PebbleStore.ApplyBlock | pebblestore/follow_events.go:81-337 | one block, with superseded updates passed over |
| FollowEvents.PebbleStore.FollowBatch | pebblestore/follow_events.go:55-361 | atomic: commits what the batch function describes with the cache flushed, or leaves the database as it was and the counter where it got to |
| FollowEvents.PebbleStore.FollowEvents | pebblestore/follow_events.go:47-421 | batches are applied in turn until one fails or is empty, or the iterator reports an error |
| Evaluate.ReconstructBitmapsOR | pebblestore/evaluate.go:83-105 | the union of the bitmaps of the values, in a fresh bitmap |
| Evaluate.EvaluateStringScan | pebblestore/value_queries.go:67-142 | scan for values and unite their bitmaps: exactly the IDs indexed under the name with a value that passes, for names of any length |
| Evaluate.EvaluateNumericScan | pebblestore/value_queries.go:145-210 | the same for numbers |
| Evaluate.EvaluateGlob | pebblestore/evaluate.go:107-121 | the IDs indexed under the name with a value for which the pattern holds, or does not |
| Evaluate.EvaluateComparison | pebblestore/evaluate.go:123-185 | the same for the four comparisons, over strings and over numbers |
| Evaluate.EvaluateEquality | pebblestore/evaluate.go:187-220 | the point lookup selects what a scan for the value would; inequality selects every other value of the name |
| Evaluate.EvaluateInclusion | pebblestore/evaluate.go:222-250 | the same for inclusion and its negation, strings first |
| Evaluate.EvaluateTerm | pebblestore/evaluate.go:62-81 | each term is evaluated to the IDs it selects |
| Evaluate.EvaluateAnd | pebblestore/evaluate.go:44-60 | the intersection of the terms' IDs; nil iff there is no term |
| Evaluate.EvaluateExpr | pebblestore/evaluate.go:26-42 | the union of the conjunctions' IDs; never nil on a normal form |
| Query.TermSelects | pebblestore/evaluate.go:62-81 | a term selects exactly the live entities of which it is true |
| Query.NormalFormSelectsMatches | pebblestore/evaluate.go:26-60 | evaluating the normal form gives exactly the live entities of which the query, as written, is Kleene-true |
| Query.ReachedFits | pebblestore/encoding.go:49-72 | every index key of a reached state decodes |
| Query.EvaluateAST | pebblestore/evaluate.go:13-24 | the empty tree selects all live entities, any other its normal form's IDs |
| Query.Answer | pebblestore/query_rpc.go:171-185 | end to end: the bitmap is the set of live entities of which the query is Kleene-true; nil dereference iff a special name is compared with a number |
| Query.AnswerIsMatches | pebblestore/evaluate.go:13-60 | in a reached state the code answers with live entities only, and with exactly those of which the query is Kleene-true if it loses nothing |
| Query.NegationPartitions | query/normalize.go:243-294 | over a reached state the code's answers to a query and to its negation are disjoint if no string inclusion is over a special name, and cover every entity that has the attributes mentioned if neither loses anything |
| Answers.NumbersIndexed | pebblestore/follow_events.go:138-146 | the bitmap of a number other than `$txIndex` and `$opIndex` names exactly the live entities that have it |
| Answers.PositionsNotIndexed | pebblestore/follow_events.go:139-142 | `$txIndex` and `$opIndex` have no bitmaps at all |
| Answers.StringsIndexed | pebblestore/follow_events.go:132-136 | the bitmap of a string names exactly the live entities that have it |
| Answers.LessThanAnswers | pebblestore/evaluate.go:123-137 | `name < n` answers with the live entities with an indexed number of that name below n; its negation with those where it is not |
| Answers.LessOrEqualAnswers | pebblestore/evaluate.go:139-153 | the same for `<=` |
| Answers.GreaterThanAnswers | pebblestore/evaluate.go:155-169 | the same for `>` |
| Answers.GreaterOrEqualAnswers | pebblestore/evaluate.go:171-185 | the same for `>=` |
| Answers.NumberEqualityAnswers | pebblestore/evaluate.go:206-219 | the same for `=` and `!=` |
| Answers.NumberInclusionAnswers | pebblestore/evaluate.go:238-249 | the same for `in` and `not in` |
| Answers.StringLessThanAnswers | pebblestore/value_queries.go:79-81 | strings compare in byte order, with the literal of a special name in lower case |
| Answers.StringLessOrEqualAnswers | pebblestore/value_queries.go:91-93 | the same for `<=` |
| Answers.StringGreaterThanAnswers | pebblestore/value_queries.go:85-87 | the same for `>` |
| Answers.StringGreaterOrEqualAnswers | pebblestore/value_queries.go:97-99 | the same for `>=` |
| Answers.StringEqualityAnswers | pebblestore/evaluate.go:187-204 | the same for `=` and `!=` |
| Answers.StringInclusionAnswers | pebblestore/evaluate.go:223-236 | the same for `in` and `not in` over other than special names |
| Answers.SpecialInclusionAnswers | query/normalize.go:421-437 | over a special name both answer with the entities whose value is listed, in lower case |
| Answers.SpecialNumbersAnswer | query/normalize.go:421-437 | over a special name an inclusion that lists numbers answers with nothing |
| Answers.GlobAnswers | pebblestore/value_queries.go:104-118 | a glob and its negation ask path.Match for pattern and stored value, in this order |
| Answers.AndAnswers | query/normalize.go:137-172 | the answer to an AND is the intersection of its operands' answers |
| Answers.NotAndAnswers | query/normalize.go:174-192 | the answer to its negation is the union of the negated operands' answers |
| Answers.OrAnswers | query/normalize.go:65-74 | the answer to an OR is the union of its alternatives' answers |
| Answers.NotOrAnswers | query/normalize.go:76-99 | the answer to its negation is the intersection of the negated alternatives' answers |
| Answers.ParenAnswers | query/normalize.go:279-294 | a parenthesis answers as its query does, a negated one as the negation |
| Answers.OnlyLiveAnswers | pebblestore/evaluate.go:13-24 | `$all` answers with every live entity, and no query with anything else |
| QueryRpc.GetResultsPerPage | pebblestore/query_rpc.go:58-63 | 200 or what was asked for, never more than 200 nor than asked for, and zero iff zero is asked for |
| QueryRpc.PageIsUnique | pebblestore/query_rpc.go:216-262 | the list of matches determines the page |
| QueryRpc.PageLimits | pebblestore/query_rpc.go:245-253 | at most the rows asked for and at most 200, and only the last row can cross the byte limit |
| QueryRpc.PageSize | pebblestore/query_rpc.go:56-63 | a page that another one follows and that is within 512 MiB has exactly the rows asked for, 200 if nothing or more was asked for; a page that none follows holds everything left |
| QueryRpc.BytesAdd | pebblestore/query_rpc.go:242-248 | the bytes of a page are those of its rows, each counted once |
| QueryRpc.BatchesOfTen | pebblestore/query_rpc.go:224-226 | an iteration fetches ten IDs, fewer only if fewer rows are missing or fewer IDs are left |
| QueryRpc.RetrievePayloads | pebblestore/payload_ops.go:163-200 | of any list of IDs, those that have a payload, sorted newest first |
| QueryRpc.AppendRows | pebblestore/query_rpc.go:233-255 | the inner loop, as the function whose effect AppendedFills states |
| QueryRpc.AppendedFills | pebblestore/query_rpc.go:233-255 | rows are appended in order, none skipped, up to and including the first that makes the page full |
| QueryRpc.Fill | pebblestore/query_rpc.go:221-257 | batches of at most ten make the page one would get row by row, also where a limit cuts a batch |
| QueryRpc.QueryEntities | pebblestore/query_rpc.go:193-262 | the page of the matches below the cursor, newest first, with a cursor iff it is full |
| QueryRpc.FillLoopEnds | pebblestore/query_rpc.go:221-257 | iterated from its start, the fill loop reaches a state in which it stops iff the page size is not zero or there is no ID; otherwise its state never changes |
| PageWalk.Serve | pebblestore/query_rpc.go:171-264 | a request on a reached snapshot returns, newest first, the matches below the cursor: all that are left if no cursor is given, else exactly the rows asked for, at most 200, or fewer whose last goes past 512 MiB; the answer is the reference answer if the query loses nothing |
| PageWalk.WalkIsExact | pebblestore/query_rpc.go:193-262 | whatever commits between pages, no ID comes twice, rows descend, each matched on its page, and what matches on every page is returned |
| PageWalk.FixedSnapshotWalk | pebblestore/query_rpc.go:193-262 | on a fixed snapshot the pages join to the full match list |
| PageWalk.WalkTerminates | pebblestore/query_rpc.go:259-262 | cursors strictly decrease: however far they are followed, and whatever commits in between, there are no more pages than the first page's matches allow |
| PageWalk.FollowCursors | pebblestore/query_rpc.go:193-262 | a client that follows cursors on one snapshot stops, with the whole answer newest first, each ID once |
| PageWalk.EntityReturnedOnce | pebblestore/query_rpc.go:193-262 | whatever fails, restarts or is delivered between the pages short of a deletion of its key, as long as delivered creates name keys that are not live and contents fit their lengths, an entity that satisfies the query at every page is returned exactly once |
| PayloadCodec.EncodePayloadValue | pebblestore/payload_ops.go:205-247 | the buffer filled at a moving offset is the record, with no byte left over |
| PayloadCodec.RecordLayout | pebblestore/payload_ops.go:202-204 | where each field of a record lies, and in how many bytes its length is written |
| PayloadCodec.DecodePayload | pebblestore/payload_ops.go:251-310 | total on arbitrary bytes, never reading outside them; the key is the data's first 32 bytes |
| PayloadCodec.PayloadRoundTrip | pebblestore/payload_ops.go:205-310 | a record decodes to itself iff its content type fits 16 bits |
| PayloadCodec.ReachedRecordsDecode | pebblestore/payload_ops.go:205-310 | in a reached state every record decodes to what was written |

## Left out

- NormalForm.NormalizePreservesMeaning: of the normal form as coded it speaks only where no special inclusion ends up negated or numeric; that this is exact is shown per comparison (`KeptExactly`) and for the normal form as a list (`LostNotExactly`), while a whole query may keep its meaning by accident, for example next to a contradiction.
- NormalForm.QueryOrNegation: for a whole query its two conditions are enough, not necessary, for the same reason; `ExclusiveExactly` and `PartitionsExactly` are the exact conditions for one comparison.
- Query.NegationPartitions: the same.
- Query.NormalFormSelectsMatches: the same as for `NormalizePreservesMeaning`.
- Invariants.OperationsKeepValid: index agreement is promised for blocks whose creates name keys that are not live; after one that leaves an attribute out (`StepKeepsValid`), a later operation may put it back by accident.
- Invariants.BatchKeepsValid: the same.
- Invariants.StepKeepsValid: reads a stored row back as it was written, so a content type of 2^16 bytes or more, whose record does not decode, and names or values whose keys collide beyond 2^16 are not seen here; reached states have neither (`StepKeepsRows`, `ReachedRecordsDecode`, `ReachedFits`).
- Coalescing.CoalescingIsInvisible: its condition for the index is enough, not necessary; with several creates over the key what is left behind depends on the attributes of all of them, and `CreateBetweenExactly` gives the exact condition for one.
- Lifecycle.BatchKeepsReached: asks that creates name keys that are not live and contents fit, as queries are answered right only then; `IdsNeverReused` and `EventsKeepTidy` say what holds of every run.
- Runs.RunsStayReached: the same.
- PageWalk.EntityReturnedOnce: the same.
- PageWalk.Serve: asks for a page size other than zero (`FillLoopEnds`).
- PageWalk.FollowCursors: the same.
- Lifecycle.StepKeepsOrder: asks that a create comes later in the chain than everything stored and names a key that is not live, as the order of IDs is otherwise not that of the chain.
- FollowEvents.PebbleStore.FollowEvents: the panic on an empty batch is a stop; attribute maps are taken as present, where the source would panic on a nil map.
- QueryRpc.QueryEntities: asks for a page size other than zero if anything is left to return, since the loop would not end (`FillLoopEnds`).
- PayloadCodec.DecodePayload: slices are bounded by their length, as the source's own checks are; the capacity of Go slices is not modelled.
- IDs and the entity count are unbounded; their wrap at 2^64 is not modelled.
- Lexing and parsing; the model starts from the syntax tree, with OrRHS and AndRHS, which only wrap one field, dropped, and with one comparison per leaf and one literal per comparison.
- The pointer comparison that finds the last update of a key is modelled by position in the block.
- The four comparison evaluators, and the string and number halves of the cache, are the same code in the source and are written once.
- Pebble itself: compression, sync, bloom filters, iterator errors. A batch is a view that is committed as a whole; a read or write error appears only as a batch that is abandoned.
- Roaring bitmap layout, serialisation and RunOptimize; a bitmap is a set of IDs changed in place.
- The JSON text of attributes (an abstract codec in `PayloadCodec`) and of response rows (a size function); the library sort is given by insertion.
- Waiting for the requested block, hex text of cursors, choice of response fields, metrics, logging and block statistics.
- Concurrent calls of nextID: there is one follower, and its lock is not modelled.
- The command-line programs and the push iterator.
