# ember-data Store, Model and Adapter: a Dafny model

This project models the core of ember-data's early data layer:

- **Model**: one record, with its lifecycle and its typed attributes.
- **Store**: an identity map from (type, id) to record, three ordered dirty buckets (`created`, `updated`, `deleted`), and the record arrays it keeps up to date.
- **Adapter**: the pluggable persistence collaborator the store calls.

The Store, Model and Adapter implementation files are not part of this model. The behaviour modelled is the behaviour the repository's two test files pin down: `packages/ember-data/tests/adapter_test.js` and `packages/ember-data/tests/model_test.js`. Where the tests are silent, the model makes its own choices. Those choices are listed under "Left out".

Everything is functional. A store is an immutable value, and a record is referred to by its index in the store's `records` sequence, which stands for object identity. The requests that can reach the adapter (`Find`, `FindMany`, `FindQuery`, `FindAll`) return the new store together with the adapter calls they made, as a list of `Call` values. `Commit` returns only the calls: it leaves the store as it is. Every other operation calls nothing, and each returns the following:

- `Create` returns the new store with the new record's reference (a `Landed`) and never fails.
- `Load` and `LoadHash` return a `Landed` or an error.
- `LoadMany` returns the new store with one reference per hash (a `LandedMany`) or an error.
- `LoadQuery` returns the new store with the array's `Change` or an error.
- `FilterArray` returns the new store with the new array's index and never fails.
- `SetAttr`, `DeleteRecord` and the acknowledgments return only the new store, or an error.

The adapter's optional hooks (`findMany`, `commit`, `createMany`, `updateMany`, `deleteMany`) are capability flags. The adapter's answers are the acknowledgment operations (`DidCreateModel(s)`, `DidUpdateModel(s)`, `DidDeleteModel(s)`, `Load`, `LoadMany`, `LoadQuery`), which a caller applies to the store.

Files and modules:

| file | module | content |
|---|---|---|
| wrappers.dfy | Wrappers | `Option`, `Result` |
| values.dfy | Values | the JavaScript values attributes hold, and the `string`/`integer`/`boolean` coercions |
| records.dfy | Records | record types, attributes with `key`, the lifecycle state machine, attribute reads and writes |
| seqs.dfy | Seqs | duplicate-free ordered sequences: the shape of a bucket and of a live array |
| arrays.dfy | ModelArrays | live (filtered) arrays and query arrays, and their change notifications |
| adapter.dfy | Adapters | adapter capabilities, type groups, the calls the store makes |
| store.dfy | Stores | the store and its invariant (`Valid`), and the single-record write that keeps it |
| fetch.dfy | Fetching | `find`, `findMany`, `load`, `loadMany` |
| changes.dfy | Changes | `create`, attribute writes, `deleteModel`, and the single acknowledgments |
| queries.dfy | Queries | `find(type, query)`, `findAll`, `filter`, and loading into a query array |
| acks.dfy | Acks | the batch acknowledgments `didCreateModels`, `didUpdateModels`, `didDeleteModels` |
| commit.dfy | Commits | `commit()`: grouping each bucket by type (`eachType`), and the dispatch rules |
| flows.dfy | Flows | end-to-end flows, each matching one test scenario |

The store invariant `Stores.Valid` says:

- the identity map names existing records of the right type and id;
- each bucket lists, once each, exactly the records dirty with its kind (the invariant states no order; the operations that add to a bucket append at its end and the ones that remove keep the rest in order, so a bucket keeps the order of arrival);
- a record awaiting creation has no id yet;
- every live array holds exactly the loaded records of its type that pass its filter;
- the array `findAll` handed out for a type is live over that whole type.

Every operation on a valid store returns a valid store.

## Model

| member | source | states |
|---|---|---|
| Values.Coerce | packages/ember-data/tests/model_test.js:24-68 | coercion always yields a value of the attribute's type and leaves a conforming value alone; `string` is the string conversion; `boolean` is truthiness; `integer` on a string is a number exactly when the string is a numeral |
| Values.CoerceIdempotent | packages/ember-data/tests/model_test.js:24-42 | coercing twice equals coercing once, so coercing on write and again on read equals coercing on load |
| Values.CoercionTable | packages/ember-data/tests/model_test.js:44-68 | every (type, provided, expected) triple the attribute tests list |
| Values.IntegerStringRoundTrip | packages/ember-data/tests/model_test.js:44-58 | an integer written through a `string` attribute and read back through an `integer` one is the same integer |
| Values.ParseIntToString | packages/ember-data/tests/model_test.js:46-51 | parsing an integer's decimal representation gives the integer back |
| Records.NewRecord | packages/ember-data/tests/model_test.js:12-15 | a new record is empty, not loaded, not dirty, and has no id |
| Records.LoadingData | packages/ember-data/tests/model_test.js:17-22 | `loadingData` succeeds exactly from `empty` and moves the record to `loading` |
| Records.SetData | packages/ember-data/tests/model_test.js:205-212 | `setData` fails with a conflict exactly when the record is dirty; from loading or clean it leaves the record loaded and clean with exactly the given data |
| Records.LoadLifecycle | packages/ember-data/tests/model_test.js:17-22 | empty, then `loadingData`, then `setData` ends loaded, clean, holding the given hash |
| Records.Get | packages/ember-data/tests/model_test.js:24-42 | a declared attribute always reads a value of its type, even when its slot is absent; an undeclared one reads the raw slot, and is absent exactly when the slot is absent |
| Records.Set | packages/ember-data/tests/model_test.js:134-202 | a write succeeds exactly on a loaded record; only the attribute's slot changes; a clean record becomes dirty in `updated`; a dirty record keeps its bucket, so a created record stays created |
| Records.ReadAfterWrite | packages/ember-data/tests/model_test.js:92-97 | reading an attribute back after writing it gives the written value, coerced by the attribute's type |
| Records.LoadAndSetAgree | packages/ember-data/tests/model_test.js:24-42 | loading a raw value and writing it through the attribute read the same |
| Records.WriteFrame | packages/ember-data/tests/model_test.js:99-111 | writing one attribute leaves the reading of every attribute with another slot unchanged |
| Records.KeyOption | packages/ember-data/tests/model_test.js:70-111 | an attribute with `key` reads that slot, and a write stores the coerced value there while the slot of the attribute's own name keeps its value |
| Records.CreatedRecord | packages/ember-data/tests/model_test.js:166-172 | a created record is new, dirty, loaded, not deleted, has no id, and holds the given hash |
| Records.DeleteModel | packages/ember-data/tests/adapter_test.js:153-180 | `deleteModel` succeeds from clean, updated or deleted and then leaves the record deleted and dirty; on an uncommitted created record it is an unmodelled case |
| Records.DidUpdate | packages/ember-data/tests/adapter_test.js:292-326 | an update acknowledgment succeeds exactly on a record dirty in `updated` and leaves it clean, its data kept |
| Records.DidDelete | packages/ember-data/tests/adapter_test.js:250-255 | a deletion acknowledgment succeeds exactly on a record dirty in `deleted` and leaves it deleted, not dirty, not loaded |
| Records.DidCreate | packages/ember-data/tests/adapter_test.js:261-290 | a creation acknowledgment succeeds exactly on a created record whose hash carries an id, and the record then takes that id and the hash as its data and is clean; a hash without id is `MissingId` |
| Seqs.AddOnce | packages/ember-data/tests/model_test.js:155-163 | adding a record to a bucket lists it once and at the end, and adding it again changes nothing |
| ModelArrays.NewLive | packages/ember-data/tests/model_test.js:113-118 | a new live array holds, once each, exactly the records that belong in it |
| ModelArrays.Refresh | packages/ember-data/tests/model_test.js:113-132 | after a record changes, a live array holds it exactly when it now belongs; no other record enters or leaves, and the other members keep their relative order; the length changes by the membership difference; query arrays are untouched |
| ModelArrays.RefreshValid | packages/ember-data/tests/model_test.js:223-242 | refreshing keeps a live array exactly the records that belong in it |
| ModelArrays.AppendLoaded | packages/ember-data/tests/adapter_test.js:59-88 | loading into a query array keeps its content and appends the records after it; the reported change starts at the old end, removes nothing, and adds one per record |
| Stores.EmptyStore | packages/ember-data/tests/adapter_test.js:11-12 | a new store is valid, holds no records and no ids, and has empty buckets |
| Stores.WriteValid | packages/ember-data/tests/model_test.js:134-202 | writing one record keeps the store invariant: buckets, identity map and live arrays are all brought up to date |
| Stores.WriteMovesBucket | packages/ember-data/tests/model_test.js:134-164 | a write appends a record to the bucket it newly enters, drops it from the bucket it leaves, and leaves every other bucket unchanged |
| Stores.Register | packages/ember-data/tests/adapter_test.js:131-151 | entering a record under its type and id keeps the identity map valid |
| Fetching.Find | packages/ember-data/tests/adapter_test.js:16-32 | a known id returns the cached record with no adapter call; an unknown id adds one loading record under that id and makes exactly one `find` call |
| Fetching.FindValid | packages/ember-data/tests/adapter_test.js:16-32 | `find` keeps the store valid and its buckets and query arrays unchanged |
| Fetching.FindTwiceCallsOnce | packages/ember-data/tests/adapter_test.js:16-32 | two `find`s of the same new id make one adapter call and return the same record |
| Fetching.Reserve | packages/ember-data/tests/adapter_test.js:34-57 | reserving ids enters every id into the identity map and keeps every earlier entry; when all ids are known, nothing changes |
| Fetching.ReserveMissing | packages/ember-data/tests/adapter_test.js:34-57 | the ids reported missing are exactly the requested ids the identity map lacked, once each |
| Fetching.ReserveFresh | packages/ember-data/tests/adapter_test.js:45-57 | distinct unknown ids are all reported missing, in the order given |
| Fetching.ReserveValid | packages/ember-data/tests/adapter_test.js:34-57 | reserving keeps the store valid and its buckets and query arrays unchanged |
| Fetching.FindMany | packages/ember-data/tests/adapter_test.js:34-57 | `findMany` asks for exactly the unknown ids, each at its first occurrence, in the order requested; it makes no call when all are known; every id then resolves; the records handed back are the ones the identity map names, position by position |
| Fetching.ReserveOrder | packages/ember-data/tests/adapter_test.js:45-57 | reserving reports the requested ids the identity map lacked, each at its first occurrence, in the order requested, whatever mix of known, unknown and repeated ids is given |
| Fetching.FetchCalls | packages/ember-data/tests/adapter_test.js:34-57 | missing ids go to one `findMany` call when the adapter has it, else to one `find` per id in order; no ids means no call |
| Fetching.FindManyTwiceCallsOnce | packages/ember-data/tests/adapter_test.js:41-42 | repeating a `findMany` calls nothing and returns the same records |
| Fetching.Load | packages/ember-data/tests/model_test.js:205-212 | loading data into a dirty record is a conflict; data for an unknown id creates a clean loaded record under it; data for a loading or clean record replaces its data; no other record changes |
| Fetching.LoadValid | packages/ember-data/tests/adapter_test.js:90-106 | loading keeps the store valid and leaves every bucket and query array unchanged |
| Fetching.LoadHash | packages/ember-data/tests/adapter_test.js:99 | loading a hash uses the hash's own `id`; a hash without one is `MissingId` |
| Fetching.LoadMany | packages/ember-data/tests/model_test.js:85-89 | after `loadMany`, each hash's id names the record returned in its position; that record is loaded and clean and, unless a later hash carries the same id, holds exactly its hash; earlier identity entries stay; every record no hash names is unchanged |
| Fetching.LoadManySucceeds | packages/ember-data/tests/model_test.js:85-89 | `loadMany` succeeds exactly when every hash carries an id and every record those ids already name is loading or clean |
| Fetching.LoadManyValid | packages/ember-data/tests/model_test.js:85-89 | `loadMany` keeps the store valid and leaves every bucket and query array unchanged |
| Changes.Create | packages/ember-data/tests/model_test.js:166-172 | `create` adds a record dirty in `created`, appended to that bucket, outside the identity map; the other buckets and the identity map are unchanged, every live array re-evaluates the new record and the `findAll` arrays stay where they are |
| Changes.SetAttr | packages/ember-data/tests/model_test.js:134-202 | a write succeeds exactly on a loaded record; a clean record joins the end of `updated`; a dirty record stays where it is, so it is never listed twice and a created record never reaches `updated`; every live array re-evaluates it, and the `findAll` arrays stay where they are |
| Changes.DeleteRecord | packages/ember-data/tests/adapter_test.js:153-180 | a deleted record keeps its type, id and data and is deleted and dirty; it joins `deleted` once and leaves `updated`; no other record and no identity entry changes, every live array re-evaluates it and the `findAll` arrays stay where they are; deleting an uncommitted created record is an unmodelled case |
| Changes.DidUpdateModel | packages/ember-data/tests/adapter_test.js:292-326 | the acknowledgment succeeds exactly on a record awaiting update, which becomes clean with its type, id and data kept and leaves `updated`; no other record and no identity entry changes, every live array re-evaluates it and the `findAll` arrays stay where they are |
| Changes.DidDeleteModel | packages/ember-data/tests/adapter_test.js:328-361 | the acknowledgment succeeds exactly on a record awaiting deletion, which keeps its type, id and data and becomes deleted and clean; it leaves `deleted`; the identity map loses exactly the entries naming it and every other entry keeps its record; no other record changes, every live array re-evaluates it and the `findAll` arrays stay where they are |
| Changes.DidCreateModel | packages/ember-data/tests/adapter_test.js:261-290 | the acknowledgment succeeds exactly on a created record whose hash carries an id not yet taken for its type; the record takes that id and the hash, leaves `created`, and is entered in the identity map under that id; every live array re-evaluates it and the `findAll` arrays stay where they are |
| Queries.FindQuery | packages/ember-data/tests/adapter_test.js:59-74 | a query returns a new, empty query array and makes exactly one `findQuery` call that is given the array; records, ids and buckets are unchanged |
| Queries.AppendToQuery | packages/ember-data/tests/adapter_test.js:68-84 | filling a query array keeps its earlier content and appends the records; the change is (old length, 0 removed, one added per record) |
| Queries.LoadQuery | packages/ember-data/tests/adapter_test.js:59-88 | loading hashes into a query array succeeds exactly when loading them into the store does; the array then gains, in order, the records the hashes' ids name, each loaded and holding its hash unless a later hash reloads it |
| Queries.LoadQueryLands | packages/ember-data/tests/adapter_test.js:76-86 | (through `AppendedLanded`) the `i`th record a query load appends is of the array's type, loaded, and holds the `i`th hash unless a later hash reloads it |
| Queries.FindAllTwiceCallsOnce | packages/ember-data/tests/adapter_test.js:90-106 | two `findAll` requests for a type make one adapter call and hand out the same array |
| Queries.FindAll | packages/ember-data/tests/adapter_test.js:90-106 | `findAll` yields the type's live array of every loaded record of the type; the first request makes one `findAll` call; later requests return the same array with no call |
| Queries.FilterArray | packages/ember-data/tests/model_test.js:113-118 | `filter` yields a new live array holding exactly the loaded records of the type whose data passes the filter, with no adapter call |
| Acks.DidUpdateModels | packages/ember-data/tests/adapter_test.js:108-129 | the batch update acknowledgment succeeds exactly when the records are distinct and all await update; each is then clean with its type, id and data kept, `updated` loses exactly them; every other record, the other buckets, the identity map, the query arrays and the `findAll` arrays are unchanged |
| Acks.DidDeleteModels | packages/ember-data/tests/adapter_test.js:153-180 | the batch delete acknowledgment succeeds exactly when the records are distinct and all await deletion; each is then deleted and clean with its type, id and data kept, `deleted` loses exactly them, and no id names any of them; every other identity entry keeps its record, and every other record, the other buckets, the query arrays and the `findAll` arrays are unchanged |
| Acks.DidCreateModels | packages/ember-data/tests/adapter_test.js:182-207 | the `i`th created record takes the `i`th hash: the acknowledgment fails on repeated or not-created records and succeeds when the hashes give fresh, distinct ids; on success each record is loaded under its id with its hash, and `created` loses exactly them; earlier identity entries, the other records and buckets, the query arrays and the `findAll` arrays are unchanged |
| Commits.Select | packages/ember-data/tests/adapter_test.js:108-118 | selecting a bucket's records by type keeps exactly those of (or not of) the type |
| Commits.SelectSplits | packages/ember-data/tests/adapter_test.js:108-118 | splitting a bucket by one type loses and duplicates nothing |
| Commits.GroupByType | packages/ember-data/tests/adapter_test.js:108-118 | `eachType` gives non-empty groups, each headed by a bucket record of its type, and no groups exactly for an empty bucket |
| Commits.GroupsCover | packages/ember-data/tests/adapter_test.js:182-259 | the groups together hold each record of the bucket exactly once |
| Commits.GroupTypesDistinct | packages/ember-data/tests/adapter_test.js:182-259 | no two groups of a bucket share a type, which is why each bulk method is called once per type |
| Commits.GroupsAreSelections | packages/ember-data/tests/model_test.js:144-163 | each group is exactly the bucket's records of its type, in bucket order |
| Commits.GroupOneType | packages/ember-data/tests/model_test.js:155-159 | a bucket of one type forms one group holding the whole bucket in order |
| Commits.SendCarries | packages/ember-data/tests/adapter_test.js:261-361 | a group's calls, bulk or one per record, carry exactly its records, for its own bucket only |
| Commits.DispatchCarries | packages/ember-data/tests/adapter_test.js:261-361 | a bucket's calls carry exactly the records of its groups, group after group |
| Commits.DispatchBulk | packages/ember-data/tests/adapter_test.js:182-259 | with a bulk method, a bucket makes exactly one bulk call per group, each with the group's type and records |
| Commits.Plan | packages/ember-data/tests/adapter_test.js:108-361 | with a `commit` hook the plan is at most one call, holding every bucket's groups; without one every call is a bulk or singular call, the created bucket's first, then the updated, then the deleted |
| Commits.Commit | packages/ember-data/tests/adapter_test.js:108-361 | `commit()` calls the adapter exactly when some record is dirty; a `commit` hook then gets one call with each bucket grouped by type; any other adapter gets bulk or singular calls in created, updated, deleted order |
| Commits.CommitCarries | packages/ember-data/tests/adapter_test.js:261-361 | without a `commit` hook, the calls for each bucket hand over each of its records exactly once |
| Commits.CommitOneType | packages/ember-data/tests/adapter_test.js:182-361 | one dirty bucket of one type and no `commit` hook: one bulk call with the whole bucket when the adapter has the bulk method, otherwise one singular call per record in bucket order |
| Commits.CommitAfterAcks | packages/ember-data/tests/adapter_test.js:182-207 | once every created, updated and deleted record is acknowledged, a second commit calls nothing |
| Flows.CreateAckThenFind | packages/ember-data/tests/adapter_test.js:131-151 | a created record, once the server names it, is loaded under that id and is what `find` returns for it, with no adapter call |
| Flows.DeleteAckSettles | packages/ember-data/tests/adapter_test.js:153-180 | a loaded record, deleted and acknowledged, is deleted and clean, in no bucket, and named by no id |
| Flows.UpdateAckReadsBack | packages/ember-data/tests/adapter_test.js:292-326 | a write to a loaded record, once acknowledged, reads back as written and the record is clean again |
| Flows.SetThenCommitHook | packages/ember-data/tests/adapter_test.js:108-129 | on a clean store, one write then a commit gives a `commit` hook that record as the only group of `updated`, with the other buckets empty |
| Flows.CreateThenCommitHook | packages/ember-data/tests/adapter_test.js:131-151 | on a clean store, one created record and a commit give a `commit` hook that record as the only group of `created`, with the other buckets empty |
| Flows.DeleteThenCommitHook | packages/ember-data/tests/adapter_test.js:153-180 | on a clean store, deleting a loaded record and committing give a `commit` hook that record as the only group of `deleted`, with the other buckets empty |
| Flows.CreateTwoCommitBulk | packages/ember-data/tests/adapter_test.js:182-207 | two records created on a clean store and committed through `createMany` make one bulk call carrying both, in creation order |
| Flows.CreateTwoAckThenFind | packages/ember-data/tests/adapter_test.js:182-207 | acknowledging both creations with hashes naming two new ids leaves nothing to create, and `find` then returns each record for its id with no adapter call |
| Flows.LoadManyThenFind | packages/ember-data/tests/model_test.js:80-97 | after `loadMany` of three people into a new store, `find(Person, 2)` makes no adapter call and returns the second record, loaded, holding its hash, its name reading "Scumbag Katz" |
| Flows.QueryThenLoad | packages/ember-data/tests/adapter_test.js:59-88 | a query array starts empty with one `findQuery` call; loading two people into it succeeds, reports two added at 0, and its first record holds the first hash and reads "Peter Wagenet" |
| Flows.FindAllThenLoad | packages/ember-data/tests/adapter_test.js:90-106 | `findAll` on a type with no loaded records yields an empty array, which then holds exactly the record of data loaded for a new id |
| Flows.RenameRefilters | packages/ember-data/tests/model_test.js:113-132 | writing a string to the filtered slot keeps a record in a "ends in suffix" live array exactly when the string ends in the suffix, and the array loses one entry when it leaves |
| Flows.ThreeLanded | packages/ember-data/tests/model_test.js:83-89 | after `loadMany` of the three people into a new store, the store holds exactly three records, the `i`th being the person with id `i + 1`, loaded and clean, holding its hash |
| Flows.FindSecond | packages/ember-data/tests/model_test.js:92 | in any store holding exactly the three people, `find(Person, 2)` makes no adapter call and returns the second person, whose name reads "Scumbag Katz" |
| Flows.LandedThree | packages/ember-data/tests/model_test.js:83-89 | a store into which the three people landed, and which holds nothing else, holds exactly those three, each loaded with its own hash under its id |
| Flows.LoadedIntoEmpty | packages/ember-data/tests/model_test.js:83-89 | `loadMany` into a new store leaves no record but the ones the hashes landed in |
| Flows.KatzFilter | packages/ember-data/tests/model_test.js:113-122 | on the three people, the live array of names ending in "Katz" holds exactly the second person, whose name reads "Scumbag Katz" |
| Flows.LoadFilterRename | packages/ember-data/tests/model_test.js:113-132 | after `loadMany` of the three people, the "Katz" filter has length 1 and its first record reads "Scumbag Katz"; renaming it "Yehuda Katz" keeps the length at 1 and the name reads back; renaming it on to "Yehuda Katz-Foo" brings the length to 0 |
| Flows.LoadTwo | packages/ember-data/tests/adapter_test.js:215-219 | loading two people with new ids into a clean store succeeds twice and leaves the store clean with both loaded under ids 1 and 2 |
| Flows.Renamed | packages/ember-data/tests/adapter_test.js:221-225 | after writing both people's names, exactly those two are dirty in `updated`, in the order written, the identity map is unchanged and the second name reads "Yehuda Katz" |
| Flows.UpdateManyCommit | packages/ember-data/tests/adapter_test.js:209-227 | `find` hands out both loaded people with no call; after the two writes, a commit through `updateMany` without a `commit` hook makes one bulk call carrying both, in the order written |
| Flows.UpdateManyThenFind | packages/ember-data/tests/adapter_test.js:209-233 | `didUpdateModels` on the two renamed people succeeds; `find(Person, 2)` then returns the same record with no adapter call, its name reads "Yehuda Katz", and a second commit calls nothing |
| Flows.RenameMovesFilter | packages/ember-data/tests/model_test.js:223-242 | renaming to "Yehuda Katz" keeps the record in the Katz array and keeps its length; renaming on to "Yehuda Katz-Foo" drops it and shortens the array by one |

## Left out

- Asynchrony: adapter callbacks that run later are modelled as separate operations the caller applies (`Load`, `LoadQuery`, the acknowledgments). The `saving` states a record passes through while a commit is in flight are not modelled: `Commit` only computes the calls and leaves the store unchanged.
- Property observers and array observers: a query array's change notification is returned as a `Change` value. Observer callbacks and their timing are not modelled.
- Filters are the closed set `Everything` and `EndsWith(slot, suffix)`. The tests' filter callbacks are regular expressions of that shape (`/Katz$/`); general callbacks are not modelled.
- JavaScript conversions are restricted to strings, integers, booleans, `null` and `NaN`. Numerals are an optional `-` and decimal digits. Whitespace, the empty string, fractions and exponents are not modelled as numbers.
- Changes.DeleteRecord: deleting a created record that was never committed returns `Unmodelled`. The tests do not say whether that should contact the adapter or simply drop the record.
- Adapter failures and retries: the tests exercise none, so every adapter call is assumed to be answered by the acknowledgments.
- Commits.Plan: a commit with all buckets empty makes no call, even when the adapter has a `commit` hook. The test at adapter_test.js:124-128 is consistent with the hook being called with empty buckets, which would make no observable difference there; skipping the call is the model's own choice.
- Commits.Plan: without a `commit` hook, the created records are sent first, then the updated, then the deleted. The tests commit one bucket at a time, so this order is the model's own choice.
- Changes.DidCreateModel: a server id that already names another record of the type is refused with `IdInUse`. The tests never reuse an id.
- ModelArrays.Belongs: every `Dirty` record counts as loaded, so a record awaiting deletion and a created record not yet committed stay in `findAll` and `filter` arrays; a record leaves them once it is `Destroyed`. The tests never read a live array between a delete and its acknowledgment, or after a create.
- Records.Get: a declared attribute whose slot is absent reads as its type's coercion of `null`, so a `string` attribute reads "null". The tests never read an absent slot.
- Records.CreatedRecord: an `id` in the hash given to `create` does not name the record; only the server's acknowledgment gives it an id. model_test.js:169 passes `{ id: 2 }` but checks nothing that depends on it.
- Records.Set: a write to a record awaiting deletion succeeds and leaves it in `deleted`. The tests never write to a deleted record.
- Records.DeleteModel: deleting a record already awaiting deletion succeeds and changes nothing. The tests delete each record once.
- Fetching.LoadMany: all or nothing. A hash that cannot be loaded makes the whole call fail, and the hashes before it are not kept. A JavaScript loop that throws midway would keep the records already loaded, and `load` does throw (model_test.js:205-212). The tests never load a batch that fails.
- Queries.LoadQuery: all or nothing, like `LoadMany`. A failure returns an error and no new store, so the query array gains nothing.
- Acks.DidUpdateModels: all or nothing. One record that is not awaiting update fails the whole batch, and the acknowledgments before it are not kept.
- Acks.DidDeleteModels: all or nothing, like `DidUpdateModels`.
- Acks.DidCreateModels: all or nothing, like `DidUpdateModels`.
- Values.Coerce: JavaScript numbers are IEEE doubles, but integers here are unbounded. So the string form of an integer is always its full decimal expansion, where JavaScript writes `String(1e21)` as "1e+21", and integers past 2^53 stay exact instead of rounding.
- Commits.GroupByType: groups appear in order of their type's first record in the bucket. Only that construction, each group's content and the distinctness of types are proved; the tests rely on nothing more about group order.
- The order in which a `commit` hook walks the three buckets is left to the hook: the model hands it all three at once.
- The Store, Model and Adapter implementation files themselves are not part of this model; neither are the UI-framework integration and the generic observable-collection machinery.
