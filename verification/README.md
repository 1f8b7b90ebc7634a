# Seaplane, modelled and proved in Dafny

Seaplane keeps Kubernetes objects in a PostgreSQL table and serves them to
controllers through list and watch (`seaplane-db`), behind a regional REST API with
its own authorization store, rate limiter and validators (`seaplane-api`). This
project models the parts whose correctness does not show in any single function and
proves what they promise.

| files | what they model |
|---|---|
| `Wrappers.dfy` | the option type and distinctness |
| `Lifecycle.dfy` | a row, SQL's three-valued logic, and the five places that decide what a tombstone is |
| `Protocol.dfy`, `Database.dfy` | transactions, compare-and-swap writes, revival of tombstones, compaction with its horizon |
| `Watch.dfy`, `Resume.dfy`, `WatchLoop.dfy` | lists, polls, the relay, the informer store, and where a broken watch may resume |
| `Versions.dfy`, `ResourceVersion.dfy` | optimistic concurrency, `Update`'s read-then-CAS window, ambiguous commits, version text |
| `Selectors.dfy`, `Queries.dfy`, `Shards.dfy` | selectors compiled to SQL with numbered placeholders, list assembly, namespace sharding |
| `Scheduler.dfy` | the watcher's timer and doorbell loop |
| `Principals.dfy`, `Attachments.dfy`, `Resolution.dfy`, `Grants.dfy` | policy attachments stored twice, and resolving a caller's grants |
| `Claims.dfy` | claiming, releasing and deleting DNS reservations under conflict retries |
| `Preserve.dfy` | restoring service-set fields before an update is stored |
| `Limiter.dfy` | the in-memory rate limiter |
| `Cidr.dfy` | validation of machine, service and pod networks |

PostgreSQL is a transition system: transaction ids are handed out, stay open for any
time, and end by committing one upsert or by aborting; compaction deletes any set of
tombstones at once. Everything said about watches, versions and claims holds for
every run of that system, with any number of clients. Code that updates state in
place (the writer, the poller, the relay, the timer loop, the limiter) is a class
whose methods are proved against the functions that the theorems are about; loops
are methods with invariants.

Findings that the proofs turned up:

- The SQL filters and the relay judge a deleted row alike exactly when SQL and Go both see finalizers or
  both see none. They differ on JSON `null`, on values that are no list, on lists with elements that are
  neither strings nor null, and on keys spelled with other capitals, which Go decodes and SQL does not
  find. Nothing that goes through `extractMetadata` is among them.
- The version that the relay stamps on a fully delivered poll is a safe resume point exactly when it is
  below the snapshot's xmin. After a delivery that broke off in the middle, every unsent row that the
  mark passes over must also have been shown before; an earlier poll may have stamped a higher version,
  and `poll` raises the watcher's own mark before delivery.
- A relist is refused again as long as a transaction at or below the kind's horizon is open.
- A version without its uid can match a later object of the same name. `Update` keeps the deletion
  timestamp exactly if the version it is given is not above that of the row it reads; with a larger one
  it can bring a deleted object back to life.
- The stored-procedure path reports an ambiguous commit with transaction id 0, and a read-back with 0
  never finds the row.
- A reservation's claim is exclusive until the cluster controller releases it; the same incarnation can
  then be claimed by another cluster or deleted through the API.
- In a registry with a restored field below another one, whether restoring succeeds can depend on Go's map
  iteration order; what a successful run leaves never does. The shipped registry
  (`hack/api-codegen/pkg/registry/field_metadata.json`) has no such pair, and then no order matters.
- `RetryAfter` is exact only for a burst of at least one; below that nothing is ever allowed.
- Doorbells can delay a poll beyond the baseline exactly when the debounce floor exceeds it.
- One ambiguous role alias or one deleted policy refuses all of a caller's grants: resolution is all or
  nothing, and those two are its only causes of refusal for a well-formed identity.

## Model

| member | source | states |
|---|---|---|
| `Lifecycle.FiltersAgreeExactly` | seaplane-db/internal/reader/list.go:60 | The list, read and tombstone filters and the relay's event type draw one line between tombstones and other rows exactly when the row is not deleted or SQL and Go see finalizers together or not at all; the SQL filters always agree with each other |
| `Lifecycle.PlainKeysAgreeExactly` | seaplane-db/convert.go:67-80 | With the key spelled as the code spells it, a deleted row is judged alike if and only if the field is absent or a list of strings and nulls |
| `Lifecycle.OtherSpellingDisagrees` | seaplane-db/convert.go:67-80 | A key in another spelling that decodes to a finalizer makes SQL see a tombstone and the relay a live object |
| `Lifecycle.ExtractedMetadataIsRegular` | seaplane-db/convert.go:117-126 | Every row whose metadata the client library wrote is on the agreeing side |
| `Protocol.XminNeverDecreases` | seaplane-db/docs/DESIGN.md:25 | Invariant I2: no step lets the oldest open transaction go back |
| `Protocol.RaiseAllCovers` | seaplane-db/compaction/compactor.go:40-46 | Compaction raises each horizon to at least every stamp it deletes under that kind and lowers none |
| `Protocol.RaiseAllTight` | seaplane-db/compaction/compactor.go:40-46 | A horizon only moves to the stamp of a row deleted under that kind |
| `Protocol.InvStep` | seaplane-db/internal/writer/writer.go:214-385 | Every commit and compaction keeps rows stamped by one finished transaction each, and horizons below the next id |
| `Protocol.InvRun` | seaplane-db/internal/writer/writer.go:465-559 | The same for whole runs |
| `Protocol.HorizonNeverFalls` | seaplane-db/compaction/compactor.go:40-46 | Over a run no kind's horizon falls |
| `Protocol.HorizonCoversCompacted` | seaplane-db/compaction/compactor.go:32-46 | After any run that compacts a tombstone the horizon is at least its stamp, for ever |
| `Protocol.UpsertOutcomes` | seaplane-db/internal/writer/writer.go:214-385 | A committed write holds every column its request carries and every other column of the row before, with the uid of its incarnation; a revived row is live; and the exact cause of each refusal |
| `Protocol.IncarnationsEndAsTombstones` | seaplane-db/internal/writer/writer.go:233-303 | In every run an object that is no longer under its key has been a tombstone before: no create, revival, compaction or other client's write ends a live or dying one |
| `Protocol.FirstVersionIsCreated` | seaplane-db/internal/writer/writer.go:233-303 | A row has version 1 if and only if the last write to it created it |
| `Protocol.StampTells` | seaplane-db/internal/writer/writer.go:214-385 | A row carries a transaction's stamp if and only if that transaction was the last of the run to touch it |
| `Watch.PollEqualsList` | seaplane-db/internal/reader/watcher.go:383-462 | A poll that is not refused turns a view that is right below the mark into what List returns on that snapshot |
| `Watch.EventTypesTell` | seaplane-db/internal/reader/watcher.go:439-446 | In every run a relayed row is Deleted if and only if it is a tombstone, Added if and only if it is live and its last write created it, and Modified otherwise |
| `Watch.ListEqualsPollOnlyIfAgrees` | seaplane-db/internal/reader/watcher.go:383-462 | Only such views are made right by a poll |
| `Watch.TrackStep` | seaplane-db/internal/reader/watcher.go:454-459 | Commits in any id order, aborts, revivals and compactions keep every view right below its mark, or make its next poll refuse |
| `Watch.ListTracks` | seaplane-db/internal/reader/list.go:31-107 | A list with its watermark is such a view |
| `Watch.RelistRecoversExactly` | seaplane-db/internal/reader/watcher.go:390-402 | The poll after a relist is not refused if and only if the kind has no horizon or every transaction up to it has finished |
| `Watch.RelistCanBeRefused` | seaplane-db/internal/reader/watcher.go:390-402 | A reachable state in which a list's own watermark is below the horizon, so the poll after a relist is refused again |
| `Watch.StartTracks` | seaplane-db/pgcache.go:256-264 | So is an empty store with mark 0 |
| `Watch.PollTracks` | seaplane-db/internal/reader/watcher.go:454-459 | A poll keeps the watcher tracking from its new mark |
| `Watch.SystemRunKeeps` | seaplane-db/docs/DESIGN.md:24-26 | In every run of the database with any number of watchers all watchers track |
| `Watch.PolledViewIsList` | seaplane-db/internal/reader/watcher.go:383-462 | In every run, after every poll that is not answered with Gone the informer store is List's answer on the same snapshot and the mark is List's watermark |
| `Watch.CompactedObjectForcesRelist` | seaplane-db/docs/DESIGN.md:28 | Invariant I5: an object compacted away under a watcher that still shows it makes that watcher's next poll fail with Gone |
| `Resume.DeliveredOn` | seaplane-db/pgwatch.go:80-112 | What an informer holds per key after events are folded in one by one |
| `Resume.DeliveryIsPollView` | seaplane-db/pgwatch.go:80-112 | Delivering a poll's events in stamp order gives the poll's view |
| `Resume.MarkAtXminLoses` | seaplane-db/internal/reader/watcher.go:454-459 | From a mark at or above xmin some continuation loses an object |
| `Resume.ResumeSafeExactly` | seaplane-db/pgwatch.go:80-88 | A store with a mark converges in every continuation if and only if the horizon already refuses it, or the mark is below xmin and the store is right below it |
| `Resume.ResumeFromHwm` | seaplane-db/internal/reader/watcher.go:343-381 | A new watcher from the old mark, after full deliveries, is always safe |
| `Resume.ResumeFromRelay` | seaplane-db/pgwatch.go:80-88 | After a full delivery the relay's stamped version is safe if and only if it is refused or below the delivering snapshot's xmin |
| `Resume.RelayMarkIsMax` | seaplane-db/pgwatch.go:80-88 | The stamped version is the largest stamp relayed so far |
| `Resume.ResumeMidDeliveryExactly` | seaplane-db/pgwatch.go:80-112 | A watch broken after any number of a poll's events, resumed from any mark, is safe if and only if the horizon refuses the mark, or it is below xmin and every unsent row it passes over was already shown |
| `Resume.ResumeMidDelivery` | seaplane-db/pgwatch.go:80-112 | In particular from the last sent event's own stamp below xmin, if nothing larger was stamped before |
| `Resume.MidDeliveryCanLose` | seaplane-db/internal/reader/watcher.go:343-381 | A run of the system with two polls in which breaking off the second one's delivery loses an object, although the version stamped by the first poll, and the second poll's mark, are below xmin |
| `WatchLoop.Poller.PollAll` | seaplane-db/internal/reader/watcher.go:383-462 | The poll in the form of the code: refusal against the horizon, one event per selected row, and the new mark |
| `WatchLoop.Relay.RelayAll` | seaplane-db/pgwatch.go:58-114 | The relay loop sends each event once, in order, with the reclassified type and the largest stamp so far |
| `WatchLoop.Fold` | seaplane-db/pgwatch.go:90-112 | Folding the sent events is the delivery the theorems speak of |
| `WatchLoop.Cycle` | seaplane-db/pgwatch.go:58-114 | Poll, relay and informer together: refused, or the store is List's answer and the watcher keeps tracking |
| `Database.Store.constructor` | seaplane-db/internal/schema/migrations/001_initial.sql:47-197 | An empty database is the start of every run |
| `Database.Store.Begin` | seaplane-db/internal/writer/writer.go:465-559 | Beginning a write takes the next transaction id |
| `Database.Store.UpsertAndCommit` | seaplane-db/internal/writer/writer.go:214-385 | The three upserts, revival included, store exactly the columns requested, are the commit step of the protocol, or fail and change no row |
| `Database.Store.ExecWrite` | seaplane-db/internal/writer/writer.go:465-559 | A write is suppressed if and only if it is not forced and repeats the content of the row it names, and then leaves everything alone; a written one is one acquired and committed transaction that stores its columns; a failed one changes no row and no horizon |
| `Database.Store.CompactTombstones` | seaplane-db/compaction/compactor.go:23-52 | Deleting row by row and raising horizons is the atomic compaction step |
| `Database.Store.ReadBack` | seaplane-db/internal/writer/writer.go:85-105 | After any history, a row comes back if and only if the transaction did commit to that key and nothing has touched the row since |
| `Database.SuppressedWriteIsNoOp` | seaplane-db/internal/writer/writer.go:465-559 | Content is taken as repeated if and only if the write would change stamp and version only, except that a full write without status always runs |
| `Versions.NothingIsProducedTwice` | seaplane-db/internal/writer/writer.go:233-303 | Over any run no two commits share a stamp and no uid and version pair is produced twice for a key |
| `Versions.CasMatchesOnlyTheRowRead` | seaplane-db/internal/writer/writer.go:233-303 | A CAS with the uid and version of an earlier read matches if and only if the row is unchanged since |
| `Versions.VersionAloneIsNotEnough` | seaplane-db/docs/DESIGN.md:29-31 | From a reachable state, a CAS without the uid can hit a later incarnation |
| `Versions.ReadBackOfCommitted` | seaplane-db/internal/writer/writer.go:541-551 | Reading back a committed transaction finds its row exactly as long as the row is untouched |
| `Versions.ReadBackOfAborted` | seaplane-db/internal/writer/writer.go:85-105 | Reading back a transaction that did not commit never finds a row |
| `Versions.ReadBackOfZero` | seaplane-db/internal/writer/writer.go:173-181 | Reading back with id 0 never finds a row in any run |
| `Versions.WorldStep` | seaplane-db/pgclient.go:121-274 | Every step of any client keeps all rows known from reads and from write responses, and all open update windows, current or overtaken |
| `Versions.WorldRun` | seaplane-db/pgclient.go:121-492 | The same for whole runs, from the empty database on |
| `Versions.UpdateOverwritesWhatWasRead` | seaplane-db/pgclient.go:202-260 | In every run, when the CAS of Update succeeds with a version from a read or a write response, it overwrites the row of that version, which Update read on the way and is no tombstone, with the client's spec and metadata and nothing else |
| `Versions.ClientWritesStore` | seaplane-db/pgclient.go:121-492 | What a create, delete or status update that commits leaves, on the row its uid and version name and on no other |
| `Versions.DeletionIsForEver` | seaplane-db/pgclient.go:187-367 | Once an incarnation carries a deletion timestamp, every later row of that uid does, in every run of any number of clients |
| `Versions.GuessIsSafeExactly` | seaplane-db/pgclient.go:222-260 | Whatever other clients do in between, Update overwrites the deletion timestamp it read if and only if the version it was given is not above that of the row it read |
| `Versions.GuessedVersionCanUndelete` | seaplane-db/pgclient.go:222-260 | From a reachable state, an Update with a larger version removes a deletion timestamp |
| `Decimal.FormatRoundTrip` | seaplane-db/internal/resourceversion/rv.go:17-22 | Decimal text is digits only and reads back as the number |
| `Decimal.FormatParses` | seaplane-db/convert.go:144-159 | Which numbers the signed and unsigned 64-bit parsers recover |
| `ResourceVersion.CompositeParses` | seaplane-db/internal/resourceversion/rv.go:24-58 | The composite form parses into its two parts and is no plain number |
| `ResourceVersion.ParseUndoesString` | seaplane-db/internal/resourceversion/rv.go:17-58 | Parse undoes String if and only if the object version is not negative; the watermark is always recovered |
| `ResourceVersion.ParseExactly` | seaplane-db/internal/resourceversion/rv.go:24-58 | What Parse answers for every text: which are accepted, with which parts, and that all others are refused |
| `ResourceVersion.ObjectVersionExactly` | seaplane-db/convert.go:144-159 | A composite version yields its object version if and only if both parts parse and it is not zero |
| `ResourceVersion.WritersRecoverTheVersion` | seaplane-db/convert.go:144-159 | Writers recover the object version from plain and composite forms, and take a collection version for an object version whenever it fits |
| `Selectors.BuildLabelSelectorFilter` | seaplane-db/labelselector.go:16-100 | The loop over requirements builds the compiled clauses and arguments |
| `Selectors.BuildRequirement` | seaplane-db/labelselector.go:26-97 | So does one requirement |
| `Selectors.BuildMatches` | seaplane-db/labelselector.go:102-108 | The containment documents of a value list and their placeholders, in order |
| `Selectors.IntegersAgree` | seaplane-db/labelselector.go:110-122 | The guarded bigint cast accepts exactly the texts that Kubernetes parses as integers, with the same value |
| `Selectors.RequirementMeans` | seaplane-db/labelselector.go:26-97 | One clause is SQL TRUE if and only if the requirement matches, whatever arguments stand before and after |
| `Selectors.NumericMeans` | seaplane-db/labelselector.go:110-122 | The same for greater-than and less-than |
| `Selectors.SelectorMeans` | seaplane-db/labelselector.go:16-100 | For every selector, row (labels missing too) and start index the clauses are TRUE if and only if the selector matches |
| `Selectors.CompileFailsExactly` | seaplane-db/labelselector.go:30-96 | Compilation fails if and only if some requirement is malformed |
| `Queries.BuildFieldSelectorFilter` | seaplane-db/fieldselector.go:14-30 | The loop over field terms builds the compiled clauses and arguments |
| `Queries.FieldsMean` | seaplane-db/fieldselector.go:12-112 | Those clauses are TRUE if and only if every term holds of the row |
| `Queries.FieldColumnExactly` | seaplane-db/fieldselector.go:57-112 | Which field paths can be selected on, and the column or JSON path of each |
| `Queries.BuildListFilter` | seaplane-db/pgclient.go:637-681 | The namespace, fields, labels, limit and offset of list options, or the error |
| `Queries.AssembleList` | seaplane-db/internal/reader/list.go:53-78 | The assembled query |
| `Queries.ListQueryMeans` | seaplane-db/internal/reader/list.go:53-78 | The assembled query selects exactly the rows the options ask for, and the limit and offset placeholders name the limit and the offset |
| `Queries.ListFailsExactly` | seaplane-db/pgclient.go:637-681 | Building the filter fails if and only if a field term has another operator or path, a label requirement is malformed, or a paged list has an undecodable token |
| `Queries.NoFilterExactly` | seaplane-db/pgclient.go:677-680 | The plain query is used if and only if no option restricts the list |
| `Shards.Validate` | seaplane-db/internal/reader/shard.go:14-32 | Accepts exactly non-empty lists of distinct residues below a positive modulus |
| `Shards.OnePredicate` | seaplane-db/internal/reader/shard.go:34-55 | List and watch apply one ownership predicate in spite of different numbering |
| `Shards.OneResidueEach` | seaplane-db/docs/DESIGN.md:32 | n replicas with one residue each partition the namespaces |
| `Shards.ReplicasPartitionTheView` | seaplane-db/docs/DESIGN.md:32 | Polled at one snapshot, the stores of partitioning replicas are disjoint and together are the unsharded list |
| `Scheduler.RunLoop.constructor` | seaplane-db/internal/reader/watcher.go:110-214 | The first poll arms the baseline timer |
| `Scheduler.RunLoop.OnDoorbell` | seaplane-db/internal/reader/watcher.go:110-214 | A doorbell polls at once or arms the rest of the floor, as the transition function says |
| `Scheduler.RunLoop.OnTimer` | seaplane-db/internal/reader/watcher.go:110-214 | A timer polls and arms the baseline |
| `Scheduler.EveryRun` | seaplane-db/internal/reader/watcher.go:110-214 | However doorbells ring, a pending one is served at last poll plus floor, and between the end of a poll and the start of the next at least the floor goes by |
| `Scheduler.DoorbellsAreHeard` | seaplane-db/internal/reader/watcher.go:143-182 | A doorbell polls at once if and only if the floor has passed since the last poll, and otherwise arms the poll for that moment |
| `Scheduler.NeverDelayedExactly` | seaplane-db/internal/reader/watcher.go:110-214 | Doorbells never delay a poll beyond the baseline if and only if the floor does not exceed it |
| `Principals.SamePrincipalKey` | seaplane-api/pkg/authz/store_attachments.go:71-82 | Equal lookup keys mean the same account and the same role alias or the same ARN |
| `Principals.OriginalTellsKind` | seaplane-api/pkg/authz/arn.go:26-70 | Equal ARN texts are of one kind and account |
| `Principals.OriginalIsInjective` | seaplane-api/pkg/authz/arn.go:26-70 | An accepted principal is determined by its ARN text |
| `Principals.MatchingExactly` | seaplane-api/pkg/authz/arn.go:84-105 | On the parsed ARNs: a role matches exactly the sessions of its account whose role is the last name of its path, and every other attachment matches only the principal it names |
| `Principals.KeysAreMatching` | seaplane-api/pkg/authz/arn.go:98-105 | An attachment's key is among the caller's lookup keys if and only if its principal matches the caller |
| `Principals.LookupKeysAreDistinct` | seaplane-api/pkg/authz/store_resolution.go:34-37 | A session's two lookup keys differ |
| `Attachments.RevisionFindsRecord` | seaplane-api/pkg/authz/store.go:32-35 | A revision condition that holds finds exactly the record that was read |
| `Attachments.InvStep` | seaplane-api/pkg/authz/store_attachments.go:137-213 | Every create, update, delete and policy write keeps each attachment's two copies present and equal |
| `Attachments.CopiesAgreeInEveryRun` | seaplane-api/pkg/authz/store_attachments.go:137-213 | The same for every run of the stores of any accounts in a region, with reads arbitrarily old |
| `Attachments.CreateStoresBothCopies` | seaplane-api/pkg/authz/store_attachments.go:137-182 | A create that commits adds the record under its two keys, which were free, while its policy exists, and changes nothing else |
| `Attachments.UpdateChangesOnlyThePolicy` | seaplane-api/pkg/authz/store_attachments.go:121-133 | An update that commits changes policy and revision of both copies of the record read and no other record |
| `Attachments.DeleteRemovesBothCopies` | seaplane-api/pkg/authz/store_attachments.go:184-213 | A delete that commits removes both copies of the record read and nothing else |
| `Attachments.AttachmentsAreIsolated` | seaplane-api/pkg/authz/store_attachments.go:137-213 | One account's store never changes an attachment of another account |
| `Attachments.PoliciesAreIsolated` | seaplane-api/pkg/authz/store_policies.go:81-122 | Nor a policy of another account or a managed one |
| `Attachments.ManagedPoliciesAreForEver` | seaplane-api/pkg/authz/store_catalog.go:12-36 | In every run a managed policy, once published, is never changed or removed |
| `Attachments.PolicyWriteStores` | seaplane-api/pkg/authz/store_policies.go:81-109 | A policy write that commits stores its content, creating only what was absent and replacing only the revision it expected |
| `Attachments.PolicyDeleteRemoves` | seaplane-api/pkg/authz/store_policies.go:111-122 | A policy delete that commits removes the expected revision and leaves attachments alone |
| `Attachments.PublishAdds` | seaplane-api/pkg/authz/store_catalog.go:12-36 | Publishing adds an absent managed policy and touches nothing else |
| `Attachments.OnlyTheWriterChangesGlobals` | seaplane-api/pkg/authz/store.go:95-101 | Global attachments and custom policies change only in the account's writer region |
| `Screening.AddOne` | seaplane-api/pkg/authz/store_resolution.go:47-66 | One attachment is refused with a witness for the reason, or accepted with the alias and identity books kept |
| `Screening.AddPart` | seaplane-api/pkg/authz/store_resolution.go:47-66 | The same for the attachments of one lookup |
| `Resolution.ReadBindings` | seaplane-api/pkg/authz/store_lookup.go:49-83 | Returns all records of a lookup if and only if every item passes validation |
| `Resolution.DecodedIsReferenced` | seaplane-api/pkg/authz/store_policies.go:37-50 | A policy that decodes under a reference's key is that reference's policy, so a batch never answers with another |
| `Resolution.DistinctRefs` | seaplane-api/pkg/authz/store_resolution.go:90-97 | Every reference of the attachments, each once |
| `Resolution.LoadPolicies` | seaplane-api/pkg/authz/store_resolution.go:84-145 | Over batches of one hundred, the loaded map holds exactly the referenced policies that exist |
| `Resolution.Collect` | seaplane-api/pkg/authz/store_resolution.go:38-68 | The nested loops return everything the lookups found, free of mismatches, ambiguities and duplicates, or a justified refusal |
| `Resolution.WithPolicies` | seaplane-api/pkg/authz/store_resolution.go:69-81 | Each attachment is paired with its own policy, or one is missing |
| `Resolution.ResolveScopes` | seaplane-api/pkg/authz/store_resolution.go:26-82 | A bad identity is refused and only that; otherwise the result describes everything found, all or nothing |
| `Resolution.ResolvedIsSound` | seaplane-api/pkg/authz/store_resolution.go:26-82 | Whatever the tables hold, a success hands out only grants of the account that match the caller, in a requested scope and this region, each with the policy it refers to |
| `Grants.UnderCallersKey` | seaplane-api/pkg/authz/store_lookup.go:67-79 | In a reachable state whatever stands under a caller's key is a matching attachment of the caller's account and passes validation |
| `Grants.LookupFinds` | seaplane-api/pkg/authz/store_attachments.go:168-175 | Every matching attachment of the account stands under one of the caller's keys |
| `Grants.FoundIsGranted` | seaplane-api/pkg/authz/store_resolution.go:41-68 | The lookups find exactly what filtering the account's own listing by scope and principal keeps |
| `Grants.NothingFoundTwice` | seaplane-api/pkg/authz/store_resolution.go:60-64 | No diagnostic identity is found twice, so the duplicate check never refuses |
| `Grants.ReadsAreSound` | seaplane-api/pkg/authz/store_lookup.go:60-82 | In a reachable state validation never refuses a record |
| `Grants.AmbiguousExactly` | seaplane-api/pkg/authz/arn.go:88-96 | The alias check refuses if and only if two grants are roles with one alias and different paths |
| `Grants.ResolvedIsExact` | seaplane-api/pkg/authz/store_resolution.go:26-82 | A success returns every granted attachment once with its stored policy |
| `Grants.RefusedHasCause` | seaplane-api/pkg/authz/store_resolution.go:26-82 | A refusal is caused by an ambiguous role alias or a missing policy among the grants |
| `Grants.ResolveReachable` | seaplane-api/pkg/authz/store_resolution.go:26-145 | In every reachable state resolution succeeds if and only if the grants are unambiguous and their policies exist, and returns exactly the grants |
| `Grants.PrepareDropsNothing` | seaplane-api/pkg/authz/authorizer.go:94-97 | The filter applied again before evaluation drops none of them, and in another region would keep the global ones only |
| `Claims.InvStep` | seaplane-api/pkg/handlers/cluster_claims.go:204-239 | Every claim, release, delete, status update and re-creation keeps the label equal to the claim in force and the record of claims orderly |
| `Claims.InvRun` | seaplane-api/pkg/handlers/cluster_claims.go:204-239 | The same for whole runs, with nothing recorded ever forgotten |
| `Claims.ReleasedBetween` | seaplane-operator/internal/controller/cluster_controller.go:845-862 | Between a landed claim and the next claim on, or API deletion of, the same incarnation its holder released it |
| `Claims.NoClaimAfterDelete` | seaplane-api/pkg/handlers/cluster_claims.go:60-65 | No claim lands on an incarnation after the API deleted it |
| `Claims.ClaimsLandOnReady` | seaplane-api/pkg/handlers/cluster_claims.go:60-65 | A claim lands only on an unclaimed reservation that is ready and not being deleted |
| `Claims.ClaimsAreExclusive` | seaplane-api/pkg/handlers/dnsreservation.go:152-168 | For every interleaving a claim excludes other claims and API deletes until its holder releases it, no claim follows an API delete, the label is the claim in force, and an object deleted through the API carries none |
| `Claims.ReleaseReopens` | seaplane-operator/internal/controller/cluster_controller.go:845-862 | After a release that landed the incarnation is unclaimed |
| `Claims.ClaimResource` | seaplane-api/pkg/handlers/cluster_claims.go:204-239 | Each outcome describes the object when the caller loaded or changed it: claimed means its own label, also when a save that landed was reported as a conflict; a holder is told so unless the object is gone or the claim was released meanwhile; undisturbed, a free and ready reservation gets claimed and an unready one refused; the loop gives up only on an error or after five disturbed attempts |
| `Claims.ReleaseClaim` | seaplane-operator/internal/controller/cluster_controller.go:845-862 | When a release succeeds the cluster's label is off the incarnation; undisturbed, it removes the label once or changes nothing; it gives up only on an error or after five disturbed attempts |
| `Claims.DeleteReservation` | seaplane-api/pkg/handlers/dnsreservation.go:145-191 | An accepted delete is recorded for an incarnation that no cluster holds; a refusal means a claim on the object, not found means its absence; undisturbed, an unclaimed reservation gets deleted; it gives up only on an error or after five disturbed attempts |
| `Preserve.SetPathShape` | seaplane-api/pkg/validation/preserve.go:86-110 | What a write to one path leaves at every path |
| `Preserve.SetPathFails` | seaplane-api/pkg/validation/preserve.go:86-110 | A write fails if and only if something strictly above it is a scalar or an array |
| `Preserve.LoopShape` | seaplane-api/pkg/validation/preserve.go:28-44 | What the loop leaves at every path, as a function of the set of fields only |
| `Preserve.OrderDoesNotMatter` | seaplane-api/pkg/validation/preserve.go:28-44 | Two iteration orders that succeed give the same object |
| `Preserve.RestoredFieldsEqualStored` | seaplane-api/pkg/validation/preserve.go:28-44 | At and below every restored field the result equals the stored object, absence included |
| `Preserve.OtherPathsAreUntouched` | seaplane-api/pkg/validation/preserve.go:28-44 | Paths incomparable to all restored fields keep the candidate's value |
| `Preserve.SecondRunChangesNothing` | seaplane-api/pkg/validation/preserve.go:28-44 | A second run in any order changes nothing |
| `Preserve.EveryOrderSucceedsExactly` | seaplane-api/pkg/validation/preserve.go:86-110 | Every order that visits each field once succeeds if and only if no scalar of the candidate stands above a stored restored field |
| `Preserve.SomeOrderSucceedsExactly` | seaplane-api/pkg/validation/preserve.go:28-44 | Some such order succeeds if and only if every such scalar lies at or below a restored field |
| `Preserve.FlatSucceedsExactly` | seaplane-api/pkg/validation/preserve.go:28-44 | If no restored field lies below another, as in the shipped registry, each order succeeds if and only if no such scalar stands in the way |
| `Preserve.SuccessDependsOnOrder` | seaplane-api/pkg/validation/preserve.go:28-44 | With nested restored fields, an object on which one order succeeds and another fails |
| `Preserve.EffectiveModeExactly` | seaplane-api/pkg/validation/field_validator.go:295-318 | The mode in force, by position: the first override with an enabled gate, else the first without a gate, else the field's own mode |
| `Preserve.EffectiveWriteMode` | seaplane-api/pkg/validation/field_validator.go:295-318 | The two passes find that mode |
| `Preserve.PreserveServiceSet` | seaplane-api/pkg/validation/preserve.go:18-57 | After a success every registered field whose mode in force is service-set and that has no customer field below holds the stored value or absence, every path away from all of them is the candidate's, and a change is reported if and only if there is one |
| `Preserve.RestoredOfElements` | seaplane-api/pkg/validation/field_validator.go:232-243 | Which registered fields the loop restores, in any order |
| `Preserve.CustomerFieldsAreNotBelowRestored` | seaplane-api/pkg/validation/field_validator.go:232-243 | No customer-visible field lies at or below a restored one |
| `Preserve.PreserveIsDeterministic` | seaplane-api/pkg/validation/preserve.go:18-57 | Two successful calls under any map order leave the same object |
| `Limiter.LocalLimiter.constructor` | seaplane-api/pkg/ratelimit/local.go:61-63 | No key has an entry at first |
| `Limiter.LocalLimiter.Allow` | seaplane-api/pkg/ratelimit/local.go:65-115 | Answers 1 if and only if the time has come for the next request under interval and burst, else 0, with the waiting times of each case; stores the next arrival time of an allowed key, drops expired entries and touches no other |
| `Limiter.LocalLimiter.Cleanup` | seaplane-api/pkg/ratelimit/local.go:117-123 | Removes exactly the expired entries |
| `Limiter.CleanupDropsOnlyExpired` | seaplane-api/pkg/ratelimit/local.go:117-123 | Over any run the cleaned table lacks only entries that have expired |
| `Limiter.CleanupIsInvisible` | seaplane-api/pkg/ratelimit/local.go:117-123 | With a clock that does not go back, cleanup changes no answer |
| `Limiter.ArrivalTimeGrows` | seaplane-api/pkg/ratelimit/local.go:65-115 | A key's arrival time has moved by an interval for every request allowed since |
| `Limiter.RateIsKept` | seaplane-api/pkg/ratelimit/local.go:65-115 | In any run n requests of a key answered 1 fit the elapsed time plus the burst, in intervals of period by rate, with other keys and cleanup in between |
| `Limiter.RetryAfterIsExact` | seaplane-api/pkg/ratelimit/local.go:65-115 | RetryAfter is the exact earliest time of the next success if and only if the burst is at least one |
| `Limiter.RemainingIsExact` | seaplane-api/pkg/ratelimit/local.go:65-115 | Exactly Remaining more requests pass at the same instant |
| `Limiter.ResetAfterIsExact` | seaplane-api/pkg/ratelimit/local.go:65-115 | After allowed and rejected requests alike, the key is treated like one never seen from ResetAfter on and not before |
| `Cidr.IntersectIsSharing` | seaplane-api/pkg/validation/network_cidr_validator.go:308-313 | Testing the two network addresses decides whether two networks share any address, IPv4-mapped ones included |
| `Cidr.ContainsIsRange` | seaplane-api/pkg/validation/network_cidr_validator.go:245-275 | The addresses of an accepted network are the consecutive ones from its address on, as many as its host bits allow, in its family |
| `Cidr.EntryValidExactly` | seaplane-api/pkg/validation/network_cidr_validator.go:100-127 | Which entries are accepted on their own, with the limits 24, 21, 23 to 26 and five bits of nodes |
| `Cidr.ValidateHostPrefix` | seaplane-api/pkg/validation/network_cidr_validator.go:100-127 | Reports nothing if and only if the host prefix is unset or in range with enough nodes |
| `Cidr.ParseList` | seaplane-api/pkg/validation/network_cidr_validator.go:56-98 | Keeps the accepted networks in order, and reports nothing if and only if every given entry is valid |
| `Cidr.OverlapsBetween` | seaplane-api/pkg/validation/network_cidr_validator.go:132-166 | Reports nothing if and only if no network of one list shares an address with one of the other |
| `Cidr.OverlapsWithin` | seaplane-api/pkg/validation/network_cidr_validator.go:168-202 | The same for the pairs of one list |
| `Cidr.ValidateNetworkOverlaps` | seaplane-api/pkg/validation/network_cidr_validator.go:129-205 | Reports nothing if and only if all networks of all lists are pairwise disjoint |
| `Cidr.ReservedIn` | seaplane-api/pkg/validation/network_cidr_validator.go:207-243 | Reports nothing if and only if no network holds the reserved address |
| `Cidr.ChecksMeanApart` | seaplane-api/pkg/validation/network_cidr_validator.go:56-98 | On valid entries the checks made of the accepted networks are checks of the entries themselves, none left out |
| `Cidr.ValidateNetworkCIDRs` | seaplane-api/pkg/validation/network_cidr_validator.go:36-54 | Reports nothing if and only if every entry is valid, no two given networks share an address and none holds 172.20.0.1 |
| `Cidr.NodeSubnetsAreDisjoint` | seaplane-api/pkg/validation/network_cidr_validator.go:114-124 | Node subnets of one pod network share no address |
| `Cidr.PodNetworkHoldsEnoughNodes` | seaplane-api/pkg/validation/network_cidr_validator.go:100-127 | An accepted pod network with a host prefix contains at least 32 disjoint node subnets |

## Left out

- Connections, pools, LISTEN reconnection, goroutines and channels, except as the atomic steps above; metrics and logging.
- `created_at`, `updated_at` and the retention clock: compaction may delete any set of tombstones.
- SQL and JSON as text: clauses are syntax trees with placeholders, spec, status and metadata are abstract values, finalizers are given as SQL and as Go's decoder see them.
- The stored procedure `pgctl_write` as a second writer: the multi-statement writes define a write.
- A revival whose tombstone is compacted between the INSERT and the UPDATE of one transaction; the code then reports AlreadyExists and writes nothing.
- Transaction id wrap-around, failover and restore from backup.
- Field-selector `!=`, and `=` with an empty value, on paths that are missing: SQL NULL excludes the row, and no equivalence with Kubernetes' empty default is stated there.
- OIDC configuration claims: readiness does not look at the deletion timestamp, so the exclusion is stated for DNS reservations only.
- Replication of the global attachment table to other regions: the tables of one region are modelled, and a replica may see the two copies of a record at different times.
- The Cedar language, policy templates and evaluation, and the check of policy content before a write.
- DynamoDB paging and retries: a query answers with all items of a key; unprocessed batch keys and backend errors are not modelled.
- ARN text parsing: principals are given in parsed form with the accepted names, and their texts are rebuilt from it.
- UUID text: revisions and ids are fresh strings, and the revision attribute of an item is the revision of its record.
- Sharing of JSON subtrees between candidate and stored object in `PreserveServiceSet`: the model works on values; `Preserve.SecondRunChangesNothing` shows that nothing below a restored field is written again.
- 64-bit overflow of durations in the limiter, and the Redis limiter.
- CIDR text: entries are given as the parser returns them. Which message and field a validation error names is not stated.
- Operators other than the release of a claim, HTTP handlers other than the two retry loops, server wiring, configuration and generated types.
- Limiter.LocalLimiter.Allow: requires a positive rate and an emission interval of at least one nanosecond, because the code divides by zero otherwise.
- Scheduler.EveryRun: is stated for a floor within the baseline; `Scheduler.NeverDelayedExactly` says what happens otherwise.
