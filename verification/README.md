# Verified model of subzero

subzero is a Nostr relay. This project models the parts of it that decide which events reach whom, and proves what
they promise:

* **Event matching.** Filters become routing keys, keys lead to bitmaps of value hashes, and the union of an event's
  bitmaps is a prefilter for the exact match. `Routing`, `RoutingComplete` and `RoutingExact` treat the keys,
  `Bitmaps`, `Matcher` and `Storage` the sharded mutable index with its recycled bitmaps, `Interleaving` and
  `Schedules` its lock sections under concurrency.
  The index is proved to be a linear scan, and the filters for which it loses nothing are characterised exactly;
  `FilterMeaning` says what kinds and authors match.
* **Live subscriptions.** `Links`, `Addresses`, `LatestBuffer`, `Subscription`, `GoLive`, `SplitBroadcast` and
  `GiftWrap`: linking and unlinking, whom an event is broadcast to, which events an address tells apart, buffering while
  stored events are streamed, going live, the flush, what is lost when a broadcast's check and push are interleaved with
  it, and the paging loop for gift wraps.
* **The WHERE generator.** `BooleanSyntax`, `FilterSql`, `Conditions`, `WhereClauses`, `WhereBuilder` and `WhereText`:
  SQL is appended to one buffer, with connectives chosen by peeking at its end. Every token list it writes is proved to
  be one boolean expression over its conditions, with every parameter bound, that means what the filters ask. `EventRows`
  and `EventColumns` say how an event is stored; `KindClause`, `EntryReadings`, `EntryDiffers` and `DatabaseAgrees`
  compare the database's reading of a filter with the in-memory one; `RequestMeaning` says what a filter selects.
* **Access rules.** `AttestationString`, `AttestationWords` and `Attestation` (which device may act for a user, and
  when), `Community`, `LatestPatch`, `CommunityRoles`, `CommunityFlags`, `CommunityNames`, `CommunityAccepted`,
  `CommunityModerators` and `CommunityReserved` (a community definition folded with its patches).
* **Transformations and registries.** `Splice` and `SpliceText` (overrides of an event's content), `SystemId` (the tag
  part of a digest), `Relays` (relay deduplication), `Devices` and `DeviceNames` (the push-notification registry),
  `TagTable` (tag validation), `Dedup`.

Where the source updates state in place the model has classes, arrays and loops, and each method is proved against a
specification; the lemmas say what that specification is worth. Where a promise does not hold on all inputs, there is
a lemma with an input that shows it and, as a rule, one with the exact condition.

`dafny verify dfyconfig.toml` checks the whole project.

## Assumptions

* `filter.MatchesTags` and the tag maps of the Nostr library are not part of the repository. Alternatives are ORed,
  every position that is given must be equal, and names are ANDed, as `database/query/query_where_builder.go:412-431`
  reads them; `All` lists the non-nil values of every alternative, and an alternative is empty when it gives no value.
* The library's tag search takes its last element as a prefix, `GetD` is the first `d` tag with a value, and
  `AppendUnique` compares key and value.
* A value hash identifies the stored value; a second value with the same hash replaces the first. Hashes of device
  keys, and of connection and subscription names, do not collide, and an event ID determines the event.
* Columns compared without a null test are not null. The triggers that fill the tables are read as the functions of
  `EventRows`. Whether a row is hidden or deleted, which event it references and whether it is like the search text come
  with the row; so do the tags of a repost's content, when that is an event.
* Keys and event IDs contain no colon.
* In `Interleaving` writers of one hash take turns; `Schedules` says exactly which other orders are right. In `GoLive` a broadcast is one step;
  `SplitBroadcast` takes its check and its push apart, as the source does.
* Timestamps are integers; conversions between precisions are order-preserving, and reading one from a tag belongs to the
  library.
* The fold of community patches indexes the relay and role of `p` tags; validation gives every `p` tag of a definition
  or patch four fields (`validation/validation_icip_3000.go:24-29`) and names nobody twice
  (`validation/validate.go:604-610`). `CommunityAccepted` states the fold's promises for accepted events;
  `CommunityRoles.DisagreementLoses` and `RoutingExact.PseudoKindLoses` concern events that validation refuses
  (`validation/validate.go:397` bounds kinds).
* URL parsing, case folding, hashing, JSON, clocks, the recording of price-change subscribers and the membership of
  communities are parameters.

## Model

| member | source | states |
|---|---|---|
| FilterMatch.FilterMatchAuthors | model/filter.go:28-46 | the early-return loop answers true exactly when some listed author is the signer, the master key, or, being one of the connected user's keys, stands for an event either key owns |
| FilterMatch.FilterMatchKind | model/filter.go:48-82 | the loop answers true exactly when some listed kind accepts the event (itself, or as a repost of the kind in its first k tag) before any negative entry excludes it; an empty list accepts all |
| FilterMatch.FilterMatchesLoop | model/filter.go:84-125 | one filter matches exactly when every field that is present matches; nil and empty fields differ |
| FilterMatch.FiltersMatchLoop | model/filter.go:127-137 | a list matches exactly when it is empty or one of its filters matches |
| Strconv.AtoiItoa | model/filter.go:48-82 | parsing a printed number gives it back on the whole 64-bit range, which is what lets kinds be compared as text on one side and as numbers on the other |
| Strconv.AtoiSigned | model/filter.go:69-75 | a plus sign is read past, and a sign alone is no number |
| FilterMeaning.RepostFilterExactly | model/filter.go:48-82 | each of the four pseudo-kinds asks for generic reposts whose first k tag names its own kind |
| FilterMeaning.PlainKindExactly | model/filter.go:48-82 | other events are matched by their kind, if it is listed with no exclusion of it before |
| FilterMeaning.AuthorsExactly | model/filter.go:28-46 | authors match what they signed or own, each of the user's keys also what is the other's |
| Routing.TagKey | event-matcher/event.go:10-62 | the routing dimension and value of one tag, for exactly the tag names the index tracks |
| Routing.ParseEvent | event-matcher/event.go:10-62 | the keys emitted for an event are exactly the catch-all, kind-only, target-only and kind-and-target combinations of its kind, authors and tracked tags |
| Routing.CollectTargets | event-matcher/filter.go:32-145 | the targets collected from a filter are exactly its authors and the routable positions of its tracked tag alternatives, counted with repetition |
| Routing.HasSpecialKinds | event-matcher/filter.go:20-30 | answers whether any listed kind is negative or a repost pseudo-kind |
| Routing.OrdinaryKindsUnchanged | event-matcher/filter.go:20-30 | without special kinds the slow kind rewriting changes nothing, so the early exit of the source is sound |
| Routing.RoutedKindsMembers | event-matcher/filter.go:32-145 | a kind is routed by exactly when it is listed, not negative and no pseudo-kind, or is 16 and some pseudo-kind is listed |
| Routing.RouteKinds | event-matcher/filter.go:32-145 | negative kinds are dropped, the first pseudo-kind becomes the generic repost and further ones go, the rest stays in order; it is told whether a negative kind was seen |
| Routing.AddFilterKeys | event-matcher/filter.go:32-145 | the keys of one filter are the product of its routed kinds and targets, or the broad keys past 100 combinations, added to the keys already there |
| Routing.ParseFilters | event-matcher/filter.go:32-145 | the keys of a list are, without repetition, exactly those of its filters, and the catch-all key for an empty list |
| RoutingComplete.HitExactly | event-matcher/filter.go:32-145 | for a matching filter the key sets meet exactly when the filter lists a negative kind, yields no target, or shares a target with the event |
| RoutingComplete.FilterComplete | event-matcher/filter.go:32-145 | a matching filter that is covered shares a routing key with the event |
| RoutingComplete.RoutingLosesNothing | event-matcher/filter.go:32-145 | completeness of the prefilter: if a covered filter list matches an event of a plain kind, the key sets of the two parsers intersect, through negative kinds, repost pseudo-kinds and the 100-combination cut-off |
| RoutingComplete.WellFormedIsCovered | event-matcher/filter.go:32-145 | filters whose tracked tag names are uniformly routable, and whose authors list both of the user's keys or neither, are covered |
| RoutingExact.UncoveredLoses | event-matcher/filter.go:32-145 | a filter that constrains only IDs, time, kinds, authors and tags other than b, and is not covered, loses some event: one it matches and shares no key with is constructed, a generic repost when it lists repost pseudo-kinds only |
| RoutingExact.EvasiveKTag | model/filter.go:71-75 | whatever k values a filter lists, a repost can name its kind in yet another decimal form, which parses to it and is none of the filter's targets |
| RoutingExact.LosslessExactly | event-matcher/filter.go:32-145 | for every such filter: no matching event is ever lost if and only if the filter is covered, a condition on the filter and the user alone |
| RoutingExact.PseudoKindLoses | event-matcher/event.go:10-62 | on an event that validation would refuse, its kind being a repost pseudo-kind above 65535: it matches a filter for that kind and shares no key with it, which is why completeness speaks of plain kinds |
| IndexAlgebra.RemovalAgrees | event-matcher/matcher.go:110-128 | unbinding all keys of a removed entry keeps the invariant that a hash stands under a key exactly when the key is among its entry's routing keys |
| IndexAlgebra.InsertionAgrees | event-matcher/matcher.go:82-108 | binding all keys of a new entry keeps that invariant |
| IndexAlgebra.InsertRemoveRestores | event-matcher/matcher.go:82-140 | inserting an entry and removing it again gives back the very index there was before |
| Bitmaps.Pool.constructor | pool/pool.go:44-72 | a new pool holds as many distinct fresh bitmaps as its capacity when it is pre-filled, and none otherwise |
| Bitmaps.Pool.Get | pool/pool.go:74-86 | what is borrowed is empty and held by the pool no longer |
| Bitmaps.Pool.Put | pool/pool.go:89-95 | what is returned is kept while there is room and dropped otherwise; it is cleared when it is borrowed again |
| Bitmaps.Bitmap.Iterate | event-matcher/matcher.go:172-201 | iteration yields the members in ascending order, each once |
| Matcher.Matcher.constructor | event-matcher/matcher.go:64-79 | a new shard is valid and stores nothing |
| Matcher.Matcher.Index | event-matcher/matcher.go:82-108 | storing a value replaces whatever was stored under its hash, and keeps the index, the values and the ownership of every bitmap valid |
| Matcher.Matcher.RemoveEntry | event-matcher/matcher.go:110-128 | unbinding an entry's keys takes its hash from exactly those keys and drops the keys it empties; every bitmap still has one owner, the index or the pool |
| Matcher.Matcher.RemoveByHash | event-matcher/matcher.go:131-140 | removal returns what was stored under the hash and leaves the rest of the store as it was |
| Matcher.Matcher.CandidateExactly | event-matcher/matcher.go:172-201 | a hash is in the union of the event's bitmaps exactly when the filters it was stored with share a key with the event |
| Matcher.Matcher.Snapshot | event-matcher/matcher.go:172-201 | the union taken under the lock holds exactly the stored hashes whose filters share a key with the event |
| Matcher.Matcher.Deliver | event-matcher/matcher.go:172-201 | values are handed over in order until the consumer declines one |
| Matcher.Matcher.Lookup | event-matcher/matcher.go:172-201 | a shard yields the candidates' values in order of hash, up to and including the first the consumer declines; the store stays as it was |
| Matcher.Matcher.Size | event-matcher/matcher.go:149-151 | the size is the number of stored hashes |
| Matcher.TakenIsPrefix | event-matcher/storage.go:62-77 | an early-stopped lookup yields a prefix of the full one, and all of it if it is never stopped |
| Matcher.TakenConcat | event-matcher/storage.go:62-77 | consuming one shard after another is consuming their concatenation: a consumer that stopped in one shard gets nothing from the next |
| Storage.IndexRefinesScan | event-matcher/storage.go:62-77 | the index refines a linear scan: with covered filters the candidates that pass the exact match are the matching stored values, in the same order |
| Storage.ScanIsExact | event-matcher/storage.go:62-77 | the scan holds every stored value whose filters match, each exactly once, and nothing else |
| Storage.MatcherStorage.constructor | event-matcher/storage.go:20-32 | with no number given there is one shard per processor, four at most; shards share no object |
| Storage.MatcherStorage.Index | event-matcher/storage.go:39-41 | stores the value under its hash in the one shard the hash falls to; all other shards, and every other stored value, stay as they were |
| Storage.MatcherStorage.Remove | event-matcher/storage.go:44-46 | answers whether the value's hash was stored, and it is stored no longer |
| Storage.MatcherStorage.RemoveByHash | event-matcher/storage.go:49-51 | returns the value stored under the hash, if any, and removes exactly it |
| Storage.MatcherStorage.Size | event-matcher/storage.go:54-59 | the sum over shards is the number of stored values |
| Storage.MatcherStorage.Lookup | event-matcher/storage.go:62-77 | yields what the shards offer, shard after shard, as far as the consumer takes it |
| Storage.MatcherStorage.LookupMatching | push-notifications/pushnotifications.go:948-975 | a lookup re-checked by the exact match equals the linear scan of everything stored, when the stored filters are covered |
| Storage.AfterIsLast | event-matcher/matcher.go:82-140 | after any sequence of operations a hash holds what the last operation on it stored, and nothing if that removed it |
| Storage.Replay | event-matcher/storage.go:20-51 | every run of operations reaches a valid storage whose contents are those of the run |
| Interleaving.StepKeepsInv | event-matcher/matcher.go:82-201 | with writers of one hash taking turns, every lock section of every operation, in any interleaving, keeps the index bound to what the values and the writers in progress account for |
| Interleaving.RunKeepsInv | event-matcher/matcher.go:82-201 | so it holds in every reachable state |
| Interleaving.QuiescentAgrees | event-matcher/matcher.go:91-107 | in every reachable state without a writer in progress the index agrees with the values exactly |
| Interleaving.NoStaleYield | event-matcher/matcher.go:180-200 | a lookup never yields a value that was removed, and not stored again, before it loads that value |
| Interleaving.UntouchedIsYielded | event-matcher/matcher.go:172-201 | a value that no write touches during a lookup, and whose keys the event hits, is yielded by the time the lookup has nothing left to load |
| Interleaving.YieldsInOrder | event-matcher/matcher.go:180-200 | in every reachable state every lookup has yielded in strictly ascending order of hash, so nothing twice |
| Schedules.ScheduleExactly | event-matcher/matcher.go:82-140 | among writers that may begin at any time: all runs of one schedule, whatever keys their stores carry, end with the index right for a hash if and only if no store's keys were unbound before they were bound and, if the hash is stored, its keys were bound after all that was unbound |
| Schedules.TurnsSuffice | event-matcher/matcher.go:82-140 | derived from it: where a write begins only while no other is at work on its hash, the sections come in that order and the index agrees with the values exactly whenever nobody is at work |
| Schedules.UnserialisedWriterLeaks | event-matcher/matcher.go:91-107 | a schedule out of order, a deletion between another writer's store and its binding, ends with nobody at work and the hash indexed for good with no value behind it |
| Subscription.Subscription.Push | model/subscription.go:52-70 | a pushed event takes the place of the buffered event of the same address, or the end of the buffer; the address map keeps pointing at the right places; said of the events, it is there afterwards with exactly those that it is no version of |
| Subscription.Subscription.GetPending | model/subscription.go:80-88 | hands out the buffer and leaves it and the address map empty |
| Subscription.Subscription.SetLive | model/subscription.go:76-78 | turns the subscription live and changes nothing else |
| Addresses.SameAddressExactly | model/event.go:225-235 | two events have one address if and only if they are of one addressable kind, owner and d value, of one replaceable kind and owner, or, being neither, have one ID; owner and d value being those of the first b tag and the first d tag with a value |
| Addresses.AddressFilterExactly | model/filter.go:84-93 | a filter that names an address of an addressable kind matches its kind, owner and d value and nothing else |
| Addresses.BufferExactly | model/subscription.go:52-70 | the buffer holds exactly the pushed events that no later one is a version of |
| Addresses.TwoArticlesStay | model/subscription.go:60-70 | two articles of different d values are both in the buffer, in order |
| LatestBuffer.BufferHoldsLatest | model/subscription.go:52-70 | after any pushes the buffer lists the addresses in the order they were first pushed, each with the last event pushed for it |
| LatestBuffer.PushedOrReplaced | model/subscription.go:52-70 | every pushed event is in the buffer unless a later one of its address is |
| LatestBuffer.PushCorresponds | model/subscription.go:52-70 | the address map and the pending list stay in one-to-one correspondence |
| LatestBuffer.Push | model/subscription.go:52-70 | the two-branch push computes that buffer and that map |
| GoLive.RunExactly | server/ws/subscriptions.go:331-406 | what any legal run has written is exactly the stored events it streamed, then the buffer of the events forwarded before going live, then the events forwarded after, in order |
| GoLive.NoLoss | server/ws/subscriptions.go:362-406 | after the flush every forwarded event broadcast since linking was written, or an event of the same address broadcast later was |
| GoLive.NoSubjectIsLost | model/subscription.go:52-70 | said of the events: only a later version of the same kind, owner and d value takes the place of a deliverable broadcast |
| GoLive.NothingInvented | server/ws/subscriptions.go:331-406 | nothing is written that was not stored or broadcast |
| GoLive.BroadcastNewEvent | server/ws/subscriptions.go:456-483 | the broadcast loop's body on the real subscription and writer is the Broadcast step of that state machine |
| GoLive.StreamEventsBuffered | server/ws/subscriptions.go:331-360 | the flush on the real subscription and writer is the Flush step |
| SplitBroadcast.NoLossExactly | server/ws/subscriptions.go:456-483 | with the check of the live flag and the push as two steps, and the flush as taking the buffer and writing it event by event, in any interleaving of any number of broadcasts: once everything has landed and the buffer is written, every broadcast due was written or replaced by a later push that was, if and only if no push landed after the buffer was taken |
| SplitBroadcast.RunKeepsInv | model/subscription.go:52-88 | in every reachable interleaving the buffer holds the latest push of each address since it was last taken, what was taken is written in order, and every broadcast that saw the flag set is written when it lands |
| SplitBroadcast.NothingSentUnchecked | server/ws/subscriptions.go:456-483 | in every interleaving only broadcasts that passed the forwarding test are sent |
| SplitBroadcast.StoredComeFirst | server/ws/subscriptions.go:362-406 | in every interleaving the stored events the reducer lets in are written first, in order, and whatever follows was broadcast |
| SplitBroadcast.ShortestLoss | server/ws/subscriptions.go:399-406 | the shortest run that loses one: the broadcast reads the flag, the handler sets it and takes the empty buffer, the broadcast pushes |
| SplitBroadcast.LandBroadcast | server/ws/subscriptions.go:463-481 | what follows the check, on the real subscription and writer, is the landing step |
| Links.Handler.LinkSubscription | server/ws/subscriptions.go:121-132 | a subscription that is not one-shot replaces its connection's former one of the same ID, in the index and in what the connection remembers alike |
| Links.Handler.UnlinkSubscription | server/ws/subscriptions.go:146-158 | ends exactly the named subscription and answers whether there was one |
| Links.Handler.UnlinkConnection | server/ws/subscriptions.go:134-145 | a closing connection ends all its subscriptions and nobody else's |
| Links.CanForwardEvent | server/ws/subscriptions.go:51-79 | an event is forwarded to a connection exactly when the connection is not restricted to other kinds and, if the event is a gift wrap, some p tag encrypts it for the user's own device |
| Links.CanForwardCommunityEvent | server/ws/subscriptions.go:81-106 | a post of a community is forwarded exactly when its definition is known and, if the community is private, the user belongs to it and is not banned |
| Links.Handler.Targets | server/ws/subscriptions.go:450-483 | an event goes to no subscription twice, to none whose filters do not match it for the user of its own connection or to which it may not be forwarded, and to every one that wants it and whose filters are covered |
| Links.ForwardExactly | server/ws/subscriptions.go:51-79 | an event reaches a connection of unrestricted kinds or of its kind, and a gift wrap only a device that a p tag names alone, or in its fourth field after its master key in the second |
| Links.GiftWrapReaches | server/ws/subscriptions.go:72-75 | a gift wrap for a master key and a device reaches the connections of that device and no others |
| Links.CommunityPostReaches | server/ws/subscriptions.go:81-105 | a post in the community of its first h tag reaches members that are not banned when the definition carries a private tag, everybody when it does not, nobody when there is no definition |
| Links.OwnPostsAreWanted | server/ws/subscriptions.go:51-79 | a subscription to its own user wants the posts of the user's other device |
| GiftWrap.StreamGiftWraps | server/ws/subscriptions.go:187-229 | when fewer than the limit of matching events share any timestamp the inclusive-until loop ends, and has written every matching event in range at least once and nothing else |
| GiftWrap.EndsExactly | server/ws/subscriptions.go:187-229 | for every store and every page source: the loop ends if and only if no timestamp has as many matching events as a page |
| GiftWrap.CrowdedNeverEnds | server/ws/subscriptions.go:187-229 | with such a timestamp the loop fetches the same page for ever |
| Text.SplitJoin | model/onbehalf.go:40-74 | splitting inverts joining when no part contains the separator |
| AttestationString.ParseRender | model/onbehalf.go:40-74 | an attestation written out parses back to its action, timestamp and kinds |
| AttestationWords.ActiveGrants | model/onbehalf.go:103-115 | a tag that reads active:<time>:<kinds> for a device grants it exactly those kinds, all if none are given, from that time on, attestations excepted |
| AttestationWords.InactiveEnds | model/onbehalf.go:103-115 | a later inactive:<time> ends that after its time |
| AttestationWords.RevokedEnds | model/onbehalf.go:103-115 | a later revoked:<time> ends it from its time on |
| Attestation.AcceptedInWords | validation/validation_icip_2000.go:43-82 | what passes validation is what is in order in words: p tags of four fields for other devices, words active, inactive and revoked, each device's following one another in time |
| Attestation.GrantedInWords | model/onbehalf.go:140-172 | and what is granted is what the last active tag of the device grants, up to the inactive and revoked tags after it |
| Attestation.OtherWordIsUnknown | validation/validation_icip_2000.go:43-82 | any other word after tags in order is the first fault, an unknown action |
| Attestation.ValidateAttestationEvent | validation/validation_icip_2000.go:43-82 | the single pass with its map of states accepts exactly the tag lists in which every device's own actions form a path of the transition graph with times that never decrease, which is to be in order in words; and names the first fault otherwise |
| Attestation.AcceptedStep | validation/validation_icip_2000.go:43-82 | one more tag keeps a list acceptable exactly when it has no fault against the device's own history |
| Attestation.AcceptedPrefix | validation/validation_icip_2000.go:43-82 | every prefix of an acceptable list is acceptable |
| Attestation.ParseAttestationTags | model/onbehalf.go:76-119 | the records hold, for each device that acted, the replay of its own actions; one unreadable tag spoils the list |
| Attestation.EntryDecides | model/onbehalf.go:135-164 | on a well-formed history the record's three timestamps decide access exactly as the latest activation, its end and the revocation say, at every time |
| Attestation.DecisionReadsLatest | model/onbehalf.go:135-164 | for every validated tag list, device, kind and time: access is allowed exactly when the device's latest activation has begun, permits the kind, has not ended before and is not revoked; earlier activations count for nothing |
| Attestation.DecisionIsReplayExactly | model/onbehalf.go:135-164 | for every validated tag list, device and time: the decision is, for all kinds, the replay of the device's actions up to that time if and only if the time lies in no activation that ended before the latest began and is not the second of the latest deactivation |
| Attestation.FirstPeriodIsForgotten | model/onbehalf.go:107-111 | a validated history, active at 10, inactive at 20, active again at 30: asked about 15, when the device was active, the decision is that it is not active yet |
| Attestation.LastActionDecides | model/onbehalf.go:135-164 | strictly after the device's last timestamp, access is allowed exactly when its last action is active, the kind is permitted and is not the attestation kind |
| Attestation.DeactivationIsInclusive | model/onbehalf.go:135-164 | at the very second of a deactivation access is still allowed: why the previous statement says strictly after |
| Attestation.OtherDevicesAreIrrelevant | model/onbehalf.go:135-164 | lists that agree on one device's actions decide alike for that device |
| Attestation.RevokedForGood | validation/validation_icip_2000.go:18-82 | once revoked at t, no validated extension of the list ever allows that device at any time from t on |
| Attestation.OnBehalfIsAccessAllowed | model/onbehalf.go:166-173 | on every validated list the composed check parses and answers as the words of the tags grant, by the latest activation, and so by the replay at every time that is neither in an earlier activation nor the second of the latest deactivation; a past time is asked for at storage/global.go:562 |
| Community.ApplyChangeCommunityPatch | validation/validation_icip_4000.go:370-449 | the loops compute the fold of the patches, in time order and stable on ties, over the definition's tags; without patches the definition is untouched; only tags of users whom a patch names need four fields |
| Community.ApplyPTag | validation/validation_icip_4000.go:370-439 | the loop over a snapshot that removes and appends computes the same tags as its specification, removals of equal tags included |
| CommunityRoles.PersonStep | validation/validation_icip_4000.go:370-449 | exactly what one p tag does to a user's tags: as many as differ from it go, from the front, and as many copies of it, at least one, come at the end |
| CommunityRoles.PersonWins | validation/validation_icip_4000.go:370-439 | if a user's tags agree among themselves, afterwards they all say what the patch says |
| CommunityRoles.PersonWinsExactly | validation/validation_icip_4000.go:370-439 | for every tag list: the role read for the user afterwards is the patch's if and only if, once as many tags as differ are dropped from the front, none of the user's old tags is left or the first left already has that role |
| CommunityRoles.DisagreementLoses | validation/validation_icip_4000.go:370-439 | on tags that validation would refuse, since they name one user twice: with two disagreeing tags a patch can leave an old role in force, which is why the statements above ask for agreement |
| CommunityRoles.LastInOrderIsLatest | validation/validation_icip_4000.go:370-439 | the last patch in the fold's order that names a user is the latest one in time, the later in the list on ties |
| CommunityRoles.RoleIsLatest | model/communities.go:18-33 | last writer wins on every definition whose tags of the user agree: a user who is not the owner has, after the fold, the role given by the latest patch that names them |
| CommunityRoles.RoleIfUnnamed | model/communities.go:18-33 | a user no patch names keeps the definition's role |
| CommunityRoles.OwnerIsFirst | model/communities.go:18-33 | the owner after the fold is the one of the definition's own b tag, which patches do not change; without it, the one of the first b tag any patch brings, in time order; without any, the signer |
| CommunityRoles.OthersAccumulate | validation/validation_icip_4000.go:370-439 | tags the fold does not treat specially accumulate in order |
| CommunityNames.NameIsLatest | validation/validation_icip_4000.go:408-417 | after the fold there is one name and one description, the last of the latest patch that carries any, from a definition with at most one and genuine tag names |
| CommunityNames.NameIfUncarried | validation/validation_icip_4000.go:408-417 | and the definition's where no patch carries any |
| CommunityNames.NameExactly | validation/validation_icip_4000.go:408-417 | the last name of a patch is the one that is read, whatever is patched, if and only if the definition carries at most one |
| CommunityNames.AcceptedNameIsLatest | validation/validation_icip_4000.go:408-417 | so an accepted community with at most one name is renamed by the latest accepted patch that names it |
| CommunityNames.CommunityStays | validation/validation_icip_4000.go:430-433 | no patch changes the h tags, that is, which community the definition is of |
| CommunityFlags.LastFlagWins | validation/validation_icip_4000.go:370-439 | where no tag name properly extends a flag's, which the library's prefix search would take for it: of a pair (public/private, open/closed) one tag at most survives the fold, and it is the last one set, from a definition with at most one |
| CommunityFlags.PairExactly | validation/validation_icip_4000.go:370-439 | under the same premise on names: a pair stays exclusive under every patch if and only if the definition carries at most one tag of it |
| CommunityFlags.CrowdedPairBreaks | validation/validation_icip_4000.go:370-449 | under the same premise on names: a definition with two tags of a pair can be patched into showing both flags |
| CommunityAccepted.AcceptedRoleIsLatest | validation/validate.go:604-610 | for every accepted definition and all accepted patches, with no further hypothesis: a user who is not the owner has, after the fold, the role that the latest patch naming them gives; validation names nobody twice and gives every p tag four fields |
| CommunityAccepted.AcceptedRoleIfUnnamed | validation/validate.go:604-610 | and a user no accepted patch names keeps the definition's role |
| CommunityModerators.PatchKeepsGivenAdmins | validation/validation_icip_3000.go:66-82 | a patch a moderator may make, whatever its timestamp, gives nobody an admin's p tag and takes it from none, wherever the time order puts it |
| CommunityModerators.ModeratorsKeepRanks | validation/validation_icip_3000.go:66-106 | on a definition with its own b tag, no run of patches by moderators, each checked against the definition as it then stands, changes who is the owner or who is an admin |
| CommunityModerators.RanksExactly | validation/validation_icip_4000.go:430-434 | for every accepted definition, whatever accepted patches came before: moderators' runs keep the owner and the admins if and only if the definition carries its own b tag, since the fold appends a patch's b tag like any other |
| CommunityModerators.BringsOwner | model/communities.go:18-33 | an accepted community of an owner, also listed as an admin, and a moderator, without a b tag: the moderator's patch, carrying one, makes the moderator the owner and the owner an admin |
| CommunityReserved.ModeratorsKeepReserved | validation/validation_icip_3000.go:83-107 | whatever moderators patch, and at whatever times, the name, the description, the flags, the picture and the settings of an accepted community read as before |
| CommunityAccepted.AcceptedFlagIsLast | validation/validate.go:70-80 | the tag tables admit no name that extends a flag's, so for accepted definitions and patches the flag of a pair is the last one set in time order |
| CommunityAccepted.AcceptedPairExactly | validation/validation_icip_3000.go:31-37 | accepted patches keep a pair exclusive in an accepted definition if and only if the definition carries at most one tag of it, which its check for clashes does not ask |
| BooleanSyntax.ParseWrite | database/query/query_where_builder.go:747-782 | the token list written for an expression parses back, with NOT above AND above OR, to exactly that expression: balanced, no empty parentheses, no dangling connective |
| BooleanSyntax.SameVerdicts | database/query/query_where_builder.go:747-782 | an expression's value depends only on what its conditions say |
| Conditions.AddClause | database/query/query_where_builder.go:273-297 | a clause written after the connective the generator chooses narrows the accepted rows by what it says and changes no earlier clause |
| Conditions.FurtherParams | database/query/query_where_builder.go:148-153 | binding further parameters leaves what a bound condition says unchanged |
| Dedup.DeduplicateSlice | model/event.go:266-280 | compacts the slice in place to the first element of each key, in order, and leaves what is past it as it was |
| Dedup.DedupDistinct | model/event.go:266-280 | the kept elements have distinct keys, and every key of the slice is kept |
| Dedup.DedupTwice | model/event.go:266-280 | deduplicating the whole slice again, stale tail included, keeps the same list |
| WhereClauses.CompareMeans | database/query/query_where_builder.go:220-254 | = and ANY, or != and ALL, select by membership in the slice as given, repeated values or not |
| WhereBuilder.QueryBuilder.IsOnBegin | database/query/query_where_builder.go:273-281 | answers whether the buffer ends where a list begins |
| WhereBuilder.QueryBuilder.MaybeOP | database/query/query_where_builder.go:203-211 | writes a connective exactly when something of the list has been written |
| WhereBuilder.QueryBuilder.BuildFromSlice | database/query/query_where_builder.go:220-271 | binds the deduplicated slice and writes one comparison, or nothing for an empty slice |
| WhereBuilder.QueryBuilder.ApplyFilterAddresses | database/query/query_where_builder.go:725-745 | narrows to rows whose address, for entries with a colon, or ID, for others, is listed |
| WhereBuilder.QueryBuilder.ApplySpecialKinds | database/query/query_where_builder.go:663-701 | narrows generic reposts to the listed originals, unless generic reposts are listed themselves, and returns exactly the kinds the kind column must be compared with |
| WhereBuilder.QueryBuilder.ApplyFilterKinds | database/query/query_where_builder.go:703-723 | narrows to the kinds to include, or, when there are none, away from those to exclude |
| WhereBuilder.QueryBuilder.ApplyFilterForExtensions | database/query/query_where_builder.go:545-597 | narrows by media, quotes, expiration and references as the filter asks |
| WhereBuilder.QueryBuilder.ApplyFilterTtags | database/query/query_where_builder.go:513-543 | narrows to rows with a wanted topic and without an unwanted one |
| WhereBuilder.QueryBuilder.ApplyFilterLang | database/query/query_where_builder.go:491-511 | narrows to the ISO-639-1 languages listed under l |
| WhereBuilder.QueryBuilder.ApplyAuthors | database/query/query_where_builder.go:759-766 | narrows to visible rows signed or owned by a listed author, although the list is deduplicated in place between its two uses and bound twice under one name |
| WhereClauses.CompactedTwice | database/query/query_where_builder.go:759-766 | the second use of the compacted author list binds and writes the same comparison as the first |
| WhereBuilder.QueryBuilder.ApplyTimeRange | database/query/query_where_builder.go:458-489 | fails exactly when since is after until; otherwise narrows to the range, bounds that are not positive ignored |
| WhereBuilder.QueryBuilder.WriteAlternatives | database/query/query_where_builder.go:372-437 | the ORed alternatives of one tag offer exactly the rows the tag entry allows; 1=1 when no alternative counts |
| WhereBuilder.QueryBuilder.ApplyTag | database/query/query_where_builder.go:339-437 | narrows by one tag entry: any of its alternatives by position, or its absence for an excluded name |
| WhereBuilder.QueryBuilder.ApplyFilterTags | database/query/query_where_builder.go:325-438 | narrows by all tag entries at once, in whatever order the map is iterated |
| WhereBuilder.QueryBuilder.ApplyFilterTagMarkers | database/query/query_where_builder.go:299-323 | narrows by every marker, of the event or the one it references |
| WhereBuilder.QueryBuilder.ApplyFilterSoftDeleted | database/query/query_where_builder.go:609-619 | hides soft-deleted rows unless the filter names IDs or one addressable event |
| WhereBuilder.QueryBuilder.MaybeApplyTextSearch | database/query/query_where_builder.go:635-661 | narrows by the search pattern, except for follow lists that only carry profiles along |
| WhereBuilder.QueryBuilder.ApplySection | database/query/query_where_builder.go:747-782 | the clauses of a non-empty filter are never none, and together ask for every part of the filter |
| WhereBuilder.QueryBuilder.ApplyFilter | database/query/query_where_builder.go:747-782 | an empty filter writes nothing; any other writes one parenthesised clause that means all its parts, or fails exactly on an inverted time range |
| WhereBuilder.QueryBuilder.ApplyFilterGiftWrap | database/query/query_where_builder.go:599-607 | narrows to rows that are no gift wrap, or are the current user's |
| WhereBuilder.QueryBuilder.BuildWhere | database/query/query_where_builder.go:1719-1732 | one filter's text accepts exactly the rows the filter selects |
| WhereBuilder.QueryBuilder.BuildSingleWhere | database/query/query_where_builder.go:1462-1480 | for every request: the token list parses as one boolean expression over its conditions, every parameter it names is bound, and it accepts a row exactly when some filter selects it |
| WhereText.PeekAgrees | database/query/query_where_builder.go:273-281 | looking at the last one or two characters of the text tells exactly whether the last token opened a list, and never looks before the start of the text |
| WhereText.KeysDistinct | database/query/query_where_builder.go:148-153 | parameter names of different filters or purposes are different strings, so none overwrites another |
| KindClause.KindVerdicts | database/query/query_where_builder.go:663-723 | for an event whose k tags both sides read alike, on every kinds list the two readings relate exactly: memory matches when SQL selects, unless the list only excludes or an exclusion stands before what accepts the event |
| KindClause.KindClausesAgree | model/filter.go:48-82 | for an event whose k tags both sides read alike, and kinds that are not negative, the SQL kind conditions and the in-memory kind match give the same verdict |
| KindClause.KindReadingsExactly | database/query/query_where_builder.go:663-723 | on an event of any kind, memory and database agree under every list of non-negative kinds if and only if, should the event be a generic repost, its first k tag parses to a repostable kind exactly when some k tag spells it |
| KindClause.AcceptedRepostsExactly | validation/validation_nip_18.go:43-46 | a generic repost as validation accepts it, its first k tag printing the reposted kind, is read alike if and only if no further k tag spells a repostable kind other than that one |
| KindClause.ExclusionsExactly | model/filter.go:48-82 | for a list of exclusions alone, on every event, the two agree if and only if the event's kind is excluded |
| KindClause.SecondKTag | model/filter.go:62-79 | an accepted repost of a note whose second k tag names an article: the database, looking at any, selects it for reposts of articles, memory, looking at the first, does not match |
| EventRows.RowsFind | database/query/ddl/00021_event_tags_tx_index.sql:3-43 | an alternative of at most five values, none empty, is found among the rows of event_tags exactly when it matches a tag of the event, if it asks for first and third values only or no tag is lost to the primary key |
| EventRows.RowsTellExactly | database/query/ddl/00004_event_tags.sql:3-14 | the rows answer every such question about an event's tags rightly if and only if every tag that the primary key keeps out says nothing its row does not say |
| EventRows.SecondRelayIsLost | database/query/ddl/00004_event_tags.sql:3-14 | two references to one event through different relays: the second is lost |
| EventColumns.FromTags | database/query/query.go:125-182 | the columns gain exactly what the tags say: topics, language, media, references, replies and quotes, the earliest expiration, the last receiver of a gift wrap; the loop fails exactly when a gift wrap has a p tag of three fields, whose fourth it reads |
| EventColumns.ToColumns | database/query/query.go:269-307 | the columns of a stored event, of a repost also what the event it carries says, except that such a repost is never a reply |
| EventColumns.LastTargetMeans | database/query/query.go:135-144 | a gift wrap's receiver is named by its last p tag that names anybody, by device before master key |
| EventColumns.EarliestMeans | database/query/query.go:155-160 | the expiration is the least of the positive ones |
| EventRows.TopicsTellExactly | database/query/query_where_builder.go:513-543 | the topics column answers every topic entry that fits, single topics among them, as memory does if and only if the event a repost carries lends it no topic that its own tags lack |
| EventRows.DTellsExactly | database/query/query_where_builder.go:330-337 | the d column tells for every non-empty value whether the event has it if and only if all non-empty values of its d tags are one and no empty one comes first |
| EventRows.LanguagesTellExactly | database/query/query_where_builder.go:491-511 | the language column answers every list of languages as memory does if and only if all language tags of the event name one language and the last one of an event it carries, if any, names no other |
| DatabaseAgrees.DatabaseAgreesWithMemory | model/filter.go:95-125 | for a filter of standard fields whose tag entries the columns answer rightly (topics, languages, tags by position, a lone d) and whose authors name both of the user's keys or none, the stored rows the WHERE text selects are, among the visible ones, exactly the events the live match accepts |
| DatabaseAgrees.AuthorsTellExactly | model/filter.go:28-46 | the in-memory match lets each of the user's keys stand for the other and the database does not: an author list is read alike on all events if and only if it names both keys or none |
| DatabaseAgrees.PlainEventsReadAlike | database/query/query_where_builder.go:325-434 | such entries are all that fit, on an event whose tags all have their own rows, whose columns name one language and one d value, and that borrows no topic |
| EntryReadings.FittingIsAlike | database/query/query_where_builder.go:325-543 | on such an event the two sides read every entry alike that fits: topics listed alone too, languages in their written form, and by position alternatives covered by one whose last value is not empty and among the first five |
| EntryReadings.LanguageEntryAgrees | database/query/query_where_builder.go:491-511 | languages, and what is listed beside them, are read alike when all of it names listed languages and each language is listed beside them too |
| EntryDiffers.EntryExactly | database/query/query_where_builder.go:325-543 | for every tag name and all alternatives: the two sides read the entry alike on all such events if and only if it fits |
| EntryDiffers.ExclusionDiffers | database/query/query_where_builder.go:350-369 | an entry !name, whatever it lists, never fits: an event without tags is selected, and not matched in memory |
| EntryDiffers.UnkeptDiffers | database/query/ddl/00021_event_tags_tx_index.sql:3-43 | nor does a name that event_tags does not keep: some event is matched, and not selected |
| EntryDiffers.TopicsDiffer | database/query/query_where_builder.go:513-543 | a topic entry that asks for nothing, does not start with a topic or names a topic only among others: an event of at most one tag is answered differently |
| EntryDiffers.PositionsDiffer | database/query/query_where_builder.go:371-429 | an alternative that nothing readable covers, because it ends in an empty value or asks past the fifth: an event of one tag is selected, and not matched |
| EntryDiffers.LanguagesDiffer | database/query/query_where_builder.go:380-386 | languages mixed with other l values, or not in their written form: an event of at most two tags is matched, and not selected |
| EntryDiffers.PresenceExactly | database/query/ddl/00021_event_tags_tx_index.sql:3-10 | the names that can be asked for by presence alone are the single letters but t, and nine more |
| EntryDiffers.FoldedLanguageDiffers | database/query/query_where_builder.go:497-504 | iso-639-1 in lower case: an event in that language is selected, and not matched in memory |
| RequestMeaning.SelectsExactly | database/query/query_where_builder.go:747-783 | what any filter selects of stored events, in its fields and the events' tags: the events its standard fields match in memory, whose tags meet what it asks of media, quotes, references, expiration, markers, search and exclusions, and which the database shows to it: not hidden, not another user's gift wrap, and by the rules for soft deletion and community posts |
| RequestMeaning.DeletedExactly | database/query/query_where_builder.go:609-619 | a soft-deleted row is shown by a filter exactly when the same row undeleted is and the filter asks for nothing, names IDs, or names kinds, authors and a d value; never by the filter made up for an empty request |
| RequestMeaning.ExclusionMeans | database/query/query_where_builder.go:350-434 | an entry !name spares the events without any of its topics, or without the tag, or with no tag for one of its alternatives |
| RequestMeaning.NonPositiveBounds | database/query/query_where_builder.go:458-489 | bounds of zero or less count for nothing, unless both are given and equal |
| Splice.ReplacePMO | model/content.go:228-283 | reads the overrides, refuses malformed or out-of-range ones, and runs the splices in some order of descending start, whichever the library's sort picks among equal starts; for overrides that are apart there is only one |
| SpliceText.WrittenIsRead | model/content.go:241-263 | a tag <start>:<end> with a text is read as that override, exactly when its positions lie in order within the content |
| SpliceText.OneTagSpliced | model/content.go:228-283 | from a single pmo tag to the new content: the stretch it names gives way to the callback's answer, or to the tag's text when that is empty |
| Splice.Run | model/content.go:265-282 | the loop of slice assignments is the recursive splice, with an out-of-range slice told apart |
| Splice.SplicesSubstitute | model/content.go:228-283 | for overrides in range and apart: no splice leaves the text, every callback is handed the original stretch, and the result is the left-to-right substitution |
| Splice.OrderDoesNotMatter | model/content.go:228-283 | the result does not depend on the order of the tags |
| Splice.OriginalExactly | model/content.go:265-282 | for overrides in range and any order the sort may put them in: every callback is handed the original text and no splice leaves it, whatever the callbacks answer, if and only if no override reaches past the start of the one processed before it |
| Splice.OverlapFails | model/content.go:265-282 | overlapping overrides can drive the loop out of the text |
| SystemId.SortStableFunc | database/query/query.go:226-229 | the sort in place, which moves each tag past those of greater key only, computes the stable sort |
| SystemId.WriteGenericTagsSystemID | database/query/query.go:220-248 | sorts a clone in place and feeds the digest the sorted tags without repeats; the caller's tags stay as they were |
| SystemId.SortedUnique | database/query/query.go:220-248 | a list sorted by key is determined by the order of its tags within each key |
| SystemId.OrderDoesNotMatter | database/query/query.go:220-248 | the digest input is the same for every arrangement of the tags that keeps the order within each key |
| SystemId.TwoTagsText | database/query/query.go:217-245 | two tags are fed field by field, the smaller key first, whichever comes first |
| SystemId.RepeatDoesNotMatter | database/query/query.go:220-248 | appending a repeat of a tag already present does not change the digest input |
| Relays.ToldApart | model/relay.go:11-25 | relays that do not fold alike are told apart by scheme, path and host, not by the port |
| Relays.EquivalenceExactly | model/relay.go:11-25 | on any relays, all strings or those of one list: the comparison is an equivalence if and only if for every relay one of its two tests covers the other: its folded twins parse like it, or what parses like it is its folded twin |
| Relays.NotTransitive | model/relay.go:11-25 | under a library spelled out here: a relay with a long s in its scheme equals the plain one, which equals the one with a port, which does not equal the first |
| Relays.CompactRelays | push-notifications/pushnotifications.go:1123-1157 | the pass keeps what buckets by lower-cased host let it see; when, in this very list, equal relays share a bucket and what equals an equal of an earlier relay equals that relay, it keeps the first relay of each class, in order, that equals no filtered-out one |
| Relays.BucketsExactly | push-notifications/pushnotifications.go:1123-1157 | on lists of any relays the bucketed pass equals the quadratic one if and only if equal relays share a bucket key |
| Relays.KeyLosesNothingExactly | push-notifications/pushnotifications.go:1127-1131 | with the key of the source, the lower-cased host or the whole lower-cased relay, buckets lose nothing on lists of any relays if and only if folded twins have one key and relays that parse alike have hosts of one lower case |
| Relays.LongHostIsKeptTwice | push-notifications/pushnotifications.go:1127-1131 | a host with a long s: two equal relays fall into two buckets, and both are kept |
| Relays.QuadraticKeepsFirsts | push-notifications/pushnotifications.go:1123-1157 | on a list in which what equals an equal of an earlier relay equals that relay, the quadratic pass keeps exactly the first of each class, and every other relay equals a kept one |
| Relays.FirstsExactly | push-notifications/pushnotifications.go:1123-1157 | on lists of any relays the quadratic pass keeps the first of each class if and only if the comparison is transitive on them |
| Relays.LongSchemeIsKept | push-notifications/pushnotifications.go:1123-1157 | the three relays of the failing transitivity: the one with the long s is kept although it equals the plain one before it |
| Relays.KeepsFirstsExactly | push-notifications/pushnotifications.go:1123-1157 | the pass of the source, with its own comparison and key, keeps the first relay of each class on every list of given relays if and only if for each of them one of the two tests covers the other, folded twins have one key, and relays that parse alike have hosts of one lower case |
| Relays.OrderlyKeepsFirsts | push-notifications/pushnotifications.go:1123-1157 | so it does on every list of relays among which those equal under folding parse alike or not at all and have one lower case, as have hosts equal under folding |
| Devices.DeviceRegistry.ProcessDeviceRegistrationEvent | push-notifications/devices.go:83-146 | a registration is refused, or ends the device's former one and, if accepted here, is held under its event ID, its device key and its filters; the three views stay one; it is answered without an error exactly when it is well formed and belongs to another relay, is remote or has all its subscribers recorded |
| Devices.DeviceRegistry.RemoveDeviceFromCache | push-notifications/devices.go:150-179 | removes from all three views whatever is registered under the event's device key, and nothing else |
| Devices.ShouldProcessDeletionEvent | push-notifications/devices.go:181-200 | a deletion concerns devices exactly when it names their kind or no kind |
| Devices.CollectDeletedIds | push-notifications/devices.go:202-219 | the IDs collected are those of the relevant deletions' e tags, in order |
| Devices.DeviceRegistry.RemoveDevicesIfAny | push-notifications/devices.go:202-231 | each named ID removes exactly the device that this very event registered |
| Devices.DeviceRegistry.ManageDeviceRegistrationEvents | push-notifications/devices.go:233-248 | a batch applies its deletions and then its registrations in order; one that fails does not stop the rest; there is no error exactly when none of them fails |
| Devices.DeviceRegistry.RemoveInvalidTokenDevicesFromCache | push-notifications/devices.go:250-254 | removes the devices by device key, even when a later event has registered them since |
| DeviceNames.RegistrationExactly | push-notifications/devices.go:83-146 | a registration that is not refused leaves registered itself, if kept, and of the others exactly those of other devices, a device being named by its first d value or without one by the registration's ID |
| DeviceNames.SameDeviceExactly | push-notifications/devices.go:29-31 | two registrations with d values are of one device exactly when these are equal |
| DeviceNames.OnePerDevice | push-notifications/devices.go:83-146 | after any run no two registrations of one device are held |
| DeviceNames.ReRegistered | push-notifications/devices.go:83-105 | a device that registers again under its d value is held once, by its latest registration |
| DeviceNames.RemoteRegistration | push-notifications/devices.go:60-73 | a d value <master key>_<device ID> makes it a remote device's, kept when both parts and the filters are there |
| DeviceNames.LocalRegistration | push-notifications/devices.go:83-146 | without an underscore it is kept exactly when it has an owner and a d value, its filters parse, its first relay tag names this relay and its price-change subscribers are recorded |
| DeviceNames.EndsExactly | push-notifications/devices.go:150-254 | an invalid token ends the device and nothing else, a deletion the very registration it names |
| DeviceNames.DeletedIdsExactly | push-notifications/devices.go:181-219 | the IDs deleted are those in the e tags of the batch's deletions of kind 31751 or of none |
| Devices.LatestAccepted | push-notifications/devices.go:83-254 | after any run a device is registered exactly when some accepted registration of it has not been superseded, invalidated or deleted since, and what is held is that registration |
| Devices.DeviceRegistry.CollectUserDevices | push-notifications/pushnotifications.go:948-975 | only registered devices of the user whose filters match are collected, and all of them when their filters are covered |
| TagTable.ValidateEventTags | validation/validate.go:536-673 | the counting validator accepts exactly what the declared table accepts: listed and unforbidden tags, required, dependent and exclusive ones, unique p, one valued b, a non-empty d on addressable events; whatever the order of the maps |
| TagTable.ScanTag | validation/validate.go:542-600 | one tag passes exactly when it may be carried, passes its own check and follows no valued b with another b |
| TagTable.CheckRules | validation/validate.go:611-666 | the rules are all satisfied, in whatever order the table is iterated |
| TagTable.KindValidatorBuilder.Put | validation/validate.go:714-737 | declares one rule for several names, the last declaration of a name standing |
| TagTable.KindValidatorBuilder.DeclareRequiredWith | validation/validate.go:739-743 | afterwards the companions are optional, the root requires them unless it is itself among them, in which case it is merely optional, and all other names keep their rules |
| TagTable.DeclareMeans | validation/validate.go:714-759 | after a declaration the named tags have its rule and all others keep theirs |
| TagTable.BuildTagsTable | validation/validate.go:675-677 | the builder declares, for a kind that merely lists names, the table that allows those and the common ones |
| TagTable.BuildRepostTable | validation/validate.go:108-108 | the builder's calls for generic reposts declare the table of the next statement |
| TagTable.ListedKindsExactly | validation/validate.go:536-677 | a kind that merely lists names accepts exactly the events of listed and common tags that pass their checks, with no b after a valued one, nobody named twice but in attestations, and a d of some value when addressable |
| TagTable.AcceptedReposts | validation/validate.go:108-108 | an accepted generic repost carries p and k, names nobody twice, and carries exactly one of e and a |
| TagTable.OneOfIsExclusive | validation/validate.go:745-751 | an accepted event of a kind that declares a group one-of carries exactly one tag name of the group |
| TagTable.ForbiddenIsRefused | validation/validate.go:732-737 | a table that forbids a tag refuses every event that carries it |

## Left out

- Matcher.Matcher.Index: replacing a stored value and binding its keys are one call here; their lock sections are separate steps in `Interleaving` and `Schedules` only.
- GoLive.StreamEventsBuffered: the flush writes its whole buffer in one step, which `SplitBroadcast` takes apart; a write that fails or times out midway is not modelled.
- GiftWrap.StreamGiftWraps: pages come from a fixed store; events stored while the loop runs are not modelled.
- WhereBuilder.QueryBuilder.BuildSingleWhere: parameters are keyed by filter position and purpose; the text of those keys is in `WhereText`, and the fixed prefix of the one made-up filter for an empty request is not distinguished from the first filter's.
- WhereBuilder.QueryBuilder.MaybeApplyTextSearch: the search text arrives as its ILIKE pattern; the removal of special characters is a Unicode character class.
- WhereBuilder.QueryBuilder.BuildWhere: of the extra clauses only the two that the code ever adds are modelled.
- RequestMeaning.SelectsExactly: negative kinds (`KindClause.ExclusionsExactly` treats them), time bounds of zero or less (`RequestMeaning.NonPositiveBounds`), and entries and markers that the rows cannot show (`EntryDiffers.EntryExactly`) are outside the statement.
- DatabaseAgrees.DatabaseAgreesWithMemory: filters without the search extensions, which `RequestMeaning.SelectsExactly` adds.
- SystemId.WriteGenericTagsSystemID: the library's stable sort is an insertion sort here; the base of the digest (kind, keys, content) is not part of it.
- Community.ApplyChangeCommunityPatch: tag lists are values; that removals shift the definition's own slice in place is not modelled.
- TagTable.ValidateEventTags: the checks of single tags (imeta, polls, settings, addresses, timestamps, UUIDs) are one parameter.
- Devices.DeviceRegistry.ProcessDeviceRegistrationEvent: the database side of price-change subscribers is a parameter that may fail; deleting them on removal has no effect on the registry and is left out.
- The pool is modelled for bitmaps only; its options for hooks and other element types are not.
- `Storage.Range`, `Storage.IndexSize` and `matcher.Get`: they read what `Lookup` and `Size` already describe.
- The authorisation checks around requests.
- `getLatestSettingsTag` and the reply and posting rules built on it: a single loop for the latest of several tags.
- Dependency CTEs, counters, deletes and rollback tables: their meaning lies in SQL and triggers that the repository does not spell out as conditions.
- The search-string parsers and the dependency grammar.
- Cryptography, networking, storage back ends, queues, telemetry and configuration.
