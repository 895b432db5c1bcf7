# Event registration and event management, modelled in Dafny

The system has two back-end services over DynamoDB.

- **Registration** keeps users and capacity-limited events in one table. A user
  who registers takes a free seat. When the event is full the user joins a
  first-in first-out waitlist, if the event has one, and is otherwise refused.
  When a registered user leaves, the head of the waitlist is promoted into the
  freed seat and the rest of the waitlist is renumbered.
  - Every record lives under a composite key: partition key `USER#id` or
    `EVENT#id`, and sort key `METADATA`, `REG#user` or `WAIT#nnnnn#user`.
  - A secondary index, GSI1, lists each user's registrations and waitlist
    entries.
- **Event management** keeps event records keyed by `eventId`.
  - Each event is validated by seven field checks.
  - An event can be created, read, listed (optionally filtered by status),
    partially updated through a DynamoDB `SET` update expression, and deleted.

The model has one Dafny module per concern.

| module | file | what it holds |
|---|---|---|
| `Results` | results.dfy | `Option` and `Result` (with `:-`) |
| `Text` | text.dfy | Python `strip`, string order, sorting a set of strings, the `05d` format |
| `RegistrationModels` | registration_models.dfy | the user and event records, their checks, the error kinds |
| `RegistrationTable` | registration_table.dfy | keys, records, the table (a class with `put_item` and `delete_item`), the key-condition queries in sort-key order, the GSI1 index |
| `RegistrationRepositories` | registration_repositories.dfy | the reads as functions of the table; the two repository classes, whose write methods are specified by functions of the table before them |
| `RegistrationEngine` | registration_engine.dfy | the register and unregister decisions on an event value, with the invariants they keep |
| `RegistrationLayout` | registration_layout.dfy | how a stored event is laid out in the table; every write followed through that layout; the read-back proof |
| `RegistrationEffects` | registration_effects.dfy | the sequence of writes each service call performs, and proofs that it leaves the table holding the event the engine computes |
| `RegistrationServiceLayer` | registration_service.dfy | the service class; each of its methods is proved equal to a function of the table |
| `Dicts` | dicts.dfy | insertion-ordered Python dictionaries, including one the caller shares (`PyDict`) |
| `EventModels` | event_models.dfy | the event record of the events service and its seven checks |
| `UpdateExpressions` | update_expressions.dfy | building the `SET` expression and its placeholder maps, and how the table applies them |
| `EventStore` | event_store.dfy | the events table and the events repository |
| `EventServiceLayer` | event_service.dfy | the events service |

Python values in the events service are dynamically typed. The model uses
`Value = Null | Str | Int`. Where the source would raise a `TypeError`, the model
reports `TypeFault`. Where it would raise a `KeyError` reading a stored record,
the model reports `KeyMissing` (events) or `MalformedRecord` (registration).

Some inputs come from outside the program and are parameters:

- the result of `uuid.uuid4()` is the parameter `generated`;
- `datetime.utcnow().isoformat()` is the parameter `now`;
- whether a date string parses is the parameter `validDate`.

## Model

| member | source | states |
|---|---|---|
| RegistrationModels.NewUser | backend/registration/models.py:20-25 | A blank user id (empty or whitespace only) is rejected with the user-id error, whatever the name. Otherwise a blank name is rejected with the name error. A user is built exactly when both are non-blank, and it holds them unchanged. |
| RegistrationModels.NewEvent | backend/registration/models.py:47-50 | An event is rejected exactly when its capacity is not positive, with the capacity error. Otherwise it holds the given fields. |
| RegistrationModels.FullXorAvailable | backend/registration/models.py:52-66 | `is_full` holds exactly when `has_available_capacity` does not. |
| RegistrationModels.BlankUserIdRejected | backend/registration/models.py:22-23 | An id made only of spaces, tabs and line breaks is rejected with the user-id error, whatever the name. |
| RegistrationModels.NewEventStartsEmpty | backend/registration/models.py:44-50 | An event built with the default lists has nobody registered, an empty waitlist, and a free seat. |
| RegistrationModels.IsFull | backend/registration/models.py:52-58 | `is_full`: at least as many registered users as seats. Its relation to `has_available_capacity` is `FullXorAvailable`. |
| RegistrationModels.HasAvailableCapacity | backend/registration/models.py:60-66 | `has_available_capacity`: fewer registered users than seats. The engine uses it to choose between a seat and the waitlist (`RegisterOutcome`). |
| Text.Strip | backend/registration/models.py:22-25 | `str.strip`: whitespace removed from both ends. `StripEmptyIffBlank` states when the result is empty. |
| Text.StripEmptyIffBlank | backend/registration/models.py:22-25 | `not s or not s.strip()` holds exactly when `s` is whitespace only. |
| Text.SortStrings | backend/registration/repositories.py:240-244 | The members of a set of strings, each once, in strictly ascending order. |
| Text.SortedUnique | backend/registration/repositories.py:240-244 | Two strictly ascending lists with the same members are equal, so a query result in sort-key order is determined by the keys stored. |
| Text.Format05d | backend/registration/repositories.py:294 | `f"{n:05d}"`: at least five decimal digits. Order and injectivity are `Format05dOrdered`, `Format05dOrderBreaks` and `Format05dInjective`. |
| Text.Format05dOrdered | backend/registration/repositories.py:294 | Below 100000, a smaller position formats to a smaller five-character string. |
| Text.Format05dOrderBreaks | backend/registration/repositories.py:294 | At 100000 the format grows to six digits and sorts before position 10001. |
| Text.Format05dInjective | backend/registration/repositories.py:294 | Different positions never format to the same text. |
| RegistrationTable.RegSk | backend/registration/repositories.py:263-281 | A registration sort key starts with `REG#`. It never starts with `WAIT#` and is never `METADATA`. The user id follows the prefix. |
| RegistrationTable.WaitSk | backend/registration/repositories.py:283-303 | A waitlist sort key starts with `WAIT#`. It never starts with `REG#` and is never `METADATA`. |
| RegistrationTable.MetadataSkHasNoListPrefix | backend/registration/repositories.py:103-114 | The METADATA record is never picked up by the `REG#` or `WAIT#` prefix queries. |
| RegistrationTable.RegSkOrder | backend/registration/repositories.py:240-244 | Registration sort keys sort as the user ids they carry. |
| RegistrationTable.WaitSkOrder | backend/registration/repositories.py:255-261 | Below position 100000, waitlist sort keys sort by position. |
| RegistrationTable.WaitSkInjective | backend/registration/repositories.py:294 | Two waitlist records share a sort key only when they have the same position and the same user. |
| RegistrationTable.Table.PutItem | backend/registration/repositories.py:270-281 | `put_item` stores the record under its key and overwrites anything there. No other key changes. |
| RegistrationTable.Table.DeleteItem | backend/registration/repositories.py:312-317 | `delete_item` removes the key and nothing else. A missing key is a no-op. |
| RegistrationTable.SkSet | backend/registration/repositories.py:240-242 | A sort key is selected exactly when it is stored under the partition and begins with the prefix. |
| RegistrationTable.QueryKeys | backend/registration/repositories.py:255-260 | A prefix query returns exactly the matching sort keys, each once, in strictly ascending order. |
| RegistrationTable.ProjectUserIds | backend/registration/repositories.py:244 | `[item['user_id'] ...]` keeps the order of the records and gives one id per record. It fails, with the KeyError, exactly when some record has no user id. |
| RegistrationTable.FirstMatch | backend/registration/repositories.py:327-339 | The search returns the first record of the user in sort-key order: every record before it has a user id that is not this user's. It finds one whenever one exists. Finding none means every record has a user id and none is this user's. It fails only on a record without a user id. |
| RegistrationTable.FirstMatchUnique | backend/registration/repositories.py:331-339 | When exactly one record is the user's, the loop finds that record. |
| RegistrationTable.IndexKeys | backend/registration/repositories.py:196-199 | The GSI1 query lists exactly the user's registration records (`REGISTERED`) or waitlist records (`WAITLISTED`). |
| RegistrationRepositories.GetUser | backend/registration/repositories.py:44-67 | None exactly when there is no METADATA record. A found user is the stored one and has a non-blank id and name. The read fails exactly on a record that is not a user or that fails the user checks. |
| RegistrationRepositories.UserExists | backend/registration/repositories.py:69-78 | `exists` holds exactly when the METADATA record is there. It fails exactly when `get` does. |
| RegistrationRepositories.ListedUsers | backend/registration/repositories.py:231-261 | The listed users are exactly the users of the matching records, one entry per record. The read fails exactly when a record lacks a user id. |
| RegistrationRepositories.GetEvent | backend/registration/repositories.py:126-161 | `get` of an event: METADATA, then the two list queries. Its outcomes are `GetEventOutcome`; on a stored event it is `ReadBack` and `GetEventOf`. |
| RegistrationRepositories.GetEventOutcome | backend/registration/repositories.py:126-161 | `get` returns None exactly when there is no METADATA record. It fails exactly on a list record without a user id, a METADATA record that is not an event's, or a non-positive capacity. A found event carries the METADATA fields, and its registered users and waitlist are the users of the `REG#` and `WAIT#` records, one entry per record. |
| RegistrationRepositories.WaitlistRemoval | backend/registration/repositories.py:319-339 | When every waitlist record has a user id, the removal cannot fail. Any failure is the KeyError. |
| RegistrationRepositories.UserRepository.Create | backend/registration/repositories.py:25-42 | Stores the user record under `USER#id`/`METADATA`, overwriting, and returns the user. |
| RegistrationRepositories.EventRepository.Create | backend/registration/repositories.py:94-124 | Leaves the table as METADATA (with both counts), then one registration record per registered user, then one waitlist record per entry at its index. Returns the event. |
| RegistrationRepositories.EventRepository.Update | backend/registration/repositories.py:163-185 | Only the two counts on METADATA change. A missing METADATA record becomes one that holds only the counts. |
| RegistrationRepositories.EventRepository.AddRegistration | backend/registration/repositories.py:263-281 | Writes the registration record under `REG#user`. |
| RegistrationRepositories.EventRepository.AddToWaitlist | backend/registration/repositories.py:283-303 | Writes the waitlist record under `WAIT#position#user`. |
| RegistrationRepositories.EventRepository.RemoveRegistration | backend/registration/repositories.py:305-317 | Deletes the registration record. |
| RegistrationRepositories.EventRepository.RemoveFromWaitlist | backend/registration/repositories.py:319-339 | Walks the waitlist records in sort-key order and deletes only the first one of the user, or none. On a record without a user id it fails and leaves the table unchanged. |
| RegistrationRepositories.EventRepository.EventsOf | backend/registration/repositories.py:187-229 | Succeeds exactly when `get` succeeds for every event named by the user's index entries. The result holds every such event that is found, and only those. |
| RegistrationEngine.RemoveFirstMembers | backend/registration/service.py:160 | `list.remove` on a list without repeats drops exactly that user and keeps it without repeats. |
| RegistrationEngine.RegisterStep | backend/registration/service.py:111-140 | The register decision on an event. Its outcomes are `RegisterOutcome`; the invariants it keeps are `RegisterKeepsConsistent`; its inverse is `RegisterThenUnregister`. |
| RegistrationEngine.UnregisterStep | backend/registration/service.py:158-194 | The unregister decision on an event. Its outcomes are `UnregisterOutcome`; the invariants it keeps are `UnregisterKeepsConsistent`. |
| RegistrationEngine.RegisterOutcome | backend/registration/service.py:111-140 | A user on either list is refused as already registered. Otherwise a free seat appends the user to the registered users. Otherwise an enabled waitlist appends the user to its tail. Otherwise the event is full. Each case holds exactly under its condition, and the other list and the event's fields stay as they were. |
| RegistrationEngine.RegisterKeepsConsistent | backend/registration/service.py:111-137 | A registration keeps the invariants: capacity positive and never exceeded, no user twice or on both lists, no waitlist when it is disabled, nobody waiting while a seat is free. |
| RegistrationEngine.UnregisterOutcome | backend/registration/service.py:158-194 | Unregistering is refused exactly for a user on neither list. Afterwards the user is on neither list. A freed seat goes to the waitlist head, and the rest of the waitlist keeps its order. A waitlisted user leaving removes exactly that entry. |
| RegistrationEngine.UnregisterKeepsConsistent | backend/registration/service.py:158-191 | An unregistration keeps the invariants. A promotion refills exactly the freed seat. |
| RegistrationEngine.RegisterThenUnregister | backend/registration/service.py:119-191 | Registering a user and then unregistering the same user restores the event. |
| RegistrationEngine.PromotionScenario | backend/registration/service.py:159-178 | At capacity 2: A and B register and C is waitlisted. When A leaves, C holds the seat and the waitlist is empty. |
| RegistrationLayout.Normalized | backend/registration/repositories.py:240-244 | The event as `get` reads it back: the same fields and waitlist, with the same registered users in ascending user-id order. |
| RegistrationLayout.NormalizedMembers | backend/registration/repositories.py:240-244 | Reading back keeps exactly the set of registered users. |
| RegistrationLayout.RegistrationAdded | backend/registration/repositories.py:263-281 | Adding a registration record adds the user to the event's registration records. The waitlist records and METADATA stay as they were. |
| RegistrationLayout.RegistrationRemoved | backend/registration/repositories.py:305-317 | Deleting a registration record removes exactly that user. The waitlist records and METADATA stay as they were. |
| RegistrationLayout.WaitEntryAdded | backend/registration/repositories.py:283-303 | Adding a waitlist record for a new user appends the entry. The registrations and METADATA stay as they were. |
| RegistrationLayout.WaitRemovalFinds | backend/registration/repositories.py:319-339 | On a well-laid-out waitlist without repeats, `_remove_from_waitlist` deletes exactly that user's record. |
| RegistrationLayout.WaitEntryDeleted | backend/registration/repositories.py:319-339 | Deleting one waitlist record leaves the other entries in place. The registrations and METADATA stay as they were. |
| RegistrationLayout.WaitEntryMoved | backend/registration/service.py:173-175 | Removing a waitlisted user's record and re-adding it at a new position moves only that entry. |
| RegistrationLayout.CountsUpdated | backend/registration/repositories.py:163-185 | Updating the counts keeps every METADATA field and sets both counts to the new list lengths. The list records stay as they were. |
| RegistrationLayout.RegistrationsReadBack | backend/registration/repositories.py:231-244 | Registration records for a set of users read back as those users in ascending order. |
| RegistrationLayout.WaitlistReadBack | backend/registration/repositories.py:246-261 | A waitlist of up to 100000 entries stored at positions 0..n-1 reads back as the same list in the same order. |
| RegistrationLayout.ReadBack | backend/registration/repositories.py:126-161 | `get` of a stored event returns it with its registered users in ascending order. The same records also store that normalized event. |
| RegistrationLayout.GetEventOf | backend/registration/repositories.py:126-161 | An event whose METADATA matches and whose two queries list its lists is exactly what `get` returns. |
| RegistrationLayout.ReadBackConsistent | backend/registration/repositories.py:146-161 | Reading back keeps the registration invariants and the number of registered users. |
| RegistrationEffects.Reindexed | backend/registration/service.py:172-175 | The table after the renumbering loop. It fails only with the KeyError. `ReindexKeeps` states what it stores. |
| RegistrationEffects.RegisterWrites | backend/registration/service.py:119-137 | The writes of a successful registration. `RegisterKeepsStore` proves they store the event the engine computes. |
| RegistrationEffects.UnregisterWrites | backend/registration/service.py:159-191 | The writes of a successful unregistration. `UnregisterKeepsStore` proves they cannot fail and store the event the engine computes. |
| RegistrationEffects.ReindexKeeps | backend/registration/service.py:172-175 | Renumbering a waitlist without repeats cannot fail. It stores every entry at its index and leaves the registrations and METADATA as they were. |
| RegistrationEffects.RegisterKeepsStore | backend/registration/service.py:119-137 | While the waitlist is below 100000, a successful registration's writes leave the table holding exactly the event the engine computes. |
| RegistrationEffects.UnregisterKeepsStore | backend/registration/service.py:158-191 | A successful unregistration's writes never fail half way, and they leave the table holding exactly the event the engine computes. |
| RegistrationEffects.CreatedStores | backend/registration/repositories.py:94-124 | Creating a consistent event over a table without list records for it stores exactly that event, and `get` then returns it. |
| RegistrationEffects.UserRoundTrip | backend/registration/repositories.py:25-78 | After `create` of a valid user, `get` returns it and `exists` holds. |
| RegistrationServiceLayer.CreateUserResult | backend/registration/service.py:42-62 | The outcome and table of `create_user`. Its properties are `CreateUserOutcome`. |
| RegistrationServiceLayer.CreateEventResult | backend/registration/service.py:64-86 | The outcome and table of `create_event`. Its properties are `CreateEventRoundTrip`. |
| RegistrationServiceLayer.RegisterResult | backend/registration/service.py:88-140 | The outcome and table of `register_user`. Its properties are `UnknownUserNotFound`, `RegisterResultOf`, `RegisterOnStoredEvent` and `MissingEventNotFound`. |
| RegistrationServiceLayer.UnregisterResult | backend/registration/service.py:142-194 | The outcome and table of `unregister_user`. Its properties are `UnregisterResultOf`, `UnregisterOnStoredEvent` and `MissingEventNotFound`. |
| RegistrationServiceLayer.EventRegistrations | backend/registration/service.py:218-234 | The outcome of `get_event_registrations`. A missing event is `MissingEventNotFound`; the order is stated on `GetEventRegistrations`. |
| RegistrationServiceLayer.RegisterResultOf | backend/registration/service.py:102-140 | Once the user exists and the event is read, `register_user` answers with the engine's decision on the event read and performs its writes. |
| RegistrationServiceLayer.UnregisterResultOf | backend/registration/service.py:153-194 | Once the event is read, `unregister_user` answers with the engine's decision on the event read and performs its writes. |
| RegistrationServiceLayer.SameDecisionsNormalized | backend/registration/service.py:111-191 | The engine takes the same decisions on an event read back, with its registered users reordered, as on the event stored. |
| RegistrationServiceLayer.RegisterOnStoredEvent | backend/registration/service.py:88-140 | On a stored event whose waitlist holds fewer than 100000 entries, by a known user: the call succeeds or fails exactly as the engine does on the stored event, with the same error and the same status. A success leaves the table storing the updated event. |
| RegistrationServiceLayer.UnregisterOnStoredEvent | backend/registration/service.py:142-194 | On a stored event the call fails exactly for a user on neither list, with NotRegistered. Otherwise it leaves the table storing the updated event. |
| RegistrationServiceLayer.UnknownUserNotFound | backend/registration/service.py:102-104 | The user check comes first: an unknown user gets EntityNotFound and a failed user read propagates, whatever the event table holds. |
| RegistrationServiceLayer.MissingEventNotFound | backend/registration/service.py:106-109 | Without a METADATA record, `register_user` by a known user, `unregister_user` and `get_event_registrations` all report the event not found. |
| RegistrationServiceLayer.CreateUserOutcome | backend/registration/service.py:42-62 | `create_user` reports a duplicate exactly when the user exists, which is checked before validation. It succeeds exactly for a new, valid user, who is then found. Creating the same user again is a duplicate. |
| RegistrationServiceLayer.CreateEventRoundTrip | backend/registration/service.py:64-86 | `create_event` succeeds exactly for a positive capacity. It stores an event with empty lists, and `get` returns that event. |
| RegistrationServiceLayer.RegistrationService.CreateUser | backend/registration/service.py:42-62 | Returns and stores what `CreateUserResult` describes. On failure the table is unchanged. |
| RegistrationServiceLayer.RegistrationService.CreateEvent | backend/registration/service.py:64-86 | Returns and stores what `CreateEventResult` describes. On failure the table is unchanged. |
| RegistrationServiceLayer.RegistrationService.RegisterUser | backend/registration/service.py:88-140 | Updates the event in place and writes each change as the source does. The outcome and the table are those of `RegisterResult`. On failure nothing is written. |
| RegistrationServiceLayer.RegistrationService.UnregisterUser | backend/registration/service.py:142-194 | The outcome and the table are those of `UnregisterResult`. Apart from a KeyError part way, a failure writes nothing. |
| RegistrationServiceLayer.RegistrationService.ReindexWaitlist | backend/registration/service.py:172-175 | The renumbering loop leaves the table that `Reindexed` describes, or fails with its error. |
| RegistrationServiceLayer.RegistrationService.GetUserRegistrations | backend/registration/service.py:196-205 | Succeeds exactly when every event the user's `REGISTERED` index entries name can be read. The result holds every such event that `get` finds, and no other. |
| RegistrationServiceLayer.RegistrationService.GetUserWaitlists | backend/registration/service.py:207-216 | Succeeds exactly when every event the user's `WAITLISTED` index entries name can be read. The result holds every such event that `get` finds, and no other. |
| RegistrationServiceLayer.RegistrationService.GetEventRegistrations | backend/registration/service.py:218-234 | A missing event is not found. A stored event's registered users come back in ascending user-id order, not the order in which they registered. |
| Dicts.Keys | backend/events/repositories.py:157-158 | `updates.keys()`: one key per entry, in order. |
| Dicts.Get | backend/events/service.py:109-115 | `d.get(k)` finds a value exactly when `k` is a key, and the value is one stored under `k`. |
| Dicts.GetEntry | backend/events/service.py:109-115 | With distinct keys, reading an entry's key gives that entry's value. |
| Dicts.AssignedGet | backend/events/repositories.py:154 | After `d[k] = v`, `k` reads `v` and every other key reads what it read before. |
| Dicts.AssignedKeys | backend/events/repositories.py:154 | `d[k] = v` keeps a present key in its place and appends a new one. |
| Dicts.AssignedDistinct | backend/events/repositories.py:154 | `d[k] = v` keeps the keys distinct. |
| Dicts.PyDict.Assign | backend/events/repositories.py:154 | The caller's dictionary becomes the one with `k` assigned. |
| EventModels.TextCheckPasses | backend/events/models.py:40-66 | A text check passes exactly for a string of 1 up to its maximum length. Otherwise it raises that field's error, or the type error for a number. |
| EventModels.Validate | backend/events/models.py:37-71 | The seven checks in source order. What they accept is `ValidateAccepts`; which error wins is `FirstFailureWins`. |
| EventModels.ValidateAccepts | backend/events/models.py:37-71 | The checks accept exactly the well-formed events (titles, description, location and organizer within their lengths, a parsable date, capacity in 1..100000, a known status) and return them unchanged. |
| EventModels.FirstFailureWins | backend/events/models.py:37-71 | The first failing check, in source order, decides the error, whatever the later fields hold. |
| EventModels.BlankTitleAccepted | backend/events/models.py:40-41 | A whitespace-only title passes the title check. |
| UpdateExpressions.UpdateExpression | backend/events/repositories.py:157 | `SET ` followed by one `#k = :k` clause per key. Its shape is `ExpressionClauses`. |
| UpdateExpressions.AttributeNames | backend/events/repositories.py:158 | The `#k` to `k` placeholder map. Its lookups are `AttributeNamesOf`. |
| UpdateExpressions.AttributeValues | backend/events/repositories.py:159 | The `:k` to value placeholder map. Its lookups are `AttributeValuesOf`. |
| UpdateExpressions.ApplySet | backend/events/repositories.py:161-167 | How the table applies a `SET` request. What it writes is `UpdateApplies` and `ApplyClausesOverlay`; a key update is `KeyUpdateRefused`. |
| UpdateExpressions.SplitJoined | backend/events/repositories.py:157 | Splitting the joined clauses at `, ` gives back the clauses. |
| UpdateExpressions.ParseClauseOf | backend/events/repositories.py:157 | The clause of a key without spaces or commas reads back as its two placeholders. |
| UpdateExpressions.ExpressionClauses | backend/events/repositories.py:157 | The built expression starts with `SET ` and splits into the clauses it was built from. |
| UpdateExpressions.AttributeNamesOf | backend/events/repositories.py:158 | Each key's name placeholder resolves to that key. |
| UpdateExpressions.AttributeValuesOf | backend/events/repositories.py:159 | With distinct keys, each key's value placeholder resolves to that key's value. |
| UpdateExpressions.ApplyClausesOverlay | backend/events/repositories.py:157-167 | The clauses, applied in order, write the entries over the item. |
| UpdateExpressions.UpdateApplies | backend/events/repositories.py:157-167 | The request `update` builds from settable, distinct keys writes exactly those updates over the stored item. |
| UpdateExpressions.ApplyClausesRefused | backend/events/repositories.py:161-167 | A clause that sets the key attribute is refused. |
| UpdateExpressions.KeyUpdateRefused | backend/events/repositories.py:157-167 | A request whose updates name `eventId` is refused as a whole. |
| UpdateExpressions.OverlayAt | backend/events/repositories.py:161-167 | After the overlay an attribute is present exactly when it was stored or updated. It holds the update's value when updated and the stored one otherwise. |
| EventStore.EventsTable.PutItem | backend/events/repositories.py:49 | `put_item` replaces whatever is stored under the item's string key. An item without a string key is refused and nothing changes. |
| EventStore.EventsTable.UpdateItem | backend/events/repositories.py:161-167 | `update_item` applies the expression to the stored item (or to a fresh item holding only the key) and stores the result. A refused request changes nothing. |
| EventStore.EventsTable.DeleteItem | backend/events/repositories.py:196 | Removes the key and nothing else. |
| EventStore.Stamped | backend/events/repositories.py:45-55 | A set timestamp is kept. An unset one becomes the current time. |
| EventStore.FromItem | backend/events/repositories.py:74-85 | An item read as an event and checked. Its properties are `FromItemFields`, `FromItemStatus` and `FromItemOf`. |
| EventStore.FromItemStatus | backend/events/repositories.py:74-85 | A read event's status is the stored one. |
| EventStore.GetEvent | backend/events/repositories.py:59-85 | `get`: None for an unknown id, else the stored item read as an event. Its properties are `StoredEvent`, `CreateThenGet` and `DeleteThenGet`. |
| EventStore.Exists | backend/events/repositories.py:198-207 | False exactly when nothing is stored under the id. True exactly when the stored item reads as a valid event. |
| EventStore.Matching | backend/events/repositories.py:96-100 | The status filter keeps exactly the scanned keys whose stored status equals the requested one. |
| EventStore.FromItems | backend/events/repositories.py:120-134 | The list comprehension succeeds exactly when every item reads as an event, and gives those events in item order. |
| EventStore.ListEvents | backend/events/repositories.py:87-134 | `list` with an optional status filter. Its properties are `ListSucceeds`, `ListedIsStored` and `StoredIsListed`. |
| EventStore.ListSucceeds | backend/events/repositories.py:87-134 | `list` does not raise exactly when every item it picks (every item, or those with the requested status) is readable. Unreadable items it filters out do not matter. |
| EventStore.ListedIsStored | backend/events/repositories.py:87-134 | Each listed event is the event of a stored item, with the requested status when one is given. |
| EventStore.StoredIsListed | backend/events/repositories.py:87-134 | When every item `list` picks is readable, every stored event with the requested status (or every event, when no status is given) is listed. |
| EventStore.FromItemFields | backend/events/repositories.py:74-85 | A read event carries the stored attributes and is well formed. |
| EventStore.FromItemOf | backend/events/repositories.py:74-85 | An item holding the attributes of a well-formed event reads back as that event. |
| EventStore.StoredEvent | backend/events/repositories.py:59-85 | An event `get` returns is stored under its id and reads back from its item. |
| EventStore.EventRepository.Create | backend/events/repositories.py:27-57 | Stores the item over any existing one and returns the event with unset timestamps filled in. A non-string id is refused and nothing changes. |
| EventStore.EventRepository.Update | backend/events/repositories.py:136-181 | The table, the caller's updates and the result are those of `UpdateEffect`. |
| EventStore.EventRepository.Delete | backend/events/repositories.py:183-196 | A missing event is not found and nothing changes. An unreadable one propagates the read error. Otherwise exactly that item is removed. |
| EventStore.CreateThenGet | backend/events/repositories.py:27-85 | After `create` of a valid event, `get` returns the event `create` returned. |
| EventStore.StampedUpdates | backend/events/repositories.py:153-154 | The caller's updates gain `updatedAt` with the current time. Every other key reads as before, and the keys stay distinct and settable. |
| EventStore.UpdateWrites | backend/events/repositories.py:153-167 | The request writes exactly the updated keys and `updatedAt` over the stored item. Every other attribute keeps its value. |
| EventStore.UpdateEffect | backend/events/repositories.py:136-181 | The table, caller's updates and result of `update`. Its properties are `UpdateEffectFrame`, `UpdateEffectOf`, `UpdateMissing` and `UpdateKeyRefused`. |
| EventStore.UpdateEffectFrame | backend/events/repositories.py:136-181 | `update` adds and removes no item and changes at most the item under its id. |
| EventStore.UpdateEffectOf | backend/events/repositories.py:149-181 | On a readable event whose request applies, the item is replaced by the written one and the result is that item read back. |
| EventStore.UpdateMissing | backend/events/repositories.py:149-151 | An unknown id is not found, and neither the table nor the caller's updates change. |
| EventStore.UpdateKeyRefused | backend/events/repositories.py:154-167 | Updates that name `eventId` are refused by the table and the item stays as it was. The caller's updates have already gained `updatedAt`. |
| EventStore.DeleteThenGet | backend/events/repositories.py:183-207 | After `delete`, `get` finds nothing and `exists` is false. |
| EventServiceLayer.Pick | backend/events/service.py:109-115 | `d.get(k, default)` is the stored value when the key is present and the default otherwise. |
| EventServiceLayer.ChooseId | backend/events/service.py:35 | The id is `event_id` when truthy, else `eventId` when truthy, else the generated one. |
| EventServiceLayer.Field | backend/events/service.py:41-50 | `event_data[k]` fails exactly for a missing key, reported as that missing field. Otherwise it is the stored value. |
| EventServiceLayer.MissingFieldReported | backend/events/service.py:37-50 | The first missing required key is reported as the missing field, before any check runs. |
| EventServiceLayer.FieldsPresent | backend/events/service.py:39-48 | With every required key present, the event is built from the values under those keys and the chosen id. |
| EventServiceLayer.NewEventResult | backend/events/service.py:35-53 | The event `create_event` builds and checks. Its properties are `MissingFieldReported` and `CreateAcceptsWellFormed`. |
| EventServiceLayer.CreateAcceptsWellFormed | backend/events/service.py:35-53 | With every required key present, `create_event` accepts exactly a well-formed event built from the data. |
| EventServiceLayer.CreateThenGetEvent | backend/events/service.py:22-73 | An event `create_event` stores is then returned by `get_event`, exactly as `create_event` returned it. |
| EventServiceLayer.MergedEvent | backend/events/service.py:107-118 | The stored event with each updated field taken from the updates. `PatchedWellFormed` and `UpdateApplied` state what it becomes. |
| EventServiceLayer.UpdateEventEffect | backend/events/service.py:86-128 | The table, caller's updates and result of `update_event`. Its properties are `UpdateUnknownEvent`, `UpdateRejected`, `UpdateApplied`, `UpdateTouchesOnlyEvent` and `UpdateEventEffectOf`. |
| EventServiceLayer.UpdateUnknownEvent | backend/events/service.py:100-103 | An unknown id is not found before the updates are looked at, and nothing changes. |
| EventServiceLayer.UpdateRejected | backend/events/service.py:105-125 | Updates whose merge fails the checks are refused with the first failing check's error. Neither the table nor the caller's updates change. |
| EventServiceLayer.UpdateApplied | backend/events/service.py:86-128 | Updates whose merge passes the checks, with distinct settable keys, are written. The caller's updates gain `updatedAt`. The event returned has every updated field and the new `updatedAt`, and `get_event` then returns that same event. |
| EventServiceLayer.UpdateTouchesOnlyEvent | backend/events/service.py:86-128 | Whatever its outcome, `update_event` adds and removes no event and changes no other event. |
| EventServiceLayer.PatchedWellFormed | backend/events/service.py:107-122 | The returned event passes the checks whenever the merge does. |
| EventServiceLayer.PatchedReadsBack | backend/events/repositories.py:157-181 | The item the update leaves reads back as the patched event. |
| EventServiceLayer.PatchedItem | backend/events/repositories.py:157-181 | The item the update leaves holds, under each event attribute, the updated value or else the stored one, and the new `updatedAt`. |
| EventServiceLayer.UpdateEventEffectOf | backend/events/service.py:120-128 | Once the merge passes the checks, `update_event` does what the repository's `update` does. |
| EventServiceLayer.EventService.CreateEvent | backend/events/service.py:22-56 | A missing field or a failed check is returned and nothing is written. Otherwise the event is stored under its id and returned with its timestamps set. |
| EventServiceLayer.EventService.GetEvent | backend/events/service.py:58-73 | A missing event is not found, an unreadable one propagates the read error, and otherwise the stored event is returned. |
| EventServiceLayer.EventService.ListEvents | backend/events/service.py:75-84 | The result is that of the repository's `list`. |
| EventServiceLayer.EventService.UpdateEvent | backend/events/service.py:86-128 | The table, the caller's updates and the result are those of `UpdateEventEffect`. |
| EventServiceLayer.EventService.DeleteEvent | backend/events/service.py:130-139 | A missing event is not found and nothing changes. Otherwise exactly that event is removed. |

## Left out

- Throughout, DynamoDB itself, boto3, table names, environment variables, the FastAPI routers and pydantic request models (backend/main.py, backend/registration/api.py, backend/events/api.py), the infrastructure stack and the exception messages are not modelled. Exceptions are error values.
- RegistrationModels: `RegistrationResult` keeps only its status. The message text is not modelled.
- Text.Strip: Python's `str.strip` removes every Unicode whitespace character. The model removes space, tab, line feed and carriage return.
- RegistrationTable: GSI1 is a set of keys, `IndexKeys`. Eventual consistency and projection are not modelled.
- RegistrationRepositories.EventRepository.EventsOf: the order of the index entries is not modelled. The result is stated as a set of events, not as a sequence.
- RegistrationLayout.WaitlistReadBack: proved only up to 100000 waitlist entries. Beyond that, `05d` sorts position 100000 before 10001 (`Text.Format05dOrderBreaks`), so the waitlist would be read back out of order.
- RegistrationEffects.RegisterKeepsStore: for the same reason, it requires the waitlist to stay below 100000 entries.
- RegistrationServiceLayer.RegisterOnStoredEvent: requires the stored waitlist to hold fewer than 100000 entries, for the same reason.
- RegistrationEffects.CreatedStores: requires that no registration or waitlist records of the event remain in the table. When an event id is re-created, stale records are read back with it.
- RegistrationServiceLayer.RegistrationService.UnregisterUser: after a KeyError part way through, the writes already done remain. The contract states the error but not that partial table.
- Concurrency: two service calls running at once on the same event (lost updates between the read and the writes) are not modelled. Every call runs alone.
- EventModels: Python bools and floats are not values of the model. A `bool` capacity (a subclass of `int` in Python) is not covered.
- EventModels: date parsing (`datetime.fromisoformat` and `strptime`) is the parameter `validDate`.
- RegistrationTable.QueryKeys, RegistrationTable.IndexKeys: the source reads only the first page of the `REG#`, `WAIT#` and GSI1 queries (backend/registration/repositories.py:196-199, 218-221, 240-242, 255-257) and never follows `LastEvaluatedKey`, so records past DynamoDB's 1 MB page would be dropped. The model reads every matching record.
- EventStore.ScanOrder: a scan returns items in the table's own order. The model uses ascending key order, and scan pagination is folded into one complete scan.
- EventStore.EventRepository.Create: `datetime.utcnow()` is called twice in the source. The model uses one instant `now` for both timestamps.
- EventStore.EventRepository.Create: the source writes the timestamps back onto the caller's `Event` object. The model returns the stamped event as a value.
- UpdateExpressions: DynamoDB's full expression grammar and reserved placeholder characters are not modelled. Only `, ` separators and `#name = :value` clauses are parsed.
- EventServiceLayer.UpdateApplied: requires keys free of spaces and commas, and not `eventId`. Other names are refused or misparsed by the table in ways the model does not describe.
- `uuid.uuid4()` is the parameter `generated`, and `datetime.utcnow().isoformat()` is the parameter `now`.
