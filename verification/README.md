# prodkit-storage: a verified model of its protocols and algorithms

prodkit-storage is a persistence library over PostgreSQL and Redis. This project models the parts of it whose
correctness is not visible from one function body, and proves what each promises:

- **Keyset pagination** (`Sql`, `Text`, `Sorting`, `Pagination`, `CursorCodec`, `CursorValues`, `PageTokens`). Sort terms with directions and null
  placements become an OR of ANDs that SQL evaluates in three truth values. The boundary keeps exactly the rows
  after the cursor; a walk over pages of a changing table emits every row that stays once, in strictly increasing
  order. Cursor tokens are decoded down to base64url (section 5 of RFC 4648).
- **Crash-safe release publication** (`Release`). A remote store of releases, tags and assets is changed one API
  call at a time by a publisher that may stop before any call. A call budget stands for the crash.
- **Redis coordination** (`Locks`, `CacheFill`, `CacheTags`, `TagHistory`, `Idempotency`, `RateLimit`). Each command or script is
  one atomic step on a store with expiry and a millisecond clock.
- **The transactional outbox** (`Outbox`, `OutboxRuns`). One transaction's calls work on event objects; any number
  of transactions interleave, hold row locks, commit and roll back.
- **Single algorithms**: the batched backfill (`Backfill`), the migration linter's scanner (`MigrationSafety`), audit
  redaction on trees and on object graphs (`Audit`, `AuditIdempotence`, `AuditGraph`) and the SQLSTATE search (`ErrorGraph`).

Code that changes state is a class or a method with the source's fields and loops. Its contract ties the new state
to a function of the old one, and the lemmas over runs are about those functions.

`dafny verify dfyconfig.toml` checks the whole project.

## Conventions

- Clocks are non-decreasing integers. A record with expiry `e` is there while `now < e`.
- Fresh random tokens and identifiers are parameters that differ from every earlier one.
- A hash, a signature, JSON and `repr` are function parameters. Where their inverses matter, a predicate
  `Sound` states what is assumed of them. Nothing is claimed about collisions.
- Every lemma turns automatic induction off: inductions are written out.
- The functions `Step` and `Exec` run a state machine; `Enabled` and `Legal` say which steps the system allows.

## Where the code and an expectation part

Where the code does not do all one might expect, one lemma gives the exact condition, for all inputs, and another an
input that fails.

- `SortPlan.external_values` drops null placements, and a field name may read as a signed one: the texts parse back to
  the plan exactly when every placement is its field's default and every name is readable in its direction
  (`Sorting.ExternalValuesParseBack`; `SignedNameLost`, `PlacementLost`).
- A plan orders every table totally exactly when one of its columns is unique and NOT NULL
  (`Sorting.TotalIffSeparating`; `PlainRowsTie`, `NullableTieBreakerTies`); `resolve` sees to that.
- The two-column pagination form follows its own ORDER BY exactly when both columns are NOT NULL
  (`Pagination.LegacyExactIffNotNull`; `LegacyLosesNullPosition`, `LegacyLosesNullId`).
- A cursor gives its values back exactly when `CursorValues.Carried` says so of each, from the column's type and the
  value alone (`CursorValues.CoerceRestores`, `CursorRestores`; `TimesAndBytesLost`, `WideNumbersLost`,
  `DeepListsLost`, `ListsChange`, `EnumMembersLost`).
- A lock holder's release frees the key exactly when it has not called `acquire` again (`Locks.SecondAcquireForgets`;
  `AcquiredTwiceStaysHeld`).
- A cache fill loads once in every calm run without crashes exactly when no call asks for a TTL, a value or a tag that
  `set` refuses or an expiry that Redis does, and Redis answers (`CacheFill.LoadsOnceIffStoresWork`;
  `RaisedStoreLoadsTwice`). In general each load but the last was lost before it was stored (`OneLoadPerFill`). A lease
  that ends during a load is not calm (`ExpiredLeaseLoadsTwice`).
- All clients of a calm run return the same value exactly when the codec gives back what it stores
  (`CacheFill.AnswersAlikeIffFaithful`; `RereadDiffers`).
- A tag's invalidation deletes a live key exactly when a call set the key with the tag, no invalidation came since, and
  the tag never lapsed since (`TagHistory.DeletedIffLatelySet`). So it deletes a key that no longer carries the tag
  exactly when its last set left the tag out (`TagHistory.StrayDeletion`; `CacheTags.StaleMembershipDeletes`).
- Redacting twice is redacting once, for any policy that looks at paths alone, exactly when lists that are looked at drop items only from their
  end on and hashes are not hashed to others (`AuditIdempotence.IdempotentIffStable`; `FirstItemDroppedAgain`,
  `PathPolicyNotIdempotent`, `HashedNameIdempotence`).
- Among `n` reachable exceptions a held code is always found exactly when `n` is at most sixteen
  (`ErrorGraph.LimitExact`; `LongChainMissed`).

## Model

| member | source | states |
|---|---|---|
| Sorting.Boundary | src/prodkit_storage/database/sorting.py:133-143 | The loop returns the OR over terms of "equal on all earlier terms and after on this one", and refuses a wrong number of values. |
| Sorting.TermCriteriaExact | src/prodkit_storage/database/sorting.py:102-119 | In three-valued logic one term's `equality` keeps exactly the rows with the same cell and `after` exactly those whose cell comes later, for each direction, null placement and null cursor value. |
| Sorting.BoundaryExact | src/prodkit_storage/database/sorting.py:102-143 | The boundary is TRUE for a row exactly when the row comes strictly after the cursor in the plan's order. |
| Sorting.KeyOrderIrreflexive | src/prodkit_storage/database/sorting.py:94-128 | No key comes before itself in the plan's order. |
| Sorting.KeyOrderTransitive | src/prodkit_storage/database/sorting.py:94-128 | The plan's order is transitive. |
| Sorting.KeyOrderTotal | src/prodkit_storage/database/sorting.py:94-128 | Two different keys are always ordered. |
| Sorting.KeyOrderAsymmetric | src/prodkit_storage/database/sorting.py:94-128 | Two keys are never ordered both ways. |
| Sorting.ParseTermRoundTrip | src/prodkit_storage/database/sorting.py:71-85 | Parsing a term's external value gives the term without its null placement back, for exactly the field names that survive stripping and the sign prefix. |
| Sorting.Resolve | src/prodkit_storage/database/sorting.py:204-245 | Fails on the first duplicate or unknown field and no other input; otherwise the plan is the requested or default terms with null placements filled in, ended by the tie-breaker unless it was requested, with the inherited direction. |
| Sorting.ResolvedPlansAreDeterministic | src/prodkit_storage/database/sorting.py:176-183 | Every resolved plan holds a unique non-null field. |
| Sorting.RowOrderTotal | src/prodkit_storage/database/sorting.py:178-182 | Under such a plan any two distinct rows of a table that obeys its constraints are ordered. |
| Sorting.NullableTieBreakerTies | src/prodkit_storage/database/sorting.py:179-182 | With a nullable unique tie-breaker two distinct rows tie. |
| Sorting.TotalIffSeparating | src/prodkit_storage/database/sorting.py:178-182 | The plan orders every table that keeps its constraints totally if and only if one of its columns is declared unique and NOT NULL. |
| Sorting.PlainRowsTie | src/prodkit_storage/database/sorting.py:178-182 | For any other plan, a table with two rows that tie. |
| Sorting.ReparsedIffReadable | src/prodkit_storage/database/sorting.py:145-150 | Parsing the external values of a plan gives its terms without their null placements if and only if every name is readable in its direction. |
| Sorting.ReparsedResolvesBack | src/prodkit_storage/database/sorting.py:204-233 | The terms without placements resolve to the plan again if and only if every placement is its field's default. |
| Sorting.ExternalValuesParseBack | src/prodkit_storage/database/sorting.py:145-202 | The texts of a plan's external values parse to the plan again if and only if every placement is its field's default and every name is readable in its direction. |
| Sorting.SignedNameLost | src/prodkit_storage/database/sorting.py:39-85 | A registry that accepts the field `-age`: its plan's text reads as `age` descending and is refused. |
| Sorting.PlacementLost | src/prodkit_storage/database/sorting.py:84-85 | A plan with NULLS FIRST whose texts do not parse back to it. |
| Pagination.NextCursorAccepted | src/prodkit_storage/database/pagination.py:374-420 | The cursor a page issues holds the last kept row's key and the next query of the listing accepts it, whatever its limit. |
| Pagination.FetchIsStrict | src/prodkit_storage/database/pagination.py:374-398 | A fetch ranges over exactly the rows beyond its cursor, in strictly increasing order. |
| Pagination.PageFacts | src/prodkit_storage/database/pagination.py:401-420 | What a page of a walk shows, and exactly when it issues a cursor. |
| Pagination.WalkStrictlyIncreasing | src/prodkit_storage/database/pagination.py:374-420 | However the table changes between fetches, a walk emits rows in strictly increasing sort order, so no sort key twice. |
| Pagination.WalkCoversStableKeysOnce | src/prodkit_storage/database/pagination.py:374-420 | A complete walk emits each sort key that is present at every fetch exactly once. |
| Pagination.AscendingUnique | src/prodkit_storage/database/pagination.py:398-398 | A set of rows has only one strictly increasing listing. |
| Pagination.FixedTablePage | src/prodkit_storage/database/pagination.py:374-420 | On an unchanging table page i starts after as many rows of the sorted table as the fetches before it asked for. |
| Pagination.FixedTableWalkItems | src/prodkit_storage/database/pagination.py:374-420 | On an unchanging table the pages concatenate to a prefix of the sorted table, and to all of it when the walk is complete. |
| Pagination.FixedTableWalkLength | src/prodkit_storage/database/pagination.py:374-420 | With one limit throughout, such a walk has at most max(1, ceil(n/limit)) pages, and exactly that many when complete. |
| Pagination.LegacyBoundaryExact | src/prodkit_storage/database/pagination.py:437-445 | The row-value comparison keeps exactly the rows after the cursor for which it is not UNKNOWN: a non-null order column on both sides and, where those are equal, a non-null id. |
| Pagination.LegacyExactIffNotNull | src/prodkit_storage/database/pagination.py:423-445 | It agrees with its own ORDER BY on every row and cursor if and only if both columns are NOT NULL. |
| Pagination.LegacyLosesNullPosition | src/prodkit_storage/database/pagination.py:441-443 | A row next to a cursor with a NULL position that is never returned. |
| Pagination.LegacyLosesNullId | src/prodkit_storage/database/pagination.py:441-443 | A row whose position equals the cursor's and whose id, or the cursor's, is NULL, that is never returned. |
| Pagination.OffsetModesAgree | src/prodkit_storage/database/pagination.py:288-302 | Counting all rows and looking one row ahead give the same items and the same `has_next_page`. |
| Pagination.OffsetPagesCoverTable | src/prodkit_storage/database/pagination.py:279-302 | Pages 1 to ceil(n/limit) hold every row once in order, and exactly the pages before the last have a next page. |
| CursorCodec.DecodeEncode | src/prodkit_storage/database/pagination.py:101-106 | The lenient base64url decoder inverts the encoder on every byte string. |
| CursorCodec.StripThenRepad | src/prodkit_storage/database/pagination.py:101-105 | Rebuilding `-len % 4` pads restores exactly the padding that was stripped, for every length. |
| CursorCodec.AsciiEncode | src/prodkit_storage/database/pagination.py:101-106 | A token is ASCII, so it passes the check that comes before decoding. |
| CursorCodec.VerifySign | src/prodkit_storage/database/pagination.py:98-118 | Whatever the JSON library writes is signed, and verifying the token gives it back, for every payload length. |
| CursorCodec.StateRoundTrip | src/prodkit_storage/database/pagination.py:75-96 | `encode_state` works if and only if every value fits the JSON library's integers and nesting, and then `decode_state` inverts it. |
| CursorCodec.LegacyRoundTrip | src/prodkit_storage/database/pagination.py:60-73 | `decode` inverts `encode` wherever that works. |
| CursorCodec.VersionsDoNotMix | src/prodkit_storage/database/pagination.py:67-88 | Each decoder refuses the other format's tokens. |
| CursorValues.KeptReturns | src/prodkit_storage/database/pagination.py:502-515 | Numbers that fit, finite floats, text, and lists and mappings of such values come back from JSON as they were. |
| CursorValues.OthersDiffer | src/prodkit_storage/database/pagination.py:502-515 | Every other value comes back unequal, if it can be written at all. |
| CursorValues.SerializeWritable | src/prodkit_storage/database/pagination.py:502-515 | What `_serialize` and the JSON library make of a value can be written, as deep as the value is nested. |
| CursorValues.CoerceRestores | src/prodkit_storage/database/pagination.py:502-533 | For every column type, enumerations included, a value sent through a cursor is restored if and only if the column's type and the value say it is carried. |
| CursorValues.CursorRestores | src/prodkit_storage/database/pagination.py:75-118 | A whole cursor is written, signed, verified, decoded and coerced to the same values if and only if each of them is carried. |
| CursorValues.TimesAndBytesLost | src/prodkit_storage/database/pagination.py:533-533 | A time is written as text that its constructor refuses; bytes and intervals are not written. |
| CursorValues.WideNumbersLost | src/prodkit_storage/database/pagination.py:98-99 | NaN comes back as NULL; an integer above 64 bits is refused, also inside a mapping. |
| CursorValues.DeepListsLost | src/prodkit_storage/database/pagination.py:98-99 | A list nested one deeper than the JSON library allows is refused. |
| CursorValues.ListsChange | src/prodkit_storage/database/pagination.py:511-515 | A list of decimals comes back as texts and a tuple as a list. |
| CursorValues.EnumListFound | src/prodkit_storage/database/pagination.py:531-532 | An enum member whose value is a list is found again. |
| CursorValues.EnumMembersLost | src/prodkit_storage/database/pagination.py:531-532 | An enum member whose value is a decimal is not found; one whose value is None comes back as NULL. |
| PageTokens.TokenPrepares | src/prodkit_storage/database/pagination.py:374-420 | A cursor of 64-bit integers can be sent as a token, which prepares the query the cursor itself would. |
| PageTokens.TokenWalkIsWalk | src/prodkit_storage/database/pagination.py:374-420 | A walk whose pages are fetched with the signed tokens of the pages before is a walk by cursors, and conversely. |
| PageTokens.TokenWalkCovers | src/prodkit_storage/database/pagination.py:374-420 | So it emits rows in strictly increasing order and each key that stays present exactly once. |
| Release.GitHubClient.FindRelease | ops/release/publish_release.py:279-285 | Finds the one release of a tag, none, or reports that there are several. |
| Release.GitHubClient.CreateDraft | ops/release/publish_release.py:287-308 | Adds one draft with a fresh identifier and nothing else. |
| Release.GitHubClient.UpdateRelease | ops/release/publish_release.py:310-323 | Changes only the release's draft flag, prerelease flag and target. |
| Release.GitHubClient.DeleteRelease | ops/release/publish_release.py:325-330 | Removes the release with its assets and nothing else. |
| Release.GitHubClient.ListAssets | ops/release/publish_release.py:332-344 | Lists each asset of the release once. |
| Release.GitHubClient.DeleteAsset | ops/release/publish_release.py:346-351 | Removes that asset and nothing else. |
| Release.GitHubClient.UploadAsset | ops/release/publish_release.py:353-371 | Adds one asset with the local name, size and digest. |
| Release.GitHubClient.CreateTagRef | ops/release/publish_release.py:401-417 | Creates an absent tag and never moves one. |
| Release.VerifyRemoteAssets | ops/release/publish_release.py:131-154 | Passes if and only if the assets are the expected names, sizes and digests, each once and nothing more. |
| Release.NamedSole | ops/release/publish_release.py:533-536 | The sync loop's "one match" test holds exactly when the release has one asset of that name and it matches. |
| Release.SyncName | ops/release/publish_release.py:533-542 | One name ends with a sole match; a sole match is left alone and other names are untouched, wherever it stops. |
| Release.SyncDraftAssets | ops/release/publish_release.py:519-551 | The draft ends with exactly the expected assets from any junk, duplicates or mismatches; matching assets are kept; other releases are untouched. |
| Release.PrepareDraftRelease | ops/release/publish_release.py:443-475 | Returns the draft pinned to the commit. |
| Release.PrepareReleaseForPublication | ops/release/publish_release.py:478-516 | Recognizes a tagged published release, rebuilds an untagged one, and otherwise leaves one pinned draft; refuses without change. |
| Release.EnsureExactTag | ops/release/publish_release.py:554-566 | Creates an absent tag, accepts one on the commit and moves none. |
| Release.Expose | ops/release/publish_release.py:608-621 | The release becomes visible only with the tag on the commit and the exact asset set. |
| Release.Publish | ops/release/publish_release.py:569-622 | Stopped before any API call, the run has changed the store only in the allowed ways; not stopped, it succeeds if and only if the store was recoverable, and then the tag's one release is complete. |
| Release.RunsStaySafe | ops/release/publish_release.py:478-621 | Over every sequence of runs crashed anywhere, for any commits, a published release is complete for the commit its tag is on. |
| Release.RunsKeepTag | ops/release/publish_release.py:494-496 | An existing tag is never moved, and runs for other commits leave the whole store unchanged. |
| Release.RunsStayRecoverable | ops/release/publish_release.py:478-621 | After any crashed runs for a commit an uninterrupted run for it still succeeds. |
| Locks.RedisLock.Acquire | src/prodkit_storage/redis/locks.py:55-65 | Takes the lock at the first free poll, or gives up at the first one past the deadline with an error or `False`. |
| Locks.RedisLock.Extend | src/prodkit_storage/redis/locks.py:67-73 | Renews the lease exactly when the handle is acquired and its token still owns the key. |
| Locks.RedisLock.Release | src/prodkit_storage/redis/locks.py:75-80 | Deletes the key exactly when its token still owns it, and drops the handle either way. |
| Locks.RunsStayFenced | src/prodkit_storage/redis/locks.py:16-80 | In every interleaving an unexpired holder's lease is the one in the store. |
| Locks.MutualExclusion | src/prodkit_storage/redis/locks.py:55-80 | Two unexpired, unreleased holders never coexist. |
| Locks.HolderKeepsLease | src/prodkit_storage/redis/locks.py:16-28 | No other token's command changes an unexpired lease. |
| Locks.SecondAcquireForgets | src/prodkit_storage/redis/locks.py:55-80 | Over any run within a holder's lease, of any clients, its release at the end frees the key if and only if it has not called `acquire` again. |
| Locks.AcquiredTwiceStaysHeld | src/prodkit_storage/redis/locks.py:55-80 | Acquired, acquired again and released, a lock is still held. |
| CacheFill.OneLoadPerFill | src/prodkit_storage/redis/cache.py:89-114 | In every interleaving of any number of clients in which no entry and no lease of a client inside the section expires, there is at most one load beyond those whose store raised or whose client crashed before it, and every client that returns has the last load's value, its own or read back. |
| CacheFill.LoadsOnceIffStoresWork | src/prodkit_storage/redis/cache.py:62-121 | One load is guaranteed in all such runs without crashes if and only if every TTL is positive and with its jitter accepted by Redis, every value can be encoded, no tag is blank, and Redis answers. |
| CacheFill.RaisedStoreLoadsTwice | src/prodkit_storage/redis/cache.py:62-121 | For each TTL, value or list of tags that cannot be stored, a run with two loads. |
| CacheFill.AnswersAlikeIffFaithful | src/prodkit_storage/redis/cache.py:99-114 | In all calm runs every client that returns has the same value if and only if the codec gives back each value that a client may both store and return. |
| CacheFill.RereadDiffers | src/prodkit_storage/redis/cache.py:110-114 | For any other value, a run in which the loader returns it and the next client what the codec makes of it. |
| CacheFill.TokensStayApart | src/prodkit_storage/redis/cache.py:102-108 | Every step keeps the clients' lock tokens distinct. |
| CacheFill.SectionStaysOwned | src/prodkit_storage/redis/cache.py:108-114 | Every such step keeps whoever is inside the section the owner of the lock. |
| CacheFill.ValueStaysOne | src/prodkit_storage/redis/cache.py:99-114 | Every such step keeps the loads equal to those lost plus the one that is cached or being stored, whose value is all that clients and cache know. |
| CacheFill.ExpiredLeaseLoadsTwice | src/prodkit_storage/redis/cache.py:108-114 | A run from a cold cache in which a lease ends during a load and two loads succeed. |
| CacheTags.Spread | src/prodkit_storage/redis/cache.py:120-120 | The jitter is never more than half the lifetime. |
| CacheTags.JitteredTtl | src/prodkit_storage/redis/cache.py:116-121 | The lifetime is positive and between half and one and a half of the requested one. |
| CacheTags.SyncCache.Get | src/prodkit_storage/redis/cache.py:58-60 | Returns the stored value exactly while the key is live. |
| CacheTags.SyncCache.Set | src/prodkit_storage/redis/cache.py:62-80 | Stores the value and leaves each tag's index holding the key with the longer of its expiry and the key's plus a minute, one index for tags that strip to the same text; a TTL that is not positive or a blank tag changes nothing. |
| CacheTags.SyncCache.Delete | src/prodkit_storage/redis/cache.py:82-83 | Removes exactly those keys and counts the live ones. |
| CacheTags.SyncCache.InvalidateTag | src/prodkit_storage/redis/cache.py:85-87 | Removes exactly the index's members and the index, and counts the live ones; a blank tag changes nothing. |
| CacheTags.TagTurn | src/prodkit_storage/redis/cache.py:75-79 | SADD with EXPIRE NX and then EXPIRE GT never shortens an index's life and gives it at least the key's plus a minute. |
| CacheTags.StepKeepsIndexing | src/prodkit_storage/redis/cache.py:62-87 | Each operation and the passing of time keep the index invariant. |
| CacheTags.RunsKeepIndexing | src/prodkit_storage/redis/cache.py:62-87 | So does every timed run. |
| CacheTags.TagsCoverTheirKeys | src/prodkit_storage/redis/cache.py:19-87 | After any timed run each live key is in the index of every tag of its latest set, which outlives it by 60 s; invalidating a tag leaves no live key carrying it and deletes no key never set with it. |
| TagHistory.IndexLastsAsSaid | src/prodkit_storage/redis/cache.py:73-80 | After any timed run a tag's index is live if and only if some call set a key with the tag, was not invalidated since, and is less than a lifetime and a minute old; it lasts until the latest such time. |
| TagHistory.MembersLatelySet | src/prodkit_storage/redis/cache.py:73-87 | It holds a key if and only if a call set the key with the tag, no invalidation came since, and the tag never lapsed since. |
| TagHistory.DeletedIffLatelySet | src/prodkit_storage/redis/cache.py:19-27 | So invalidating the tag deletes a live key if and only if the calls say so. |
| TagHistory.StrayDeletion | src/prodkit_storage/redis/cache.py:19-27 | A key is deleted though it no longer carries the tag if and only if it was lately set with the tag and its last set left it out. |
| TagHistory.OnlyCarriersDeleted | src/prodkit_storage/redis/cache.py:19-27 | Carriers alone are deleted if and only if no live key lately set with the tag was last set without it. |
| CacheTags.KeptTagsDeleteCarriers | src/prodkit_storage/redis/cache.py:62-87 | If no call sets a key without a tag it had, an invalidation deletes exactly the live carriers. |
| CacheTags.StaleMembershipDeletes | src/prodkit_storage/redis/cache.py:19-27 | A key set again without a tag is still deleted with it. |
| Idempotency.IdempotencyStore.Begin | src/prodkit_storage/redis/idempotency.py:60-81 | Starts and records a lease exactly on a vacant key; otherwise changes nothing and answers conflict, stored response or in progress. |
| Idempotency.IdempotencyStore.Complete | src/prodkit_storage/redis/idempotency.py:83-103 | Stores the response exactly when the key is in progress under this token and fingerprint; otherwise an error and no change. |
| Idempotency.IdempotencyStore.Release | src/prodkit_storage/redis/idempotency.py:105-106 | Deletes the record exactly when this token holds it. |
| Idempotency.StartedIffVacant | src/prodkit_storage/redis/idempotency.py:18-23 | A `begin` is started if and only if nothing live is recorded, and then holds the key. |
| Idempotency.RunsStayTracked | src/prodkit_storage/redis/idempotency.py:60-106 | In every run each recorded token was issued and is recorded under one key. |
| Idempotency.LeaseExcludes | src/prodkit_storage/redis/idempotency.py:18-41 | Until it expires or its own token ends it, a lease's record is unchanged, every other begin on the key answers busy or conflict, and no other token's complete or release succeeds. |
| Idempotency.RetiredForGood | src/prodkit_storage/redis/idempotency.py:25-41 | A lease lost to expiry, completion or release can complete or release nothing in any later run. |
| Idempotency.TokenEndsOnce | src/prodkit_storage/redis/idempotency.py:25-41 | Over a whole run one token's complete and release calls succeed at most once together. |
| Idempotency.CompletedStays | src/prodkit_storage/redis/idempotency.py:77-81 | Until its TTL ends a completed record is changed by nothing, every begin of the same request gets the stored response and any other conflicts. |
| Idempotency.OneStart | src/prodkit_storage/redis/idempotency.py:60-106 | While no record of a key expires or is released at most one of its begins is told to start, and exactly one if there is any. |
| RateLimit.RateLimiter.Check | src/prodkit_storage/redis/rate_limit.py:48-67 | Refuses bad parameters without change; otherwise charges the refilled bucket if it holds the cost, keeps it for the TTL, and reports what remains and how long to wait. |
| RateLimit.TtlFills | src/prodkit_storage/redis/rate_limit.py:57-57 | The TTL is at least as long as an empty bucket takes to fill. |
| RateLimit.RefillsCompose | src/prodkit_storage/redis/rate_limit.py:21-22 | Refilling in two steps is refilling once for the sum, through the capacity cap. |
| RateLimit.ExpiryInvisible | src/prodkit_storage/redis/rate_limit.py:18-32 | A bucket that expires has the level it would have had if it were never forgotten. |
| RateLimit.WindowBound | src/prodkit_storage/redis/rate_limit.py:10-34 | Over all request sequences, expiries included, the cost admitted for a key in any window of d ms is at most capacity plus refill times d. |
| RateLimit.WindowBoundMet | src/prodkit_storage/redis/rate_limit.py:21-27 | The bound is attained: a full burst, then every whole token the next d ms refill. |
| RateLimit.DeniedRunsChangeNothing | src/prodkit_storage/redis/rate_limit.py:21-32 | Any number of denied requests leaves the later level what it would have been. |
| RateLimit.RetryAfterExact | src/prodkit_storage/redis/rate_limit.py:28-30 | After a denial, with nothing admitted in between, the same cost is allowed at a later instant if and only if that is at least `retry_after_ms` later. |
| Outbox.OutboxEvent.Claim | src/prodkit_storage/outbox.py:77-82 | The loop body leases the event under the token and counts the attempt. |
| Outbox.OutboxEvent.MarkFailed | src/prodkit_storage/outbox.py:250-270 | Frees the event for a delayed retry, or buries it once the attempts are used up; bad parameters change nothing. |
| Outbox.OutboxSession.Claim | src/prodkit_storage/outbox.py:52-84 | Leases exactly the selected due and unlocked rows, each under its own token, and changes no other row; refuses bad options. |
| Outbox.OutboxSession.Complete | src/prodkit_storage/outbox.py:123-149 | Publishes the event exactly when it is leased under the token; otherwise a lost lease and no change. |
| Outbox.OutboxSession.Fail | src/prodkit_storage/outbox.py:181-208 | Retries or buries the event exactly when it is leased under the token and the parameters are valid; otherwise no change. |
| Outbox.BackoffBounds | src/prodkit_storage/outbox.py:268-268 | The delay is nondecreasing in attempts and lies between min(base, 3600) and 3600. |
| Outbox.BackoffDoubles | src/prodkit_storage/outbox.py:268-268 | From the second attempt on the delay doubles until it reaches the hour. |
| Outbox.ClaimableFromDue | src/prodkit_storage/outbox.py:64-71 | The claim predicate accepts an unfinished event from one computable instant on and not before, and a finished one never. |
| Outbox.LargeBatchTakesAll | src/prodkit_storage/outbox.py:72-76 | A batch no smaller than the number of candidates claims every event that is due and unlocked. |
| Outbox.CountsAddUp | src/prodkit_storage/outbox.py:300-313 | The status counts add up to the rows of the table. |
| Outbox.GetOutboxMetrics | src/prodkit_storage/outbox.py:307-360 | The counts are those of the statuses and sum to the rows; the age bounds that of every pending event and is absent exactly when none is pending. |
| OutboxRuns.ClaimIsSessionClaim | src/prodkit_storage/outbox.py:62-83 | A claim step of the many-transaction machine is the session's claim on that transaction's view. |
| OutboxRuns.FinishIsSessionCall | src/prodkit_storage/outbox.py:123-208 | A finishing step is the session's complete or fail on that view. |
| OutboxRuns.RunsStaySound | src/prodkit_storage/outbox.py:52-208 | In every run of interleaved transactions a row is processing iff it has a token, no row is locked twice, each token belongs to one event, and attempts, failures and version stay in step. |
| OutboxRuns.TerminalAbsorbs | src/prodkit_storage/outbox.py:64-76 | Published and dead rows are never changed again. |
| OutboxRuns.HistoryGrows | src/prodkit_storage/outbox.py:52-208 | No run loses a committed event or the record of its failures. |
| OutboxRuns.CountsMatchEnqueued | src/prodkit_storage/outbox.py:300-313 | Over every run from an empty table the status counts sum to the number of events whose enqueue was committed. |
| OutboxRuns.RetiredForGood | src/prodkit_storage/outbox.py:123-208 | A retired token finishes nothing in any run. |
| OutboxRuns.CommitRetires | src/prodkit_storage/outbox.py:77-83 | Committing a reclaim, completion or failure retires the token the event was leased under. |
| OutboxRuns.FinishesOnce | src/prodkit_storage/outbox.py:123-208 | Each token finishes at most one transition of one event, and none it is still leased under. |
| OutboxRuns.AtMostMaxFailures | src/prodkit_storage/outbox.py:250-270 | Over every run, stale reclaims included, an event is failed at most `max_attempts` times, and is dead once it has been. |
| OutboxRuns.OpenClaimsDisjoint | src/prodkit_storage/outbox.py:72-76 | Rows one open transaction has claimed are in no claim of another until it ends. |
| OutboxRuns.LeaseStands | src/prodkit_storage/outbox.py:62-76 | Until it is stale a committed claim is exclusive: nothing but its own token changes the event. |
| OutboxRuns.HolderFinishes | src/prodkit_storage/outbox.py:131-149 | The holder's completion is never blocked by such a claim and, committed, publishes the event. |
| Backfill.BackfillJob.ProcessBatch | src/prodkit_storage/database/backfill.py:76-76 | The assumed processor: takes the next at most batch-size rows after the checkpoint. |
| Backfill.BackfillJob.RunBatch | src/prodkit_storage/database/backfill.py:74-78 | One transaction commits one batch with its checkpoint, or rolls both back; an accepted batch that is not done made progress. |
| Backfill.BackfillJob.Run | src/prodkit_storage/database/backfill.py:52-91 | Under any failure, cap and done policy the committed rows are exactly those up to the committed checkpoint, each once; the reported counts are the rows done; an uncapped run ends by rows remaining, and a completed one did every row. |
| Backfill.RunsCompose | src/prodkit_storage/database/backfill.py:73-84 | However batches are split over capped or failed runs, the rows done depend on their number alone. |
| Backfill.EnoughBatchesFinish | src/prodkit_storage/database/backfill.py:139-143 | As many batches as rows left finish the job. |
| Backfill.CommonPoliciesHonest | src/prodkit_storage/database/backfill.py:23-27 | Reporting done on a short batch, on an empty rest or on an empty batch never leaves rows behind. |
| Backfill.Finish | src/prodkit_storage/database/backfill.py:52-91 | A run that is neither capped nor failed does every remaining row. |
| MigrationSafety.UpgradeScanner.ScanCall | src/prodkit_storage/database/migration_safety.py:151-264 | One call adds exactly its created table or its findings, given the tables known so far and the autocommit flag. |
| MigrationSafety.UpgradeScanner.ScanBlock | src/prodkit_storage/database/migration_safety.py:125-149 | On every statement tree, the recursive scan finds what a left fold of the rule over the calls in document order finds. |
| MigrationSafety.FoldAppend | src/prodkit_storage/database/migration_safety.py:125-149 | Scanning one stretch of calls and then another is scanning both. |
| MigrationSafety.MoreTablesFewerIssues | src/prodkit_storage/database/migration_safety.py:173-212 | Knowing more created tables yields a subsequence of the findings and removes only those a created table excuses. |
| MigrationSafety.FlattenInAutocommit | src/prodkit_storage/database/migration_safety.py:127-146 | The autocommit flag reaches every call under the block, through any nesting. |
| MigrationSafety.WrappingRemovesTransactionIssues | src/prodkit_storage/database/migration_safety.py:127-132 | Wrapping a block in `autocommit_block()` removes exactly the findings about index transactions. |
| MigrationSafety.WrappingAnywhere | src/prodkit_storage/database/migration_safety.py:125-146 | Wrapping any runs of statements at any depth leaves a subsequence of the findings, with all those not about index transactions. |
| MigrationSafety.ExtractWaivers | src/prodkit_storage/database/migration_safety.py:276-298 | The first waiver assignment decides, and must be a literal collection of strings. |
| MigrationSafety.InspectMigration | src/prodkit_storage/database/migration_safety.py:64-103 | The report holds the findings of the first `upgrade`, or that there is none; it is safe if and only if every error in it is waived. |
| MigrationSafety.BlockingExact | src/prodkit_storage/database/migration_safety.py:43-53 | The blocking issues are, in order, the errors no waiver names. |
| MigrationSafety.MoreWaiversFewerBlocking | src/prodkit_storage/database/migration_safety.py:43-49 | More waivers leave a subsequence of the blocking issues. |
| Audit.NonInterference | src/prodkit_storage/security/audit.py:85-125 | For classifiers and hooks that look at paths alone, payloads that differ only below masked, dropped or rejected paths give the same result, errors included. |
| Audit.SettledUnchanged | src/prodkit_storage/security/audit.py:103-125 | A payload that every action leaves as it is comes out unchanged. |
| AuditIdempotence.SanitizedSettled | src/prodkit_storage/security/audit.py:85-125 | What a stable policy returns is such a payload. |
| AuditIdempotence.IdempotentIffStable | src/prodkit_storage/security/audit.py:85-140 | For every policy whose classifiers and hooks look at paths alone, sanitizing twice is sanitizing once on all payloads if and only if lists that are looked at drop items only from their end on, unless refused, and hashing a hash gives it again wherever hashing is reached. |
| AuditIdempotence.ListChangesTwice | src/prodkit_storage/security/audit.py:115-124 | For each list position dropped before one that is not, a payload that changes the second time. |
| AuditIdempotence.HashChangesTwice | src/prodkit_storage/security/audit.py:101-102 | For each value whose hash is hashed to another, a payload that changes the second time. |
| AuditIdempotence.PlainPoliciesStable | src/prodkit_storage/security/audit.py:115-124 | A policy that drops no list position and hashes nothing is idempotent. |
| AuditIdempotence.DefaultIdempotent | src/prodkit_storage/security/audit.py:155-175 | Under the default policy sanitizing twice is sanitizing once. |
| AuditIdempotence.DefaultIsDiscreet | src/prodkit_storage/security/audit.py:155-175 | What the default policy returns has no secret-named field at any depth and every regulated one masked. |
| AuditIdempotence.FirstItemDroppedAgain | src/prodkit_storage/security/audit.py:44-61 | By leaf name: a policy whose secret name is `0` is not idempotent on a list of two. |
| AuditIdempotence.HashedNameIdempotence | src/prodkit_storage/security/audit.py:142-150 | By leaf name with hashing: a policy that hashes one name is idempotent if and only if hashing a hash gives it again. |
| AuditIdempotence.PathPolicyNotIdempotent | src/prodkit_storage/security/audit.py:119-131 | By field action: under a policy naming list position 0, sanitizing twice drops two items. |
| AuditGraph.AuditWalk.Sanitize | src/prodkit_storage/security/audit.py:85-125 | The walk with its `visited` set ends on every object graph, cycles included, returns what its specification does and restores `visited`. |
| AuditGraph.WalkIsSanitize | src/prodkit_storage/security/audit.py:103-124 | On a graph that unfolds to a tree, shared parts included, it reports no cycle and returns what sanitizing the tree returns. |
| AuditGraph.PayloadsNonInterfering | src/prodkit_storage/security/audit.py:82-125 | So two acyclic payloads alike but for redacted parts come out the same, however they share objects. |
| AuditGraph.SucceedsOnlyWithoutCycle | src/prodkit_storage/security/audit.py:103-124 | A walk that succeeds has met no kept container inside itself, nor one it is already inside. |
| AuditGraph.KeptCycleRefused | src/prodkit_storage/security/audit.py:92-124 | A kept cycle anywhere below makes the whole walk fail, for its cycle or depth unless a field is refused first. |
| AuditGraph.SelfContainmentFound | src/prodkit_storage/security/audit.py:115-117 | A kept list that contains itself is reported as a cycle. |
| ErrorGraph.GetSqlstate | src/prodkit_storage/database/errors.py:36-60 | The loop ends on every graph, by visits left and exceptions pending, with the result of its specification. |
| ErrorGraph.FoundIsHeld | src/prodkit_storage/database/errors.py:44-54 | A returned code is held by an exception reachable from the error. |
| ErrorGraph.NothingFound | src/prodkit_storage/database/errors.py:46-60 | When nothing is returned, what was visited holds no code and is everything reachable or sixteen exceptions. |
| ErrorGraph.FoundIffHeld | src/prodkit_storage/database/errors.py:36-60 | With at most sixteen reachable exceptions a code is returned if and only if one of them holds a five-character code. |
| ErrorGraph.NearestFirst | src/prodkit_storage/database/errors.py:51-58 | The error's own code wins, then that of the link pushed last. |
| ErrorGraph.LongChainMissed | src/prodkit_storage/database/errors.py:44-59 | For each length above sixteen, a chain that is reached as a whole, whose last exception alone holds a code, and in which it is not found. |
| ErrorGraph.LimitExact | src/prodkit_storage/database/errors.py:46-46 | With at most n reachable exceptions a held code is always found if and only if n is at most sixteen. |

## Left out

- The async twins: the same logic as the modelled functions.
- SQLAlchemy, Alembic, psycopg, orjson, HTTP and Redis client behaviour beyond the atomic effect of each call; the ORM's
  identity map.
- HMAC, SHA-256, JSON and per-type parsing are parameters; no claim that fingerprints or digests never collide.
- Floating-point rounding in the token bucket and the jitter: arithmetic is over reals.
- Clocks that go backwards or differ between workers, and changing limits on one rate-limit key.
- Redis's own boundary convention: a key is taken to be gone at its expiry instant, on every command alike.
- Unicode case folding: `lower` and `upper` change ASCII letters only.
- Collapsing joined duplicates with `unique()`: statements yield distinct rows; a sort field's accessor reads the
  column it sorts by; sort values are optional integers.
- `KeyBuilder`'s namespace, escaping and hashing of long names: a `Tag` stands for the key built of a tag's stripped
  text, different texts build different keys, and cache keys and tag keys are disjoint.
- Expiries that Redis refuses, outside `CacheFill`, where the longest one it takes is a constant.
- `get_or_set` as a class method: it is modelled on values, as the interleaved steps of any number of clients.
- Direct calls to `mark_outbox_published` and `mark_outbox_failed` outside the ownership-checked operations.
- Outbox payloads, topics, headers and tenants: no operation after the enqueue reads or changes them.
- Re-evaluation of a claim's rows after a lock wait: a claim selects and locks in one step.
- Release retries (including a retried draft creation whose first reply was lost), API pagination caps, annotated tags,
  hashing of local files, checks of the environment, replies that do not match the store, and concurrent publishers.
- Linter messages, schemas, dynamic SQL and branch paths: the scanner reads calls in document order only.
- Audit values other than text, mappings, lists, tuples and opaque scalars; classifiers that look at the value.
- Cursor values in enumerations that are themselves numbers or texts, and text that is not well-formed Unicode. The
  constructors of column types and the JSON library's nesting limit are parameters (`CursorValues.Python.Sound`), among
  them that `time` reads no text.
- `has_sqlstate` and the `is_*` predicates: single tests of the code found.
- Backfill processors other than the one that takes the next rows after the checkpoint, and concurrent workers.
- Configuration, CLI, health, telemetry, engines and sessions, framework adapters, column-type extensions, SQL templates,
  repositories, streams, backup and load scripts.
