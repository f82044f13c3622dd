# Content aggregation core, modelled in Dafny

This project models the core of a Go service that merges content from several
providers into paginated pages. The core has three parts.

- **The content-mix sequencer** (`sequence.go`). It walks a cyclic mix
  configuration, one step per position, for `offset + limit` steps. Step `i`
  uses mix entry `i mod |mix|`. A failing provider is replaced by the entry's
  single fallback when that fallback is healthy. Otherwise the whole walk
  stops there, with no error. Each provider has its own running index
  counter, and only steps at or after `offset` are emitted.
- **The cache state** (`cache.go`). Per provider it holds a content list and
  a fail flag. The model covers the `Fails` and `ContentItem` lookups, the
  snapshot copy, and the state change that one provider refresh makes. A
  failed fetch sets the flag and keeps the stale list. A successful fetch
  clears the flag and replaces the list.
- **The read path** `Service.ContentItems` (`service.go`). It validates
  `limit`/`offset` and takes one snapshot. It runs a sequencer against that
  snapshot, passes any sequencer error on, and resolves every address against
  the same snapshot, leaving out nil lookups.

Providers are strings, as in the source. Content items are a type parameter
`C`. A stored list slot is a Go pointer, `Ref<C> = Null | Ptr(c)`. A lookup
returns one of three values: `Item(c)`, `EmptyPlaceholder` or `Nil`.

The sequencer has a recursive reference definition, `Sequencing.Walk`: the
index of a step is the number of earlier steps that went to the same
provider. `Sequencing.Sequence` follows the source loop, with its map of
counters and its wrapping configuration index. It is proved to return
exactly `Sequencing.SequenceSpec`. The read path is the method
`Service.ContentItems`. It takes the snapshot and the sequencer as
parameters, the way the stub sequencer and stub cacher in
`service_test.go:11-26` do. The snapshot is the `State` interface of
`service.go:34-37`, a `Service.StateView`: a health view and a content
lookup. `Service.CacheView` presents an in-memory state that way, and
`Service.MixSequencer` wraps the configured sequencer in the `Sequencer`
interface. `ServiceProperties.ConfiguredContentItems` wires the two into
`Service.ContentItems` as the program does.

**Code versus tests on out-of-range lookups.** For an index at or past the
end of a provider's list, `cache.go:54-55` returns a freshly allocated empty
item, which is not nil. The tests expect something else:
`cache_test.go:112` expects nil, and `service_test.go:58-85` expects the
service to drop such an address. This model follows the code. So
`Caching.ContentItem` returns `EmptyPlaceholder` there, and
`ServiceProperties.OutOfRangeIsKept` and
`ServiceProperties.MissingItemExample` show that the service keeps that
placeholder in its output. With the in-memory state, the service's nil check
drops only nil slots stored inside a list. Against a state whose lookup does
answer nil out of range, `ServiceProperties.NilLookupExample` shows that the
service returns the two items the test asks for.

## Model

| member | source | states |
|---|---|---|
| ServiceTypes.ErrorText | service.go:10-12 | a validation error's message is its underlying string, unchanged |
| Sequencing.MakeConfiguredSequencer | sequence.go:9-13 | the sequencer keeps the mix configuration it was built with |
| Sequencing.Choose | sequence.go:26-33 | a mix entry resolves to its own provider exactly when that one is healthy; otherwise to its fallback, which must be present and healthy; otherwise to nothing. A resolved provider is never failing |
| Sequencing.Walk | sequence.go:22-48 | a walk of `n` steps emits at most `n` addresses |
| Sequencing.WalkIndicesNonNegative | sequence.go:35-41 | every index a walk emits is non-negative, since it counts earlier steps |
| Sequencing.SequenceSpec | sequence.go:17-40 | a page is an error exactly when `limit` or `offset` is negative, and that error is the validation error with the source's message. A page never has more than `limit` addresses, all with non-negative indices. `limit == 0` gives an empty page, not an error |
| Sequencing.Sequence | sequence.go:17-50 | the source loop returns exactly the reference page for every health view, mix, limit and offset that do not make the source panic |
| Sequencing.SequenceStep | sequence.go:25-47 | one loop iteration stops exactly when the step has no usable provider, and then changes nothing. Otherwise it keeps the configuration index, the counters and the page in step with the reference walk |
| Sequencing.CountsAgree | sequence.go:35-41 | the counter map gives each provider the number of earlier addresses that went to it, and 0 for a provider never used |
| Sequencing.ConfigIndexIsMod | sequence.go:43-47 | the configuration index that resets to 0 after the last entry always equals the step number mod the mix length |
| Sequencing.WalkStuck | sequence.go:31-33 | once the walk has stopped at a step with no usable provider, more steps add nothing |
| SequencingProperties.WalkShape | sequence.go:25-33 | every emitted step had a usable provider; when the walk is short, the step where it stopped has none |
| SequencingProperties.WalkComplete | sequence.go:25-33 | a walk of `n` steps is complete if and only if each of its `n` steps has a usable provider |
| SequencingProperties.WalkPrefix | sequence.go:25-48 | a shorter walk is a prefix of a longer one, of length `min(m, len(longer walk))` |
| SequencingProperties.WalkElement | sequence.go:26-47 | step `j` uses mix entry `j mod len(mix)`, and its index is the number of earlier steps that went to the same provider |
| SequencingProperties.WalkHealthy | sequence.go:27-31 | each emitted provider is healthy: the entry's own provider if that one does not fail, otherwise the entry's configured fallback |
| SequencingProperties.WalkIndicesPerProvider | sequence.go:22-41 | from step 0, each provider's indices appear as 0, 1, 2, … in order |
| SequencingProperties.FirstStopLength | sequence.go:25-33 | when `t` is the first step with no usable provider, a walk of `n` steps has exactly `min(n, t)` addresses |
| SequencingProperties.PageIsSlice | sequence.go:25-40 | the page for `(limit, offset)` is the slice `[offset, offset+limit)` of any walk long enough to contain it, clamped at the truncation point |
| SequencingProperties.PagingConsistency | sequence.go:25-40 | `Sequence(limit, offset)` equals `Sequence(offset+limit, 0)` with its first `offset` addresses dropped |
| SequencingProperties.PagesConcatenate | sequence.go:25-40 | the page `(a, 0)` followed by the page `(b, a)` is the page `(a+b, 0)` |
| SequencingProperties.PageElement | sequence.go:24-47 | page element `k` comes from mix entry `(offset+k) mod len(mix)`. Its index counts all earlier steps for its provider, including the skipped steps before `offset` |
| SequencingProperties.PageHealthy | sequence.go:27-40 | every address on a page names a healthy provider: the entry's own provider, or its fallback when the entry's provider fails |
| SequencingProperties.FirstPageIndices | sequence.go:35-41 | with `offset == 0`, each provider's indices on the page are 0, 1, 2, … |
| SequencingProperties.Truncation | sequence.go:28-33 | when step `t` has no usable provider, the page is still a success but holds nothing from step `t` onward. A page starting at or after `t` is empty |
| SequencingProperties.HealthyPagesAreFull | sequence.go:25-40 | with no failing provider, every page has exactly `limit` addresses |
| Caching.Fails | cache.go:47-49 | the stored flag, and `false` for a provider with no entry |
| Caching.ContentItem | cache.go:52-57 | an in-range index gives exactly the stored slot. An index at or past the end of the list, including a provider with no list, gives the empty placeholder, and only such an index gives it |
| Caching.CopyContentItems | cache.go:74-80 | the copy has the same length and the same slot at every position |
| Caching.Copy | cache.go:60-72 | the snapshot has the same key sets, equal flags and element-wise equal lists, so it equals the state it was taken from |
| Caching.GetState | cache.go:83-88 | the snapshot equals the live state and answers every `Fails` and `ContentItem` query the same way, so two snapshots with no refresh in between are equal |
| Caching.NewCacher | cache.go:19-31 | a new cache has no failing provider, answers every lookup with the placeholder, and has no timestamps |
| Caching.ApplyFetch | cache.go:127-132 | a failed fetch sets `p`'s flag and leaves all content unchanged. A successful fetch clears the flag and stores the fetched list. Either way `p`'s flag is stored, and every other provider's flag and list are unchanged |
| Caching.UpdateProvider | cache.go:122-136 | with a nil client nothing changes. Otherwise the client is called with the configured user IP and length at time `now`, its outcome is applied, `p`'s timestamp becomes `now`, and no other timestamp changes |
| CachingProperties.FailedFetchKeepsContent | cache.go:127-128 | after a failed fetch, every lookup returns what it did before, and only `p` becomes failing |
| CachingProperties.FetchedContentIsServed | cache.go:129-131 | after a successful fetch, lookups for `p` read the fetched list, and lookups and flags of other providers are unchanged |
| CachingProperties.UpdatesCommute | cache.go:122-136 | refreshes of two different providers give the same cache in either order |
| CachingProperties.LastSuccessWins | cache.go:127-131 | a successful refresh decides the provider's list and flag, whatever the refresh before it did |
| CachingProperties.RecoveryExample | cache.go:122-136 | under one fixed configuration, a provider whose first refresh fails and whose next one succeeds becomes healthy again and serves the new list |
| CachingProperties.RepeatedFailureIdempotent | cache.go:127-128 | a second failed refresh changes nothing beyond the first |
| Service.KeepPresent | service.go:71-76 | the resolution of a list of addresses is no longer than the list and contains no nil |
| Service.MixSequencer | service.go:50-53 | the configured sequencer offered through the `Sequencer` interface returns exactly the reference page for every health view, limit and offset |
| Service.ContentItems | service.go:56-78 | a negative `limit` or `offset` gives the validation error, whatever the snapshot and sequencer are. A sequencer error is returned as is. Otherwise the output is the resolution, against the same snapshot, of the addresses the sequencer computed from that snapshot |
| ServiceProperties.KeepPresentAppend | service.go:71-76 | resolution keeps address order: resolving a concatenation is concatenating the resolutions |
| ServiceProperties.KeepPresentMembers | service.go:71-76 | an entry is in the output if and only if it is a non-nil lookup of one of the addresses |
| ServiceProperties.NilLookupIsDropped | service.go:71-76 | an address whose lookup is nil contributes nothing: the output equals the one for the list without that address |
| ServiceProperties.KeepPresentAllFound | service.go:71-76 | when no lookup is nil, the output is the lookup of every address, one for one and in order |
| ServiceProperties.OutOfRangeIsKept | cache.go:53-55 | an address past the end of its provider's list produces the empty placeholder, and the output keeps it |
| ServiceProperties.ServedItemsComeFromHealthyProviders | service.go:66-76 | with the configured sequencer, every item served is stored at an address of the page, and that address's provider is not failing in the same snapshot |
| ServiceProperties.ConfiguredContentItems | service.go:56-78 | with the cache's snapshot and the configured sequencer, a negative `limit` or `offset` is the validation error; otherwise the output is exactly the resolution, in page order and without nil lookups, of the reference page computed from that snapshot, and every item it serves is stored in range at an address of the page whose provider is not failing in that snapshot |
| ServiceProperties.NormalRunExample | service_test.go:29-57 | with every address in range, the three items come back in address order |
| ServiceProperties.MissingItemExample | service_test.go:58-85 | with the second `p1` item missing, the code returns the placeholder in third position, so three entries come back where the test expects two |
| ServiceProperties.NilLookupExample | service_test.go:58-85 | against a state that answers nil past the end of a list, the same request returns the two items the test expects |

## Left out

- Concurrency is not modelled: the goroutines, the timers, the `stopc` channel and the wait groups of `Start`/`Stop` (cache.go:90-120), and the reader-writer lock. A refresh is one pure state change. Snapshots are immutable values, so a snapshot cannot see a later change.
- `Start` is not modelled as an operation. Its per-provider refreshes run in an unspecified order, and `CachingProperties.UpdatesCommute` shows that this order does not change the result.
- Time is not modelled. `time.Now()` is an abstract `now` argument, and the `expiration` interval and refresh scheduling are left out.
- The provider client call `GetContent` is external I/O. It is a function parameter whose result is `Fetched(items)` or `FetchFailed`. It also receives the refresh time, which stands for the outside world at that moment, so successive refreshes under one configuration can get different answers. A list returned together with an error is ignored, as in the source.
- `server.go` (HTTP handling, query parsing, status codes, JSON), `main.go` (bootstrap and signals) and the logging in `service.go` are not part of this model.
- `Provider`, `ContentItem`, `SampleContentProvider` and `DefaultConfig` are defined in files that are not part of this model. The test vectors of `sequence_test.go` depend on `DefaultConfig`, so the properties are proved for every non-empty mix instead.
- Go's 64-bit `int` is not modelled. `offset + limit` could wrap around in Go and stop the loop early. The allocation `make(..., 0, limit)` could panic for a huge `limit`. Integers here are unbounded.
- Sequencing.Sequence: requires that the mix is non-empty whenever at least one step is walked, because the source indexes `config[0]` and panics on an empty mix.
- Caching.ContentItem: requires a non-negative index, because the source does not guard against a negative one and would panic.
- Service.ContentItems: requires that every address the sequencer returns can be looked up in the snapshot. The in-memory state's lookup panics on a negative index. The configured sequencer never returns one.
- Service.MixSequencer: requires a non-empty mix, because the `Sequencer` interface is a total function here. The Go sequencer panics on an empty mix for any non-empty page. The empty mix with `limit == offset == 0` is covered by `Sequencing.Sequence`.
- ServiceProperties.ConfiguredContentItems: requires a non-empty mix, for the same reason.
- Service.CacheView: states only that a non-negative index can be looked up, not that a negative one cannot. Dafny gives a lambda's precondition in that one direction.
