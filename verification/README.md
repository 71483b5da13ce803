# Model pool: usage tracking, health monitoring and client failover

The model pool is a registry of LLM inference endpoints. It has two sides.

The server keeps a list of configured models, each a `(name, model_type, model, base_url)`
record with a status, a load and a usage count. It answers two gRPC calls: `GetModelList`
(every model) and `GetAvailableModels` (the available ones, sorted by load). Both calls may
carry a client id and the `(base_url, model)` pairs that client uses. The server uses them
to keep three maps: client → pairs, pair → clients and client → last-active time. The first
configured model for each pair has a `usage_count` equal to the number of clients using that
pair; a later model with the same pair keeps 0. A background
monitor probes every model's `GET {base_url}/models` endpoint and sets its status. It then
evicts the clients that have been silent for more than three check intervals.

The client holds stubs to several registry servers and sticks to the current one while it
answers. When it stops answering, the client switches to the first other server, in
configured order, that answers. Once
every pre-built stub has failed, it rebuilds all of them. It also keeps the set of pairs
its agent uses, sends them with every fetch and caches the last model list it received.

The model has these modules:

- `Registry` (registry.dfy): the server state and its invariant `Valid`. The invariant has three parts:
  - the two indices agree;
  - every indexed client has a timestamp;
  - the first model configured for a pair counts that pair's users, and later duplicates count zero.
- `Usage` (usage.dfy): `_update_usage_count`.
- `Eviction` (eviction.dfy): `_cleanup_inactive_clients`, written as methods whose loops run over sets.
- `Health` (health.dfy): the `_check_health` decision and one monitor cycle.
- `Facade` (facade.dfy): the two RPC handlers, with a stable insertion sort that stands in for `list.sort`.
- `Failover` (failover.dfy): the client's state, `add_model_usage`, `_get_available_stub`, `_rebuild_all_channels` and `get_available_models`.
- `Scenario` (scenario.dfy): a worked run of the server bookkeeping.
- `Wrappers` and `Seqs`: small helpers.

Everything outside the process enters as a parameter:

- the clock, as `now: int`;
- the result of each HTTP probe, as a `ProbeOutcome`;
- the result of each gRPC call, as `probe: Addr -> Call` and `verify: Addr -> bool`;
- the server's reply to a fetch, as an `Option`.

In these places the model follows the code as written:

- `rstrip("/")` removes every trailing slash, not just one (`Health.DoubleSlashStillMatches`).
- Only the first model whose pair matches has its `usage_count` maintained, because of the `break`. A second model with the same pair keeps 0.
- The eviction pass deletes only idle clients that also have a usage entry. An idle client known only by its timestamp keeps it.
- The switch loop catches only `grpc.RpcError`. Any other exception escapes `_get_available_stub` (`Selected.Raised`). The probe of the current stub catches every exception.

## Model

| member | source | states |
|---|---|---|
| Registry.Init | modelpool_Servicer_test2.py:30-61 | A freshly loaded server has one model per configuration entry, each with status unknown, load 0 and usage count 0. Its three maps start empty, and the state satisfies the invariant (indices agree, counts are the user counts). |
| Registry.FirstMatch | modelpool_Servicer_test2.py:228-233 | The model the `for m in self.models ... break` loop stops at: its pair is `k` and no earlier model has that pair. None means no model has the pair. |
| Registry.SetCount | modelpool_Servicer_test2.py:159-163 | Only the first model with pair `k` gets the new count; every other model, including later duplicates, is unchanged. |
| Usage.UpdateUsageCount | modelpool_Servicer_test2.py:200-236 | The client's timestamp is always refreshed. An empty request changes nothing else. Otherwise the client's pair set grows by the request's pairs, the client joins the user set of every pair new to it, and exactly the first models of those pairs are recounted to their new user counts. |
| Usage.RecordKeepsValid | modelpool_Servicer_test2.py:215-233 | Recording usage preserves the invariant: indices in sync, every indexed client timestamped, first-match counts equal to user counts. |
| Usage.RecordKeepsIndexed | modelpool_Servicer_test2.py:221-226 | The forward map (client → pairs) and the reverse map (pair → clients) still agree after recording. |
| Usage.RecordKeepsCounts | modelpool_Servicer_test2.py:228-233 | After recording, every first-match model counts its pair's users and duplicates stay at zero. |
| Usage.RecordOnlyCounts | modelpool_Servicer_test2.py:228-233 | Recording changes only usage counts: identity, status and load of every model are kept. |
| Usage.RecordSyncsFirstMatch | modelpool_Servicer_test2.py:220-233 | A newly reported pair enters both indices, and its first configured model counts exactly the pair's users afterwards, even from an arbitrary state. |
| Usage.UnregisteredPairIndexedOnly | modelpool_Servicer_test2.py:234-236 | A pair no model is configured with is still indexed in both maps, and no count changes. |
| Usage.RecordDependsOnSetOnly | modelpool_Servicer_test2.py:215-222 | Duplicates and order inside one request do not matter: requests with the same set of pairs give the same state. |
| Usage.RecordIdempotent | modelpool_Servicer_test2.py:205-222 | Re-reporting the same pairs only refreshes the timestamp; both indices and all counts are unchanged. |
| Usage.AddUsagesKnown | modelpool_Servicer_test2.py:220-222 | Pairs the client already uses are skipped by the loop. |
| Usage.EnrolTwice | modelpool_Servicer_test2.py:226 | Adding a client to the users of `a` and then of `b` equals adding it to the users of `a ∪ b`. |
| Eviction.EvictClient | modelpool_Servicer_test2.py:152-165 | Removing one client: it leaves the forward map, leaves its timestamp only if it had a usage entry, leaves the user set of every pair it used, and exactly the first models of those pairs are recounted. Nothing else changes. |
| Eviction.EvictedKeepsValid | modelpool_Servicer_test2.py:152-165 | On a valid state, removing a client keeps the invariant and takes the client out of every user set. |
| Eviction.Evict | modelpool_Servicer_test2.py:142-166 | The pass deletes exactly the clients idle for strictly more than `3 * interval` that have a usage entry. It deletes them from both the forward and the timestamp maps and from every user set. Models change only in counts, and the invariant is preserved. |
| Eviction.EvictAll | modelpool_Servicer_test2.py:147-165 | Having removed every inactive client one by one, the maps lose exactly the stale clients (inactive ones with a usage entry). |
| Health.StripTrailingSlashes | modelpool_Servicer_test2.py:118-124 | The result is a prefix of the input, does not end in a slash, and only slashes were removed. |
| Health.StripTrailingSlashesUnique | modelpool_Servicer_test2.py:118-124 | Those three properties determine the stripped string, so any string with them is the stripped result. |
| Health.StripIgnoresAddedSlashes | modelpool_Servicer_test2.py:118-124 | Appending any number of slashes does not change the stripped name. |
| Health.StripTrailingSlashesIdempotent | modelpool_Servicer_test2.py:118-124 | Stripping twice is stripping once. |
| Health.CheckHealth | modelpool_Servicer_test2.py:106-140 | Every branch sets the load to 0. The model becomes available if and only if the probe got a 200 reply with a JSON body whose reported name equals the configured path, both up to trailing slashes, and becomes unavailable otherwise. Identity and usage count are untouched. |
| Health.TrailingSlashInsensitive | modelpool_Servicer_test2.py:118-127 | A configured path ending in `/` matches a reply without it. |
| Health.DifferentPathUnavailable | modelpool_Servicer_test2.py:116-133 | A list reply naming a different path marks the model unavailable. |
| Health.DoubleSlashStillMatches | modelpool_Servicer_test2.py:121-128 | A configured path ending in `//` still matches, because every trailing slash is stripped. |
| Health.ProbeAll | modelpool_Servicer_test2.py:172-173 | After the probe loop, every model keeps its identity and usage count and has load 0. It is available when its own probe confirms the configured model and unavailable otherwise, so no model stays unknown. |
| Health.ProbeAllKeepsValid | modelpool_Servicer_test2.py:172-173 | Probing changes only statuses and loads, so the invariant survives. |
| Health.HealthCycle | modelpool_Servicer_test2.py:168-175 | One monitor iteration. Every model keeps its identity and has load 0. Its status is available when its own probe confirms it and unavailable otherwise. Then the stale clients leave both the forward and the timestamp maps, the interval is kept, and the invariant is preserved. |
| Facade.RecordRequestKeepsValid | modelpool_Servicer_test2.py:240-241 | The usage step runs only with a non-empty client id and usage list, otherwise the state is untouched, and it keeps the invariant. |
| Facade.GetModelList | modelpool_Servicer_test2.py:238-247 | One snapshot per configured model, in configured order, with its identity, status and load, taken after the usage step. |
| Facade.GetModelListCounts | modelpool_Servicer_test2.py:228-247 | On a valid state, the snapshot of the first model configured for a pair counts the pair's users as of the reply. The snapshot of a later model with the same pair counts 0, because the recount loop stops at the first match. |
| Facade.AvailableOnly | modelpool_Servicer_test2.py:254 | Keeps only available models, each available model exactly as often as it occurs in the input (repeated identical records included). |
| Facade.AvailableOnlySingle | modelpool_Servicer_test2.py:254 | A one-model list keeps its model if and only if it is available. |
| Facade.AvailableOnlyAppend | modelpool_Servicer_test2.py:254 | The filter of a concatenation is the concatenation of the filters, so filtering keeps configured order. |
| Facade.InsertByLoadSorted | modelpool_Servicer_test2.py:255 | Inserting into a list sorted by load keeps it sorted. |
| Facade.InsertByLoadStable | modelpool_Servicer_test2.py:255 | Inserting a model puts it behind every model of equal load and leaves each equal-load run otherwise in order. |
| Facade.SortByLoad | modelpool_Servicer_test2.py:255 | The result is a permutation of the input and is sorted by load. |
| Facade.SortByLoadStable | modelpool_Servicer_test2.py:255 | The sort is stable: for every load, the models carrying it keep their input order. |
| Facade.StableSortUnique | modelpool_Servicer_test2.py:255 | Any permutation that is sorted by load and keeps each equal-load run in order is the result of `SortByLoad`, so the sort is Python's stable sort. |
| Facade.SortedSameRunsEqual | modelpool_Servicer_test2.py:255 | Two lists sorted by load with the same equal-load runs are equal. |
| Facade.GetAvailableModels | modelpool_Servicer_test2.py:249-260 | After the usage step, the reply holds exactly the available models (as a multiset) and is sorted by load. |
| Facade.GetAvailableModelsStable | modelpool_Servicer_test2.py:254-255 | Models of equal load appear in configured order. |
| Failover.NewPool | modelpool_client.py:26-49 | An empty address list fails. Otherwise: one generation-0 stub per address, the first address current, an empty cache and no declared usages, and the pool invariant holds. |
| Failover.AddModelUsage | modelpool_client.py:66-71 | The pair joins the declared usages and nothing else changes. |
| Failover.AddModelUsageIdempotentCommutes | modelpool_client.py:66-71 | Declaring a pair twice is declaring it once, and declarations commute. |
| Failover.Rebuild | modelpool_client.py:76-112 | Every address gets a fresh stub if its verifying call succeeds and none otherwise. A stub is returned if and only if some address verified. The first such address becomes current, and otherwise the current address is kept. |
| Failover.RebuildPicksFirst | modelpool_client.py:105-110 | The first verifying address in configured order becomes current, with its fresh stub. |
| Failover.RebuildKeepsValid | modelpool_client.py:88-112 | A rebuild keeps the pool invariant. |
| Failover.SwitchExhausted | modelpool_client.py:133-151 | When no other address has a stub that answers or raises a non-gRPC error, the loop ends in a rebuild. |
| Failover.SwitchStops | modelpool_client.py:133-147 | The loop ends at the first other address with a stub whose call did not fail with a gRPC error. It switches there if the call succeeded and lets the exception escape otherwise. |
| Failover.GetStub | modelpool_client.py:117-151 | Selection touches neither the address list, the cache, the client id nor the declared usages. A current stub that answers is kept, without any switch or rebuild. |
| Failover.GetStubKeepsValid | modelpool_client.py:117-151 | Stub selection keeps the pool invariant. |
| Failover.SelectedIsCurrent | modelpool_client.py:128-145 | A selected stub belongs to the current address afterwards. |
| Failover.SwitchPicksFirstAnswering | modelpool_client.py:133-145 | When the current stub fails, the first other address in order whose call succeeds becomes current, if every address before it was skipped or failed with a gRPC error. |
| Failover.RebuildOnlyWhenExhausted | modelpool_client.py:117-151 | A rebuild happens if and only if the current stub is missing or failed and every other address either has no stub or failed with a gRPC error. |
| Failover.StubsOnlyChangeOnRebuild | modelpool_client.py:117-147 | Without a rebuild, only the current address may change: the stubs themselves are never replaced. |
| Failover.DeadStubsForceRebuild | modelpool_client.py:133-151 | When the current stub fails and no other address has a stub, the next selection rebuilds at once. |
| Failover.SwitchToSecondary | modelpool_client.py:117-145 | With addresses `a` and `b` and `a` current, if `a` fails with a gRPC error and `b` answers, the client switches to `b`'s original stub without rebuilding. |
| Failover.RebuildAfterBothFail | modelpool_client.py:117-151 | When both addresses fail and only `a` verifies on rebuild, `a` becomes current with a fresh stub and `b` is left without one. |
| Failover.FetchModels | modelpool_client.py:157-182 | No stub gives an empty list and keeps the cache. A successful reply is returned and replaces the cache. A failed call or an escaped exception is re-raised with the cache untouched. |
| Failover.CacheIsLastServed | modelpool_client.py:157-182 | Over two fetches, the cache holds the list from the later fetch a server answered, or the original cache if neither was answered. An empty list returned for want of a stub never overwrites it, and neither does a failed call. |
| Failover.FetchKeepsValid | modelpool_client.py:157-182 | A fetch keeps the pool invariant. |
| Scenario.ReportCount | modelpool_Servicer_test2.py:215-233 | A client new to the first model's pair joins its users, and the state stays valid. |
| Scenario.TwoReports | modelpool_Servicer_test2.py:200-233 | Two clients reporting the same pair give counts 1 then 2. |
| Scenario.OnlyAIsStale | modelpool_Servicer_test2.py:145-150 | With interval 10 at time 35, the client last seen at 0 is stale. The one seen at 5 (idle exactly 30) is not, because the comparison is strict. |
| Scenario.TwoClientsThenEviction | modelpool_Servicer_test2.py:142-236 | Counts go 1, 2, then back to 1 after the eviction pass. |

## Left out

- Configuration loading (`_load_config`) and the `serve` entry point are left out. They read JSON files and start a gRPC server. The model starts from `Registry.Init` with the parsed list and interval.
- The lock, the monitor thread, `time.sleep` and logging are left out. The model treats each handler, each probe and each eviction pass as one atomic step. The source is less strict: `usage_lock` guards only the usage update (modelpool_Servicer_test2.py:203-236) and the eviction pass (144-166). The probe loop (172-173) and both handlers' snapshots (243-246, 254-259) run without it, so a reply can mix statuses from before and after a probe.
- Facade.GetAvailableModels: the source can return a model whose status turned unavailable between the filter (line 254) and the snapshot (256-259). The model's "every returned model is available" holds only because handlers are atomic here.
- `time.time()` is a float in the source. The model uses integer seconds, so the idle time `now - last_active` (line 149) is an integer difference. The server only ever assigns the integer 0 to a load, which the model keeps as an `int`.
- Malformed JSON bodies are not modelled: a `data` entry without `id`, or a non-dict body, raises outside the caught exception in the source. The model covers a well-formed body, an invalid body (caught as unavailable) and failed requests.
- `Health.CheckHealth`: the exact exception class is not modelled. `ValueError` from an invalid JSON body escapes `requests.RequestException` in some `requests` versions; the model treats it as unavailable.
- Channels and their `close()`, `get_all_available_models`, `set_all_available_models`, `poll_status`, `start_polling` and `close` are left out. They are channel I/O and task scheduling with no decision logic.
- The `self.stub = None` assignment at modelpool_client.py:181 sets an attribute nothing reads, so it is not modelled.
- `defaultdict` access creates empty entries (`self.client_usage[client_id]`, `self.model_clients[model_key]`). The model reads a missing entry as empty and does not create it, because no behaviour depends on the empty entry.
- The client id (`uuid.uuid4()`) is a parameter of `Failover.NewPool`.
- Each address's probe is an oracle `probe` that gives one outcome per selection. If the same address were called twice in one selection with different results, the model would not capture it.
- modelpool_pb2_grpc.py is generated gRPC glue and is not part of this model.
