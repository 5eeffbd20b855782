# Dual-store liveness registry

A model of the core of a game-server fleet tracker. Each game server registers once and then
sends heartbeats carrying its player roster. The registry keeps two stores:

- the **identity table** (`servers` in MySQL), keyed by `server_id`, holding name, type,
  environment, version, port, `last_started`, `last_heartbeat` and a nullable
  `last_seen_offline`;
- the **liveness cache** (a Redis hash per server under `environment:{serverId}`), holding
  `playerCount`, `lastHeartbeat` and `playerList`. A server is *online* exactly when its hash
  exists.

Six operations run over the two stores: register (upsert the row, reseed the hash), heartbeat
(overwrite an existing hash only), get / getAll (compose row and hash into a view), the
reconciliation sweep (mark stale servers offline, delete their hash) and the aggregation
(sum actual and visible players, store the pair in `global:playerCount`, publish it).

Files:

- `records.dfy` (module `Records`): rows, player sessions, liveness entries, views, counters,
  events, `Option` and `Result`.
- `server_repository.dfy` (module `ServerRepository`): the identity table as a class
  `ServerTable` with `rows: map<string, Server>` and `order: seq<string>` (the order a full
  scan returns rows); the upsert and the guarded offline mark as methods specified by the
  functions `Upsert` and `MarkOffline`; the SELECT projections as functions.
- `server_service.dfy` (module `ServerService`): the class `Registry` holding the table, the
  liveness map (keyed by server id; `RedisKeys` shows nothing is lost by that), the global
  counter and the log of published events; the sweep and the aggregation as loops proved
  against the functions `Sweep` and `Tally`, with lemmas about both.
- `scenario.dfy` (module `Scenario`): clients that walk one server through register and
  read-back, heartbeat and aggregation, and heartbeat followed by demotion, using only the
  contracts.

Time (`Date.now`) is a parameter `now` in unix seconds. A store failure is a parameter:
`dbUp` says whether a database call succeeds, `markFails` names the servers whose offline
mark throws during a sweep, and `CacheFault` says which of registration's cache calls throws.

Where the code behaves differently from what its surrounding comments and record shapes
suggest, the model follows the code:

- Re-registration never clears `last_seen_offline`: the upsert's UPDATE list omits it
  (api/src/repositories/server-repository.ts:33-39), although `registerServer` builds a record
  with `lastSeenOffline: null` (api/src/services/server-service.ts:113). After a server's first
  offline mark, later sweeps only delete its liveness entry (`SweepKeepsMarkedRows`).
- `registerServer` catches a failed identity write and returns normally, so its caller cannot
  tell the difference.
- `checkForDownedServers` has no try/catch: a failed offline mark ends the whole sweep, and
  the servers after it in the scan are not visited (`FailedMarkAbortsSweep`).
- `updateServer` stores `playerCount` as sent; it is not recomputed from `playerList`.
- The SELECT lists of `getServerIfExist`, `getAllServers` and `getOnlineServers` omit
  `last_seen_offline`, so the records they return never carry it (`Selected`).
- `getOnlineServers` applies no filter.

## Model

| member | source | states |
|---|---|---|
| ServerRepository.Selected | api/src/repositories/server-repository.ts:64-98 | a returned record carries every column of the row except `last_seen_offline`, which is always absent |
| ServerRepository.Projection | api/src/repositories/server-repository.ts:123-133 | one record per scanned id, in scan order, the i-th being the projection of that id's row |
| ServerRepository.Upsert | api/src/repositories/server-repository.ts:22-51 | the id is present afterwards; other rows are unchanged; the row takes the seven written columns; a new row has a null offline mark and an existing row keeps its offline mark |
| ServerRepository.MarkedRow | api/src/repositories/server-repository.ts:141-145 | a row already marked offline is unchanged; an unmarked row takes the given heartbeat and offline time; no other column changes |
| ServerRepository.MarkOffline | api/src/repositories/server-repository.ts:140-158 | the table keeps its ids; only the row with the given id can change, and it changes as `MarkedRow` says |
| ServerRepository.MarkOfflineWriteOnce | api/src/repositories/server-repository.ts:140-158 | a second offline mark is a no-op, so the first offline timestamp survives |
| ServerRepository.WritesKeepOfflineMarks | api/src/repositories/server-repository.ts:33-39 | neither the upsert nor the offline mark removes or changes an existing offline mark |
| ServerRepository.ServerTable.InsertOrUpdateServer | api/src/repositories/server-repository.ts:22-62 | a store failure is rethrown with the table unchanged; otherwise the table becomes the upsert of the old table and a new id is appended to the scan order |
| ServerRepository.ServerTable.MarkServerOffline | api/src/repositories/server-repository.ts:140-163 | a store failure is rethrown with the table unchanged; otherwise the guarded update is applied; the scan order never changes |
| ServerRepository.ServerTable.GetServerIfExist | api/src/repositories/server-repository.ts:64-103 | a store failure is an error; otherwise null exactly when no row has the id, else that row's record |
| ServerRepository.ServerTable.GetAllServers | api/src/repositories/server-repository.ts:105-138 | a store failure is an error; otherwise exactly one record per stored row, in scan order, with pairwise distinct ids |
| ServerRepository.ServerTable.GetOnlineServers | api/src/repositories/server-repository.ts:165-198 | returns exactly what `GetAllServers` returns: no liveness filter is applied |
| ServerService.RedisKey | api/src/services/server-service.ts:45 | a server's cache key is the prefix `environment:` followed by the server id, and nothing else |
| ServerService.RedisKeys | api/src/services/server-service.ts:45 | distinct server ids have distinct cache keys, and no cache key equals the global counter key, so a map keyed by server id loses nothing |
| ServerService.TtlExceedsThreshold | api/src/services/server-service.ts:5-7 | the cache lifetime (60 s) exceeds the staleness threshold (6 s) |
| ServerService.StaleBoundary | api/src/services/server-service.ts:195 | a heartbeat exactly 6 s old is fresh and one 7 s old is stale |
| ServerService.WithState | api/src/services/server-service.ts:53-63 | the view is online exactly when a liveness entry exists; without one it has count 0, an empty roster and the row's heartbeat; with one it shows the entry's fields, falling back to the row's heartbeat, 0 and an empty roster for missing fields; an undecodable roster is an error |
| ServerService.Persistent | api/src/services/server-service.ts:104-114 | the persisted record carries the caller's identity fields unchanged, `now` as both start and heartbeat time, and no offline mark |
| ServerService.Seed | api/src/services/server-service.ts:126-130 | the seeded entry is a non-empty hash whose heartbeat is `now` whatever the row says, and a server holding it adds nothing to either player total |
| ServerService.Reseeded | api/src/services/server-service.ts:124-140 | other servers' entries are untouched; without a fault the entry is replaced wholesale by count 0, heartbeat `now`, empty roster; a failed write leaves it deleted; a failed delete leaves the map unchanged |
| ServerService.Heartbeat | api/src/services/server-service.ts:147-171 | the set of servers with entries never changes; an existing entry takes the three sent fields, the count as given; other entries are untouched |
| ServerService.HeartbeatCannotResurrect | api/src/services/server-service.ts:151-155 | a heartbeat for a server without an entry changes nothing |
| ServerService.SweepStep | api/src/services/server-service.ts:183-203 | a scanned server with an entry whose heartbeat is more than 6 s old gets the guarded offline mark, with the heartbeat the sweep read, and then loses its entry; a failed mark aborts before the delete with both stores unchanged; any other server leaves both stores unchanged |
| ServerService.Sweep | api/src/services/server-service.ts:181-204 | steps through the scanned records in scan order and stops at the first abort; it can abort only when some scanned server's mark fails, so without store failures it visits every record |
| ServerService.SweepAbortIsFinal | api/src/services/server-service.ts:181-204 | once the sweep has aborted on a failure, the remaining records do not change the outcome |
| ServerService.SweepKeys | api/src/services/server-service.ts:174-205 | a sweep keeps every row and its id and never adds a liveness entry |
| ServerService.SweepFrame | api/src/services/server-service.ts:181-204 | a server whose record is not scanned keeps its row and its entry |
| ServerService.SweepEffect | api/src/services/server-service.ts:181-204 | after a completed sweep, a scanned server older than the threshold has lost its entry and received the guarded offline mark with the heartbeat the sweep read (the entry's, else the row's); every other scanned server keeps both records |
| ServerService.SweepKeepsMarkedRows | api/src/services/server-service.ts:195-200 | a row already marked offline is never written by a sweep; only its entry can be deleted |
| ServerService.SweepKeepsOfflineMarks | api/src/services/server-service.ts:174-205 | a sweep keeps every existing offline mark |
| ServerService.SweepTable | api/src/services/server-service.ts:174-205 | per stored server, a full sweep of the table demotes it exactly when it has an entry whose heartbeat is more than 6 s old, and otherwise leaves both stores alone |
| ServerService.DemotionHappensOnce | api/src/services/server-service.ts:187-200 | a stale server is demoted by exactly one sweep; the next sweep finds no entry and leaves its row and offline mark unchanged |
| ServerService.FailedMarkAbortsSweep | api/src/services/server-service.ts:195-200 | when the first stale server's offline mark fails, the sweep aborts and a second stale server keeps its entry and row |
| ServerService.Visible | api/src/services/server-service.ts:221 | the filtered roster is no longer than the roster and holds only its non-vanished players |
| ServerService.VisibleIsFilter | api/src/services/server-service.ts:221 | each non-vanished session appears in the filtered roster exactly as often as in the roster, and no vanished one appears, so its length is the number of non-vanished entries |
| ServerService.Contribution | api/src/services/server-service.ts:216-227 | a server adds its roster length to actual and its visible players to visible; no entry, no roster field or an undecodable roster adds 0 to both; visible never exceeds actual |
| ServerService.Tally | api/src/services/server-service.ts:207-228 | the totals satisfy 0 <= visible <= actual |
| ServerService.TallyAppend | api/src/services/server-service.ts:212-228 | the totals over a concatenated scan are the sums of the totals over the parts |
| ServerService.TallyIgnoresOffline | api/src/services/server-service.ts:216 | servers without an entry contribute nothing |
| ServerService.Registry.GetServer | api/src/services/server-service.ts:44-64 | a store failure is an error; otherwise null exactly when no identity row exists, whatever the cache holds; an undecodable roster is an error; the view is online exactly when the entry exists; an online view shows the entry's heartbeat (else the row's), its count (else 0) and its roster (else empty); offline views have count 0, empty roster and the row's own record |
| ServerService.Registry.GetAllServers | api/src/services/server-service.ts:66-89 | one view per identity row in scan order, each equal to what `GetServer` returns for that id; it fails exactly when the store fails or `GetServer` fails for some row |
| ServerService.Registry.RegisterServer | api/src/services/server-service.ts:91-141 | a failed identity write leaves both stores unchanged; otherwise the row is upserted with both timestamps `now` and the entry is reseeded; offline marks and store consistency are kept; without faults `GetServer` then returns the server online with count 0 and an empty roster |
| ServerService.Registry.UpdateServer | api/src/services/server-service.ts:147-171 | the liveness map becomes `Heartbeat` of the old map; the identity table is not in the frame, so it is never written |
| ServerService.Registry.DemoteIfStale | api/src/services/server-service.ts:181-203 | one iteration of the sweep changes both stores exactly as one `Sweep` step does, and reports the failure that aborts it |
| ServerService.Registry.CheckForDownedServers | api/src/services/server-service.ts:174-205 | a failed scan changes nothing; otherwise both stores end as the sweep over the scanned records says, the call fails exactly when the sweep aborted, offline marks and store consistency are kept |
| ServerService.Registry.UpdateGlobalPlayerCounts | api/src/services/server-service.ts:207-241 | a failed scan changes nothing; otherwise the stored counter is the totals over the scanned rows, the published event carries the same pair with sender `api`, and the stored totals satisfy 0 <= visible <= actual |

## Left out

- The HTTP layer (controllers, routes, response helpers) and the scheduler that fires the
  sweep and the aggregation every five seconds: each tick is one call.
- Passive expiry of liveness hashes after 60 s: it is driven by the wall clock; only the
  constant relation is stated (`TtlExceedsThreshold`).
- The random event id of published events, and the Redis publish itself (a failed publish is
  caught in the source; the model always appends the event).
- JSON and `parseInt` encoding of the hash fields: fields are stored typed; a roster that does
  not decode is the `Unparseable` variant; numeric fields that do not parse (NaN) are not modelled.
- Cache failures outside registration (`hGetAll`, `exists`, `hSet`, `del`, `expire` in the other
  operations, and the global counter write) are not modelled; a failed `expire` at registration
  is treated as success because lifetimes are not modelled.
- Concurrency between requests and sweeps, and last-write-wins races.
- The MySQL connection pool, logging, and the `Number(port)` conversion.
- `server_id` is compared exactly; the database's collation rules are not modelled.
- The scan order of a table without ORDER BY is store-defined; the model fixes it to insertion
  order (`order`).
- The schema's default for `last_seen_offline` is not shown; the model takes it to be NULL.
