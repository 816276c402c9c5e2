# Transport tracker core, modelled in Dafny

The transport tracker shows bus routes, their vehicles and each vehicle's
timed schedule of stops. Riders use it to ask when the next buses reach a
stop. They can also report delays and breakdowns, which push a vehicle's
arrivals later, and drivers record departures, which move a vehicle along
its schedule. Two parts of it are modelled here:

- **The binary min-heap** (`MinHeap`): a list-backed priority queue ordered
  by the first component of each element. `Heap.MinHeap` is a class whose
  field `a` is the list. `push`, `pop`, `_sift_up` and `_sift_down` are
  methods that update `a` in place. The two sift methods are `while` loops;
  `push` and `pop` call them. Each is proved to keep the heap invariant and
  to permute, add or remove exactly the elements it should.
- **The transport manager** (`TransportManagerFB`), modelled as
  `Manager.TransportManager`, a class with the same fields:
  - a cache of the route and vehicle trees;
  - the route alias table and the per-route stop alias tables;
  - the per-stop index of upcoming arrivals, one min-heap per stop.

  The remote database is the class `Records.Store`, whose three fields
  are the `/routes`, `/vehicles` and `/reports` sub-trees. A read is a
  field access; an `update` or `push().set()` is a method that reassigns a
  field. Each operation that reads the clock takes `now` (epoch seconds)
  as a parameter. An arrival time is `timeEpoch + 60 * delayMinutes`, in
  seconds.

The modules follow the program:

- `Wrappers`: `Option`, `dict.get`, and `MoveOne`, the step lemma of the
  loops that visit a table's keys one at a time.
- `Text`: `strip`, `lower`, `upper`, `_norm_stop` and `_norm_route` on
  ASCII.
- `Sorting`: `list.sort` by key, and Python slice lengths.
- `Heap`: the min-heap.
- `Records`: the remote records and the store.
- `Rules`: the pure rules:
  - the stop alias table;
  - the first matching schedule entry;
  - the delay formula;
  - the departure rule;
  - the report-shape filter.
- `StopIndex`: building the per-stop heaps.
- `Queries`: the loops of the two arrival queries and the report listing.
- `Manager`: the manager class.

The central results are these:

- After a refresh at `now`, the heap of stop key `k` holds `(eta, rid, vid)`
  exactly when all of the following hold:
  - `rid` is a known route and `vid` one of its vehicles;
  - the vehicle has a schedule entry, at or after its `currentStopIndex`,
    with a non-empty stop that normalises to `k`;
  - that entry's arrival time is `eta`, and `eta >= now`.

  This is `Manager.TransportManager.Valid`, established by `RefreshFromDb`.
  `GetEarliestArrivalAtStop` then returns the earliest indexed arrival.
- The arrival queries are proved against definitions that do not depend on
  the order of the loops:
  - `get_next_arrivals` gives one candidate per vehicle. It is the
    vehicle's first remaining matching entry, unless that entry is past.
    The answer is sorted, cut as `options[:count]` cuts, and nothing it
    drops is earlier than what it keeps.
  - `get_next_arrival_epoch` gives the global earliest future match.
- The mutations are specified by their whole effect on the store and on the
  cache.

## Model

| member | source | states |
|---|---|---|
| Heap.Parent | transport-tracker/transport/data_structs.py:5 | for a positive index, the parent lies before it and the index is one of the parent's two children |
| Heap.Left | transport-tracker/transport/data_structs.py:6 | the left child's parent is the index itself |
| Heap.Right | transport-tracker/transport/data_structs.py:7 | the right child's parent is the index itself, and it sits just after the left child |
| Heap.RootIsMinimum | transport-tracker/transport/data_structs.py:25-41 | in a list with the heap property, no key is smaller than the root's |
| Heap.MinHeap.IsEmpty | transport-tracker/transport/data_structs.py:23 | true exactly when the heap holds no element |
| Heap.MinHeap.Peek | transport-tracker/transport/data_structs.py:22 | nothing exactly when the heap is empty; otherwise the first list element, which is in the heap and has a key no larger than any other; the heap is not modified |
| Heap.MinHeap.Swap | transport-tracker/transport/data_structs.py:9 | the two positions exchange their elements and nothing else changes |
| Heap.MinHeap.constructor | transport-tracker/transport/data_structs.py:2-3 | a new heap holds no element and has the heap property |
| Heap.MinHeap.Push | transport-tracker/transport/data_structs.py:11-13 | the heap property holds afterwards, the list is one longer, and its multiset gains exactly the pushed item |
| Heap.MinHeap.Pop | transport-tracker/transport/data_structs.py:15-20 | an empty heap gives nothing and stays unchanged (the source's `IndexError`); otherwise it returns the old root, whose key is minimal, the list is one shorter, the multiset loses exactly that element, and the heap property holds |
| Heap.MinHeap.SiftUp | transport-tracker/transport/data_structs.py:25-31 | starting from a list whose only broken link can be at the start index and its parent, it ends with the heap property and permutes the elements |
| Heap.MinHeap.SiftDown | transport-tracker/transport/data_structs.py:33-41 | starting from a list whose only broken links can be from the start index to its children, it ends with the heap property and permutes the elements |
| Heap.Drain | transport-tracker/transport/data_structs.py:15-20 | popping until the heap is empty yields keys in non-decreasing order, exactly the elements the heap held, and as many as it held |
| Heap.PushAllThenDrain | transport-tracker/transport/data_structs.py:11-20 | pushing items into a new heap and popping until empty gives exactly the pushed items, one pop per push, keys in non-decreasing order |
| Text.NormStop | transport-tracker/transport/manager_fb_ds.py:17-18 | `_norm_stop` as trim then lower-case: no longer than the input, no whitespace at either end, no upper-case letter, and the empty name stays empty |
| Text.NormRoute | transport-tracker/transport/manager_fb_ds.py:14-15 | `_norm_route` as trim then upper-case: no longer than the input, no whitespace at either end, no lower-case letter, and the empty name stays empty |
| Text.ToLower | transport-tracker/transport/manager_fb_ds.py:18 | same length, every character lower-cased (ASCII) |
| Text.ToUpper | transport-tracker/transport/manager_fb_ds.py:15 | same length, every character upper-cased (ASCII) |
| Text.Strip | transport-tracker/transport/manager_fb_ds.py:15-18 | the result is the infix of the input that remains after its leading and trailing whitespace is removed; it neither starts nor ends with whitespace |
| Text.NormStopIdempotent | transport-tracker/transport/manager_fb_ds.py:17-18 | `_norm_stop` is idempotent and maps the empty (or missing) name to the empty string |
| Text.NormRouteIdempotent | transport-tracker/transport/manager_fb_ds.py:14-15 | `_norm_route` is idempotent and maps the empty name to the empty string |
| Records.Store.SetVehicle | transport-tracker/transport/manager_fb_ds.py:208 | an `update` of one vehicle record (the same write recurs at :212, :232, :236 and :241): that record of that route becomes the new value, a missing route table is created, and every other vehicle and route keeps its value |
| Records.Store.AppendReport | transport-tracker/transport/manager_fb_ds.py:180-190 | a `push().set(...)`: the report becomes the newest entry of its route's collection, a missing collection is created, and every other collection keeps its value |
| Records.Store.VehiclesAt | transport-tracker/transport/manager_fb_ds.py:192-193 | `vref.get() or {}`: the route's stored vehicle table, or an empty table when the route has none |
| Records.Store.ReportsAt | transport-tracker/transport/manager_fb_ds.py:251 | `rtdb_ref(f"/reports/{rid}").get() or {}`: the route's stored report collection, or an empty one when there is none |
| Rules.StopAliasOf | transport-tracker/transport/manager_fb_ds.py:40-41 | every stop's normalised name is a key; every key maps to a stop of the list with that normalisation; when several stops normalise alike, the last one wins |
| Rules.FirstMatch | transport-tracker/transport/manager_fb_ds.py:119-129 | the position found is at or after the start index and matches the target, and no position from the start index up to it (or anywhere, if none is found) matches |
| Rules.DelayIncrement | transport-tracker/transport/manager_fb_ds.py:204-212 | a delay report adds a multiple of 5 in [5, 50]: 5 for severity at most 1, 5·severity from 1 to 10, 50 from 10 on; a breakdown adds 60; any other type adds 0 |
| Rules.DepartureTarget | transport-tracker/transport/manager_fb_ds.py:225-244 | a new index exists exactly when the old index is before the end; it is greater than the old index and at most the schedule length; it is idx+1 when entry idx matches, idx+2 when only entry idx+1 matches (and only then), and idx+1 when neither does |
| Rules.RecordsOf | transport-tracker/transport/manager_fb_ds.py:252-256 | keeps every record entry as often as it occurs and drops every entry of another shape |
| Rules.EtaOf | transport-tracker/transport/manager_fb_ds.py:64 | the effective arrival is the scheduled time moved by the delay in minutes: never earlier when the delay is not negative, never later when it is not positive (the same arithmetic recurs at :126 and :153) |
| Queries.PendingEntries | transport-tracker/transport/manager_fb_ds.py:119-122 | the queue receives exactly the schedule entries at or after `currentStopIndex`, in order |
| Queries.DrainPending | transport-tracker/transport/manager_fb_ds.py:123-129 | draining the queue stops at the first matching entry; the vehicle contributes that entry's arrival time if it is not before `now`, and nothing otherwise |
| Queries.ScanVehicle | transport-tracker/transport/manager_fb_ds.py:116-129 | one vehicle's contribution is the arrival time of its first matching entry from `currentStopIndex` on, unless it is past |
| Queries.GatherOptions | transport-tracker/transport/manager_fb_ds.py:113-129 | every option is a vehicle's own contribution; every contributing vehicle appears; there are no duplicates, so there is one option per contributing vehicle |
| Queries.SlicedAnswer | transport-tracker/transport/manager_fb_ds.py:130-131 | a sorted permutation of the options, cut to the slice length, is a valid answer |
| Queries.CollectArrivals | transport-tracker/transport/manager_fb_ds.py:113-131 | contributions only; sorted by arrival time; distinct vehicles; as many as `options[:count]` keeps (a negative count counts from the end); no dropped contribution is earlier than a kept one |
| Queries.ConsiderVehicle | transport-tracker/transport/manager_fb_ds.py:148-155 | scanning one vehicle's schedule keeps `best` as the earliest future match among the positions scanned so far, or nothing if there is none |
| Queries.EarliestFuture | transport-tracker/transport/manager_fb_ds.py:141-159 | nothing exactly when no vehicle has a matching entry at or after its `currentStopIndex` with arrival time at least `now`; otherwise such an entry of the returned vehicle, at the returned time, which no such entry of any vehicle precedes |
| Queries.NewestFirst | transport-tracker/transport/manager_fb_ds.py:259-264 | exactly `min(max(0, limit), n)` records, drawn from the input, timestamps non-increasing, and no record left out is newer than one kept |
| StopIndex.PushInto | transport-tracker/transport/manager_fb_ds.py:66-71 | looks up or creates the stop's heap and pushes into it: the stored contents gain exactly that entry at that stop; other heaps are unchanged; a new heap is fresh and existing heaps stay in place |
| StopIndex.IndexVehicle | transport-tracker/transport/manager_fb_ds.py:57-71 | the heaps gain exactly the entries that this vehicle's schedule qualifies for |
| StopIndex.IndexRoute | transport-tracker/transport/manager_fb_ds.py:55-71 | the heaps gain exactly the entries of the route's vehicles |
| StopIndex.BuildStopHeaps | transport-tracker/transport/manager_fb_ds.py:53-71 | every heap is valid and new; the heap of a key holds an entry exactly when it is an indexed arrival of a known route's vehicle (as described above) |
| Manager.Targets | transport-tracker/transport/manager_fb_ds.py:202 | a definition: the named vehicle alone, or every vehicle of the route when none is named; when the named vehicle exists, every target is one of the route's vehicles |
| Manager.TransportManager.constructor | transport-tracker/transport/manager_fb_ds.py:21-27 | every table, the heap index and the search trail start empty, and the invariant holds |
| Manager.TransportManager.VehiclesOf | transport-tracker/transport/manager_fb_ds.py:113 | `self.vehicles.get(rid, HashMap())`: the route's cached vehicle table, or an empty table for a route without one |
| Manager.CopyMap | transport-tracker/transport/manager_fb_ds.py:100-104 | the copy equals the original table |
| Manager.LoadVehicles | transport-tracker/transport/manager_fb_ds.py:43-50 | the vehicle cache equals the remote vehicle tree, route by route |
| Manager.LoadRoutes | transport-tracker/transport/manager_fb_ds.py:31-41 | the route cache equals the remote route tree; the alias table maps both case spellings of each id to a known route with that spelling; each route's stop alias table is `StopAliasOf` of its stops |
| Manager.TransportManager.RefreshFromDb | transport-tracker/transport/manager_fb_ds.py:30-71 | the caches equal the store, the alias tables and the heap index are exact for the routes and vehicles at `now`, every heap is fresh, and the search trail is unchanged |
| Manager.TransportManager.ResolveRoute | transport-tracker/transport/manager_fb_ds.py:74-78 | an empty id resolves to nothing, and a resolved id is never empty |
| Manager.TransportManager.ResolveRouteSound | transport-tracker/transport/manager_fb_ds.py:74-78 | when the alias table indexes the routes, a resolved id is a known route equal to the query ignoring case |
| Manager.TransportManager.ResolveRouteComplete | transport-tracker/transport/manager_fb_ds.py:74-78 | when no two known ids differ only in case, every spelling of a known id resolves to that id, and so the id resolves to itself |
| Manager.TransportManager.ResolveStop | transport-tracker/transport/manager_fb_ds.py:80-87 | an empty route or stop name resolves to nothing |
| Manager.TransportManager.ResolveStopSound | transport-tracker/transport/manager_fb_ds.py:80-87 | a resolved stop belongs to the resolved route's stop list and normalises like the query |
| Manager.TransportManager.ResolveStopFound | transport-tracker/transport/manager_fb_ds.py:80-87 | if a stop of the resolved route normalises like the query, the query resolves, and it resolves to that stop when no later stop shares its normalisation |
| Manager.TransportManager.ResolveStopAny | transport-tracker/transport/manager_fb_ds.py:89-97 | nothing for an empty name; otherwise nothing exactly when no route's stop alias table has a non-empty entry for the normalised name, and a result is such an entry |
| Manager.TransportManager.StopAnySound | transport-tracker/transport/manager_fb_ds.py:89-97 | an entry found in some route's stop alias table is a stop of that known route and normalises like the query |
| Manager.TransportManager.QueryTarget | transport-tracker/transport/manager_fb_ds.py:107-111 | the guard `if not rid or not canon_stop`: a target exists exactly when the route resolves and the stop resolves to a non-empty name; an empty route or stop name gives none; the route part is the resolved id and the stop part is already normalised (`get_next_arrival_epoch` guards the same pair at :134-139) |
| Manager.TransportManager.GetRoutes | transport-tracker/transport/manager_fb_ds.py:100-104 | the result equals the cached route table |
| Manager.TransportManager.GetNextArrivals | transport-tracker/transport/manager_fb_ds.py:106-131 | the search is appended to the trail; an unresolved route or stop gives `[]`; otherwise the answer is as `Queries.CollectArrivals` states, over the resolved route's vehicles |
| Manager.TransportManager.GetNextArrivalEpoch | transport-tracker/transport/manager_fb_ds.py:133-159 | an unresolved route or stop gives nothing; otherwise the answer is as `Queries.EarliestFuture` states, over the resolved route's vehicles |
| Manager.TransportManager.GetEarliestArrivalAtStop | transport-tracker/transport/manager_fb_ds.py:161-167 | nothing exactly when the last refresh indexed no arrival at the normalised stop; otherwise an indexed arrival there, with a time no later than any other |
| Manager.TransportManager.GetRecentReports | transport-tracker/transport/manager_fb_ds.py:246-264 | an unresolved route gives `[]`; otherwise the answer is as `Queries.NewestFirst` states, over the record entries of the resolved route's reports |
| Manager.TransportManager.ApplyDelay | transport-tracker/transport/manager_fb_ds.py:206-212 | each target's delay grows by the increment; every other vehicle, route and sub-tree keeps its value |
| Manager.TransportManager.SubmitReport | transport-tracker/transport/manager_fb_ds.py:173-215 | an unresolved route returns false and changes nothing. Otherwise: the report is appended under the resolved id. The result is true when the route has no vehicles (no delay change), false when a named vehicle is absent (no delay change), and true otherwise, in which case exactly the targets gain the increment. The cache is refreshed |
| Manager.TransportManager.RecordDeparture | transport-tracker/transport/manager_fb_ds.py:217-244 | an unresolved route, an absent vehicle or an index at or past the end returns false and changes nothing; otherwise only that vehicle's `currentStopIndex` changes, to `DepartureTarget`, the result is true and the cache is refreshed |

## Left out

- `_fmt_hhmm` (manager_fb_ds.py:11-12): the answers of `get_next_arrivals` and `get_earliest_arrival_at_stop` keep the integer arrival time in place of the local `HH:MM` text, because time-zone formatting is presentation.
- `get_stop_geo` (manager_fb_ds.py:267-273): latitude and longitude lookups in a separate sub-tree, with a title-case fallback. It is geographic I/O that nothing in the core uses. `_resolve_stop_any`, which it calls, is modelled.
- `get_recent_searches` and the `Stack(maxlen=20)` eviction: the searches are a ghost trail that `GetNextArrivals` appends to. The bounded stack's code is not part of this model, so its eviction is not specified.
- The `Queue` and `HashMap` classes are not part of this model. A `HashMap` is a Dafny `map`, and the queue drain is a scan over the pending entries.
- The clock, the remote database and the report id: `now`, the report's id and its timestamp are parameters, and the store is in memory. Firebase connection and error handling are not modelled.
- The integer `now`: every comparison in the model is `eta >= now` on whole seconds. The source compares `datetime` values against a sub-second instant in `refresh_from_db` (manager_fb_ds.py:65) and `get_next_arrivals` (:127). For whole-second arrival times, that is `eta >= now` with `now` the instant rounded up. `get_next_arrival_epoch` truncates the instant (:142), which is `now` rounded down. A caller of `RefreshFromDb`, `GetNextArrivals`, `SubmitReport` and `RecordDeparture` passes the rounded-up second; a caller of `GetNextArrivalEpoch` passes the rounded-down one. The two agree except within a fractional second.
- Loose typing of remote records:
  - Records are typed. A missing `stop` is `""` and a missing list is empty. A missing number is 0, as the source's `.get(..., 0)` reads give; the one read without a default is described on the `Queries.DrainPending` line below.
  - `int()` coercion and its failures are not modelled.
  - Records that are present but empty are not modelled. Python treats such a route or vehicle as falsy, so `_resolve_route`'s fallback and `record_departure` would also reject them.
  - A report collection is read back as a sequence of entries, each a record or something else. This covers both the dict shape and the list shape.
- Rules.EtaOf: arrival times are unbounded integers, so the arrival arithmetic never fails. In the source, `datetime.fromtimestamp(...) + timedelta(minutes=delay)` (manager_fb_ds.py:64 and :126) raises for a time outside Python's `datetime` range. At :64 that aborts `refresh_from_db` part-way.
- Queries.DrainPending: a matching entry without `timeEpoch` gets the arrival time `60 * delayMinutes`. In the source, `get_next_arrivals` reads `item["timeEpoch"]` (manager_fb_ds.py:126) and raises `KeyError` for such an entry. Typed records cannot express the missing field.
- Default arguments: `count=3` of `get_next_arrivals` (manager_fb_ds.py:106), `stop_name=None` of `submit_report` (:174) and `limit=100` of `get_recent_reports` (:246) are not modelled. Every caller of the model passes these arguments explicitly. A missing stop name is `None` in the `stopName` option.
- `get_recent_reports`'s fallback to a limit of 100 when `int(limit)` raises: the limit is an integer here, so the fallback cannot happen.
- Manager.TransportManager.RecordDeparture: a vehicle id of `""` is treated as absent. The source would address `/vehicles/{rid}/`, the whole collection.
- Queries.NewestFirst: does not state the order among records with equal timestamps, nor which of them are kept at the limit. The sort it uses is stable, as Python's is, but its contract states only the multiset, the order of the timestamps and the no-newer-left-out bound.
- Manager.TransportManager.GetRecentReports: does not state the order among records with equal timestamps. Python's stable reverse sort keeps the order they were read in, and choosing which of the tied records to keep follows from that order.
- Manager.TransportManager.GetNextArrivals: among candidates with equal arrival times, the order follows an unspecified iteration order of the vehicle table, so the contract does not fix it.
- Manager.TransportManager.GetNextArrivalEpoch: when several vehicles share the earliest time, it is not stated which of them is named.
- Map iteration order: every loop over a table picks its keys in an unspecified order, and every contract holds for all orders.
- Strings are ASCII: `strip`, `lower` and `upper` follow Python on ASCII only, without Unicode case mapping or whitespace.
- `_norm_route` is modelled with its idempotence, but no manager operation uses it, as in the source.
- Concurrency between writes and refreshes is not modelled; each operation runs alone.
