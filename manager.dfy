/**
 * `TransportManagerFB` (transport/manager_fb_ds.py): a cache of the remote
 * route and vehicle trees with alias tables and a per-stop heap index,
 * the queries answered from it and the mutations written through to the
 * store. Every operation that reads the clock takes `now` as a parameter.
 */
module Manager {
  import opened Wrappers
  import opened Text
  import opened Heap
  import opened Sorting
  import opened Records
  import opened Rules
  import opened StopIndex
  import opened Queries

  // ---------- Loading the cache ----------

  /** Copies a table key by key, as the cache copies a remote sub-tree
      into a `HashMap`. */
  method CopyMap<V>(m: map<string, V>) returns (out: map<string, V>)
    ensures out == m
  {
    out := map[];
    var remaining := m.Keys;
    while remaining != {}
      invariant remaining <= m.Keys
      invariant out.Keys == m.Keys - remaining
      invariant forall k :: k in out ==> out[k] == m[k]
      decreases |remaining|
    {
      var k :| k in remaining;
      out := out[k := m[k]];
      remaining := remaining - {k};
    }
  }

  /** The vehicle part of a refresh: a copy of every route's table. */
  method LoadVehicles(tree: map<string, map<string, Vehicle>>) returns (out: map<string, map<string, Vehicle>>)
    ensures out == tree
  {
    out := map[];
    var remaining := tree.Keys;
    while remaining != {}
      invariant remaining <= tree.Keys
      invariant out.Keys == tree.Keys - remaining
      invariant forall k :: k in out ==> out[k] == tree[k]
      decreases |remaining|
    {
      var rid :| rid in remaining;
      var inner := CopyMap(tree[rid]);
      out := out[rid := inner];
      remaining := remaining - {rid};
    }
  }

  /** Adding route `rid` under both case spellings keeps the alias table
      an index of the routes. */
  lemma AliasAdd(alias: map<string, string>, rs: map<string, Route>, rid: string, r: Route)
    requires RouteAliasIndexes(alias, rs)
    ensures RouteAliasIndexes(alias[ToLower(rid) := rid][ToUpper(rid) := rid], rs[rid := r])
  {
  }

  /** Adding route `rid` adds its stop alias table. */
  lemma StopTableAdd(stopAlias: map<string, map<string, string>>, rs: map<string, Route>, rid: string, r: Route)
    requires stopAlias == StopAliasTable(rs)
    ensures stopAlias[rid := StopAliasOf(r.stops)] == StopAliasTable(rs[rid := r])
  {
  }

  /** The tables built from the routes of `tree` outside `remaining`. */
  ghost predicate Loaded(tree: map<string, Route>, remaining: set<string>, rs: map<string, Route>,
                         alias: map<string, string>, stopAlias: map<string, map<string, string>>)
  {
    && remaining <= tree.Keys
    && rs.Keys == tree.Keys - remaining
    && (forall k :: k in rs ==> rs[k] == tree[k])
    && RouteAliasIndexes(alias, rs)
    && stopAlias == StopAliasTable(rs)
  }

  lemma LoadStep(tree: map<string, Route>, remaining: set<string>, rs: map<string, Route>,
                 alias: map<string, string>, stopAlias: map<string, map<string, string>>, rid: string)
    requires Loaded(tree, remaining, rs, alias, stopAlias) && rid in remaining
    ensures Loaded(tree, remaining - {rid}, rs[rid := tree[rid]],
                   alias[ToLower(rid) := rid][ToUpper(rid) := rid],
                   stopAlias[rid := StopAliasOf(tree[rid].stops)])
  {
    var rs' := rs[rid := tree[rid]];
    assert rs'.Keys == tree.Keys - (remaining - {rid});
    assert forall k :: k in rs' ==> rs'[k] == tree[k];
    AliasAdd(alias, rs, rid, tree[rid]);
    StopTableAdd(stopAlias, rs, rid, tree[rid]);
  }

  /** The route part of a refresh: the route table, both case spellings
      of every id in the route alias table, and each route's stop alias
      table. */
  method LoadRoutes(tree: map<string, Route>)
    returns (rs: map<string, Route>, alias: map<string, string>, stopAlias: map<string, map<string, string>>)
    ensures rs == tree
    ensures RouteAliasIndexes(alias, rs)
    ensures stopAlias == StopAliasTable(rs)
  {
    rs, alias, stopAlias := map[], map[], map[];
    var remaining := tree.Keys;
    assert StopAliasTable(rs) == map[];
    while remaining != {}
      invariant Loaded(tree, remaining, rs, alias, stopAlias)
      decreases |remaining|
    {
      var rid :| rid in remaining;
      LoadStep(tree, remaining, rs, alias, stopAlias, rid);
      rs := rs[rid := tree[rid]];
      alias := alias[ToLower(rid) := rid];
      alias := alias[ToUpper(rid) := rid];
      stopAlias := stopAlias[rid := StopAliasOf(tree[rid].stops)];
      remaining := remaining - {rid};
    }
  }

  /** The targets of a report: the named vehicle, or every vehicle of the
      route when none is named. */
  function Targets(vehicleId: Option<string>, vdict: map<string, Vehicle>): (t: set<string>)
    ensures (!Truthy(vehicleId) || vehicleId.value in vdict) ==> t <= vdict.Keys
    ensures Truthy(vehicleId) ==> |t| == 1
  {
    if Truthy(vehicleId) then {vehicleId.value} else vdict.Keys
  }

  /** A delay of nothing, or a delay applied to no vehicle, changes
      nothing. */
  lemma DelayedNothing(vdict: map<string, Vehicle>, targets: set<string>, add: int)
    requires add == 0 || targets == {}
    ensures Delayed(vdict, targets, add) == vdict
  {
    assert forall vid :: vid in vdict ==> Delayed(vdict, targets, add)[vid] == vdict[vid];
  }

  /** Delaying one more target updates just that vehicle's record. */
  lemma DelayedStep(vdict: map<string, Vehicle>, done: set<string>, add: int, vid: string)
    requires vid in vdict && vid !in done
    ensures Delayed(vdict, done, add)[vid := vdict[vid].(delayMinutes := vdict[vid].delayMinutes + add)]
            == Delayed(vdict, done + {vid}, add)
  {
  }

  class TransportManager {
    const db: Store
    var routes: map<string, Route>
    var vehicles: map<string, map<string, Vehicle>>
    var stopHeaps: Heaps
    var routeAlias: map<string, string>
    var stopAlias: map<string, map<string, string>>
    /** The `now` of the last refresh. */
    ghost var builtAt: int
    /** The searches pushed onto the bounded recent-searches stack. */
    ghost var recentSearches: seq<(string, string)>

    /** The alias tables and the heap index agree with the cached routes
        and vehicles, the index as of the last refresh. */
    ghost predicate Valid()
      reads this, stopHeaps.Values
    {
      && RouteAliasIndexes(routeAlias, routes)
      && stopAlias == StopAliasTable(routes)
      && HeapsOk(stopHeaps)
      && IndexExact(Snap(stopHeaps), routes, vehicles, builtAt)
    }

    constructor (db: Store)
      ensures Valid() && this.db == db
      ensures routes == map[] && vehicles == map[] && stopHeaps == map[]
      ensures routeAlias == map[] && stopAlias == map[]
      ensures recentSearches == []
    {
      this.db := db;
      routes, vehicles, stopHeaps := map[], map[], map[];
      routeAlias, stopAlias := map[], map[];
      builtAt := 0;
      recentSearches := [];
      new;
      assert StopAliasTable(routes) == map[];
    }

    // ---------- Cache refresh ----------

    /** `refresh_from_db`: rebuilds every table from the store, the heap
        index with new heaps. */
    method RefreshFromDb(now: int)
      modifies this
      ensures Valid()
      ensures routes == db.routes && vehicles == db.vehicles && builtAt == now
      ensures recentSearches == old(recentSearches)
      ensures forall k :: k in stopHeaps ==> fresh(stopHeaps[k])
    {
      var rs, ra, sa := LoadRoutes(db.routes);
      var vs := LoadVehicles(db.vehicles);
      var hs := BuildStopHeaps(rs, vs, now);
      Install(rs, ra, sa, vs, hs, now);
    }

    /** Replaces every cached table at once. */
    method Install(rs: map<string, Route>, ra: map<string, string>, sa: map<string, map<string, string>>,
                   vs: map<string, map<string, Vehicle>>, hs: Heaps, now: int)
      requires RouteAliasIndexes(ra, rs) && sa == StopAliasTable(rs)
      requires HeapsOk(hs) && IndexExact(Snap(hs), rs, vs, now)
      modifies this
      ensures Valid()
      ensures routes == rs && routeAlias == ra && stopAlias == sa && vehicles == vs && stopHeaps == hs
      ensures builtAt == now && recentSearches == old(recentSearches)
    {
      ghost var snap := Snap(hs);
      routes, routeAlias, stopAlias, vehicles, stopHeaps := rs, ra, sa, vs, hs;
      builtAt := now;
      assert Snap(stopHeaps) == snap;
    }

    // ---------- Resolution ----------

    /** `_resolve_route`: the lower-case spelling in the alias table, then
        the upper-case one, then the id itself if it is a known route. */
    function ResolveRoute(routeId: string): (r: Option<string>)
      reads this`routeAlias, this`routes
      ensures routeId == "" ==> r.None?
      ensures r.Some? ==> r.value != ""
    {
      if routeId == "" then None
      else
        var lower := Lookup(routeAlias, ToLower(routeId));
        var upper := Lookup(routeAlias, ToUpper(routeId));
        if Truthy(lower) then lower
        else if Truthy(upper) then upper
        else if routeId in routes then Some(routeId)
        else None
    }

    /** What resolves is a known route spelled like the query up to case. */
    lemma ResolveRouteSound(routeId: string)
      requires RouteAliasIndexes(routeAlias, routes)
      ensures ResolveRoute(routeId).Some? ==>
                ResolveRoute(routeId).value in routes && SameIgnoringCase(ResolveRoute(routeId).value, routeId)
    {
      var r := ResolveRoute(routeId);
      if r.Some? && r.value != routeId {
        var v := r.value;
        if ToLower(routeId) in routeAlias && routeAlias[ToLower(routeId)] == v {
          if ToLower(v) != ToLower(routeId) {
            UpperMeetsLower(v, routeId);
          }
        } else {
          assert routeAlias[ToUpper(routeId)] == v;
          if ToLower(v) == ToUpper(routeId) {
            UpperMeetsLower(routeId, v);
          } else {
            SameUpperSameLower(v, routeId);
          }
        }
      }
    }

    /** When no two known ids differ only in case, every spelling of a
        known id resolves to that id; in particular the id resolves to
        itself. */
    lemma ResolveRouteComplete(routeId: string, rid: string)
      requires RouteAliasIndexes(routeAlias, routes) && CaseDistinct(routes)
      requires rid in routes && rid != "" && SameIgnoringCase(routeId, rid)
      ensures ResolveRoute(routeId) == Some(rid)
    {
      assert |ToLower(routeId)| == |routeId| && |ToLower(rid)| == |rid|;
      assert ToLower(rid) in routeAlias;
      var v := routeAlias[ToLower(routeId)];
      assert v in routes;
      if ToLower(v) != ToLower(routeId) {
        UpperMeetsLower(v, routeId);
      }
      assert SameIgnoringCase(v, rid);
    }

    /** `_resolve_stop`: the route's stop alias entry for the normalised
        stop name. */
    function ResolveStop(routeId: string, stopName: string): (r: Option<string>)
      reads this`routeAlias, this`routes, this`stopAlias
      ensures routeId == "" || stopName == "" ==> r.None?
    {
      if routeId == "" || stopName == "" then None
      else
        match ResolveRoute(routeId)
        case None => None
        case Some(rid) => if rid in stopAlias then Lookup(stopAlias[rid], NormStop(stopName)) else None
    }

    /** What resolves is a stop of the resolved route that normalises like
        the query. */
    lemma ResolveStopSound(routeId: string, stopName: string)
      requires stopAlias == StopAliasTable(routes)
      ensures ResolveStop(routeId, stopName).Some? ==>
                && ResolveRoute(routeId).Some? && ResolveRoute(routeId).value in routes
                && ResolveStop(routeId, stopName).value in routes[ResolveRoute(routeId).value].stops
                && NormStop(ResolveStop(routeId, stopName).value) == NormStop(stopName)
    {
      if ResolveStop(routeId, stopName).Some? {
        var rid := ResolveRoute(routeId).value;
        assert AliasFaithful(routes[rid].stops, stopAlias[rid]);
      }
    }

    /** A stop of the resolved route that normalises like the query makes
        the query resolve, and to that stop when no later stop of the
        route normalises the same way. */
    lemma ResolveStopFound(routeId: string, stopName: string, rid: string, i: int)
      requires stopAlias == StopAliasTable(routes)
      requires ResolveRoute(routeId) == Some(rid) && rid in routes && stopName != ""
      requires 0 <= i < |routes[rid].stops| && NormStop(routes[rid].stops[i]) == NormStop(stopName)
      ensures ResolveStop(routeId, stopName).Some?
      ensures LastWithNorm(routes[rid].stops, i) ==> ResolveStop(routeId, stopName) == Some(routes[rid].stops[i])
    {
      assert AliasCovers(routes[rid].stops, stopAlias[rid]);
      assert AliasLastWins(routes[rid].stops, stopAlias[rid]);
    }

    /** `_resolve_stop_any`: the first route whose stop alias table has a
        non-empty entry for the normalised name. */
    method ResolveStopAny(stopName: string) returns (r: Option<string>)
      ensures stopName == "" ==> r.None?
      ensures stopName != "" ==>
                (r.None? <==> forall rid :: rid in stopAlias ==> !Truthy(Lookup(stopAlias[rid], NormStop(stopName))))
      ensures r.Some? ==> r.value != ""
      ensures r.Some? ==> exists rid :: rid in stopAlias && Lookup(stopAlias[rid], NormStop(stopName)) == r
    {
      if stopName == "" {
        return None;
      }
      var ns := NormStop(stopName);
      var remaining := stopAlias.Keys;
      while remaining != {}
        invariant remaining <= stopAlias.Keys
        invariant forall rid :: rid in stopAlias && rid !in remaining ==> !Truthy(Lookup(stopAlias[rid], ns))
        decreases |remaining|
      {
        var rid :| rid in remaining;
        var canon := Lookup(stopAlias[rid], ns);
        if Truthy(canon) {
          return canon;
        }
        remaining := remaining - {rid};
      }
      return None;
    }

    /** Under the alias invariant, what `_resolve_stop_any` finds is a
        stop of some known route that normalises like the query. */
    lemma StopAnySound(stopName: string, rid: string, c: string)
      requires stopAlias == StopAliasTable(routes)
      requires rid in stopAlias && Lookup(stopAlias[rid], NormStop(stopName)) == Some(c)
      ensures rid in routes && c in routes[rid].stops && NormStop(c) == NormStop(stopName)
    {
      assert AliasFaithful(routes[rid].stops, stopAlias[rid]);
    }

    // ---------- Queries ----------

    /** `get_routes`: a copy of the route table. */
    method GetRoutes() returns (out: map<string, Route>)
      ensures out == routes
    {
      out := CopyMap(routes);
    }

    /** `self.vehicles.get(rid, HashMap())`. */
    function VehiclesOf(rid: string): (vmap: map<string, Vehicle>)
      reads this`vehicles
      ensures rid in vehicles ==> vmap == vehicles[rid]
      ensures rid !in vehicles ==> vmap == map[]
    {
      if rid in vehicles then vehicles[rid] else map[]
    }

    /** The route and the normalised canonical stop a query resolves to,
        when both resolve (the stop to a non-empty name). */
    function QueryTarget(routeId: string, stopName: string): (t: Option<(string, string)>)
      reads this`routeAlias, this`routes, this`stopAlias
      ensures routeId == "" || stopName == "" ==> t.None?
      ensures t.Some? <==> ResolveRoute(routeId).Some? && Truthy(ResolveStop(routeId, stopName))
      ensures t.Some? ==> t.value.0 != "" && Some(t.value.0) == ResolveRoute(routeId)
      ensures t.Some? ==> NormStop(t.value.1) == t.value.1
    {
      var rid := ResolveRoute(routeId);
      var canon := ResolveStop(routeId, stopName);
      if rid.Some? && Truthy(canon) then
        NormStopIdempotent(canon.value);
        Some((rid.value, NormStop(canon.value)))
      else None
    }

    /** `get_next_arrivals`: the search is recorded first; an unresolved
        query answers nothing; otherwise the answer is the route's
        candidate list (see `ArrivalsAnswer`). */
    method GetNextArrivals(routeId: string, stopName: string, count: int, now: int) returns (r: seq<Candidate>)
      modifies this`recentSearches
      ensures recentSearches == old(recentSearches) + [(routeId, stopName)]
      ensures AnswersArrivals(routeId, stopName, count, now, r)
    {
      r := NextArrivals(routeId, stopName, count, now);
      recentSearches := recentSearches + [(routeId, stopName)];
    }

    /** What `get_next_arrivals` answers: nothing for an unresolved query,
        otherwise the route's candidate list (see `ArrivalsAnswer`). */
    ghost predicate AnswersArrivals(routeId: string, stopName: string, count: int, now: int, r: seq<Candidate>)
      reads this`routeAlias, this`routes, this`stopAlias, this`vehicles
    {
      var t := QueryTarget(routeId, stopName);
      && (t.None? ==> r == [])
      && (t.Some? ==> ArrivalsAnswer(Contributions(VehiclesOf(t.value.0), t.value.1, now), count, r))
    }

    /** The answer of `get_next_arrivals`, before the search is recorded. */
    method NextArrivals(routeId: string, stopName: string, count: int, now: int) returns (r: seq<Candidate>)
      ensures AnswersArrivals(routeId, stopName, count, now, r)
    {
      var t := QueryTarget(routeId, stopName);
      if t.None? {
        return [];
      }
      r := CollectArrivals(VehiclesOf(t.value.0), t.value.1, count, now);
    }

    /** `get_next_arrival_epoch`: nothing for an unresolved query,
        otherwise the earliest future arrival over the route's vehicles
        (see `EarliestAnswer`). */
    method GetNextArrivalEpoch(routeId: string, stopName: string, now: int) returns (r: Option<Candidate>)
      ensures QueryTarget(routeId, stopName).None? ==> r.None?
      ensures QueryTarget(routeId, stopName).Some? ==>
                EarliestAnswer(VehiclesOf(QueryTarget(routeId, stopName).value.0),
                               QueryTarget(routeId, stopName).value.1, now, r)
    {
      var t := QueryTarget(routeId, stopName);
      if t.None? {
        return None;
      }
      r := EarliestFuture(VehiclesOf(t.value.0), t.value.1, now);
    }

    /** `get_earliest_arrival_at_stop`: the top of the stop's heap, which
        is an arrival the last refresh indexed at that stop and the
        earliest of them; nothing exactly when none was indexed there. */
    method GetEarliestArrivalAtStop(stopName: string) returns (r: Option<Entry<Arrival>>)
      requires Valid()
      ensures r.None? <==> forall eta, a :: !Indexed(routes, vehicles, builtAt, NormStop(stopName), eta, a)
      ensures r.Some? ==> Indexed(routes, vehicles, builtAt, NormStop(stopName), r.value.key, r.value.payload)
      ensures r.Some? ==> forall eta, a :: Indexed(routes, vehicles, builtAt, NormStop(stopName), eta, a)
                                           ==> r.value.key <= eta
    {
      var key := NormStop(stopName);
      if key !in stopHeaps {
        assert forall eta, a :: !Indexed(routes, vehicles, builtAt, key, eta, a) by {
          forall eta, a ensures !Indexed(routes, vehicles, builtAt, key, eta, a) {
            IndexedAt(Snap(stopHeaps), routes, vehicles, builtAt, key, Entry(eta, a));
          }
        }
        return None;
      }
      var heap := stopHeaps[key];
      assert forall e :: e in heap.a <==> Indexed(routes, vehicles, builtAt, key, e.key, e.payload) by {
        forall e ensures e in heap.a <==> Indexed(routes, vehicles, builtAt, key, e.key, e.payload) {
          assert Snap(stopHeaps)[key] == heap.a;
        }
      }
      r := heap.Peek();
      if r.None? {
        forall eta, a ensures !Indexed(routes, vehicles, builtAt, key, eta, a) {
          assert Entry(eta, a) !in heap.a;
        }
      } else {
        forall eta, a | Indexed(routes, vehicles, builtAt, key, eta, a) ensures r.value.key <= eta {
          assert Entry(eta, a) in heap.a;
        }
      }
    }

    /** `get_recent_reports`: nothing for an unresolved route, otherwise
        the route's newest records (see `NewestFirst`). */
    function GetRecentReports(routeId: string, limit: int): (r: seq<Report>)
      reads this`routeAlias, this`routes, db`reports
      ensures ResolveRoute(routeId).None? ==> r == []
      ensures ResolveRoute(routeId).Some? ==>
                r == NewestFirst(RecordsOf(db.ReportsAt(ResolveRoute(routeId).value)), limit)
    {
      match ResolveRoute(routeId)
      case None => []
      case Some(rid) => NewestFirst(RecordsOf(db.ReportsAt(rid)), limit)
    }

    // ---------- Mutations ----------

    /** The delay loop of `submit_report`: each target's record is
        rewritten with `add` more minutes of delay. */
    method ApplyDelay(rid: string, vdict: map<string, Vehicle>, targets: set<string>, add: int)
      requires rid in db.vehicles && db.vehicles[rid] == vdict && targets <= vdict.Keys
      modifies db`vehicles
      ensures db.vehicles == old(db.vehicles)[rid := Delayed(vdict, targets, add)]
    {
      var remaining := targets;
      ghost var done: set<string> := {};
      ghost var before := db.vehicles;
      DelayedNothing(vdict, {}, add);
      assert before[rid := vdict] == before;
      while remaining != {}
        invariant remaining + done == targets && remaining !! done
        invariant db.vehicles == before[rid := Delayed(vdict, done, add)]
        decreases |remaining|
      {
        var vid :| vid in remaining;
        var v := vdict[vid];
        DelayedStep(vdict, done, add, vid);
        ghost var d := Delayed(vdict, done, add);
        assert db.VehiclesAt(rid) == d;
        db.SetVehicle(rid, vid, v.(delayMinutes := v.delayMinutes + add));
        ghost var d' := Delayed(vdict, done + {vid}, add);
        assert d[vid := v.(delayMinutes := v.delayMinutes + add)] == d';
        assert db.vehicles == before[rid := d'];
        MoveOne(remaining, done, targets, vid);
        remaining := remaining - {vid};
        done := done + {vid};
      }
    }

    /** `submit_report`: an unresolved route changes nothing. Otherwise the
        report is appended under the resolved id; if the route has no
        vehicles the answer is true, if the named vehicle is not among them
        it is false, and otherwise every target gains the report's delay.
        Every resolved report ends with a refresh. */
    method SubmitReport(routeId: string, vehicleId: Option<string>, reportType: string, severity: int,
                        message: string, stopName: Option<string>, reportId: string, timestamp: int, now: int)
      returns (ok: bool)
      modifies this, db
      ensures old(ResolveRoute(routeId)).None? ==> !ok && unchanged(this, db)
      ensures old(ResolveRoute(routeId)).Some? ==>
                var rid := old(ResolveRoute(routeId)).value;
                var vdict := old(db.VehiclesAt(rid));
                var stop := if Truthy(stopName) then old(ResolveStop(rid, stopName.value)) else None;
                && db.reports == old(db.reports)[rid := old(db.ReportsAt(rid)) + [Record(Report(
                     reportId, timestamp, rid, vehicleId, reportType, severity, message, stop))]]
                && db.routes == old(db.routes)
                && (ok <==> vdict == map[] || !Truthy(vehicleId) || vehicleId.value in vdict)
                && (!ok || vdict == map[] ==> db.vehicles == old(db.vehicles))
                && (ok && vdict != map[] ==>
                      db.vehicles == old(db.vehicles)[rid := Delayed(vdict, Targets(vehicleId, vdict),
                                                                    DelayIncrement(reportType, severity))])
                && Valid() && routes == db.routes && vehicles == db.vehicles && builtAt == now
                && recentSearches == old(recentSearches)
    {
      var rid0 := ResolveRoute(routeId);
      if rid0.None? {
        return false;
      }
      var rid := rid0.value;
      var stop := if Truthy(stopName) then ResolveStop(rid, stopName.value) else None;
      db.AppendReport(rid, Report(reportId, timestamp, rid, vehicleId, reportType, severity, message, stop));
      var vdict := db.VehiclesAt(rid);
      if vdict == map[] {
        RefreshFromDb(now);
        return true;
      }
      if Truthy(vehicleId) && vehicleId.value !in vdict {
        RefreshFromDb(now);
        return false;
      }
      var targets := Targets(vehicleId, vdict);
      var add := DelayIncrement(reportType, severity);
      if reportType == "delay" || reportType == "breakdown" {
        ApplyDelay(rid, vdict, targets, add);
      } else {
        DelayedNothing(vdict, targets, 0);
      }
      RefreshFromDb(now);
      ok := true;
    }

    /** `record_departure`: an unresolved route, a missing vehicle or an
        index already at or past the end changes nothing and answers
        false; otherwise the vehicle's `currentStopIndex` becomes
        `DepartureTarget` of it and the cache is refreshed. */
    method RecordDeparture(routeId: string, vehicleId: string, stopName: string, now: int) returns (ok: bool)
      modifies this, db
      ensures old(ResolveRoute(routeId)).None? ==> !ok && unchanged(this, db)
      ensures var rid0 := old(ResolveRoute(routeId));
              rid0.Some? ==>
                var vdict := old(db.VehiclesAt(rid0.value));
                (vehicleId == "" || vehicleId !in vdict) ==> !ok && unchanged(this, db)
      ensures var rid0 := old(ResolveRoute(routeId));
              rid0.Some? ==>
                var rid := rid0.value;
                var vdict := old(db.VehiclesAt(rid));
                vehicleId != "" && vehicleId in vdict ==>
                var v := vdict[vehicleId];
                var next := DepartureTarget(v.currentStopIndex, v.schedule, NormStop(stopName));
                && (ok <==> next.Some?)
                && (!ok ==> unchanged(this, db))
                && (ok ==> && db.vehicles == old(db.vehicles)[rid := old(db.VehiclesAt(rid))[vehicleId := v.(currentStopIndex := next.value)]]
                           && db.routes == old(db.routes) && db.reports == old(db.reports)
                           && Valid() && routes == db.routes && vehicles == db.vehicles && builtAt == now
                           && recentSearches == old(recentSearches))
    {
      var rid0 := ResolveRoute(routeId);
      if rid0.None? {
        return false;
      }
      var rid := rid0.value;
      var vdict := db.VehiclesAt(rid);
      if vehicleId == "" || vehicleId !in vdict {
        return false;
      }
      var v := vdict[vehicleId];
      var next := DepartureTarget(v.currentStopIndex, v.schedule, NormStop(stopName));
      if next.None? {
        return false;
      }
      db.SetVehicle(rid, vehicleId, v.(currentStopIndex := next.value));
      RefreshFromDb(now);
      ok := true;
    }
  }
}
