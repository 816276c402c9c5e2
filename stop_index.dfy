/**
 * The per-stop heap index built by `refresh_from_db`
 * (transport/manager_fb_ds.py): for every route, every vehicle and every
 * schedule entry from the vehicle's `currentStopIndex` on whose stop is set
 * and whose effective arrival is not before the build time, the triple
 * (eta, route, vehicle) is pushed into the heap of the entry's normalised
 * stop, the heap being created on first use.
 */
module StopIndex {
  import opened Wrappers
  import opened Text
  import opened Heap
  import opened Records
  import opened Rules

  type Heaps = map<string, MinHeap<Arrival>>

  /** Every heap satisfies the heap invariant and no two stops share one. */
  ghost predicate HeapsOk(hs: Heaps)
    reads hs.Values
  {
    && (forall k :: k in hs ==> hs[k].Valid())
    && (forall k1, k2 :: k1 in hs && k2 in hs && k1 != k2 ==> hs[k1] != hs[k2])
  }

  /** `hs'` has every stop of `hs`, with the same heap object. */
  predicate Keeps(hs: Heaps, hs': Heaps) {
    forall k :: k in hs ==> k in hs' && hs'[k] == hs[k]
  }

  lemma KeepsTrans(a: Heaps, b: Heaps, c: Heaps)
    requires Keeps(a, b) && Keeps(b, c)
    ensures Keeps(a, c)
  {
  }

  /** Pushes into the heap of one stop; the heaps of the other stops are
      untouched. */
  method PushAt(hs: Heaps, key: string, e: Entry<Arrival>)
    requires key in hs && HeapsOk(hs)
    modifies hs[key]
    ensures HeapsOk(hs)
    ensures forall k :: k in hs && k != key ==> hs[k].a == old(hs[k].a)
    ensures forall x :: x in hs[key].a <==> x in old(hs[key].a) || x == e
  {
    hs[key].Push(e);
    assert forall x :: x in hs[key].a <==> x in multiset(hs[key].a);
  }

  /** The contents of every heap, as values. */
  ghost function Snap(hs: Heaps): (s: map<string, seq<Entry<Arrival>>>)
    reads hs.Values
    ensures s.Keys == hs.Keys
  {
    map k | k in hs :: hs[k].a
  }

  /** The heap contents `s` hold `e` at stop `k`. */
  ghost predicate Stored(s: map<string, seq<Entry<Arrival>>>, k: string, e: Entry<Arrival>) {
    k in s && e in s[k]
  }

  /** Entry `n` of the schedule of `v` is pushed by the rebuild. */
  predicate Qualifies(v: Vehicle, n: int, now: int)
    requires 0 <= n < |v.schedule|
  {
    v.schedule[n].stop != "" && n >= v.currentStopIndex && EtaAt(v, n) >= now
  }

  /** The heaps `s` hold what they held at `before` plus the entries of
      the first `n` schedule items of vehicle `vid`. */
  ghost predicate Reflects(s: map<string, seq<Entry<Arrival>>>, before: map<string, seq<Entry<Arrival>>>,
                           rid: string, vid: string, v: Vehicle, n: int, now: int)
  {
    forall k, e :: Stored(s, k, e) <==>
      Stored(before, k, e)
      || (e.payload == Arrival(rid, vid) && IndexedBefore(v, n, k, e.key, now))
  }

  lemma ReflectsSkip(s: map<string, seq<Entry<Arrival>>>, before: map<string, seq<Entry<Arrival>>>,
                     rid: string, vid: string, v: Vehicle, n: int, now: int)
    requires 0 <= n < |v.schedule| && !Qualifies(v, n, now)
    requires Reflects(s, before, rid, vid, v, n, now)
    ensures Reflects(s, before, rid, vid, v, n + 1, now)
  {
    IndexedBeforeSkip(v, n, now);
  }

  lemma IndexedBeforeSkip(v: Vehicle, n: int, now: int)
    requires 0 <= n < |v.schedule| && !Qualifies(v, n, now)
    ensures forall key, eta :: IndexedBefore(v, n + 1, key, eta, now) == IndexedBefore(v, n, key, eta, now)
  {
    IndexedBeforeStep(v, n, now);
  }

  lemma ReflectsPush(s: map<string, seq<Entry<Arrival>>>, s': map<string, seq<Entry<Arrival>>>,
                     before: map<string, seq<Entry<Arrival>>>,
                     rid: string, vid: string, v: Vehicle, n: int, now: int)
    requires 0 <= n < |v.schedule| && Qualifies(v, n, now)
    requires Reflects(s, before, rid, vid, v, n, now)
    requires Pushed(s, s', NormStop(v.schedule[n].stop), Entry(EtaAt(v, n), Arrival(rid, vid)))
    ensures Reflects(s', before, rid, vid, v, n + 1, now)
  {
    IndexedBeforeStep(v, n, now);
    var key := NormStop(v.schedule[n].stop);
    var x := Entry(EtaAt(v, n), Arrival(rid, vid));
    forall k, e
      ensures Stored(s', k, e) <==>
        Stored(before, k, e)
        || (e.payload == Arrival(rid, vid) && IndexedBefore(v, n + 1, k, e.key, now))
    {
      PushedAt(s, s', key, x, k, e);
      ReflectsAt(s, before, rid, vid, v, n, now, k, e);
      QualifiedStop(v, n, now, k, e.key);
    }
  }

  lemma QualifiedStop(v: Vehicle, n: int, now: int, k: string, eta: int)
    requires 0 <= n < |v.schedule| && Qualifies(v, n, now)
    ensures IndexedStop(v, n, k, eta, now) <==> k == NormStop(v.schedule[n].stop) && eta == EtaAt(v, n)
  {
  }

  /** One instance of `Reflects`. */
  lemma ReflectsAt(s: map<string, seq<Entry<Arrival>>>, before: map<string, seq<Entry<Arrival>>>,
                   rid: string, vid: string, v: Vehicle, n: int, now: int, k: string, e: Entry<Arrival>)
    requires Reflects(s, before, rid, vid, v, n, now)
    ensures Stored(s, k, e) <==>
              (Stored(before, k, e) || (e.payload == Arrival(rid, vid) && IndexedBefore(v, n, k, e.key, now)))
  {
  }

  /** One instance of `Pushed`. */
  lemma PushedAt(s: map<string, seq<Entry<Arrival>>>, s': map<string, seq<Entry<Arrival>>>,
                 key: string, x: Entry<Arrival>, k: string, e: Entry<Arrival>)
    requires Pushed(s, s', key, x)
    ensures Stored(s', k, e) <==> Stored(s, k, e) || (k == key && e == x)
  {
    if k != key && k in s {
      assert s'[k] == s[k];
    }
  }

  /** `s'` is `s` with `x` pushed into the heap of `key`, created when
      missing. */
  ghost predicate Pushed(s: map<string, seq<Entry<Arrival>>>, s': map<string, seq<Entry<Arrival>>>,
                         key: string, x: Entry<Arrival>)
  {
    && s'.Keys == s.Keys + {key}
    && (forall k :: k in s && k != key ==> s'[k] == s[k])
    && (forall y :: y in s'[key] <==> (key in s && y in s[key]) || y == x)
  }

  /** Pushes `x` into the heap of `key`, giving `key` a new heap first when
      it has none. */
  method PushInto(hs: Heaps, key: string, x: Entry<Arrival>) returns (hs': Heaps)
    requires HeapsOk(hs)
    modifies hs.Values
    ensures HeapsOk(hs') && Pushed(old(Snap(hs)), Snap(hs'), key, x)
    ensures Keeps(hs, hs')
    ensures forall k :: k in hs' && k !in hs ==> fresh(hs'[k])
  {
    hs' := hs;
    if key !in hs {
      var h := new MinHeap<Arrival>();
      hs' := hs[key := h];
    }
    PushAt(hs', key, x);
  }

  /** Pushes the arrival of schedule entry `n`, which the rebuild indexes. */
  method PushEntry(hs: Heaps, rid: string, vid: string, v: Vehicle, n: int, now: int,
                   ghost before: map<string, seq<Entry<Arrival>>>) returns (hs': Heaps)
    requires 0 <= n < |v.schedule| && Qualifies(v, n, now)
    requires HeapsOk(hs) && Reflects(Snap(hs), before, rid, vid, v, n, now)
    modifies hs.Values
    ensures HeapsOk(hs') && Reflects(Snap(hs'), before, rid, vid, v, n + 1, now)
    ensures Keeps(hs, hs')
    ensures forall k :: k in hs' && k !in hs ==> fresh(hs'[k])
  {
    var eta := EtaOf(v.schedule[n], v.delayMinutes);
    var key := NormStop(v.schedule[n].stop);
    ghost var s0 := Snap(hs);
    hs' := PushInto(hs, key, Entry(eta, Arrival(rid, vid)));
    ReflectsPush(s0, Snap(hs'), before, rid, vid, v, n, now);
  }

  /** One step of the inner loop of the rebuild: indexes schedule entry `n`. */
  method IndexEntry(hs: Heaps, rid: string, vid: string, v: Vehicle, n: int, now: int,
                    ghost before: map<string, seq<Entry<Arrival>>>) returns (hs': Heaps)
    requires 0 <= n < |v.schedule|
    requires HeapsOk(hs) && Reflects(Snap(hs), before, rid, vid, v, n, now)
    modifies hs.Values
    ensures HeapsOk(hs') && Reflects(Snap(hs'), before, rid, vid, v, n + 1, now)
    ensures Keeps(hs, hs')
    ensures forall k :: k in hs' && k !in hs ==> fresh(hs'[k])
  {
    var item := v.schedule[n];
    if item.stop != "" && n >= v.currentStopIndex && EtaOf(item, v.delayMinutes) >= now {
      hs' := PushEntry(hs, rid, vid, v, n, now, before);
    } else {
      hs' := hs;
      ReflectsSkip(Snap(hs'), before, rid, vid, v, n, now);
    }
  }

  /** The inner loop of the rebuild: indexes one vehicle's schedule. */
  method IndexVehicle(hs: Heaps, rid: string, vid: string, v: Vehicle, now: int,
                      ghost before: map<string, seq<Entry<Arrival>>>) returns (hs': Heaps)
    requires HeapsOk(hs) && before == Snap(hs)
    modifies hs.Values
    ensures HeapsOk(hs')
    ensures Keeps(hs, hs')
    ensures forall k :: k in hs' && k !in hs ==> fresh(hs'[k])
    ensures VehicleAdded(Snap(hs'), before, rid, vid, v, now)
  {
    hs' := IndexSchedule(hs, rid, vid, v, now, before);
    ReflectsAll(Snap(hs'), before, rid, vid, v, now);
  }

  /** The loop of `IndexVehicle`: every entry of the schedule in turn. */
  method IndexSchedule(hs: Heaps, rid: string, vid: string, v: Vehicle, now: int,
                       ghost before: map<string, seq<Entry<Arrival>>>) returns (hs': Heaps)
    requires HeapsOk(hs) && before == Snap(hs)
    modifies hs.Values
    ensures HeapsOk(hs')
    ensures Keeps(hs, hs')
    ensures forall k :: k in hs' && k !in hs ==> fresh(hs'[k])
    ensures Reflects(Snap(hs'), before, rid, vid, v, |v.schedule|, now)
  {
    hs' := hs;
    var i := 0;
    while i < |v.schedule|
      invariant 0 <= i <= |v.schedule|
      invariant HeapsOk(hs')
      invariant Keeps(hs, hs')
      invariant forall k :: k in hs' && k !in hs ==> fresh(hs'[k])
      invariant Reflects(Snap(hs'), before, rid, vid, v, i, now)
    {
      ghost var h0 := hs';
      hs' := IndexEntry(hs', rid, vid, v, i, now, before);
      KeepsTrans(hs, h0, hs');
      i := i + 1;
    }
  }

  lemma ReflectsAll(s: map<string, seq<Entry<Arrival>>>, before: map<string, seq<Entry<Arrival>>>,
                    rid: string, vid: string, v: Vehicle, now: int)
    requires Reflects(s, before, rid, vid, v, |v.schedule|, now)
    ensures VehicleAdded(s, before, rid, vid, v, now)
  {
    IndexedBeforeAll(v, now);
  }

  /** The heaps `s` hold what they held at `before` plus every arrival the
      rebuild derives from vehicle `vid` of route `rid`. */
  ghost predicate VehicleAdded(s: map<string, seq<Entry<Arrival>>>, before: map<string, seq<Entry<Arrival>>>,
                               rid: string, vid: string, v: Vehicle, now: int)
  {
    forall k, e :: Stored(s, k, e) <==>
      Stored(before, k, e)
      || (e.payload == Arrival(rid, vid) && VehicleIndexes(v, k, e.key, now))
  }

  /** Some entry before index `n` puts `eta` into the heap of `key`,
      defined entry by entry as the loop meets them. */
  ghost predicate IndexedBefore(v: Vehicle, n: int, key: string, eta: int, now: int) {
    AnyStopBelow(v, n, key, eta, now)
  }

  ghost predicate AnyStopBelow(v: Vehicle, n: int, key: string, eta: int, now: int)
    decreases n
  {
    n > 0 && (AnyStopBelow(v, n - 1, key, eta, now) || IndexedStop(v, n - 1, key, eta, now))
  }

  lemma IndexedBeforeStep(v: Vehicle, n: int, now: int)
    requires 0 <= n
    ensures forall key, eta :: IndexedBefore(v, n + 1, key, eta, now)
              <==> IndexedBefore(v, n, key, eta, now) || IndexedStop(v, n, key, eta, now)
  {
  }

  /** `IndexedBefore` is "some index below `n` qualifies". */
  lemma {:induction false} IndexedBeforeMeans(v: Vehicle, n: int, key: string, eta: int, now: int)
    ensures IndexedBefore(v, n, key, eta, now) <==> exists j :: j < n && IndexedStop(v, j, key, eta, now)
    decreases n
  {
    if n > 0 {
      IndexedBeforeMeans(v, n - 1, key, eta, now);
      if IndexedStop(v, n - 1, key, eta, now) {
        assert n - 1 < n;
      } else if exists j :: j < n && IndexedStop(v, j, key, eta, now) {
        var j :| j < n && IndexedStop(v, j, key, eta, now);
        assert j < n - 1;
      }
    }
  }

  lemma IndexedBeforeAll(v: Vehicle, now: int)
    ensures forall key, eta :: IndexedBefore(v, |v.schedule|, key, eta, now)
              <==> VehicleIndexes(v, key, eta, now)
  {
    forall key, eta
      ensures IndexedBefore(v, |v.schedule|, key, eta, now) <==> VehicleIndexes(v, key, eta, now)
    {
      IndexedBeforeMeans(v, |v.schedule|, key, eta, now);
    }
  }

  // ---------- One route ----------

  /** The heaps `s` hold what they held at `before` plus every arrival the
      rebuild derives from the vehicles `done` of route `rid`. */
  ghost predicate RouteAdded(s: map<string, seq<Entry<Arrival>>>, before: map<string, seq<Entry<Arrival>>>,
                             rid: string, vmap: map<string, Vehicle>, done: set<string>, now: int)
  {
    forall k, e :: Stored(s, k, e) <==> Stored(before, k, e) || FromRoute(rid, vmap, done, k, e, now)
  }

  /** `e` is an arrival the rebuild derives at stop `k` from one of the
      vehicles `done` of route `rid`. */
  ghost predicate FromRoute(rid: string, vmap: map<string, Vehicle>, done: set<string>, k: string,
                            e: Entry<Arrival>, now: int)
  {
    && e.payload.routeId == rid && e.payload.vehicleId in done && e.payload.vehicleId in vmap
    && VehicleIndexes(vmap[e.payload.vehicleId], k, e.key, now)
  }

  lemma FromRouteStep(rid: string, vmap: map<string, Vehicle>, done: set<string>, vid: string, now: int)
    requires vid in vmap
    ensures forall k, e :: FromRoute(rid, vmap, done + {vid}, k, e, now)
              == (FromRoute(rid, vmap, done, k, e, now)
                  || (e.payload == Arrival(rid, vid) && VehicleIndexes(vmap[vid], k, e.key, now)))
  {
  }

  lemma RouteAddedStep(s: map<string, seq<Entry<Arrival>>>, s': map<string, seq<Entry<Arrival>>>,
                       before: map<string, seq<Entry<Arrival>>>,
                       rid: string, vmap: map<string, Vehicle>, done: set<string>, vid: string, now: int)
    requires vid in vmap && vid !in done
    requires RouteAdded(s, before, rid, vmap, done, now)
    requires VehicleAdded(s', s, rid, vid, vmap[vid], now)
    ensures RouteAdded(s', before, rid, vmap, done + {vid}, now)
  {
    FromRouteStep(rid, vmap, done, vid, now);
  }

  /** The middle loop of the rebuild: indexes every vehicle of route `rid`. */
  method IndexRoute(hs: Heaps, rid: string, vmap: map<string, Vehicle>, now: int,
                    ghost before: map<string, seq<Entry<Arrival>>>) returns (hs': Heaps)
    requires HeapsOk(hs) && before == Snap(hs)
    modifies hs.Values
    ensures HeapsOk(hs')
    ensures Keeps(hs, hs')
    ensures forall k :: k in hs' && k !in hs ==> fresh(hs'[k])
    ensures RouteAdded(Snap(hs'), before, rid, vmap, vmap.Keys, now)
  {
    hs' := hs;
    var remaining := vmap.Keys;
    ghost var done: set<string> := {};
    while remaining != {}
      invariant remaining + done == vmap.Keys && remaining !! done
      invariant HeapsOk(hs')
      invariant Keeps(hs, hs')
      invariant forall k :: k in hs' && k !in hs ==> fresh(hs'[k])
      invariant RouteAdded(Snap(hs'), before, rid, vmap, done, now)
      decreases |remaining|
    {
      var vid :| vid in remaining;
      ghost var h0 := hs';
      ghost var s0 := Snap(hs');
      hs' := IndexVehicle(hs', rid, vid, vmap[vid], now, s0);
      KeepsTrans(hs, h0, hs');
      RouteAddedStep(s0, Snap(hs'), before, rid, vmap, done, vid, now);
      MoveOne(remaining, done, vmap.Keys, vid);
      remaining := remaining - {vid};
      done := done + {vid};
    }
  }

  // ---------- Every route ----------

  /** The heaps `s` hold exactly the arrivals the rebuild derives from the
      routes `done`. */
  ghost predicate RoutesIndexed(s: map<string, seq<Entry<Arrival>>>, routes: map<string, Route>,
                                vehicles: map<string, map<string, Vehicle>>, done: set<string>, now: int)
  {
    forall k, e :: Stored(s, k, e) <==>
      e.payload.routeId in done && Indexed(routes, vehicles, now, k, e.key, e.payload)
  }

  lemma RoutesIndexedStep(s: map<string, seq<Entry<Arrival>>>, s': map<string, seq<Entry<Arrival>>>,
                          routes: map<string, Route>, vehicles: map<string, map<string, Vehicle>>,
                          done: set<string>, rid: string, vmap: map<string, Vehicle>, now: int)
    requires rid in routes && rid !in done
    requires vmap == if rid in vehicles then vehicles[rid] else map[]
    requires RoutesIndexed(s, routes, vehicles, done, now)
    requires RouteAdded(s', s, rid, vmap, vmap.Keys, now)
    ensures RoutesIndexed(s', routes, vehicles, done + {rid}, now)
  {
    var done' := done + {rid};
    forall k, e
      ensures Stored(s', k, e) <==>
                e.payload.routeId in done' && Indexed(routes, vehicles, now, k, e.key, e.payload)
    {
      RoutesIndexedPoint(s, s', routes, vehicles, done, rid, vmap, now, k, e);
    }
    assert RoutesIndexed(s', routes, vehicles, done', now);
  }

  lemma RoutesIndexedPoint(s: map<string, seq<Entry<Arrival>>>, s': map<string, seq<Entry<Arrival>>>,
                           routes: map<string, Route>, vehicles: map<string, map<string, Vehicle>>,
                           done: set<string>, rid: string, vmap: map<string, Vehicle>, now: int,
                           k: string, e: Entry<Arrival>)
    requires rid in routes && rid !in done
    requires vmap == if rid in vehicles then vehicles[rid] else map[]
    requires RoutesIndexed(s, routes, vehicles, done, now)
    requires RouteAdded(s', s, rid, vmap, vmap.Keys, now)
    ensures Stored(s', k, e) <==>
              e.payload.routeId in done + {rid} && Indexed(routes, vehicles, now, k, e.key, e.payload)
  {
    RoutesIndexedAt(s, routes, vehicles, done, now, k, e);
    RouteAddedAt(s', s, rid, vmap, vmap.Keys, now, k, e);
    if e.payload.routeId == rid && rid in vehicles {
      assert Indexed(routes, vehicles, now, k, e.key, e.payload) <==>
        e.payload.vehicleId in vmap && VehicleIndexes(vmap[e.payload.vehicleId], k, e.key, now);
    }
  }

  /** One instance of `RoutesIndexed`. */
  lemma RoutesIndexedAt(s: map<string, seq<Entry<Arrival>>>, routes: map<string, Route>,
                        vehicles: map<string, map<string, Vehicle>>, done: set<string>, now: int,
                        k: string, e: Entry<Arrival>)
    requires RoutesIndexed(s, routes, vehicles, done, now)
    ensures Stored(s, k, e) <==> e.payload.routeId in done && Indexed(routes, vehicles, now, k, e.key, e.payload)
  {
  }

  /** One instance of `RouteAdded`. */
  lemma RouteAddedAt(s: map<string, seq<Entry<Arrival>>>, before: map<string, seq<Entry<Arrival>>>,
                     rid: string, vmap: map<string, Vehicle>, done: set<string>, now: int,
                     k: string, e: Entry<Arrival>)
    requires RouteAdded(s, before, rid, vmap, done, now)
    ensures Stored(s, k, e) <==> Stored(before, k, e) || FromRoute(rid, vmap, done, k, e, now)
  {
  }

  /** The index holds exactly the arrivals the rebuild derives at `now`.
      Membership only: two schedule entries that give the same
      `(eta, rid, vid)` are both pushed, and this does not say how many
      copies a heap holds. `peek` is the only reader of the index, and its
      answer does not depend on the number of copies. */
  ghost predicate IndexExact(s: map<string, seq<Entry<Arrival>>>, routes: map<string, Route>,
                             vehicles: map<string, map<string, Vehicle>>, now: int)
  {
    forall k, e :: Stored(s, k, e) <==> Indexed(routes, vehicles, now, k, e.key, e.payload)
  }

  /** One instance of `IndexExact`. */
  lemma IndexedAt(s: map<string, seq<Entry<Arrival>>>, routes: map<string, Route>,
                  vehicles: map<string, map<string, Vehicle>>, now: int, k: string, e: Entry<Arrival>)
    requires IndexExact(s, routes, vehicles, now)
    ensures Indexed(routes, vehicles, now, k, e.key, e.payload) <==> Stored(s, k, e)
  {
  }

  /** The index `refresh_from_db` builds: the heap of stop `k` holds
      `(eta, rid, vid)` exactly when some schedule entry of vehicle `vid` of
      route `rid` puts it there. Every heap is new. */
  method BuildStopHeaps(routes: map<string, Route>, vehicles: map<string, map<string, Vehicle>>, now: int)
    returns (hs: Heaps)
    ensures HeapsOk(hs)
    ensures forall k :: k in hs ==> fresh(hs[k])
    ensures IndexExact(Snap(hs), routes, vehicles, now)
  {
    hs := IndexRoutes(routes, vehicles, now);
    RoutesIndexedAll(Snap(hs), routes, vehicles, now);
  }

  /** The loop of `BuildStopHeaps`: every route in turn. */
  method IndexRoutes(routes: map<string, Route>, vehicles: map<string, map<string, Vehicle>>, now: int)
    returns (hs: Heaps)
    ensures HeapsOk(hs)
    ensures forall k :: k in hs ==> fresh(hs[k])
    ensures RoutesIndexed(Snap(hs), routes, vehicles, routes.Keys, now)
  {
    hs := map[];
    var remaining := routes.Keys;
    ghost var done: set<string> := {};
    while remaining != {}
      invariant remaining + done == routes.Keys && remaining !! done
      invariant HeapsOk(hs)
      invariant forall k :: k in hs ==> fresh(hs[k])
      invariant RoutesIndexed(Snap(hs), routes, vehicles, done, now)
      decreases |remaining|
    {
      var rid :| rid in remaining;
      var vmap := if rid in vehicles then vehicles[rid] else map[];
      ghost var s0 := Snap(hs);
      hs := IndexRoute(hs, rid, vmap, now, s0);
      RoutesIndexedStep(s0, Snap(hs), routes, vehicles, done, rid, vmap, now);
      MoveOne(remaining, done, routes.Keys, rid);
      remaining := remaining - {rid};
      done := done + {rid};
    }
  }

  lemma RoutesIndexedAll(s: map<string, seq<Entry<Arrival>>>, routes: map<string, Route>,
                         vehicles: map<string, map<string, Vehicle>>, now: int)
    requires RoutesIndexed(s, routes, vehicles, routes.Keys, now)
    ensures IndexExact(s, routes, vehicles, now)
  {
  }
}
