/**
 * The pure rules of transport/manager_fb_ds.py: alias tables, schedule
 * matching, the delay formula, the departure rule and the report filter.
 */
module Rules {
  import opened Wrappers
  import opened Text
  import opened Records

  /** Python truthiness of an optional string: present and non-empty. */
  predicate Truthy(o: Option<string>) {
    o.Some? && o.value != ""
  }

  function Min(a: int, b: int): int { if a <= b then a else b }
  function Max(a: int, b: int): int { if a >= b then a else b }

  /** Effective arrival: scheduled epoch seconds plus the delay in minutes. */
  function EtaOf(item: ScheduleItem, delayMinutes: int): (eta: int)
    ensures delayMinutes >= 0 ==> eta >= item.timeEpoch
    ensures delayMinutes <= 0 ==> eta <= item.timeEpoch
  {
    item.timeEpoch + delayMinutes * 60
  }

  function EtaAt(v: Vehicle, i: int): int
    requires 0 <= i < |v.schedule|
  {
    EtaOf(v.schedule[i], v.delayMinutes)
  }

  // ---------- Alias tables ----------

  /** No later stop in the list normalises like `stops[i]`. */
  ghost predicate LastWithNorm(stops: seq<string>, i: int)
    requires 0 <= i < |stops|
  {
    forall j :: i < j < |stops| ==> NormStop(stops[j]) != NormStop(stops[i])
  }

  /** `{_norm_stop(s): s for s in stops}`: later stops overwrite earlier
      ones with the same normalisation. */
  function StopAliasOf(stops: seq<string>): (m: map<string, string>)
    ensures AliasCovers(stops, m)
    ensures AliasFaithful(stops, m)
    ensures AliasLastWins(stops, m)
  {
    if stops == [] then map[]
    else
      var n := |stops| - 1;
      var m0 := StopAliasOf(stops[..n]);
      AliasStep(stops, m0);
      m0[NormStop(stops[n]) := stops[n]]
  }

  /** Every stop's normalisation is a key. */
  ghost predicate AliasCovers(stops: seq<string>, m: map<string, string>) {
    forall i :: 0 <= i < |stops| ==> NormStop(stops[i]) in m
  }

  /** Every key maps to a stop of the list that normalises to it. */
  ghost predicate AliasFaithful(stops: seq<string>, m: map<string, string>) {
    forall k :: k in m ==> NormStop(m[k]) == k && m[k] in stops
  }

  /** The last stop with a given normalisation is the one that key maps to. */
  ghost predicate AliasLastWins(stops: seq<string>, m: map<string, string>) {
    forall i :: 0 <= i < |stops| && LastWithNorm(stops, i) ==> NormStop(stops[i]) in m && m[NormStop(stops[i])] == stops[i]
  }

  /** Adding the last stop of a list to the table of the earlier ones. */
  lemma AliasStep(stops: seq<string>, m0: map<string, string>)
    requires |stops| > 0
    requires AliasCovers(stops[..|stops| - 1], m0)
    requires AliasFaithful(stops[..|stops| - 1], m0)
    requires AliasLastWins(stops[..|stops| - 1], m0)
    ensures AliasCovers(stops, m0[NormStop(stops[|stops| - 1]) := stops[|stops| - 1]])
    ensures AliasFaithful(stops, m0[NormStop(stops[|stops| - 1]) := stops[|stops| - 1]])
    ensures AliasLastWins(stops, m0[NormStop(stops[|stops| - 1]) := stops[|stops| - 1]])
  {
    AliasStepCovers(stops, m0);
    AliasStepFaithful(stops, m0);
    AliasStepLastWins(stops, m0);
  }

  lemma AliasStepCovers(stops: seq<string>, m0: map<string, string>)
    requires |stops| > 0
    requires AliasCovers(stops[..|stops| - 1], m0)
    ensures AliasCovers(stops, m0[NormStop(stops[|stops| - 1]) := stops[|stops| - 1]])
  {
    var n := |stops| - 1;
    forall i | 0 <= i < n ensures NormStop(stops[i]) in m0 {
      assert stops[..n][i] == stops[i];
    }
  }

  lemma AliasStepFaithful(stops: seq<string>, m0: map<string, string>)
    requires |stops| > 0
    requires AliasFaithful(stops[..|stops| - 1], m0)
    ensures AliasFaithful(stops, m0[NormStop(stops[|stops| - 1]) := stops[|stops| - 1]])
  {
    var n := |stops| - 1;
    var m := m0[NormStop(stops[n]) := stops[n]];
    forall k | k in m ensures NormStop(m[k]) == k && m[k] in stops {
      if k != NormStop(stops[n]) {
        var i :| 0 <= i < n && stops[..n][i] == m0[k];
        assert stops[i] == m[k];
      }
    }
  }

  lemma AliasStepLastWins(stops: seq<string>, m0: map<string, string>)
    requires |stops| > 0
    requires AliasLastWins(stops[..|stops| - 1], m0)
    ensures AliasLastWins(stops, m0[NormStop(stops[|stops| - 1]) := stops[|stops| - 1]])
  {
    var n := |stops| - 1;
    var init := stops[..n];
    var m := m0[NormStop(stops[n]) := stops[n]];
    forall i | 0 <= i < |stops| && LastWithNorm(stops, i)
      ensures NormStop(stops[i]) in m && m[NormStop(stops[i])] == stops[i]
    {
      if i < n {
        assert NormStop(stops[i]) != NormStop(stops[n]);
        assert init[i] == stops[i];
        assert LastWithNorm(init, i) by {
          forall j | i < j < n ensures NormStop(init[j]) != NormStop(init[i]) {
            assert init[j] == stops[j];
          }
        }
      }
    }
  }

  /** The per-route stop alias tables built by a refresh. */
  ghost function StopAliasTable(routes: map<string, Route>): map<string, map<string, string>> {
    map rid | rid in routes :: StopAliasOf(routes[rid].stops)
  }

  /** `rid` is a key of the route table. A named predicate, so that the
      quantifier of `RouteAliasIndexes` is instantiated only where a route
      is known to be in the table. */
  predicate KnownRoute(routes: map<string, Route>, rid: string) {
    rid in routes
  }

  /** The route alias table: both case spellings of every known route id
      are keys, and every key names a known route spelled that way. */
  ghost predicate RouteAliasIndexes(alias: map<string, string>, routes: map<string, Route>) {
    && (forall rid :: KnownRoute(routes, rid) ==> ToLower(rid) in alias && ToUpper(rid) in alias)
    && (forall k :: k in alias ==> alias[k] in routes && (ToLower(alias[k]) == k || ToUpper(alias[k]) == k))
  }

  /** No two known route ids differ only in letter case. */
  ghost predicate CaseDistinct(routes: map<string, Route>) {
    forall r1, r2 :: r1 in routes && r2 in routes && SameIgnoringCase(r1, r2) ==> r1 == r2
  }

  // ---------- Schedule matching ----------

  /** The first schedule index at or after `from` whose stop normalises to
      `target`: what draining the queue of `schedule[from..]` finds. */
  function FirstMatch(sched: seq<ScheduleItem>, from: int, target: string): (r: Option<nat>)
    ensures r.Some? ==> from <= r.value < |sched| && NormStop(sched[r.value].stop) == target
    ensures forall j :: 0 <= j < |sched| && from <= j && (r.None? || j < r.value) ==> NormStop(sched[j].stop) != target
    decreases |sched| - from
  {
    if from < 0 then FirstMatch(sched, 0, target)
    else if from >= |sched| then None
    else if NormStop(sched[from].stop) == target then Some(from)
    else
      var r := FirstMatch(sched, from + 1, target);
      NoEarlierMatch(sched, from, target, r);
      r
  }

  /** A miss at `from` followed by no match before `r` from `from + 1` on
      means no match before `r` from `from` on. */
  lemma NoEarlierMatch(sched: seq<ScheduleItem>, from: int, target: string, r: Option<nat>)
    requires 0 <= from < |sched| && NormStop(sched[from].stop) != target
    requires forall j :: 0 <= j < |sched| && from + 1 <= j && (r.None? || j < r.value) ==> NormStop(sched[j].stop) != target
    ensures forall j :: 0 <= j < |sched| && from <= j && (r.None? || j < r.value) ==> NormStop(sched[j].stop) != target
  {
    forall j | 0 <= j < |sched| && from <= j && (r.None? || j < r.value)
      ensures NormStop(sched[j].stop) != target
    {
      if j > from {
        assert from + 1 <= j;
      }
    }
  }

  /** What a vehicle contributes to `get_next_arrivals`: the effective time
      of its first matching entry from `currentStopIndex` on, unless that
      time is already past. */
  function NextCandidate(v: Vehicle, target: string, now: int): Option<int> {
    match FirstMatch(v.schedule, v.currentStopIndex, target)
    case None => None
    case Some(i) => if EtaAt(v, i) >= now then Some(EtaAt(v, i)) else None
  }

  /** What every vehicle of a route contributes. */
  ghost function Contributions(vmap: map<string, Vehicle>, target: string, now: int): (ncs: map<string, Option<int>>)
    ensures ncs.Keys == vmap.Keys
  {
    map vid | vid in vmap :: NextCandidate(vmap[vid], target, now)
  }

  /** Entry `i` is a future arrival at `target` that `get_next_arrival_epoch`
      considers. */
  predicate FutureMatch(v: Vehicle, i: int, target: string, now: int) {
    0 <= i < |v.schedule| && v.currentStopIndex <= i
    && NormStop(v.schedule[i].stop) == target && EtaAt(v, i) >= now
  }

  // ---------- The stop-arrival index ----------

  /** Entry `i` of `v` puts an arrival at `eta` into the heap of `key` when
      the index is built at `now`. */
  predicate IndexedStop(v: Vehicle, i: int, key: string, eta: int, now: int) {
    0 <= i < |v.schedule| && v.currentStopIndex <= i && v.schedule[i].stop != ""
    && NormStop(v.schedule[i].stop) == key && eta == EtaAt(v, i) && eta >= now
  }

  /** Some entry of `v` puts an arrival at `eta` into the heap of `key`. */
  ghost predicate VehicleIndexes(v: Vehicle, key: string, eta: int, now: int) {
    exists i :: IndexedStop(v, i, key, eta, now)
  }

  /** The heap of `key` holds `(eta, rid, vid)` exactly when this holds. */
  ghost predicate Indexed(routes: map<string, Route>, vehicles: map<string, map<string, Vehicle>>,
                          now: int, key: string, eta: int, a: Arrival) {
    && a.routeId in routes && a.routeId in vehicles && a.vehicleId in vehicles[a.routeId]
    && VehicleIndexes(vehicles[a.routeId][a.vehicleId], key, eta, now)
  }

  // ---------- Mutation rules ----------

  /** The delay, in minutes, that a report adds to each target vehicle. */
  function DelayIncrement(reportType: string, severity: int): (add: int)
    ensures reportType == "delay" ==> 5 <= add <= 50 && add % 5 == 0
    ensures reportType == "delay" && severity <= 1 ==> add == 5
    ensures reportType == "delay" && 1 <= severity <= 10 ==> add == 5 * severity
    ensures reportType == "delay" && severity >= 10 ==> add == 50
    ensures reportType == "breakdown" ==> add == 60
    ensures reportType != "delay" && reportType != "breakdown" ==> add == 0
  {
    if reportType == "delay" then Min(5 * Max(severity, 1), 50)
    else if reportType == "breakdown" then 60
    else 0
  }

  /** The vehicle table of a route after `add` minutes of delay are added
      to each target. */
  ghost function Delayed(vdict: map<string, Vehicle>, targets: set<string>, add: int): map<string, Vehicle> {
    map vid | vid in vdict :: if vid in targets then vdict[vid].(delayMinutes := vdict[vid].delayMinutes + add) else vdict[vid]
  }

  /** The new `currentStopIndex` after a departure from a stop normalising
      to `target`, or None when the index is already at or past the end. */
  function DepartureTarget(idx: int, sched: seq<ScheduleItem>, target: string): (next: Option<int>)
    ensures next.Some? <==> idx < |sched|
    ensures next.Some? ==> idx < next.value <= |sched|
    ensures 0 <= idx < |sched| && NormStop(sched[idx].stop) == target ==> next == Some(idx + 1)
    ensures (0 <= idx && idx + 1 < |sched| && NormStop(sched[idx].stop) != target
             && NormStop(sched[idx + 1].stop) == target) ==> next == Some(idx + 2)
    ensures next.Some? && next.value == idx + 2 ==> 0 <= idx && NormStop(sched[idx + 1].stop) == target
    ensures (idx < |sched| && !(0 <= idx && NormStop(sched[idx].stop) == target)
             && !(0 <= idx && idx + 1 < |sched| && NormStop(sched[idx + 1].stop) == target)) ==> next == Some(idx + 1)
  {
    if 0 <= idx < |sched| && NormStop(sched[idx].stop) == target then Some(idx + 1)
    else if 0 <= idx < |sched| && idx + 1 < |sched| && NormStop(sched[idx + 1].stop) == target then Some(idx + 2)
    else if idx < |sched| then Some(Min(idx + 1, |sched|))
    else None
  }

  /** The record entries of a report collection, in order, without the
      entries of any other shape. */
  function RecordsOf(entries: seq<ReportEntry>): (r: seq<Report>)
    ensures |r| <= |entries|
    ensures forall x :: multiset(r)[x] == multiset(entries)[Record(x)]
  {
    if entries == [] then []
    else
      var rest := RecordsOf(entries[1..]);
      assert entries == [entries[0]] + entries[1..];
      match entries[0]
      case Record(x) => [x] + rest
      case Malformed => rest
  }
}
