/**
 * The read-only scans of transport/manager_fb_ds.py over one route's
 * vehicle table: the queue drain and candidate list of
 * `get_next_arrivals`, and the best-so-far loop of
 * `get_next_arrival_epoch`.
 */
module Queries {
  import opened Wrappers
  import opened Text
  import opened Sorting
  import opened Records
  import opened Rules

  // ---------- The queue drain of one vehicle ----------

  /** A match with nothing matching before it is the first match. */
  lemma FirstMatchAt(sched: seq<ScheduleItem>, from: int, target: string, p: int)
    requires from <= p < |sched| && 0 <= p
    requires NormStop(sched[p].stop) == target
    requires forall j :: 0 <= j < p && from <= j ==> NormStop(sched[j].stop) != target
    ensures FirstMatch(sched, from, target) == Some(p)
  {
  }

  /** The entries a vehicle still has to serve, `schedule[i]` for every
      `i >= currentStopIndex`, pushed in order into a queue that is then
      drained until the first entry at `target`: its effective time, unless
      that is before `now`. */
  method ScanVehicle(v: Vehicle, target: string, now: int) returns (c: Option<int>)
    ensures c == NextCandidate(v, target, now)
  {
    var q := PendingEntries(v);
    c := DrainPending(v, q, target, now);
  }

  /** The first position `schedule[i]` with `i >= currentStopIndex` can
      have, clamped to the schedule. */
  function PendingStart(v: Vehicle): (start: nat)
    ensures start <= |v.schedule|
  {
    Min(Max(v.currentStopIndex, 0), |v.schedule|)
  }

  /** The queue-filling loop: the entries at or after `currentStopIndex`,
      in order. */
  method PendingEntries(v: Vehicle) returns (q: seq<ScheduleItem>)
    ensures q == v.schedule[PendingStart(v)..]
  {
    var start := PendingStart(v);
    q := [];
    var i := 0;
    while i < |v.schedule|
      invariant 0 <= i <= |v.schedule|
      invariant i <= start ==> q == []
      invariant start <= i ==> q == v.schedule[start..i]
    {
      if i >= v.currentStopIndex {
        assert start <= i;
        assert v.schedule[start..i + 1] == v.schedule[start..i] + [v.schedule[i]];
        q := q + [v.schedule[i]];
      } else {
        assert i < start;
      }
      i := i + 1;
    }
  }

  /** The queue-draining loop: stops at the first entry at `target`. */
  method DrainPending(v: Vehicle, q0: seq<ScheduleItem>, target: string, now: int) returns (c: Option<int>)
    requires q0 == v.schedule[PendingStart(v)..]
    ensures c == NextCandidate(v, target, now)
  {
    var q := q0;
    ghost var pos := PendingStart(v);
    c := None;
    while q != []
      invariant PendingStart(v) <= pos <= |v.schedule| && q == v.schedule[pos..]
      invariant forall j :: 0 <= j < pos && v.currentStopIndex <= j ==> NormStop(v.schedule[j].stop) != target
      invariant c.None?
      decreases |q|
    {
      var item := q[0];
      q := q[1..];
      if NormStop(item.stop) == target {
        FirstMatchAt(v.schedule, v.currentStopIndex, target, pos);
        var eta := EtaOf(item, v.delayMinutes);
        if eta >= now {
          c := Some(eta);
        }
        return;
      }
      pos := pos + 1;
    }
    NoMatchFrom(v.schedule, v.currentStopIndex, target);
  }

  /** With nothing matching from `from` on there is no first match. */
  lemma NoMatchFrom(sched: seq<ScheduleItem>, from: int, target: string)
    requires forall j :: 0 <= j < |sched| && from <= j ==> NormStop(sched[j].stop) != target
    ensures FirstMatch(sched, from, target).None?
  {
  }

  // ---------- get_next_arrivals ----------

  /** `c` is what vehicle `c.vehicleId` contributes by the table `ncs`. */
  predicate Offers(ncs: map<string, Option<int>>, c: Candidate) {
    c.vehicleId in ncs && ncs[c.vehicleId] == Some(c.eta)
  }

  /** The vehicles that contribute a candidate. */
  ghost function Offering(ncs: map<string, Option<int>>): set<string> {
    set vid | vid in ncs && ncs[vid].Some?
  }

  function EtaKey(c: Candidate): int { c.eta }

  /** In a list of offers with no repeated element no vehicle occurs
      twice. */
  lemma {:induction false} DistinctVehicles(ncs: map<string, Option<int>>, s: seq<Candidate>)
    requires forall j :: 0 <= j < |s| ==> Offers(ncs, s[j])
    requires forall x :: multiset(s)[x] <= 1
    ensures forall i, j :: 0 <= i < j < |s| ==> s[i].vehicleId != s[j].vehicleId
  {
    forall i, j | 0 <= i < j < |s|
      ensures s[i].vehicleId != s[j].vehicleId
    {
      if s[i].vehicleId == s[j].vehicleId {
        assert s[i] == s[j];
        TwiceInMultiset(s, i, j);
        assert false;
      }
    }
  }

  /** What the truncated list leaves out arrives no earlier than anything
      it keeps. */
  lemma {:induction false} DroppedNoEarlier(ncs: map<string, Option<int>>,
                                           sorted: seq<Candidate>, n: nat, r: seq<Candidate>, vid: string)
    requires SortedBy(sorted, EtaKey) && n <= |sorted| && r == sorted[..n]
    requires vid in ncs && ncs[vid].Some? && Candidate(ncs[vid].value, vid) in sorted
    requires forall i :: 0 <= i < |r| ==> r[i].vehicleId != vid
    ensures forall i :: 0 <= i < |r| ==> r[i].eta <= ncs[vid].value
  {
    var x := Candidate(ncs[vid].value, vid);
    assert x !in r;
    BeyondPrefix(sorted, EtaKey, n, x);
    forall i | 0 <= i < |r| ensures r[i].eta <= x.eta {
      assert r[i] == sorted[i];
    }
  }

  /** `options` holds, once each, the offers of the vehicles `done`. */
  ghost predicate Gathered(ncs: map<string, Option<int>>, done: set<string>, contrib: set<string>,
                           options: seq<Candidate>)
  {
    && done <= ncs.Keys
    && contrib == (set vid | vid in done && ncs[vid].Some?)
    && |options| == |contrib|
    && (forall j :: 0 <= j < |options| ==> Offers(ncs, options[j]) && options[j].vehicleId in done)
    && (forall vid :: vid in contrib ==> Candidate(ncs[vid].value, vid) in options)
    && (forall x :: multiset(options)[x] <= 1)
  }

  lemma GatheredSkip(ncs: map<string, Option<int>>, done: set<string>, contrib: set<string>,
                     options: seq<Candidate>, vid: string)
    requires Gathered(ncs, done, contrib, options)
    requires vid in ncs && vid !in done && ncs[vid].None?
    ensures Gathered(ncs, done + {vid}, contrib, options)
  {
  }

  lemma GatheredAdd(ncs: map<string, Option<int>>, done: set<string>, contrib: set<string>,
                    options: seq<Candidate>, vid: string)
    requires Gathered(ncs, done, contrib, options)
    requires vid in ncs && vid !in done && ncs[vid].Some?
    ensures Gathered(ncs, done + {vid}, contrib + {vid}, options + [Candidate(ncs[vid].value, vid)])
  {
    var x := Candidate(ncs[vid].value, vid);
    assert x !in options;
    var options' := options + [x];
    assert forall j :: 0 <= j < |options| ==> options'[j] == options[j];
    assert |contrib + {vid}| == |contrib| + 1;
  }

  /** The loop of `get_next_arrivals` over the vehicles of one route:
      appends each vehicle's candidate, if it has one. */
  method GatherOptions(vmap: map<string, Vehicle>, target: string, now: int) returns (options: seq<Candidate>)
    ensures forall j :: 0 <= j < |options| ==> Offers(Contributions(vmap, target, now), options[j])
    ensures forall vid :: vid in Offering(Contributions(vmap, target, now)) ==>
              Candidate(Contributions(vmap, target, now)[vid].value, vid) in options
    ensures forall x :: multiset(options)[x] <= 1
    ensures |options| == |Offering(Contributions(vmap, target, now))|
  {
    ghost var ncs := Contributions(vmap, target, now);
    options := [];
    var remaining := vmap.Keys;
    ghost var done: set<string> := {};
    ghost var contrib: set<string> := {};
    while remaining != {}
      invariant remaining + done == vmap.Keys && remaining !! done
      invariant Gathered(ncs, done, contrib, options)
      decreases |remaining|
    {
      var vid :| vid in remaining;
      var c := ScanVehicle(vmap[vid], target, now);
      assert c == ncs[vid];
      if c.Some? {
        GatheredAdd(ncs, done, contrib, options, vid);
        options := options + [Candidate(c.value, vid)];
        contrib := contrib + {vid};
      } else {
        GatheredSkip(ncs, done, contrib, options, vid);
      }
      MoveOne(remaining, done, vmap.Keys, vid);
      remaining := remaining - {vid};
      done := done + {vid};
    }
    assert contrib == Offering(ncs);
  }

  /** `r` answers `get_next_arrivals` over the contributions `ncs`: offers
      only, each vehicle once, earliest first, as many as `options[:count]`
      keeps, and nothing left out arrives before anything kept. */
  ghost predicate ArrivalsAnswer(ncs: map<string, Option<int>>, count: int, r: seq<Candidate>) {
    && (forall i :: 0 <= i < |r| ==> Offers(ncs, r[i]))
    && (forall i, j :: 0 <= i < j < |r| ==> r[i].eta <= r[j].eta)
    && (forall i, j :: 0 <= i < j < |r| ==> r[i].vehicleId != r[j].vehicleId)
    && |r| == SliceLength(|Offering(ncs)|, count)
    && (forall vid :: vid in Offering(ncs) && (forall i :: 0 <= i < |r| ==> r[i].vehicleId != vid)
          ==> forall i :: 0 <= i < |r| ==> r[i].eta <= ncs[vid].value)
  }

  /** The candidate list of `get_next_arrivals` for one route: one
      candidate per vehicle whose first remaining entry at `target` is not
      in the past, sorted by arrival, cut to `count` as Python's
      `options[:count]` cuts. `Contributions(vmap, target, now)[vid]` is
      `NextCandidate` of vehicle `vid`. */
  method CollectArrivals(vmap: map<string, Vehicle>, target: string, count: int, now: int)
    returns (r: seq<Candidate>)
    ensures ArrivalsAnswer(Contributions(vmap, target, now), count, r)
  {
    ghost var ncs := Contributions(vmap, target, now);
    var options := GatherOptions(vmap, target, now);
    var sorted := SortBy(options, EtaKey);
    var n := SliceLength(|sorted|, count);
    r := sorted[..n];
    SlicedAnswer(ncs, options, sorted, count, n, r);
  }

  /** Sorting the gathered options and cutting them as `options[:count]`
      answers `get_next_arrivals`. */
  lemma SlicedAnswer(ncs: map<string, Option<int>>, options: seq<Candidate>, sorted: seq<Candidate>,
                     count: int, n: nat, r: seq<Candidate>)
    requires forall j :: 0 <= j < |options| ==> Offers(ncs, options[j])
    requires forall vid :: vid in Offering(ncs) ==> Candidate(ncs[vid].value, vid) in options
    requires forall x :: multiset(options)[x] <= 1
    requires |options| == |Offering(ncs)|
    requires multiset(sorted) == multiset(options) && |sorted| == |options| && SortedBy(sorted, EtaKey)
    requires n == SliceLength(|sorted|, count) && r == sorted[..n]
    ensures ArrivalsAnswer(ncs, count, r)
  {
    SortedCandidates(ncs, options, sorted);
    forall vid | vid in Offering(ncs) && (forall i :: 0 <= i < |r| ==> r[i].vehicleId != vid)
      ensures forall i :: 0 <= i < |r| ==> r[i].eta <= ncs[vid].value
    {
      DroppedNoEarlier(ncs, sorted, n, r, vid);
    }
    forall i, j | 0 <= i < j < |r| ensures r[i].eta <= r[j].eta {
      assert EtaKey(sorted[i]) <= EtaKey(sorted[j]);
    }
  }

  /** Sorting the options keeps them offers, all of them, each once. */
  lemma SortedCandidates(ncs: map<string, Option<int>>, options: seq<Candidate>, sorted: seq<Candidate>)
    requires multiset(sorted) == multiset(options)
    requires forall j :: 0 <= j < |options| ==> Offers(ncs, options[j])
    requires forall vid :: vid in Offering(ncs) ==> Candidate(ncs[vid].value, vid) in options
    requires forall x :: multiset(options)[x] <= 1
    ensures forall j :: 0 <= j < |sorted| ==> Offers(ncs, sorted[j])
    ensures forall vid :: vid in Offering(ncs) ==> Candidate(ncs[vid].value, vid) in sorted
    ensures forall i, j :: 0 <= i < j < |sorted| ==> sorted[i].vehicleId != sorted[j].vehicleId
  {
    forall j | 0 <= j < |sorted| ensures Offers(ncs, sorted[j]) {
      assert sorted[j] in multiset(options);
    }
    forall vid | vid in Offering(ncs) ensures Candidate(ncs[vid].value, vid) in sorted {
      assert Candidate(ncs[vid].value, vid) in multiset(options);
    }
    DistinctVehicles(ncs, sorted);
  }

  // ---------- get_next_arrival_epoch ----------

  /** No position in `seen` is a future arrival at `target`. */
  ghost predicate NoneFound(vmap: map<string, Vehicle>, target: string, now: int, seen: set<(string, int)>) {
    forall p :: p in seen && p.0 in vmap ==> !FutureMatch(vmap[p.0], p.1, target, now)
  }

  /** Some position in `seen` is a future arrival of `c.vehicleId` at `c.eta`. */
  ghost predicate Witnessed(vmap: map<string, Vehicle>, target: string, now: int, seen: set<(string, int)>,
                            c: Candidate)
  {
    exists p :: && p in seen && p.0 in vmap && FutureMatch(vmap[p.0], p.1, target, now)
                && p.0 == c.vehicleId && EtaAt(vmap[p.0], p.1) == c.eta
  }

  /** No future arrival at `target` in `seen` is before `c`. */
  ghost predicate NoneEarlier(vmap: map<string, Vehicle>, target: string, now: int, seen: set<(string, int)>,
                              c: Candidate)
  {
    forall p :: p in seen && p.0 in vmap && FutureMatch(vmap[p.0], p.1, target, now)
                ==> c.eta <= EtaAt(vmap[p.0], p.1)
  }

  /** `best` is the earliest future arrival at `target` among the
      schedule positions `seen`, strict `<` keeping the first one met. */
  ghost predicate BestOver(vmap: map<string, Vehicle>, target: string, now: int,
                           seen: set<(string, int)>, best: Option<Candidate>)
  {
    && (best.None? <==> NoneFound(vmap, target, now, seen))
    && (best.Some? ==> Witnessed(vmap, target, now, seen, best.value))
    && (best.Some? ==> NoneEarlier(vmap, target, now, seen, best.value))
  }

  lemma NoneFoundStep(vmap: map<string, Vehicle>, target: string, now: int, seen: set<(string, int)>,
                      vid: string, i: int)
    requires vid in vmap
    ensures NoneFound(vmap, target, now, seen + {(vid, i)})
            <==> NoneFound(vmap, target, now, seen) && !FutureMatch(vmap[vid], i, target, now)
  {
    if !FutureMatch(vmap[vid], i, target, now) && NoneFound(vmap, target, now, seen) {
      forall p | p in seen + {(vid, i)} && p.0 in vmap ensures !FutureMatch(vmap[p.0], p.1, target, now) {
        if p != (vid, i) {
          assert p in seen;
        }
      }
    }
  }

  lemma WitnessedMore(vmap: map<string, Vehicle>, target: string, now: int, seen: set<(string, int)>,
                      vid: string, i: int, c: Candidate)
    requires vid in vmap
    requires Witnessed(vmap, target, now, seen, c)
             || (FutureMatch(vmap[vid], i, target, now) && c == Candidate(EtaAt(vmap[vid], i), vid))
    ensures Witnessed(vmap, target, now, seen + {(vid, i)}, c)
  {
    if Witnessed(vmap, target, now, seen, c) {
      var p :| && p in seen && p.0 in vmap && FutureMatch(vmap[p.0], p.1, target, now)
               && p.0 == c.vehicleId && EtaAt(vmap[p.0], p.1) == c.eta;
      assert p in seen + {(vid, i)};
    } else {
      assert (vid, i) in seen + {(vid, i)};
    }
  }

  lemma NoneEarlierMore(vmap: map<string, Vehicle>, target: string, now: int, seen: set<(string, int)>,
                        vid: string, i: int, c: Candidate)
    requires vid in vmap
    requires NoneEarlier(vmap, target, now, seen, c)
    requires FutureMatch(vmap[vid], i, target, now) ==> c.eta <= EtaAt(vmap[vid], i)
    ensures NoneEarlier(vmap, target, now, seen + {(vid, i)}, c)
  {
    forall p | p in seen + {(vid, i)} && p.0 in vmap && FutureMatch(vmap[p.0], p.1, target, now)
      ensures c.eta <= EtaAt(vmap[p.0], p.1)
    {
      if p != (vid, i) {
        assert p in seen;
      }
    }
  }

  lemma NoneEarlierLower(vmap: map<string, Vehicle>, target: string, now: int, seen: set<(string, int)>,
                         b: Option<Candidate>, c: Candidate)
    requires b.None? ==> NoneFound(vmap, target, now, seen)
    requires b.Some? ==> NoneEarlier(vmap, target, now, seen, b.value) && c.eta < b.value.eta
    ensures NoneEarlier(vmap, target, now, seen, c)
  {
  }

  /** One step of the best-so-far loop. */
  function Consider(vmap: map<string, Vehicle>, target: string, now: int, vid: string, i: int,
                    best: Option<Candidate>): (best': Option<Candidate>)
    requires vid in vmap && 0 <= i < |vmap[vid].schedule|
    ensures best'.Some? ==> best.Some? || FutureMatch(vmap[vid], i, target, now)
  {
    if FutureMatch(vmap[vid], i, target, now) && (best.None? || EtaAt(vmap[vid], i) < best.value.eta)
    then Some(Candidate(EtaAt(vmap[vid], i), vid))
    else best
  }

  lemma BestOverStep(vmap: map<string, Vehicle>, target: string, now: int,
                     seen: set<(string, int)>, best: Option<Candidate>, vid: string, i: int)
    requires vid in vmap && 0 <= i < |vmap[vid].schedule|
    requires BestOver(vmap, target, now, seen, best)
    ensures BestOver(vmap, target, now, seen + {(vid, i)}, Consider(vmap, target, now, vid, i, best))
  {
    var m := FutureMatch(vmap[vid], i, target, now);
    var e := EtaAt(vmap[vid], i);
    var best' := Consider(vmap, target, now, vid, i, best);
    NoneFoundStep(vmap, target, now, seen, vid, i);
    if best' != best {
      var c := Candidate(e, vid);
      assert best' == Some(c) && m;
      WitnessedMore(vmap, target, now, seen, vid, i, c);
      NoneEarlierLower(vmap, target, now, seen, best, c);
      NoneEarlierMore(vmap, target, now, seen, vid, i, c);
    } else if best.Some? {
      WitnessedMore(vmap, target, now, seen, vid, i, best.value);
      NoneEarlierMore(vmap, target, now, seen, vid, i, best.value);
    }
  }

  /** `best` answers `get_next_arrival_epoch`: nothing exactly when no
      vehicle has a future entry at `target`, otherwise a future entry of
      the named vehicle that no future entry of any vehicle precedes. */
  ghost predicate EarliestAnswer(vmap: map<string, Vehicle>, target: string, now: int, best: Option<Candidate>) {
    && (best.None? <==> forall vid, i :: vid in vmap ==> !FutureMatch(vmap[vid], i, target, now))
    && (best.Some? ==> best.value.vehicleId in vmap && best.value.eta >= now)
    && (best.Some? ==> exists i :: FutureMatch(vmap[best.value.vehicleId], i, target, now)
                                   && EtaAt(vmap[best.value.vehicleId], i) == best.value.eta)
    && (best.Some? ==> forall vid, i :: (vid in vmap && FutureMatch(vmap[vid], i, target, now))
                                         ==> best.value.eta <= EtaAt(vmap[vid], i))
  }

  /** Marking entry `idx` of `vid` as scanned extends the scanned prefix. */
  lemma SeenStep(seen: set<(string, int)>, seen': set<(string, int)>, vid: string, idx: int)
    requires forall p :: p in seen' <==> p in seen || (p.0 == vid && 0 <= p.1 < idx)
    requires 0 <= idx
    ensures forall p :: p in seen' + {(vid, idx)} <==> p in seen || (p.0 == vid && 0 <= p.1 < idx + 1)
  {
  }

  /** The body of the inner loop of `get_next_arrival_epoch` on entry
      `idx` of vehicle `vid`: skipped before the current stop or at another
      stop, otherwise taken when it is not past and strictly earlier than
      `best`. */
  method ConsiderEntry(vmap: map<string, Vehicle>, target: string, now: int, vid: string, idx: int,
                       best: Option<Candidate>) returns (best': Option<Candidate>)
    requires vid in vmap && 0 <= idx < |vmap[vid].schedule|
    ensures best' == Consider(vmap, target, now, vid, idx, best)
  {
    var v := vmap[vid];
    best' := best;
    if idx >= v.currentStopIndex && NormStop(v.schedule[idx].stop) == target {
      var t := EtaOf(v.schedule[idx], v.delayMinutes);
      if t >= now && (best.None? || t < best.value.eta) {
        best' := Some(Candidate(t, vid));
      }
    }
  }

  /** The inner loop of `get_next_arrival_epoch`: every schedule entry
      of vehicle `vid`, in order. */
  method ConsiderVehicle(vmap: map<string, Vehicle>, target: string, now: int, vid: string,
                         best: Option<Candidate>, ghost seen: set<(string, int)>)
    returns (best': Option<Candidate>, ghost seen': set<(string, int)>)
    requires vid in vmap && BestOver(vmap, target, now, seen, best)
    ensures BestOver(vmap, target, now, seen', best')
    ensures forall p :: p in seen' <==> p in seen || (p.0 == vid && 0 <= p.1 < |vmap[vid].schedule|)
  {
    var v := vmap[vid];
    best', seen' := best, seen;
    var idx := 0;
    while idx < |v.schedule|
      invariant 0 <= idx <= |v.schedule|
      invariant forall p :: p in seen' <==> p in seen || (p.0 == vid && 0 <= p.1 < idx)
      invariant BestOver(vmap, target, now, seen', best')
    {
      BestOverStep(vmap, target, now, seen', best', vid, idx);
      best' := ConsiderEntry(vmap, target, now, vid, idx, best');
      SeenStep(seen, seen', vid, idx);
      seen' := seen' + {(vid, idx)};
      idx := idx + 1;
    }
  }

  /** The earliest effective arrival at `target`, at or after `now`, over
      every vehicle of the table and every schedule entry from the
      vehicle's `currentStopIndex` on, with the vehicle that makes it. */
  method EarliestFuture(vmap: map<string, Vehicle>, target: string, now: int) returns (best: Option<Candidate>)
    ensures EarliestAnswer(vmap, target, now, best)
  {
    best := None;
    ghost var seen: set<(string, int)> := {};
    var remaining := vmap.Keys;
    ghost var done: set<string> := {};
    while remaining != {}
      invariant remaining + done == vmap.Keys && remaining !! done
      invariant forall p :: p in seen <==> p.0 in done && 0 <= p.1 < |vmap[p.0].schedule|
      invariant BestOver(vmap, target, now, seen, best)
      decreases |remaining|
    {
      var vid :| vid in remaining;
      best, seen := ConsiderVehicle(vmap, target, now, vid, best, seen);
      MoveOne(remaining, done, vmap.Keys, vid);
      remaining := remaining - {vid};
      done := done + {vid};
    }
    BestOverAll(vmap, target, now, seen, best);
  }

  lemma BestOverAll(vmap: map<string, Vehicle>, target: string, now: int,
                    seen: set<(string, int)>, best: Option<Candidate>)
    requires forall p :: p in seen <==> p.0 in vmap && 0 <= p.1 < |vmap[p.0].schedule|
    requires BestOver(vmap, target, now, seen, best)
    ensures EarliestAnswer(vmap, target, now, best)
  {
    forall vid, i | vid in vmap && FutureMatch(vmap[vid], i, target, now)
      ensures (vid, i) in seen
    {
    }
    if best.Some? {
      var p :| && p in seen && p.0 in vmap && FutureMatch(vmap[p.0], p.1, target, now)
               && p.0 == best.value.vehicleId && EtaAt(vmap[p.0], p.1) == best.value.eta;
      assert FutureMatch(vmap[best.value.vehicleId], p.1, target, now);
    }
  }

  // ---------- get_recent_reports ----------

  function Age(x: Report): int { -x.timestampEpoch }

  lemma PrefixMultiset<T>(s: seq<T>, n: nat)
    requires n <= |s|
    ensures multiset(s[..n]) <= multiset(s)
  {
    assert s == s[..n] + s[n..];
  }

  /** The first `n` of the records sorted oldest-last are a newest-first
      selection of `recs`. */
  lemma {:induction false} NewestPrefix(recs: seq<Report>, sorted: seq<Report>, n: nat, r: seq<Report>)
    requires multiset(sorted) == multiset(recs) && SortedBy(sorted, Age)
    requires n <= |sorted| && r == sorted[..n]
    ensures multiset(r) <= multiset(recs)
    ensures forall i, j :: 0 <= i < j < |r| ==> r[i].timestampEpoch >= r[j].timestampEpoch
    ensures forall x :: x in recs && x !in r ==> forall i :: 0 <= i < |r| ==> r[i].timestampEpoch >= x.timestampEpoch
  {
    PrefixMultiset(sorted, n);
    forall i, j | 0 <= i < j < |r| ensures r[i].timestampEpoch >= r[j].timestampEpoch {
      assert Age(sorted[i]) <= Age(sorted[j]);
    }
    forall x | x in recs && x !in r ensures forall i :: 0 <= i < |r| ==> r[i].timestampEpoch >= x.timestampEpoch {
      assert x in multiset(recs);
      assert x in sorted;
      BeyondPrefix(sorted, Age, n, x);
    }
  }

  /** `items.sort(key=timestampEpoch, reverse=True)` and `items[:lim]` with
      `lim = max(0, limit)`: the newest records first, at most `lim` of
      them, every record left out no newer than any record kept. */
  function NewestFirst(recs: seq<Report>, limit: int): (r: seq<Report>)
    ensures |r| == Min(Max(0, limit), |recs|)
    ensures multiset(r) <= multiset(recs)
    ensures forall i, j :: 0 <= i < j < |r| ==> r[i].timestampEpoch >= r[j].timestampEpoch
    ensures forall x :: x in recs && x !in r ==> forall i :: 0 <= i < |r| ==> r[i].timestampEpoch >= x.timestampEpoch
  {
    var sorted := SortBy(recs, Age);
    var n := Min(Max(0, limit), |sorted|);
    NewestPrefix(recs, sorted, n, sorted[..n]);
    sorted[..n]
  }
}
