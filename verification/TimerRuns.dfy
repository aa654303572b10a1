/** What every pass of the timer does, and what every run of it keeps. */
module TimerRuns {
  import opened TimerSpec

  datatype Op =
    | NewEvent(id: nat, interval: int, repeated: bool, t: int)
    | AddEvent(id: nat, t: int)
    | DeleteEvent(id: nat)
    | Tick(r: Readings)

  /** New events are new, no event is added while it is pending, and time does not go back. */
  ghost predicate Legal(s: State, op: Op) {
    match op
    case NewEvent(id, _, _, t) => id !in s.q.events && s.clock <= t
    case AddEvent(id, t) => id in s.q.events && !Pending(s.q, id) && s.clock <= t
    case DeleteEvent(id) => id in s.q.events
    case Tick(r) => Forward(s.clock, r) && |r.resets| == |RepeatsAt(s.q, r.now)|
  }

  ghost function Step(s: State, op: Op): State
    requires Consistent(s.q) && Legal(s, op)
  {
    match op
    case NewEvent(id, interval, repeated, t) => Create(s, id, interval, repeated, t)
    case AddEvent(id, t) => Add(s, id, t)
    case DeleteEvent(id) => Delete(s, id)
    case Tick(r) => OnTimer(s, r)
  }

  // ---- The queue stays consistent ----

  lemma {:induction false} ErasePicks(p: seq<Entry>, key: int, id: nat)
    requires Distinct(p) && Sorted(p) && forall x | x in p && x.id == id :: x.key == key
    ensures Distinct(Erase(p, key, id)) && Sorted(Erase(p, key, id))
    ensures forall x :: x in Erase(p, key, id) <==> x in p && x.id != id
  {
    if p != [] {
      assert p == [p[0]] + p[1..];
      if p[0].key == key && p[0].id == id {
        assert forall x | x in p[1..] :: x.id != id;
      } else {
        ErasePicks(p[1..], key, id);
        var r := Erase(p[1..], key, id);
        forall k | 0 <= k < |r| ensures Sooner(p[0], r[k]) && p[0].id != r[k].id {
          assert r[k] in p[1..];
        }
      }
    }
  }

  lemma DeleteConsistent(s: State, id: nat)
    requires Consistent(s.q) && id in s.q.events
    ensures Consistent(Delete(s, id).q) && !Pending(Delete(s, id).q, id)
    ensures forall x :: x in Delete(s, id).q.pending <==> x in s.q.pending && x.id != id
  {
    ErasePicks(s.q.pending, s.q.events[id].arrive, id);
  }

  lemma TickConsistent(s: State, r: Readings)
    requires Consistent(s.q) && |r.resets| == |RepeatsAt(s.q, r.now)|
    ensures Consistent(OnTimer(s, r).q)
  {
    LiveFacts(s.q, r.now);
    AgainAllConsistent(Later(s.q, r.now), RepeatsAt(s.q, r.now), r.resets);
  }

  lemma StepConsistent(s: State, op: Op)
    requires Consistent(s.q) && Legal(s, op)
    ensures Consistent(Step(s, op).q)
  {
    match op
    case NewEvent(id, interval, repeated, t) =>
    case AddEvent(id, t) => EnqueueConsistent(s.q, id);
    case DeleteEvent(id) => DeleteConsistent(s, id);
    case Tick(r) => TickConsistent(s, r);
  }

  // ---- No timer is lost ----

  function Max(a: int, b: int): int { if a < b then b else a }

  /**
   * A non-empty queue has a timerfd that was set to a non-zero value, not read since it
   * expired, and due no later than the earliest arrival or 100 ms after it was set.
   */
  ghost predicate Wakes(s: State) {
    s.q.pending != [] ==>
      && s.fd.Armed? && s.fd.setAt <= s.clock && s.fd.setAt < s.fd.deadline
      && s.fd.deadline <= Max(s.q.pending[0].key, s.fd.setAt + 100)
  }

  /** The timerfd is set to the earliest arrival itself, or 100 ms ahead if that has passed. */
  lemma RearmWakes(q: Queue, fd: TimerFd, t: int, fired: seq<Firing>)
    requires Consistent(q)
    ensures q.pending != [] ==> q.pending[0].id in q.events
    ensures q.pending != [] ==>
              Rearm(q, fd, t) == Armed(if q.pending[0].key > t then q.pending[0].key else t + 100, t)
    ensures Wakes(State(q, Rearm(q, fd, t), t, fired))
  {
    if q.pending != [] {
      assert q.pending[0] in q.pending;
      var arrive := q.events[q.pending[0].id].arrive;
      TimespecExact(if arrive > t then arrive - t else 100);
    }
  }

  lemma AddWakes(s: State, id: nat, t: int)
    requires Consistent(s.q) && Wakes(s) && Legal(s, AddEvent(id, t))
    ensures Wakes(Add(s, id, t))
  {
    EnqueueConsistent(s.q, id);
    EnqueueFirst(s.q, id);
    RearmWakes(Enqueue(s.q, id), s.fd, t, s.fired);
    if s.q.pending != [] {
      assert s.q.pending[0] in s.q.pending;
    }
  }

  lemma DeleteWakes(s: State, id: nat)
    requires Consistent(s.q) && Wakes(s) && id in s.q.events
    ensures Wakes(Delete(s, id))
  {
    DeleteConsistent(s, id);
    var p, p' := s.q.pending, Delete(s, id).q.pending;
    if p' != [] {
      assert p'[0] in p';
      var i :| 0 <= i < |p| && p[i] == p'[0];
      assert i > 0 ==> Sooner(p[0], p[i]);
    }
  }

  lemma StepWakes(s: State, op: Op)
    requires Consistent(s.q) && Wakes(s) && Legal(s, op)
    ensures Wakes(Step(s, op))
  {
    match op
    case NewEvent(id, interval, repeated, t) =>
    case AddEvent(id, t) => AddWakes(s, id, t);
    case DeleteEvent(id) => DeleteWakes(s, id);
    case Tick(r) =>
      TickConsistent(s, r);
      LiveFacts(s.q, r.now);
      RearmWakes(OnTimer(s, r).q, Drain(s.fd, r.drain), r.last, OnTimer(s, r).fired);
  }

  // ---- One pass, exactly ----

  /** What a pass makes of an event that it puts back. */
  ghost function Rekeyed(q: Queue, again: seq<Entry>, times: seq<int>): seq<Entry>
    requires |again| == |times| && forall e | e in again :: e.id in q.events
  {
    seq(|again|, i requires 0 <= i < |again| =>
      Entry(times[i] + q.events[again[i].id].interval, again[i].id, q.stamps + i))
  }

  lemma {:induction false} AgainAllContents(q: Queue, again: seq<Entry>, times: seq<int>)
    requires Consistent(q) && Aside(q, again) && |again| == |times|
    ensures multiset(AgainAll(q, again, times).pending) == multiset(q.pending) + multiset(Rekeyed(q, again, times))
    decreases |again|
  {
    if again == [] {
      assert Rekeyed(q, again, times) == [];
    } else {
      var q1, e := Again(q, again[0].id, times[0]), Entry(times[0] + q.events[again[0].id].interval, again[0].id, q.stamps);
      AgainConsistent(q, again[0].id, times[0]);
      AgainAllContents(q1, again[1..], times[1..]);
      AgainContents(q, again[0].id, times[0], e);
      RekeyedCons(q, again, times);
      var rest := Rekeyed(q1, again[1..], times[1..]);
      assert Rekeyed(q, again, times) == [e] + rest;
      Regroup(multiset(AgainAll(q, again, times).pending), q1.pending, q.pending, e, rest);
    }
  }

  lemma AgainContents(q: Queue, id: nat, t: int, e: Entry)
    requires id in q.events && e == Entry(t + q.events[id].interval, id, q.stamps)
    ensures multiset(Again(q, id, t).pending) == multiset(q.pending) + multiset{e}
  {
    var p, r := q.pending, Again(q, id, t).pending;
    assert r == Insert(p, e);
    InsertContents(p, e);
  }

  lemma Regroup(all: multiset<Entry>, p1: seq<Entry>, p: seq<Entry>, e: Entry, rest: seq<Entry>)
    requires all == multiset(p1) + multiset(rest) && multiset(p1) == multiset(p) + multiset{e}
    ensures all == multiset(p) + multiset([e] + rest)
  {
    assert multiset([e] + rest) == multiset{e} + multiset(rest);
  }

  lemma RekeyedCons(q: Queue, again: seq<Entry>, times: seq<int>)
    requires Aside(q, again) && |again| == |times| && again != []
    ensures forall e | e in again[1..] :: e.id in Again(q, again[0].id, times[0]).events
    ensures Rekeyed(q, again, times)
            == [Entry(times[0] + q.events[again[0].id].interval, again[0].id, q.stamps)]
               + Rekeyed(Again(q, again[0].id, times[0]), again[1..], times[1..])
  {
    assert again == [again[0]] + again[1..];
  }

  /**
   * A pass at `now` runs exactly the callbacks of the pending, due, uncancelled events, by
   * arrival time with ties in insertion order, and leaves exactly the later entries and the
   * re-keyed repeated ones: due cancelled events are dropped.
   */
  lemma PassIsExact(s: State, r: Readings)
    requires Consistent(s.q) && |r.resets| == |RepeatsAt(s.q, r.now)|
    ensures var live, s' := LiveAt(s.q, r.now), OnTimer(s, r);
            && Sorted(live)
            && (forall e :: e in live <==> e in s.q.pending && e.key <= r.now && !s.q.events[e.id].cancelled)
            && |s'.fired| == |s.fired| + |live| && s'.fired[..|s.fired|] == s.fired
            && (forall i | 0 <= i < |live| :: s'.fired[|s.fired| + i] == Firing(live[i].id, live[i].key, r.now))
    ensures forall e :: e in RepeatsAt(s.q, r.now)
                        <==> e in LiveAt(s.q, r.now) && s.q.events[e.id].repeated
    ensures forall e :: e in Later(s.q, r.now).pending <==> e in s.q.pending && e.key > r.now
    ensures forall e | e in RepeatsAt(s.q, r.now) :: e.id in s.q.events
    ensures multiset(OnTimer(s, r).q.pending)
            == multiset(Later(s.q, r.now).pending) + multiset(Rekeyed(s.q, RepeatsAt(s.q, r.now), r.resets))
  {
    var n := DueCount(s.q.pending, r.now);
    var due, later := s.q.pending[..n], Later(s.q, r.now);
    assert s.q.pending == due + later.pending;
    DueCountSplits(s.q.pending, r.now);
    LivePicks(s.q.events, due);
    RepeatsPicks(s.q.events, LiveAt(s.q, r.now));
    LiveFacts(s.q, r.now);
    AgainAllContents(later, RepeatsAt(s.q, r.now), r.resets);
    assert Rekeyed(later, RepeatsAt(s.q, r.now), r.resets) == Rekeyed(s.q, RepeatsAt(s.q, r.now), r.resets);
  }

  /** The rest of the state after a pass: each event, the timerfd of an empty queue, the clock. */
  lemma PassKeepsTheRest(s: State, r: Readings)
    requires Consistent(s.q) && |r.resets| == |RepeatsAt(s.q, r.now)|
    ensures var again, s' := RepeatsAt(s.q, r.now), OnTimer(s, r);
            && s'.clock == r.last && s'.q.events.Keys == s.q.events.Keys
            && (forall i | 0 <= i < |again| :: again[i].id in s.q.events
                  && var e := s.q.events[again[i].id];
                     s'.q.events[again[i].id] == e.(arrive := r.resets[i] + e.interval))
            && (forall id | id in s.q.events && (forall i | 0 <= i < |again| :: again[i].id != id) ::
                  s'.q.events[id] == s.q.events[id])
            && (s'.q.pending == [] ==>
                  s'.fd == if s.fd.Armed? && s.fd.deadline <= r.drain then Disarmed else s.fd)
  {
    LiveFacts(s.q, r.now);
    AgainAllEvents(Later(s.q, r.now), RepeatsAt(s.q, r.now), r.resets);
  }

  lemma AgainAllEvents(q: Queue, again: seq<Entry>, times: seq<int>)
    requires |again| == |times| && Distinct(again) && forall i | 0 <= i < |again| :: again[i].id in q.events
    ensures forall i | 0 <= i < |again| ::
              var e := q.events[again[i].id];
              AgainAll(q, again, times).events[again[i].id] == e.(arrive := times[i] + e.interval)
    ensures forall id | id in q.events && (forall i | 0 <= i < |again| :: again[i].id != id) ::
              AgainAll(q, again, times).events[id] == q.events[id]
  {
    forall i | 0 <= i < |again|
      ensures var e := q.events[again[i].id];
              AgainAll(q, again, times).events[again[i].id] == e.(arrive := times[i] + e.interval)
    {
      AgainAllMoves(q, again, times, i);
    }
    forall id | id in q.events && (forall i | 0 <= i < |again| :: again[i].id != id)
      ensures AgainAll(q, again, times).events[id] == q.events[id]
    {
      AgainAllOthers(q, again, times, id);
    }
  }

  lemma {:induction false} AgainAllMoves(q: Queue, again: seq<Entry>, times: seq<int>, i: nat)
    requires |again| == |times| && Distinct(again) && forall i | 0 <= i < |again| :: again[i].id in q.events
    requires i < |again|
    ensures var e := q.events[again[i].id];
            AgainAll(q, again, times).events[again[i].id] == e.(arrive := times[i] + e.interval)
    decreases |again|
  {
    var q1, rest := Again(q, again[0].id, times[0]), again[1..];
    if i == 0 {
      forall j | 0 <= j < |rest| ensures rest[j].id != again[0].id {
        assert rest[j] == again[j + 1];
      }
      AgainAllOthers(q1, rest, times[1..], again[0].id);
    } else {
      AgainAllMoves(q1, rest, times[1..], i - 1);
      assert again[i].id != again[0].id;
    }
  }

  // ---- The other operations, exactly ----

  /** Adding puts in one entry, and sets the timerfd only for a new earliest arrival. */
  lemma AddIsExact(s: State, id: nat, t: int)
    requires Consistent(s.q) && id in s.q.events
    ensures var s', a := Add(s, id, t), s.q.events[id].arrive;
            && s'.q.events == s.q.events && s'.fired == s.fired && s'.clock == t
            && multiset(s'.q.pending) == multiset(s.q.pending) + multiset{Entry(a, id, s.q.stamps)}
            && s'.fd == if forall e | e in s.q.pending :: e.key > a then Armed(if a > t then a else t + 100, t)
                        else s.fd
  {
    var p, a := s.q.pending, s.q.events[id].arrive;
    InsertContents(p, Entry(a, id, s.q.stamps));
    EnqueueFirst(s.q, id);
    if p != [] {
      assert p[0] in p;
      forall e | e in p ensures e.key >= p[0].key {
        var i :| 0 <= i < |p| && p[i] == e;
        assert i > 0 ==> Sooner(p[0], p[i]);
      }
    }
    if p == [] || p[0].key > a {
      TimespecExact(if a > t then a - t else 100);
    }
  }

  /** Deleting cancels one event and takes its entry off the queue; nothing else changes. */
  lemma DeleteIsExact(s: State, id: nat)
    requires Consistent(s.q) && id in s.q.events
    ensures var s' := Delete(s, id);
            && s'.q.events.Keys == s.q.events.Keys && s'.q.events[id] == s.q.events[id].(cancelled := true)
            && (forall x | x in s.q.events && x != id :: s'.q.events[x] == s.q.events[x])
            && (forall e :: e in s'.q.pending <==> e in s.q.pending && e.id != id)
            && s'.fd == s.fd && s'.fired == s.fired && s'.clock == s.clock
  {
    DeleteConsistent(s, id);
  }

  /** A new event is due one interval ahead; nothing else changes. */
  lemma CreateIsExact(s: State, id: nat, interval: int, repeated: bool, t: int)
    requires id !in s.q.events
    ensures var s' := Create(s, id, interval, repeated, t);
            && s'.q.events.Keys == s.q.events.Keys + {id}
            && s'.q.events[id] == Event(t + interval, interval, repeated, false)
            && (forall x | x in s.q.events :: s'.q.events[x] == s.q.events[x])
            && s'.q.pending == s.q.pending && s'.fd == s.fd && s'.fired == s.fired && s'.clock == t
  {
  }

  // ---- What every run keeps ----

  /** Events that fired did so no earlier than due, and repeated ones are spaced by their interval. */
  ghost predicate OnTime(s: State) {
    && (forall f | f in s.fired :: f.id in s.q.events && f.due <= f.at <= s.clock)
    && (forall i, j | 0 <= i < j < |s.fired| :: s.fired[i].at <= s.fired[j].at)
  }

  ghost predicate Spaced(s: State)
    requires OnTime(s)
  {
    && (forall f | f in s.fired && s.q.events[f.id].repeated ::
          s.q.events[f.id].arrive >= f.at + s.q.events[f.id].interval)
    && (forall i, j | 0 <= i < j < |s.fired| && s.fired[i].id == s.fired[j].id ::
          var e := s.q.events[s.fired[i].id];
          e.repeated ==> s.fired[j].at >= s.fired[i].at + e.interval)
  }

  ghost predicate Inv(s: State) { Consistent(s.q) && Wakes(s) && OnTime(s) && Spaced(s) }

  /** An event keeps its interval and kind, stays cancelled, and its arrival only moves when put back. */
  ghost predicate Evolves(before: map<nat, Event>, after: map<nat, Event>) {
    forall id | id in before ::
      && id in after && after[id].interval == before[id].interval && after[id].repeated == before[id].repeated
      && (before[id].cancelled ==> after[id].cancelled)
  }

  lemma {:induction false} AgainAllEvolves(q: Queue, again: seq<Entry>, times: seq<int>)
    requires |again| == |times| && forall i | 0 <= i < |again| :: again[i].id in q.events
    ensures Evolves(q.events, AgainAll(q, again, times).events)
    decreases |again|
  {
    if again != [] {
      AgainAllEvolves(Again(q, again[0].id, times[0]), again[1..], times[1..]);
    }
  }

  /** Putting back touches only the events put back, and moves them an interval past `now`. */
  lemma {:induction false} AgainAllArrivals(q: Queue, again: seq<Entry>, times: seq<int>, now: int, id: nat)
    requires |again| == |times| && forall i | 0 <= i < |again| :: again[i].id in q.events
    requires forall i | 0 <= i < |times| :: now <= times[i]
    requires id in q.events
    ensures var e := AgainAll(q, again, times).events[id];
            if exists x | x in again :: x.id == id then e.arrive >= now + q.events[id].interval else e == q.events[id]
    decreases |again|
  {
    if again != [] {
      var q1 := Again(q, again[0].id, times[0]);
      AgainAllEvolves(q1, again[1..], times[1..]);
      AgainAllArrivals(q1, again[1..], times[1..], now, id);
      assert again == [again[0]] + again[1..];
    }
  }

  // ---- Firing ----

  lemma TickEvents(s: State, r: Readings)
    requires Consistent(s.q) && Forward(s.clock, r) && |r.resets| == |RepeatsAt(s.q, r.now)|
    ensures Evolves(s.q.events, OnTimer(s, r).q.events)
    ensures forall id | id in s.q.events ::
              var e, e' := s.q.events[id], OnTimer(s, r).q.events[id];
              e'.arrive >= e.arrive || e'.arrive >= r.now + e.interval
    ensures forall x | x in LiveAt(s.q, r.now) && x.id in s.q.events && s.q.events[x.id].repeated ::
              OnTimer(s, r).q.events[x.id].arrive >= r.now + s.q.events[x.id].interval
  {
    PassIsExact(s, r);
    LiveFacts(s.q, r.now);
    var later, again := Later(s.q, r.now), RepeatsAt(s.q, r.now);
    AgainAllEvolves(later, again, r.resets);
    forall id | id in s.q.events
      ensures var e, e' := s.q.events[id], OnTimer(s, r).q.events[id];
              if exists x | x in again :: x.id == id then e'.arrive >= r.now + e.interval else e' == e
    {
      AgainAllArrivals(later, again, r.resets, r.now, id);
    }
  }

  /** What a pass at `now` that fired `live` means for the histories. */
  ghost predicate Ticked(s: State, s': State, live: seq<Entry>, now: int) {
    && s'.fired == s.fired + Fire(live, now) && s.clock <= now <= s'.clock && Distinct(live)
    && Evolves(s.q.events, s'.q.events)
    && (forall e | e in live ::
          e.id in s.q.events && e.key <= now && e.key == s.q.events[e.id].arrive && !s.q.events[e.id].cancelled)
    && (forall id | id in s.q.events ::
          s'.q.events[id].arrive >= s.q.events[id].arrive || s'.q.events[id].arrive >= now + s.q.events[id].interval)
    && (forall e | e in live && s.q.events[e.id].repeated ::
          s'.q.events[e.id].arrive >= now + s.q.events[e.id].interval)
  }

  lemma TickTicks(s: State, r: Readings)
    requires Consistent(s.q) && Legal(s, Tick(r))
    ensures Ticked(s, OnTimer(s, r), LiveAt(s.q, r.now), r.now)
  {
    PassIsExact(s, r);
    LiveFacts(s.q, r.now);
    TickEvents(s, r);
    var live, s' := LiveAt(s.q, r.now), OnTimer(s, r);
    assert s'.fired == s.fired + Fire(live, r.now);
  }

  lemma TickedOnTime(s: State, s': State, live: seq<Entry>, now: int)
    requires OnTime(s) && Ticked(s, s', live, now)
    ensures OnTime(s')
  {
    forall i | 0 <= i < |live| ensures live[i].id in s.q.events && live[i].key <= now {
      assert live[i] in live;
    }
    forall i | 0 <= i < |s.fired| ensures s.fired[i].at <= s.clock {
      assert s.fired[i] in s.fired;
    }
  }

  /** After a pass, every firing of a repeated event is an interval before its next arrival. */
  lemma TickedArrivals(s: State, s': State, live: seq<Entry>, now: int, f: Firing)
    requires OnTime(s) && Spaced(s) && Ticked(s, s', live, now) && OnTime(s')
    requires f in s'.fired && s'.q.events[f.id].repeated
    ensures s'.q.events[f.id].arrive >= f.at + s'.q.events[f.id].interval
  {
    if f !in s.fired {
      var i :| 0 <= i < |live| && f == Firing(live[i].id, live[i].key, now);
      assert live[i] in live;
    }
  }

  /** Between two firings of a repeated event lies at least its interval. */
  lemma FiringsApart(s: State, s': State, live: seq<Entry>, now: int, i: nat, j: nat)
    requires OnTime(s) && Spaced(s) && Ticked(s, s', live, now) && OnTime(s')
    requires i < j < |s'.fired| && s'.fired[i].id == s'.fired[j].id && s'.q.events[s'.fired[i].id].repeated
    ensures s'.fired[j].at >= s'.fired[i].at + s'.q.events[s'.fired[i].id].interval
  {
    var n := |s.fired|;
    if i < n {
      assert s.fired[i] in s.fired;
      if j >= n {
        assert s'.fired[j] == Firing(live[j - n].id, live[j - n].key, now) && live[j - n] in live;
      }
    }
  }

  lemma TickedSpaced(s: State, s': State, live: seq<Entry>, now: int)
    requires OnTime(s) && Spaced(s) && Ticked(s, s', live, now) && OnTime(s')
    ensures Spaced(s')
  {
    forall f | f in s'.fired && s'.q.events[f.id].repeated
      ensures s'.q.events[f.id].arrive >= f.at + s'.q.events[f.id].interval
    {
      TickedArrivals(s, s', live, now, f);
    }
    forall i, j | 0 <= i < j < |s'.fired| && s'.fired[i].id == s'.fired[j].id && s'.q.events[s'.fired[i].id].repeated
      ensures s'.fired[j].at >= s'.fired[i].at + s'.q.events[s'.fired[i].id].interval
    {
      FiringsApart(s, s', live, now, i, j);
    }
  }

  lemma StepOnTime(s: State, op: Op)
    requires Inv(s) && Legal(s, op)
    ensures OnTime(Step(s, op)) && Spaced(Step(s, op))
  {
    match op
    case NewEvent(id, interval, repeated, t) =>
    case AddEvent(id, t) =>
    case DeleteEvent(id) =>
    case Tick(r) =>
      var s', live := OnTimer(s, r), LiveAt(s.q, r.now);
      TickTicks(s, r);
      TickedOnTime(s, s', live, r.now);
      TickedSpaced(s, s', live, r.now);
  }

  lemma StepKeepsInv(s: State, op: Op)
    requires Inv(s) && Legal(s, op)
    ensures Inv(Step(s, op))
  {
    StepConsistent(s, op);
    StepWakes(s, op);
    StepOnTime(s, op);
  }

  // ---- Runs ----

  ghost predicate AllLegal(s: State, ops: seq<Op>)
    requires Inv(s)
    decreases |ops|
  {
    if ops == [] then true
    else Legal(s, ops[0]) && (StepKeepsInv(s, ops[0]); AllLegal(Step(s, ops[0]), ops[1..]))
  }

  ghost function Run(s: State, ops: seq<Op>): State
    requires Inv(s) && AllLegal(s, ops)
    decreases |ops|
  {
    if ops == [] then s
    else
      StepKeepsInv(s, ops[0]);
      Run(Step(s, ops[0]), ops[1..])
  }

  /**
   * Over every run: no timer is lost, no event fires early, firings come in time order, and
   * those of a repeated event are at least its interval apart.
   */
  lemma {:induction false} TimerIsSafe(s: State, ops: seq<Op>)
    requires Inv(s) && AllLegal(s, ops)
    ensures Inv(Run(s, ops))
    decreases |ops|
  {
    if ops != [] {
      StepKeepsInv(s, ops[0]);
      TimerIsSafe(Step(s, ops[0]), ops[1..]);
    }
  }

  lemma EmptyIsSafe()
    ensures Inv(EMPTY)
  {
  }

  /** From the constructor on. */
  lemma TimerFromStart(ops: seq<Op>)
    requires (EmptyIsSafe(); AllLegal(EMPTY, ops))
    ensures var s := Run(EMPTY, ops);
            && Consistent(s.q) && Wakes(s)
            && (forall f | f in s.fired :: f.due <= f.at)
            && (forall i, j | 0 <= i < j < |s.fired| && s.fired[i].id == s.fired[j].id ::
                  s.fired[i].id in s.q.events
                  && var e := s.q.events[s.fired[i].id];
                     e.repeated ==> s.fired[j].at >= s.fired[i].at + e.interval)
  {
    TimerIsSafe(EMPTY, ops);
  }

  /** The event `id` has not fired before `due` and will not. */
  ghost predicate NotBefore(s: State, id: nat, due: int) {
    && id in s.q.events && (s.q.events[id].arrive >= due || s.clock >= due)
    && forall f | f in s.fired && f.id == id :: f.at >= due
  }

  lemma TickNotBefore(s: State, r: Readings, id: nat, due: int)
    requires Inv(s) && Legal(s, Tick(r)) && NotBefore(s, id, due)
    ensures NotBefore(OnTimer(s, r), id, due)
  {
    var s', live, again := OnTimer(s, r), LiveAt(s.q, r.now), RepeatsAt(s.q, r.now);
    TickTicks(s, r);
    PassIsExact(s, r);
    PassKeepsTheRest(s, r);
    forall f | f in s'.fired && f.id == id ensures f.at >= due {
      if f !in s.fired {
        var i :| 0 <= i < |live| && f == Firing(live[i].id, live[i].key, r.now);
        assert live[i] in live;
      }
    }
    if i :| 0 <= i < |again| && again[i].id == id {
      assert again[i] in again && again[i] in live;
    }
  }

  lemma StepNotBefore(s: State, op: Op, id: nat, due: int)
    requires Inv(s) && Legal(s, op) && NotBefore(s, id, due)
    ensures NotBefore(Step(s, op), id, due)
  {
    if op.Tick? {
      TickNotBefore(s, op.r, id, due);
    }
  }

  lemma {:induction false} RunNotBefore(s: State, ops: seq<Op>, id: nat, due: int)
    requires Inv(s) && AllLegal(s, ops) && NotBefore(s, id, due)
    ensures NotBefore(Run(s, ops), id, due)
    decreases |ops|
  {
    if ops != [] {
      StepKeepsInv(s, ops[0]);
      StepNotBefore(s, ops[0], id, due);
      RunNotBefore(Step(s, ops[0]), ops[1..], id, due);
    }
  }

  /** Over every run an event never fires within an interval of its creation. */
  lemma CreatedFiresLater(s: State, ops: seq<Op>, id: nat, interval: int, repeated: bool, t: int)
    requires Inv(s) && AllLegal(s, [NewEvent(id, interval, repeated, t)] + ops)
    ensures forall f | f in Run(s, [NewEvent(id, interval, repeated, t)] + ops).fired && f.id == id :: f.at >= t + interval
  {
    var op := NewEvent(id, interval, repeated, t);
    assert ([op] + ops)[0] == op && ([op] + ops)[1..] == ops;
    StepKeepsInv(s, op);
    RunNotBefore(Step(s, op), ops, id, t + interval);
  }

  /** A cancelled event stays cancelled, does not fire, and comes back only by being added. */
  ghost predicate Gone(s: State, s': State, id: nat) {
    && s.fired <= s'.fired && id in s'.q.events && s'.q.events[id].cancelled
    && forall i | |s.fired| <= i < |s'.fired| :: s'.fired[i].id != id
  }

  lemma StepGone(s: State, op: Op, id: nat)
    requires Inv(s) && Legal(s, op) && id in s.q.events && s.q.events[id].cancelled
    ensures Gone(s, Step(s, op), id)
    ensures !Pending(s.q, id) && !(op.AddEvent? && op.id == id) ==> !Pending(Step(s, op).q, id)
  {
    match op
    case NewEvent(x, interval, repeated, t) =>
    case AddEvent(x, t) => EnqueueConsistent(s.q, x);
    case DeleteEvent(x) => DeleteConsistent(s, x);
    case Tick(r) => TickGone(s, r, id);
  }

  lemma TickGone(s: State, r: Readings, id: nat)
    requires Inv(s) && Legal(s, Tick(r)) && id in s.q.events && s.q.events[id].cancelled
    ensures Gone(s, OnTimer(s, r), id)
    ensures !Pending(s.q, id) ==> !Pending(OnTimer(s, r).q, id)
  {
    TickTicks(s, r);
    TickedGone(s, OnTimer(s, r), LiveAt(s.q, r.now), r.now, id);
    if !Pending(s.q, id) {
      TickLeavesOut(s, r, id);
    }
  }

  lemma TickedGone(s: State, s': State, live: seq<Entry>, now: int, id: nat)
    requires Ticked(s, s', live, now) && id in s.q.events && s.q.events[id].cancelled
    ensures Gone(s, s', id)
  {
    forall i | 0 <= i < |live| ensures live[i].id != id {
      assert live[i] in live;
    }
  }

  lemma TickLeavesOut(s: State, r: Readings, id: nat)
    requires Inv(s) && Legal(s, Tick(r)) && id in s.q.events && s.q.events[id].cancelled && !Pending(s.q, id)
    ensures !Pending(OnTimer(s, r).q, id)
  {
    PassIsExact(s, r);
    var again, later := RepeatsAt(s.q, r.now), Later(s.q, r.now).pending;
    forall i | 0 <= i < |again| ensures again[i].id != id {
      assert again[i] in again && again[i] in LiveAt(s.q, r.now);
    }
    forall e | e in OnTimer(s, r).q.pending ensures e.id != id {
      assert e in multiset(later) + multiset(Rekeyed(s.q, again, r.resets));
    }
  }

  /** Over every run a cancelled event does not fire, and off the queue it stays off unless added. */
  lemma {:induction false} CancelledNeverFires(s: State, ops: seq<Op>, id: nat)
    requires Inv(s) && AllLegal(s, ops) && id in s.q.events && s.q.events[id].cancelled
    ensures Gone(s, Run(s, ops), id)
    ensures !Pending(s.q, id) && (forall i | 0 <= i < |ops| :: !(ops[i].AddEvent? && ops[i].id == id))
            ==> !Pending(Run(s, ops).q, id)
    decreases |ops|
  {
    if ops != [] {
      StepKeepsInv(s, ops[0]);
      StepGone(s, ops[0], id);
      CancelledNeverFires(Step(s, ops[0]), ops[1..], id);
    }
  }

  /** Deleting takes the event off the queue at once; in no later pass does it fire. */
  lemma DeletedNeverFires(s: State, ops: seq<Op>, id: nat)
    requires Inv(s) && id in s.q.events && AllLegal(s, [DeleteEvent(id)] + ops)
    ensures Inv(Delete(s, id)) && AllLegal(Delete(s, id), ops)
    ensures Gone(s, Run(s, [DeleteEvent(id)] + ops), id) && !Pending(Delete(s, id).q, id)
    ensures (forall i | 0 <= i < |ops| :: !(ops[i].AddEvent? && ops[i].id == id))
            ==> !Pending(Run(s, [DeleteEvent(id)] + ops).q, id)
  {
    var all := [DeleteEvent(id)] + ops;
    assert all[0] == DeleteEvent(id) && all[1..] == ops;
    StepKeepsInv(s, all[0]);
    DeleteConsistent(s, id);
    CancelledNeverFires(Delete(s, id), ops, id);
  }
}
