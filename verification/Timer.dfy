/**
 * net/timer.cc and net/timer_event.cc on values: an ordered multimap of pending events behind
 * one timerfd. Events are known by identity; clock readings are arguments.
 */
module TimerSpec {

  datatype Event = Event(arrive: int, interval: int, repeated: bool, cancelled: bool)

  /** A multimap entry; `stamp` counts insertions, so it tells ties apart. */
  datatype Entry = Entry(key: int, id: nat, stamp: nat)

  /** The timerfd: not set, or set at `setAt` to expire at `deadline` and not read since. */
  datatype TimerFd = Disarmed | Armed(deadline: int, setAt: int)

  /** A callback run by the pass at time `at`, due since `due`. */
  datatype Firing = Firing(id: nat, due: int, at: int)

  datatype Queue = Queue(events: map<nat, Event>, pending: seq<Entry>, stamps: nat)

  datatype State = State(q: Queue, fd: TimerFd, clock: int, fired: seq<Firing>)

  const EMPTY := State(Queue(map[], [], 0), Disarmed, 0, [])

  // ---- The multimap ----

  predicate Sooner(a: Entry, b: Entry) { a.key < b.key || (a.key == b.key && a.stamp < b.stamp) }

  /** `multimap::emplace`: behind every entry with the same or a smaller key. */
  function Insert(p: seq<Entry>, e: Entry): seq<Entry> {
    if p == [] || e.key < p[0].key then [e] + p else [p[0]] + Insert(p[1..], e)
  }

  lemma {:induction false} InsertContents(p: seq<Entry>, e: Entry)
    ensures multiset(Insert(p, e)) == multiset(p) + multiset{e}
  {
    if p != [] && e.key >= p[0].key {
      InsertContents(p[1..], e);
      assert p == [p[0]] + p[1..];
    }
  }

  /** The length of the leading run of entries with key at most `now`. */
  function DueCount(p: seq<Entry>, now: int): (n: nat)
    ensures n <= |p|
  {
    if p == [] || p[0].key > now then 0 else 1 + DueCount(p[1..], now)
  }

  /** Erase the entry of `id` among those with key `key`, if there is one. */
  function Erase(p: seq<Entry>, key: int, id: nat): seq<Entry> {
    if p == [] then []
    else if p[0].key == key && p[0].id == id then p[1..]
    else [p[0]] + Erase(p[1..], key, id)
  }

  ghost predicate Sorted(p: seq<Entry>) { forall i, j | 0 <= i < j < |p| :: Sooner(p[i], p[j]) }

  ghost predicate Distinct(p: seq<Entry>) { forall i, j | 0 <= i < j < |p| :: p[i].id != p[j].id }

  /** Entries carry their events' arrival times and older stamps than the next one. */
  ghost predicate Keyed(q: Queue) {
    forall e | e in q.pending :: e.stamp < q.stamps && e.id in q.events && e.key == q.events[e.id].arrive
  }

  /** The multimap is ordered, agrees with the events, and holds each event at most once. */
  ghost predicate Consistent(q: Queue) { Sorted(q.pending) && Keyed(q) && Distinct(q.pending) }

  ghost predicate Pending(q: Queue, id: nat) { exists e | e in q.pending :: e.id == id }

  lemma {:induction false} InsertMembers(p: seq<Entry>, e: Entry)
    ensures |Insert(p, e)| == |p| + 1
    ensures forall x :: x in Insert(p, e) <==> x == e || x in p
  {
    if p != [] && e.key >= p[0].key {
      InsertMembers(p[1..], e);
      assert p == [p[0]] + p[1..];
    }
  }

  lemma {:induction false} InsertSorted(p: seq<Entry>, e: Entry)
    requires Sorted(p) && forall x | x in p :: x.stamp < e.stamp
    ensures Sorted(Insert(p, e))
  {
    if p != [] && e.key >= p[0].key {
      InsertSorted(p[1..], e);
      InsertMembers(p[1..], e);
      var r := Insert(p[1..], e);
      forall k | 0 <= k < |r| ensures Sooner(p[0], r[k]) {
        assert r[k] in r;
      }
    }
  }

  lemma {:induction false} InsertDistinct(p: seq<Entry>, e: Entry)
    requires Distinct(p) && forall x | x in p :: x.id != e.id
    ensures Distinct(Insert(p, e))
  {
    if p != [] && e.key >= p[0].key {
      InsertDistinct(p[1..], e);
      InsertMembers(p[1..], e);
      var r := Insert(p[1..], e);
      forall k | 0 <= k < |r| ensures p[0].id != r[k].id {
        assert r[k] in r;
      }
    }
  }

  lemma EnqueueConsistent(q: Queue, id: nat)
    requires id in q.events && Consistent(q) && !Pending(q, id)
    ensures Consistent(Enqueue(q, id))
    ensures forall x :: Pending(Enqueue(q, id), x) <==> x == id || Pending(q, x)
  {
    var e := Entry(q.events[id].arrive, id, q.stamps);
    InsertMembers(q.pending, e);
    InsertSorted(q.pending, e);
    InsertDistinct(q.pending, e);
    forall x ensures Pending(Enqueue(q, id), x) <==> x == id || Pending(q, x) {
      assert e in Enqueue(q, id).pending;
    }
  }

  // ---- The operations ----

  /** `TimerEvent`'s constructor: the first arrival is one interval away. */
  function Create(s: State, id: nat, interval: int, repeated: bool, t: int): State {
    s.(q := s.q.(events := s.q.events[id := Event(t + interval, interval, repeated, false)]), clock := t)
  }

  /** `Timer::resetArriveTime` at time `t`. */
  function Rearm(q: Queue, fd: TimerFd, t: int): TimerFd
    requires q.pending != [] ==> q.pending[0].id in q.events
  {
    if q.pending == [] then fd
    else
      var arrive := q.events[q.pending[0].id].arrive;
      var interval := if arrive > t then arrive - t else 100;
      Armed(t + Millis(Timespec(interval)), t)
  }

  /** Seconds and nanoseconds, as `timerfd_settime` takes them; zero would disarm the timer. */
  datatype Spec = Spec(sec: int, nsec: int)

  function Timespec(interval: nat): Spec { Spec(interval / 1000, interval % 1000 * 1000000) }

  function Millis(ts: Spec): int { ts.sec * 1000 + ts.nsec / 1000000 }

  lemma TimespecExact(interval: nat)
    ensures Millis(Timespec(interval)) == interval
    ensures Timespec(interval) == Spec(0, 0) <==> interval == 0
  {
  }

  function Enqueue(q: Queue, id: nat): Queue
    requires id in q.events
  {
    q.(pending := Insert(q.pending, Entry(q.events[id].arrive, id, q.stamps)), stamps := q.stamps + 1)
  }

  predicate NeedsReset(q: Queue, id: nat)
    requires id in q.events && (q.pending != [] ==> q.pending[0].id in q.events)
  {
    q.pending == [] || q.events[q.pending[0].id].arrive > q.events[id].arrive
  }

  /** `addTimerEvent`; `t` is the clock reading of the reset, if one is needed. */
  function Add(s: State, id: nat, t: int): State
    requires id in s.q.events && Consistent(s.q)
  {
    var q := Enqueue(s.q, id);
    EnqueueFirst(s.q, id);
    State(q, if NeedsReset(s.q, id) then Rearm(q, s.fd, t) else s.fd, t, s.fired)
  }

  lemma EnqueueFirst(q: Queue, id: nat)
    requires id in q.events && Consistent(q)
    ensures var q' := Enqueue(q, id); q'.pending != [] && q'.pending[0].id in q'.events
  {
    InsertMembers(q.pending, Entry(q.events[id].arrive, id, q.stamps));
    assert Enqueue(q, id).pending[0] in Enqueue(q, id).pending;
  }

  function Delete(s: State, id: nat): State
    requires id in s.q.events
  {
    var e := s.q.events[id];
    s.(q := s.q.(events := s.q.events[id := e.(cancelled := true)], pending := Erase(s.q.pending, e.arrive, id)))
  }

  /** The entries among `due` whose events are not cancelled. */
  function Live(events: map<nat, Event>, due: seq<Entry>): seq<Entry> {
    if due == [] then []
    else
      (if due[0].id in events && !events[due[0].id].cancelled then [due[0]] else []) + Live(events, due[1..])
  }

  /** The entries of repeated events. */
  function Repeats(events: map<nat, Event>, live: seq<Entry>): seq<Entry> {
    if live == [] then []
    else
      (if live[0].id in events && events[live[0].id].repeated then [live[0]] else []) + Repeats(events, live[1..])
  }

  /** Give a repeated event its next arrival, one interval after `t`, and put it back. */
  function Again(q: Queue, id: nat, t: int): Queue
    requires id in q.events
  {
    var e := q.events[id];
    Enqueue(q.(events := q.events[id := e.(arrive := t + e.interval)]), id)
  }

  function AgainAll(q: Queue, again: seq<Entry>, times: seq<int>): (r: Queue)
    requires |again| == |times| && forall i | 0 <= i < |again| :: again[i].id in q.events
    ensures r.events.Keys == q.events.Keys
    decreases |again|
  {
    if again == [] then q
    else AgainAll(Again(q, again[0].id, times[0]), again[1..], times[1..])
  }

  function Fire(live: seq<Entry>, now: int): seq<Firing> {
    seq(|live|, i requires 0 <= i < |live| => Firing(live[i].id, live[i].key, now))
  }

  /** The clock readings of one `onTimer` pass, in the order the code takes them. */
  datatype Readings = Readings(drain: int, now: int, resets: seq<int>, last: int)

  /** The clock never runs backwards within the readings of a pass. */
  ghost predicate Forward(clock: int, r: Readings) {
    && clock <= r.drain <= r.now <= r.last
    && forall i | 0 <= i < |r.resets| :: r.now <= r.resets[i] <= r.last
  }

  /** Reading the timerfd until EAGAIN clears an expiry. */
  function Drain(fd: TimerFd, t: int): TimerFd { if fd.Armed? && fd.deadline <= t then Disarmed else fd }

  ghost function OnTimer(s: State, r: Readings): State
    requires Consistent(s.q) && |r.resets| == |RepeatsAt(s.q, r.now)|
  {
    LiveFacts(s.q, r.now);
    var later := Later(s.q, r.now);
    var q := AgainAll(later, RepeatsAt(s.q, r.now), r.resets);
    AgainAllConsistent(later, RepeatsAt(s.q, r.now), r.resets);
    State(q, Rearm(q, Drain(s.fd, r.drain), r.last), r.last, s.fired + Fire(LiveAt(s.q, r.now), r.now))
  }

  function LiveAt(q: Queue, now: int): seq<Entry> { Live(q.events, q.pending[..DueCount(q.pending, now)]) }

  function RepeatsAt(q: Queue, now: int): seq<Entry> { Repeats(q.events, LiveAt(q, now)) }

  /** None of `es` is pending, and no two of them belong to the same event. */
  ghost predicate Aside(q: Queue, es: seq<Entry>) {
    && (forall e | e in es :: e.id in q.events && !Pending(q, e.id))
    && Distinct(es)
  }

  lemma AgainConsistent(q: Queue, id: nat, t: int)
    requires Consistent(q) && id in q.events && !Pending(q, id)
    ensures Consistent(Again(q, id, t))
    ensures forall x :: Pending(Again(q, id, t), x) <==> x == id || Pending(q, x)
  {
    var e := q.events[id];
    var q1 := q.(events := q.events[id := e.(arrive := t + e.interval)]);
    assert Keyed(q1) by {
      forall x | x in q1.pending ensures x.id != id {
        assert x in q.pending;
      }
    }
    EnqueueConsistent(q1, id);
  }

  lemma {:induction false} AgainAllConsistent(q: Queue, again: seq<Entry>, times: seq<int>)
    requires Consistent(q) && Aside(q, again) && |again| == |times|
    ensures Consistent(AgainAll(q, again, times))
    decreases |again|
  {
    if again != [] {
      AgainConsistent(q, again[0].id, times[0]);
      AgainAllConsistent(Again(q, again[0].id, times[0]), again[1..], times[1..]);
    }
  }

  /** Putting back leaves every other event as it was. */
  lemma {:induction false} AgainAllOthers(q: Queue, again: seq<Entry>, times: seq<int>, id: nat)
    requires |again| == |times| && (forall i | 0 <= i < |again| :: again[i].id in q.events && again[i].id != id)
    requires id in q.events
    ensures AgainAll(q, again, times).events[id] == q.events[id]
    decreases |again|
  {
    if again != [] {
      AgainAllOthers(Again(q, again[0].id, times[0]), again[1..], times[1..], id);
    }
  }

  /** `Live` picks, in order, exactly the entries whose events are not cancelled. */
  lemma {:induction false} LivePicks(events: map<nat, Event>, due: seq<Entry>)
    requires Sorted(due) && Distinct(due)
    ensures Sorted(Live(events, due)) && Distinct(Live(events, due))
    ensures forall x :: x in Live(events, due) <==> x in due && x.id in events && !events[x.id].cancelled
  {
    if due != [] {
      LivePicks(events, due[1..]);
      assert due == [due[0]] + due[1..];
      var r := Live(events, due[1..]);
      forall k | 0 <= k < |r| ensures Sooner(due[0], r[k]) && due[0].id != r[k].id {
        assert r[k] in due[1..];
      }
    }
  }

  lemma {:induction false} RepeatsPicks(events: map<nat, Event>, live: seq<Entry>)
    requires Sorted(live) && Distinct(live)
    ensures Sorted(Repeats(events, live)) && Distinct(Repeats(events, live))
    ensures forall x :: x in Repeats(events, live) <==> x in live && x.id in events && events[x.id].repeated
  {
    if live != [] {
      RepeatsPicks(events, live[1..]);
      assert live == [live[0]] + live[1..];
      var r := Repeats(events, live[1..]);
      forall k | 0 <= k < |r| ensures Sooner(live[0], r[k]) && live[0].id != r[k].id {
        assert r[k] in live[1..];
      }
    }
  }

  /** The leading run is exactly the entries with key at most `now`. */
  lemma {:induction false} DueCountSplits(p: seq<Entry>, now: int)
    requires Sorted(p)
    ensures forall x | x in p[..DueCount(p, now)] :: x.key <= now
    ensures forall x | x in p[DueCount(p, now)..] :: x.key > now
  {
    if p != [] {
      if p[0].key > now {
        forall k | 0 <= k < |p| ensures p[k].key > now {
          assert k > 0 ==> Sooner(p[0], p[k]);
        }
      } else {
        DueCountSplits(p[1..], now);
        var n := DueCount(p[1..], now);
        assert p[..n + 1] == [p[0]] + p[1..][..n];
        assert p[n + 1..] == p[1..][n..];
      }
    }
  }

  ghost function Later(q: Queue, now: int): Queue { q.(pending := q.pending[DueCount(q.pending, now)..]) }

  lemma LiveFacts(q: Queue, now: int)
    requires Consistent(q)
    ensures Consistent(Later(q, now)) && Aside(Later(q, now), LiveAt(q, now)) && Aside(Later(q, now), RepeatsAt(q, now))
    ensures Sorted(LiveAt(q, now))
  {
    var n := DueCount(q.pending, now);
    var due, later := q.pending[..n], Later(q, now);
    LivePicks(q.events, due);
    RepeatsPicks(q.events, LiveAt(q, now));
    forall e | e in due ensures e.id in q.events && !Pending(later, e.id) {
      var i :| 0 <= i < n && due[i] == e;
      assert e in q.pending;
      forall x | x in later.pending ensures x.id != e.id {
        var j :| n <= j < |q.pending| && q.pending[j] == x;
        assert q.pending[i].id != q.pending[j].id;
      }
    }
  }
}
