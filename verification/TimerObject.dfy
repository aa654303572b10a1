/** The timer object: net/timer.cc's methods, each specified by the function of the same name. */
module Timers {
  import opened TimerSpec

  class Timer {
    var m_events: map<nat, Event>  // the TimerEvent objects, by identity
    var m_pending_events: seq<Entry>
    var stamps: nat
    var m_fd: TimerFd
    var clock: int
    ghost var fired: seq<Firing>

    ghost function Pool(): Queue
      reads this
    {
      Queue(m_events, m_pending_events, stamps)
    }

    ghost function Snapshot(): State
      reads this
    {
      State(Pool(), m_fd, clock, fired)
    }

    constructor ()
      ensures Snapshot() == EMPTY
    {
      m_events, m_pending_events, stamps, m_fd, clock := map[], [], 0, Disarmed, 0;
      fired := [];
    }

    /** `get_now_ms`: some reading that is not earlier than the previous one. */
    method ReadClock() returns (t: int)
      modifies `clock
      ensures t == clock >= old(clock)
    {
      var passed :| 0 <= passed;
      clock := clock + passed;
      t := clock;
    }

    method NewTimerEvent(id: nat, interval: int, repeated: bool)
      requires id !in m_events
      modifies `clock, `m_events
      ensures old(clock) <= clock && Snapshot() == Create(old(Snapshot()), id, interval, repeated, clock)
    {
      var t := ReadClock();
      m_events := m_events[id := Event(t + interval, interval, repeated, false)];
    }

    /** `emplace`: find the upper bound of the key and insert there. */
    method Emplace(e: Entry)
      modifies `m_pending_events
      ensures m_pending_events == Insert(old(m_pending_events), e)
    {
      var i, p := 0, m_pending_events;
      while i < |p| && p[i].key <= e.key
        invariant 0 <= i <= |p| && p == m_pending_events
        invariant forall k | 0 <= k < i :: p[k].key <= e.key
      {
        i := i + 1;
      }
      InsertAt(p, e, i);
      m_pending_events := p[..i] + [e] + p[i..];
    }

    method ResetArriveTime()
      requires m_pending_events != [] ==> m_pending_events[0].id in m_events
      modifies `clock, `m_fd
      ensures old(clock) <= clock && m_fd == Rearm(Pool(), old(m_fd), clock) && Pool() == old(Pool())
    {
      if m_pending_events == [] {
        return;
      }
      var now := ReadClock();
      var arrive := m_events[m_pending_events[0].id].arrive;
      var interval := if arrive > now then arrive - now else 100;
      m_fd := Armed(now + Millis(Timespec(interval)), now);
    }

    method AddTimerEvent(id: nat)
      requires id in m_events && Consistent(Pool())
      modifies `clock, `m_fd, `m_pending_events, `stamps
      ensures old(clock) <= clock && Snapshot() == Add(old(Snapshot()), id, clock)
    {
      ghost var q := Pool();
      EnqueueFirst(q, id);
      if m_pending_events != [] {
        assert m_pending_events[0] in q.pending;
      }
      var reset := m_pending_events == [] || m_events[m_pending_events[0].id].arrive > m_events[id].arrive;
      Emplace(Entry(m_events[id].arrive, id, stamps));
      stamps := stamps + 1;
      assert Pool() == Enqueue(q, id);
      if reset {
        ResetArriveTime();
      }
    }

    /** `deleteTimerEvent`: cancel, then search the equal range of the arrival time. */
    method DeleteTimerEvent(id: nat)
      requires id in m_events
      modifies `m_events, `m_pending_events
      ensures Snapshot() == Delete(old(Snapshot()), id)
    {
      var e := m_events[id];
      m_events := m_events[id := e.(cancelled := true)];
      var i, p := 0, m_pending_events;
      while i < |p| && !(p[i].key == e.arrive && p[i].id == id)
        invariant 0 <= i <= |p|
        invariant forall k | 0 <= k < i :: !(p[k].key == e.arrive && p[k].id == id)
      {
        i := i + 1;
      }
      EraseAt(p, e.arrive, id, i);
      if i < |p| {
        m_pending_events := p[..i] + p[i + 1..];
      }
    }

    /** The first loop of `onTimer`: the leading due entries, and the live ones among them. */
    method CollectDue(now: int) returns (it: nat, tmps: seq<Entry>)
      requires Consistent(Pool())
      ensures it == DueCount(m_pending_events, now) && tmps == LiveAt(Pool(), now)
    {
      it, tmps := 0, [];
      var p := m_pending_events;
      while it < |p| && p[it].key <= now
        invariant 0 <= it <= |p|
        invariant forall k | 0 <= k < it :: p[k].key <= now
        invariant tmps == Live(m_events, p[..it])
      {
        assert p[it] in Pool().pending;
        LiveSnoc(m_events, p[..it], p[it]);
        assert p[..it + 1] == p[..it] + [p[it]];
        if !m_events[p[it].id].cancelled {
          tmps := tmps + [p[it]];
        }
        it := it + 1;
      }
      DueCountIs(p, now, it);
    }

    method ReaddOne(id: nat) returns (t: int)
      requires Consistent(Pool()) && id in m_events && !Pending(Pool(), id)
      modifies `clock, `m_events, `m_fd, `m_pending_events, `stamps
      ensures old(clock) <= t <= clock && Pool() == Again(old(Pool()), id, t)
    {
      t := ReadClock();
      AgainConsistent(Pool(), id, t);
      m_events := m_events[id := m_events[id].(arrive := t + m_events[id].interval)];
      assert Consistent(Pool()) by {
        forall x | x in m_pending_events ensures x.id != id {
          assert x in old(Pool()).pending;
        }
      }
      AddTimerEvent(id);
    }

    /** One turn of the second loop of `onTimer`. */
    method ReaddIfRepeated(e: Entry, ghost q: Queue, ghost done: seq<Entry>, ghost resets: seq<int>)
      returns (ghost more: seq<int>)
      requires Consistent(q) && Aside(q, done) && |resets| == |done| && Pool() == AgainAll(q, done, resets)
      requires e.id in q.events && !Pending(q, e.id) && forall x | x in done :: x.id != e.id
      modifies `clock, `m_events, `m_fd, `m_pending_events, `stamps
      ensures old(clock) <= clock && forall i | 0 <= i < |more| :: old(clock) <= more[i] <= clock
      ensures |more| == if q.events[e.id].repeated then 1 else 0
      ensures !q.events[e.id].repeated ==> m_fd == old(m_fd)
      ensures var done' := done + if q.events[e.id].repeated then [e] else [];
              && (forall i | 0 <= i < |done'| :: done'[i].id in q.events)
              && Pool() == AgainAll(q, done', resets + more)
    {
      ReadyToReadd(q, done, resets, e);
      more := [];
      assert done + [] == done && resets + [] == resets;
      if m_events[e.id].repeated {
        var t := ReaddOne(e.id);
        AgainAllSnoc(q, done, resets, e, t);
        more := [t];
      }
    }

    /** The second loop of `onTimer`: repeated events get a new arrival and are added again. */
    method ReaddRepeated(tmps: seq<Entry>, ghost again: seq<Entry>) returns (ghost resets: seq<int>)
      requires Consistent(Pool()) && Aside(Pool(), tmps) && Sorted(tmps) && again == Repeats(m_events, tmps)
      modifies `clock, `m_events, `m_fd, `m_pending_events, `stamps
      ensures old(clock) <= clock && |resets| == |again| && Aside(old(Pool()), again)
      ensures forall i | 0 <= i < |resets| :: old(clock) <= resets[i] <= clock
      ensures Pool() == AgainAll(old(Pool()), again, resets)
      ensures again == [] ==> m_fd == old(m_fd)
    {
      resets := [];
      ghost var q, done: seq<Entry> := Pool(), [];
      for k := 0 to |tmps|
        invariant old(clock) <= clock
        invariant forall i | 0 <= i < |resets| :: old(clock) <= resets[i] <= clock
        invariant done == Repeats(q.events, tmps[..k]) && ReaddedSoFar(q, done, resets)
        invariant done == [] ==> m_fd == old(m_fd)
      {
        ghost var more;
        more, done := ReaddTurn(tmps, k, q, done, resets);
        resets := resets + more;
      }
      assert tmps[..|tmps|] == tmps;
    }

    ghost predicate ReaddedSoFar(q: Queue, done: seq<Entry>, resets: seq<int>)
      reads this
    {
      Aside(q, done) && |resets| == |done| && Pool() == AgainAll(q, done, resets)
    }

    /** One turn of that loop. */
    method ReaddTurn(tmps: seq<Entry>, k: nat, ghost q: Queue, ghost done: seq<Entry>, ghost resets: seq<int>)
      returns (ghost more: seq<int>, ghost done': seq<Entry>)
      requires Consistent(q) && Aside(q, tmps) && Sorted(tmps) && k < |tmps|
      requires done == Repeats(q.events, tmps[..k]) && ReaddedSoFar(q, done, resets)
      modifies `clock, `m_events, `m_fd, `m_pending_events, `stamps
      ensures old(clock) <= clock && forall i | 0 <= i < |more| :: old(clock) <= more[i] <= clock
      ensures done' == Repeats(q.events, tmps[..k + 1]) && ReaddedSoFar(q, done', resets + more)
      ensures done' == [] ==> done == [] && m_fd == old(m_fd)
    {
      RepeatsPrefix(q, tmps, k);
      more := ReaddIfRepeated(tmps[k], q, done, resets);
      done' := done + if q.events[tmps[k].id].repeated then [tmps[k]] else [];
    }

    /** Collect what is due, erase it, and put the repeated events back. */
    method TakeDue(now: int) returns (tmps: seq<Entry>, ghost resets: seq<int>)
      requires Consistent(Pool())
      modifies `clock, `m_events, `m_fd, `m_pending_events, `stamps
      ensures tmps == LiveAt(old(Pool()), now) && |resets| == |RepeatsAt(old(Pool()), now)|
      ensures Aside(Later(old(Pool()), now), RepeatsAt(old(Pool()), now))
      ensures Pool() == AgainAll(Later(old(Pool()), now), RepeatsAt(old(Pool()), now), resets)
      ensures Consistent(Pool()) && (m_pending_events == [] ==> m_fd == old(m_fd))
      ensures old(clock) <= clock && forall i | 0 <= i < |resets| :: old(clock) <= resets[i] <= clock
    {
      ghost var q := Pool();
      var it;
      it, tmps := CollectDue(now);
      LiveFacts(q, now);
      m_pending_events := m_pending_events[it..];
      resets := ReaddRepeated(tmps, RepeatsAt(q, now));
      ReaddedFirst(Later(q, now), RepeatsAt(q, now), resets);
    }

    /** Take what is due, then set the timerfd for what is pending now. */
    method TakeAndRearm(now: int) returns (tmps: seq<Entry>, ghost resets: seq<int>)
      requires Consistent(Pool())
      modifies `clock, `m_events, `m_fd, `m_pending_events, `stamps
      ensures tmps == LiveAt(old(Pool()), now) && |resets| == |RepeatsAt(old(Pool()), now)|
      ensures Aside(Later(old(Pool()), now), RepeatsAt(old(Pool()), now))
      ensures Pool() == AgainAll(Later(old(Pool()), now), RepeatsAt(old(Pool()), now), resets)
      ensures m_pending_events != [] ==> m_pending_events[0].id in m_events
      ensures m_fd == Rearm(Pool(), old(m_fd), clock)
      ensures old(clock) <= clock && forall i | 0 <= i < |resets| :: old(clock) <= resets[i] <= clock
    {
      tmps, resets := TakeDue(now);
      ghost var q := Pool();
      FirstIsKnown(q);
      ResetArriveTime();
    }

    /** The expiry is read until EAGAIN. */
    method DrainFd() returns (t: int)
      modifies `clock, `m_fd
      ensures t == clock >= old(clock) && m_fd == Drain(old(m_fd), t)
    {
      t := ReadClock();
      if m_fd.Armed? && m_fd.deadline <= t {
        m_fd := Disarmed;
      }
    }

    /** The last loop of `onTimer`: run the collected callbacks. */
    method RunTasks(tmps: seq<Entry>, now: int)
      modifies `fired
      ensures fired == old(fired) + Fire(tmps, now)
    {
      for k := 0 to |tmps|
        invariant fired == old(fired) + Fire(tmps[..k], now)
      {
        fired := fired + [Firing(tmps[k].id, tmps[k].key, now)];
        assert Fire(tmps[..k + 1], now) == Fire(tmps[..k], now) + [Firing(tmps[k].id, tmps[k].key, now)];
      }
      assert tmps[..|tmps|] == tmps;
    }

    /** One pass, for every way the clock may advance during it. */
    method OnTimer() returns (ghost r: Readings)
      requires Consistent(Pool())
      modifies this
      ensures Forward(old(clock), r) && |r.resets| == |RepeatsAt(old(Pool()), r.now)|
      ensures Pool() == TimerSpec.OnTimer(old(Snapshot()), r).q && m_fd == TimerSpec.OnTimer(old(Snapshot()), r).fd
      ensures clock == TimerSpec.OnTimer(old(Snapshot()), r).clock && fired == TimerSpec.OnTimer(old(Snapshot()), r).fired
    {
      ghost var s, q := Snapshot(), Pool();
      var drain := DrainFd();
      ghost var fd := m_fd;
      var now := ReadClock();
      assert Pool() == q;
      ghost var resets;
      var tmps;
      tmps, resets := TakeAndRearm(now);
      ghost var q1 := Pool();
      assert m_fd == Rearm(q1, fd, clock);
      RunTasks(tmps, now);
      assert Pool() == q1;
      r := Readings(drain, now, resets, clock);
      OnTimerFields(s, r, q1);
    }
  }

  lemma FirstIsKnown(q: Queue)
    requires Consistent(q)
    ensures q.pending != [] ==> q.pending[0].id in q.events
  {
    if q.pending != [] {
      assert q.pending[0] in q.pending;
    }
  }

  lemma OnTimerFields(s: State, r: Readings, q: Queue)
    requires Consistent(s.q) && |r.resets| == |RepeatsAt(s.q, r.now)|
    requires Aside(Later(s.q, r.now), RepeatsAt(s.q, r.now))
    requires q == AgainAll(Later(s.q, r.now), RepeatsAt(s.q, r.now), r.resets)
    requires q.pending != [] ==> q.pending[0].id in q.events
    ensures var s' := TimerSpec.OnTimer(s, r);
            && s'.q == q && s'.fd == Rearm(q, Drain(s.fd, r.drain), r.last) && s'.clock == r.last
            && s'.fired == s.fired + Fire(LiveAt(s.q, r.now), r.now)
  {
  }

  lemma ReaddedFirst(q: Queue, again: seq<Entry>, times: seq<int>)
    requires Consistent(q) && Aside(q, again) && |again| == |times|
    ensures Consistent(AgainAll(q, again, times))
    ensures again != [] ==> AgainAll(q, again, times).pending != []
  {
    AgainAllConsistent(q, again, times);
    if again != [] {
      AgainAllGrows(q, again, times);
    }
  }

  lemma {:induction false} AgainAllGrows(q: Queue, again: seq<Entry>, times: seq<int>)
    requires |again| == |times| && forall i | 0 <= i < |again| :: again[i].id in q.events
    ensures |AgainAll(q, again, times).pending| == |q.pending| + |again|
    decreases |again|
  {
    if again != [] {
      var id := again[0].id;
      InsertMembers(q.pending, Entry(times[0] + q.events[id].interval, id, q.stamps));
      AgainAllGrows(Again(q, id, times[0]), again[1..], times[1..]);
    }
  }

  lemma {:induction false} AgainAllPending(q: Queue, again: seq<Entry>, times: seq<int>)
    requires Consistent(q) && Aside(q, again) && |again| == |times|
    ensures forall x :: Pending(AgainAll(q, again, times), x) ==> Pending(q, x) || exists e | e in again :: e.id == x
    decreases |again|
  {
    if again != [] {
      AgainConsistent(q, again[0].id, times[0]);
      AgainAllPending(Again(q, again[0].id, times[0]), again[1..], times[1..]);
      assert again == [again[0]] + again[1..];
    }
  }

  lemma Assoc(x: seq<Entry>, y: seq<Entry>, z: seq<Entry>)
    ensures x + (y + z) == x + y + z
  {
  }

  lemma {:induction false} RepeatsSnoc(events: map<nat, Event>, live: seq<Entry>, e: Entry)
    ensures Repeats(events, live + [e])
            == Repeats(events, live) + if e.id in events && events[e.id].repeated then [e] else []
  {
    if live == [] {
      assert live + [e] == [e];
    } else {
      assert (live + [e])[0] == live[0] && (live + [e])[1..] == live[1..] + [e];
      RepeatsSnoc(events, live[1..], e);
      Assoc(if live[0].id in events && events[live[0].id].repeated then [live[0]] else [], Repeats(events, live[1..]),
            if e.id in events && events[e.id].repeated then [e] else []);
    }
  }

  /** The repeated events among the first `k` collected ones. */
  lemma RepeatsPrefix(q: Queue, tmps: seq<Entry>, k: nat)
    requires Aside(q, tmps) && Sorted(tmps) && k < |tmps|
    ensures var done, e := Repeats(q.events, tmps[..k]), tmps[k];
            && Aside(q, done) && (forall x | x in done :: x.id != e.id) && e in tmps
            && Repeats(q.events, tmps[..k + 1]) == done + (if q.events[e.id].repeated then [e] else [])
            && Aside(q, Repeats(q.events, tmps[..k + 1]))
  {
    assert tmps[k] in tmps && tmps[..k + 1] == tmps[..k] + [tmps[k]];
    RepeatsPicks(q.events, tmps[..k + 1]);
    RepeatsPicks(q.events, tmps[..k]);
    RepeatsSnoc(q.events, tmps[..k], tmps[k]);
  }

  /** When its turn comes, a collected event is untouched and not pending. */
  lemma ReadyToReadd(q: Queue, done: seq<Entry>, resets: seq<int>, e: Entry)
    requires Consistent(q) && Aside(q, done) && |resets| == |done|
    requires e.id in q.events && !Pending(q, e.id) && forall x | x in done :: x.id != e.id
    ensures var q1 := AgainAll(q, done, resets);
            Consistent(q1) && !Pending(q1, e.id) && q1.events[e.id] == q.events[e.id]
  {
    AgainAllConsistent(q, done, resets);
    AgainAllPending(q, done, resets);
    AgainAllOthers(q, done, resets, e.id);
  }

  lemma {:induction false} InsertAt(p: seq<Entry>, e: Entry, i: nat)
    requires i <= |p| && (forall k | 0 <= k < i :: p[k].key <= e.key) && (i < |p| ==> e.key < p[i].key)
    ensures Insert(p, e) == p[..i] + [e] + p[i..]
    decreases i
  {
    if i > 0 {
      InsertAt(p[1..], e, i - 1);
      var a, b := p[1..][..i - 1], p[i..];
      assert p[..i] == [p[0]] + a && p[1..][i - 1..] == b;
      assert [p[0]] + (a + [e] + b) == [p[0]] + a + [e] + b;
    } else {
      assert p[..0] + [e] + p[0..] == [e] + p;
    }
  }

  /** Leaving out entry `i` of `p` leaves out entry `i - 1` behind the first. */
  lemma SkipsOne(p: seq<Entry>, q: seq<Entry>, i: nat)
    requires 0 < i <= |p| && q == p[1..]
    ensures [p[0]] + q == p
    ensures i < |p| ==> [p[0]] + (q[..i - 1] + q[i..]) == p[..i] + p[i + 1..]
  {
  }

  lemma {:induction false} EraseAt(p: seq<Entry>, key: int, id: nat, i: nat)
    requires i <= |p| && forall k | 0 <= k < i :: !(p[k].key == key && p[k].id == id)
    requires i < |p| ==> p[i].key == key && p[i].id == id
    ensures Erase(p, key, id) == if i < |p| then p[..i] + p[i + 1..] else p
    decreases i
  {
    if i > 0 {
      var q := p[1..];
      EraseAt(q, key, id, i - 1);
      assert Erase(p, key, id) == [p[0]] + Erase(q, key, id);
      SkipsOne(p, q, i);
    } else if p != [] {
      assert p[..0] + p[1..] == p[1..];
    }
  }

  lemma {:induction false} DueCountIs(p: seq<Entry>, now: int, n: nat)
    requires n <= |p| && (forall k | 0 <= k < n :: p[k].key <= now) && (n < |p| ==> p[n].key > now)
    ensures DueCount(p, now) == n
    decreases n
  {
    if n > 0 {
      DueCountIs(p[1..], now, n - 1);
    }
  }

  lemma {:induction false} LiveSnoc(events: map<nat, Event>, due: seq<Entry>, e: Entry)
    ensures Live(events, due + [e])
            == Live(events, due) + if e.id in events && !events[e.id].cancelled then [e] else []
  {
    if due == [] {
      assert due + [e] == [e];
    } else {
      assert (due + [e])[0] == due[0] && (due + [e])[1..] == due[1..] + [e];
      LiveSnoc(events, due[1..], e);
      Assoc(if due[0].id in events && !events[due[0].id].cancelled then [due[0]] else [], Live(events, due[1..]),
            if e.id in events && !events[e.id].cancelled then [e] else []);
    }
  }

  lemma {:induction false} AgainAllSnoc(q: Queue, again: seq<Entry>, times: seq<int>, e: Entry, t: int)
    requires |again| == |times| && (forall i | 0 <= i < |again| :: again[i].id in q.events) && e.id in q.events
    ensures forall i | 0 <= i < |again + [e]| :: (again + [e])[i].id in q.events
    ensures AgainAll(q, again + [e], times + [t]) == Again(AgainAll(q, again, times), e.id, t)
    decreases |again|
  {
    var all, ts := again + [e], times + [t];
    if again == [] {
      assert AgainAll(Again(q, all[0].id, ts[0]), all[1..], ts[1..]) == Again(q, e.id, t);
    } else {
      assert all[0] == again[0] && ts[0] == times[0];
      assert all[1..] == again[1..] + [e] && ts[1..] == times[1..] + [t];
      AgainAllSnoc(Again(q, again[0].id, times[0]), again[1..], times[1..], e, t);
    }
  }
}
