/**
 * net/eventloop.cc: the task queue that one thread drains batch by batch, and the mirror of
 * the kernel's interest set. Locked sections are taken as atomic steps.
 */
module LoopSpec {

  /** What a running task may do to its loop. */
  datatype Effect = Post(t: Task) | AddFd(fd: nat) | DelFd(fd: nat)

  /** An empty `std::function`, or one that is known by what it does. */
  datatype Task = Empty | Work(id: nat, effects: seq<Effect>)

  datatype Ctl = CtlAdd(fd: nat) | CtlMod(fd: nat) | CtlDel(fd: nat)

  /**
   * `pending` and `listen` are the loop's fields and `batch` its swapped-out queue. `kernel`
   * is the interest set, `calls` the epoll_ctl calls made, `added` and `taken` the histories.
   */
  datatype Loop = Loop(pending: seq<Task>, batch: seq<Task>, listen: set<nat>,
                       kernel: set<nat>, calls: seq<Ctl>, added: seq<Task>, taken: seq<Task>)

  const START := Loop([], [], {}, {}, [], [], [])

  /** The kernel refuses to add a registered fd and to change or remove an unregistered one. */
  predicate Accepts(kernel: set<nat>, c: Ctl) { c.CtlAdd? <==> c.fd !in kernel }

  /** The interest set after one call. */
  function Apply(kernel: set<nat>, c: Ctl): set<nat> {
    if !Accepts(kernel, c) then kernel else if c.CtlDel? then kernel - {c.fd} else kernel + {c.fd}
  }

  /** The interest set that a history of calls leads to. */
  function Interest(calls: seq<Ctl>): set<nat> {
    if calls == [] then {} else Apply(Interest(calls[..|calls| - 1]), calls[|calls| - 1])
  }

  function Control(l: Loop, c: Ctl): Loop { l.(kernel := Apply(l.kernel, c), calls := l.calls + [c]) }

  function AddTask(l: Loop, t: Task): Loop { l.(pending := l.pending + [t], added := l.added + [t]) }

  function AddToEpoll(l: Loop, fd: nat): Loop {
    var l1 := Control(l, if fd in l.listen then CtlMod(fd) else CtlAdd(fd));
    l1.(listen := l1.listen + {fd})
  }

  function DeleteToEpoll(l: Loop, fd: nat): Loop {
    if fd !in l.listen then l
    else
      var l1 := Control(l, CtlDel(fd));
      l1.(listen := l1.listen - {fd})
  }

  /** `addEpollEvent` and `deleteEpollEvent`: at once in the loop's thread, else as a task. */
  function AddEvent(l: Loop, fd: nat, inLoop: bool, id: nat): Loop {
    if inLoop then AddToEpoll(l, fd) else AddTask(l, Work(id, [AddFd(fd)]))
  }

  function DeleteEvent(l: Loop, fd: nat, inLoop: bool, id: nat): Loop {
    if inLoop then DeleteToEpoll(l, fd) else AddTask(l, Work(id, [DelFd(fd)]))
  }

  function Perform(l: Loop, es: seq<Effect>): Loop
    decreases |es|
  {
    if es == [] then l
    else
      var l1 := match es[0]
                case Post(t) => AddTask(l, t)
                case AddFd(fd) => AddToEpoll(l, fd)
                case DelFd(fd) => DeleteToEpoll(l, fd);
      Perform(l1, es[1..])
  }

  /** Take the front of the batch and, unless it is empty, run it. */
  function RunFront(l: Loop): Loop
    requires l.batch != []
  {
    var l1 := l.(batch := l.batch[1..], taken := l.taken + [l.batch[0]]);
    if l.batch[0].Empty? then l1 else Perform(l1, l.batch[0].effects)
  }

  datatype Step =
    | Add(t: Task)
    | Register(fd: nat, inLoop: bool, id: nat)
    | Unregister(fd: nat, inLoop: bool, id: nat)
    | Swap   // the top of the loop, once the previous batch is empty
    | Front  // one turn of the inner loop

  function Do(l: Loop, s: Step): Loop {
    match s
    case Add(t) => AddTask(l, t)
    case Register(fd, inLoop, id) => AddEvent(l, fd, inLoop, id)
    case Unregister(fd, inLoop, id) => DeleteEvent(l, fd, inLoop, id)
    case Swap => if l.batch == [] then l.(batch := l.pending, pending := []) else l
    case Front => if l.batch != [] then RunFront(l) else l
  }

  function Run(l: Loop, steps: seq<Step>): Loop
    decreases |steps|
  {
    if steps == [] then l else Run(Do(l, steps[0]), steps[1..])
  }

  /** No epoll_ctl call failed, seen from an initially empty interest set. */
  ghost predicate NoneFailed(calls: seq<Ctl>) {
    calls != [] ==>
      NoneFailed(calls[..|calls| - 1]) && Accepts(Interest(calls[..|calls| - 1]), calls[|calls| - 1])
  }

  /** First in, first out, each task once; the mirror is exact and no epoll_ctl call failed. */
  ghost predicate Inv(l: Loop) {
    && l.added == l.taken + l.batch + l.pending
    && l.listen == l.kernel == Interest(l.calls)
    && NoneFailed(l.calls)
  }

  lemma CtlKeeps(l: Loop, c: Ctl)
    requires l.kernel == Interest(l.calls) && NoneFailed(l.calls) && Accepts(l.kernel, c)
    ensures Control(l, c).kernel == Interest(Control(l, c).calls) && NoneFailed(Control(l, c).calls)
  {
    assert (l.calls + [c])[..|l.calls|] == l.calls;
  }

  lemma AddTaskKeeps(l: Loop, t: Task)
    requires Inv(l)
    ensures Inv(AddTask(l, t))
  {
    assert l.taken + l.batch + l.pending + [t] == l.taken + l.batch + (l.pending + [t]);
  }

  lemma EpollKeeps(l: Loop, fd: nat)
    requires Inv(l)
    ensures Inv(AddToEpoll(l, fd)) && Inv(DeleteToEpoll(l, fd))
  {
    CtlKeeps(l, if fd in l.listen then CtlMod(fd) else CtlAdd(fd));
    if fd in l.listen {
      CtlKeeps(l, CtlDel(fd));
    }
  }

  lemma {:induction false} PerformKeeps(l: Loop, es: seq<Effect>)
    requires Inv(l)
    ensures Inv(Perform(l, es))
    decreases |es|
  {
    if es != [] {
      match es[0]
      case Post(t) =>
        AddTaskKeeps(l, t);
        PerformKeeps(AddTask(l, t), es[1..]);
      case AddFd(fd) =>
        EpollKeeps(l, fd);
        PerformKeeps(AddToEpoll(l, fd), es[1..]);
      case DelFd(fd) =>
        EpollKeeps(l, fd);
        PerformKeeps(DeleteToEpoll(l, fd), es[1..]);
    }
  }

  lemma FrontKeeps(l: Loop)
    requires Inv(l) && l.batch != []
    ensures Inv(RunFront(l))
  {
    var l1 := l.(batch := l.batch[1..], taken := l.taken + [l.batch[0]]);
    assert l.batch == [l.batch[0]] + l.batch[1..];
    assert l.taken + l.batch == l1.taken + l1.batch;
    if !l.batch[0].Empty? {
      PerformKeeps(l1, l.batch[0].effects);
    }
  }

  lemma StepKeeps(l: Loop, s: Step)
    requires Inv(l)
    ensures Inv(Do(l, s))
  {
    match s
    case Add(t) => AddTaskKeeps(l, t);
    case Register(fd, inLoop, id) =>
      EpollKeeps(l, fd);
      AddTaskKeeps(l, Work(id, [AddFd(fd)]));
    case Unregister(fd, inLoop, id) =>
      EpollKeeps(l, fd);
      AddTaskKeeps(l, Work(id, [DelFd(fd)]));
    case Swap =>
      assert l.taken + [] + l.pending == l.taken + l.pending + [];
    case Front =>
      if l.batch != [] {
        FrontKeeps(l);
      }
  }

  /** Over every run, including the tasks that running tasks add. */
  lemma {:induction false} LoopIsFifo(l: Loop, steps: seq<Step>)
    requires Inv(l)
    ensures Inv(Run(l, steps))
    decreases |steps|
  {
    if steps != [] {
      StepKeeps(l, steps[0]);
      LoopIsFifo(Do(l, steps[0]), steps[1..]);
    }
  }

  /** From the constructor on: FIFO, the exact mirror, and no failed epoll_ctl call. */
  lemma LoopFromStart(steps: seq<Step>)
    ensures var l := Run(START, steps);
            && l.added == l.taken + l.batch + l.pending
            && l.listen == Interest(l.calls) && NoneFailed(l.calls)
  {
    LoopIsFifo(START, steps);
  }

  /** Draining a batch: the tasks it holds are taken in order, and none that they add. */
  function Drain(l: Loop): Loop
    decreases |l.batch|
  {
    if l.batch == [] then l
    else
      PerformBatch(l.(batch := l.batch[1..], taken := l.taken + [l.batch[0]]), l.batch[0]);
      Drain(RunFront(l))
  }

  lemma {:induction false} PerformFrame(l: Loop, es: seq<Effect>)
    ensures Perform(l, es).batch == l.batch && Perform(l, es).taken == l.taken
    decreases |es|
  {
    if es != [] {
      match es[0]
      case Post(t) => PerformFrame(AddTask(l, t), es[1..]);
      case AddFd(fd) => PerformFrame(AddToEpoll(l, fd), es[1..]);
      case DelFd(fd) => PerformFrame(DeleteToEpoll(l, fd), es[1..]);
    }
  }

  lemma PerformBatch(l: Loop, t: Task)
    ensures t.Work? ==> Perform(l, t.effects).batch == l.batch && Perform(l, t.effects).taken == l.taken
  {
    if t.Work? {
      PerformFrame(l, t.effects);
    }
  }

  lemma {:induction false} DrainTakesBatch(l: Loop)
    ensures Drain(l).batch == [] && Drain(l).taken == l.taken + l.batch
    ensures Inv(l) ==> Inv(Drain(l))
    decreases |l.batch|
  {
    if l.batch != [] {
      var l1 := l.(batch := l.batch[1..], taken := l.taken + [l.batch[0]]);
      PerformBatch(l1, l.batch[0]);
      if Inv(l) {
        FrontKeeps(l);
      }
      DrainTakesBatch(RunFront(l));
      assert l.taken + l.batch == l1.taken + l1.batch;
    }
  }

  // ---- What the tasks of a batch do ----

  /** The effects of a batch's tasks, in order; empty tasks have none. */
  function Effects(ts: seq<Task>): seq<Effect> {
    if ts == [] then [] else (if ts[0].Work? then ts[0].effects else []) + Effects(ts[1..])
  }

  /** The tasks that these effects post, in order. */
  function Posts(es: seq<Effect>): seq<Task> {
    if es == [] then [] else (if es[0].Post? then [es[0].t] else []) + Posts(es[1..])
  }

  ghost predicate Untouched(es: seq<Effect>, fd: nat) { AddFd(fd) !in es && DelFd(fd) !in es }

  /** The last effect on `fd` registers it, or there is none and it was registered before. */
  ghost predicate Listed(es: seq<Effect>, fd: nat, before: bool) {
    (exists k :: 0 <= k < |es| && RegistersLast(es, k, fd)) || (before && Untouched(es, fd))
  }

  ghost predicate RegistersLast(es: seq<Effect>, k: nat, fd: nat)
    requires k < |es|
  {
    es[k] == AddFd(fd) && Untouched(es[k + 1..], fd)
  }

  lemma ListedCons(es: seq<Effect>, fd: nat, before: bool)
    requires es != []
    ensures Listed(es, fd, before)
            <==> Listed(es[1..], fd, es[0] == AddFd(fd) || (before && es[0] != DelFd(fd)))
  {
    var rest := es[1..];
    UntouchedCons(es, fd);
    RegistersLastCons(es, 0, fd);
    assert es[0] == AddFd(fd) ==> (Untouched(rest, fd) <==> RegistersLast(es, 0, fd));
    forall k | 0 <= k < |es| ensures RegistersLast(es, k, fd) <==> if k == 0 then es[0] == AddFd(fd) && Untouched(rest, fd)
                                                                   else RegistersLast(rest, k - 1, fd) {
      RegistersLastCons(es, k, fd);
    }
    forall k | 0 <= k < |rest| ensures RegistersLast(rest, k, fd) <==> RegistersLast(es, k + 1, fd) {
      RegistersLastCons(es, k + 1, fd);
    }
  }

  lemma RegistersLastCons(es: seq<Effect>, k: nat, fd: nat)
    requires k < |es|
    ensures RegistersLast(es, k, fd)
            <==> if k == 0 then es[0] == AddFd(fd) && Untouched(es[1..], fd) else RegistersLast(es[1..], k - 1, fd)
  {
    if k > 0 {
      assert es[1..][k - 1] == es[k] && es[1..][k..] == es[k + 1..];
    }
  }

  lemma UntouchedCons(es: seq<Effect>, fd: nat)
    requires es != []
    ensures Untouched(es, fd) <==> es[0] != AddFd(fd) && es[0] != DelFd(fd) && Untouched(es[1..], fd)
  {
    assert es == [es[0]] + es[1..];
  }

  /** Performing effects posts exactly their tasks and leaves exactly the fds they last register. */
  lemma {:induction false} PerformExact(l: Loop, es: seq<Effect>)
    ensures var l' := Perform(l, es);
            && l'.added == l.added + Posts(es) && l'.pending == l.pending + Posts(es)
            && l'.taken == l.taken && l'.batch == l.batch
            && forall fd :: fd in l'.listen <==> Listed(es, fd, fd in l.listen)
    decreases |es|
  {
    if es != [] {
      var l1 := Perform(l, es[..1]);
      PerformOne(l, es[0]);
      assert es[..1] == [es[0]];
      PerformExact(l1, es[1..]);
      forall fd ensures Listed(es, fd, fd in l.listen) <==> Listed(es[1..], fd, fd in l1.listen) {
        ListedCons(es, fd, fd in l.listen);
      }
      AssocTasks(l.added, if es[0].Post? then [es[0].t] else [], Posts(es[1..]));
      AssocTasks(l.pending, if es[0].Post? then [es[0].t] else [], Posts(es[1..]));
    }
  }

  lemma PerformOne(l: Loop, e: Effect)
    ensures var l' := Perform(l, [e]);
            && l'.added == l.added + (if e.Post? then [e.t] else [])
            && l'.pending == l.pending + (if e.Post? then [e.t] else [])
            && l'.taken == l.taken && l'.batch == l.batch
            && forall fd :: fd in l'.listen <==> e == AddFd(fd) || (fd in l.listen && e != DelFd(fd))
  {
  }

  lemma AssocTasks(x: seq<Task>, y: seq<Task>, z: seq<Task>)
    ensures x + (y + z) == x + y + z
  {
  }

  lemma {:induction false} PostsConcat(a: seq<Effect>, b: seq<Effect>)
    ensures Posts(a + b) == Posts(a) + Posts(b)
  {
    if a == [] {
      assert a + b == b;
    } else {
      assert (a + b)[0] == a[0] && (a + b)[1..] == a[1..] + b;
      PostsConcat(a[1..], b);
      AssocTasks(if a[0].Post? then [a[0].t] else [], Posts(a[1..]), Posts(b));
    }
  }

  lemma {:induction false} ListedConcat(a: seq<Effect>, b: seq<Effect>, fd: nat, before: bool)
    ensures Listed(a + b, fd, before) <==> Listed(b, fd, Listed(a, fd, before))
    decreases |a|
  {
    if a == [] {
      assert a + b == b;
    } else {
      assert (a + b)[0] == a[0] && (a + b)[1..] == a[1..] + b;
      ListedCons(a + b, fd, before);
      ListedCons(a, fd, before);
      ListedConcat(a[1..], b, fd, a[0] == AddFd(fd) || (before && a[0] != DelFd(fd)));
    }
  }

  /** A drain runs every task of the batch: what they post is added, what they register is listed. */
  lemma {:induction false} DrainExact(l: Loop)
    ensures var l', es := Drain(l), Effects(l.batch);
            && l'.added == l.added + Posts(es) && l'.pending == l.pending + Posts(es)
            && forall fd :: fd in l'.listen <==> Listed(es, fd, fd in l.listen)
    decreases |l.batch|
  {
    if l.batch != [] {
      var l0 := l.(batch := l.batch[1..], taken := l.taken + [l.batch[0]]);
      var es, rest := if l.batch[0].Work? then l.batch[0].effects else [], Effects(l.batch[1..]);
      PerformBatch(l0, l.batch[0]);
      PerformExact(l0, es);
      assert RunFront(l) == Perform(l0, es);
      DrainExact(RunFront(l));
      PostsConcat(es, rest);
      AssocTasks(l.added, Posts(es), Posts(rest));
      AssocTasks(l.pending, Posts(es), Posts(rest));
      forall fd ensures Listed(es + rest, fd, fd in l.listen) <==> Listed(rest, fd, fd in Perform(l0, es).listen) {
        ListedConcat(es, rest, fd, fd in l.listen);
      }
    }
  }

  function Fronts(n: nat): seq<Step> { if n == 0 then [] else [Front] + Fronts(n - 1) }

  /** A drain is the turns it consists of, uninterrupted. */
  lemma {:induction false} DrainIsSteps(l: Loop)
    ensures Run(l, Fronts(|l.batch|)) == Drain(l)
    decreases |l.batch|
  {
    if l.batch != [] {
      var l0 := l.(batch := l.batch[1..], taken := l.taken + [l.batch[0]]);
      PerformBatch(l0, l.batch[0]);
      assert ([Front] + Fronts(|l.batch| - 1))[1..] == Fronts(|l.batch| - 1);
      DrainIsSteps(RunFront(l));
    }
  }

  /** A round of the loop takes exactly the tasks that were pending, and keeps those they add. */
  lemma RoundTakesPending(l: Loop)
    requires l.batch == []
    ensures var l' := Run(l, [Swap] + Fronts(|l.pending|));
            && l'.taken == l.taken + l.pending && l'.batch == [] && l'.pending == Posts(Effects(l.pending))
  {
    var l1 := Do(l, Swap);
    assert ([Swap] + Fronts(|l.pending|))[1..] == Fronts(|l.pending|);
    DrainIsSteps(l1);
    DrainTakesBatch(l1);
    DrainExact(l1);
  }

  /** Registering and unregistering reach the kernel, at once or when the deferred task runs. */
  lemma RegistrationReachesKernel(l: Loop, fd: nat, id: nat)
    requires Inv(l)
    ensures AddEvent(l, fd, true, id).kernel == l.kernel + {fd}
    ensures DeleteEvent(l, fd, true, id).kernel == l.kernel - {fd}
    ensures AddEvent(l, fd, false, id).kernel == DeleteEvent(l, fd, false, id).kernel == l.kernel
    ensures forall l1 | Inv(l1) && l1.batch == [AddEvent(l, fd, false, id).pending[|l.pending|]] ::
              Drain(l1).kernel == l1.kernel + {fd}
    ensures forall l1 | Inv(l1) && l1.batch == [DeleteEvent(l, fd, false, id).pending[|l.pending|]] ::
              Drain(l1).kernel == l1.kernel - {fd}
  {
    EpollKeeps(l, fd);
    forall l1 | Inv(l1) && l1.batch == [Work(id, [AddFd(fd)])] ensures Drain(l1).kernel == l1.kernel + {fd} {
      DrainsOne(l1, id, AddFd(fd));
    }
    forall l1 | Inv(l1) && l1.batch == [Work(id, [DelFd(fd)])] ensures Drain(l1).kernel == l1.kernel - {fd} {
      DrainsOne(l1, id, DelFd(fd));
    }
  }

  /** One epoll_ctl call for each registration, none for unregistering what is not registered. */
  lemma CallsIssued(l: Loop, fd: nat, id: nat)
    requires Inv(l)
    ensures AddEvent(l, fd, true, id).calls == l.calls + [if fd in l.kernel then CtlMod(fd) else CtlAdd(fd)]
    ensures DeleteEvent(l, fd, true, id).calls == l.calls + (if fd in l.kernel then [CtlDel(fd)] else [])
  {
  }

  lemma DrainsOne(l: Loop, id: nat, e: Effect)
    requires Inv(l) && l.batch == [Work(id, [e])] && !e.Post?
    ensures Drain(l).kernel == if e.AddFd? then l.kernel + {e.fd} else l.kernel - {e.fd}
  {
    DrainTakesBatch(l);
    DrainExact(l);
    assert Effects(l.batch) == [e];
    forall fd ensures Listed([e], fd, fd in l.listen) <==> e == AddFd(fd) || (fd in l.listen && e != DelFd(fd)) {
      ListedCons([e], fd, fd in l.listen);
    }
  }
}

/** The loop object. */
module Eventloops {
  import opened LoopSpec

  class Eventloop {
    var m_pending_tasks: seq<Task>
    var m_listen_fds: set<nat>
    ghost var batch: seq<Task>
    ghost var kernel: set<nat>
    ghost var calls: seq<Ctl>
    ghost var added: seq<Task>
    ghost var taken: seq<Task>

    ghost function State(): Loop
      reads this
    {
      Loop(m_pending_tasks, batch, m_listen_fds, kernel, calls, added, taken)
    }

    constructor ()
      ensures State() == START
    {
      m_pending_tasks, m_listen_fds := [], {};
      batch, kernel, calls, added, taken := [], {}, [], [], [];
    }

    method AddTask(t: Task)
      modifies this
      ensures State() == LoopSpec.AddTask(old(State()), t)
    {
      m_pending_tasks := m_pending_tasks + [t];
      added := added + [t];
    }

    ghost method EpollCtl(c: Ctl)
      modifies `kernel, `calls
      ensures State() == LoopSpec.Control(old(State()), c)
    {
      kernel := Apply(kernel, c);
      calls := calls + [c];
    }

    method AddToEpoll(fd: nat)
      modifies this
      ensures State() == LoopSpec.AddToEpoll(old(State()), fd)
    {
      EpollCtl(if fd in m_listen_fds then CtlMod(fd) else CtlAdd(fd));
      m_listen_fds := m_listen_fds + {fd};
    }

    method DeleteToEpoll(fd: nat)
      modifies this
      ensures State() == LoopSpec.DeleteToEpoll(old(State()), fd)
    {
      if fd !in m_listen_fds {
        return;
      }
      EpollCtl(CtlDel(fd));
      m_listen_fds := m_listen_fds - {fd};
    }

    method AddEpollEvent(fd: nat, inLoop: bool, id: nat)
      modifies this
      ensures State() == AddEvent(old(State()), fd, inLoop, id)
    {
      if inLoop {
        AddToEpoll(fd);
      } else {
        AddTask(Work(id, [AddFd(fd)]));
      }
    }

    method DeleteEpollEvent(fd: nat, inLoop: bool, id: nat)
      modifies this
      ensures State() == DeleteEvent(old(State()), fd, inLoop, id)
    {
      if inLoop {
        DeleteToEpoll(fd);
      } else {
        AddTask(Work(id, [DelFd(fd)]));
      }
    }

    /** A task's body, effect by effect. */
    method RunTask(effects: seq<Effect>)
      modifies this
      ensures State() == Perform(old(State()), effects)
    {
      for i := 0 to |effects|
        invariant Perform(State(), effects[i..]) == Perform(old(State()), effects)
      {
        assert effects[i..][0] == effects[i] && effects[i..][1..] == effects[i + 1..];
        match effects[i]
        case Post(t) => AddTask(t);
        case AddFd(fd) => AddToEpoll(fd);
        case DelFd(fd) => DeleteToEpoll(fd);
      }
    }

    /** The top of `loop`: swap the queue out and drain it; new tasks wait for the next round. */
    method DrainTasks()
      requires batch == []
      modifies this
      ensures State() == Drain(Do(old(State()), Swap)) && batch == []
      ensures taken == old(taken) + old(m_pending_tasks)
    {
      var tmp := m_pending_tasks;
      m_pending_tasks, batch := [], tmp;
      ghost var all := State();
      DrainTakesBatch(all);
      while tmp != []
        invariant batch == tmp && Drain(State()) == Drain(all)
        decreases |tmp|
      {
        ghost var l := State();
        var cb := tmp[0];
        tmp := tmp[1..];
        batch, taken := tmp, taken + [cb];
        PerformBatch(State(), cb);
        if cb.Work? {
          RunTask(cb.effects);
        }
        assert State() == RunFront(l);
      }
    }
  }
}
