/**
 * common/log.cc: messages travel from the caller's buffer through `syncLoop` and a queue of
 * batches to the printing thread. Each locked section is one step; one caller runs `syncLoop`.
 */
module LogSpec {

  /** `transit` is `syncLoop`'s local vector, `hand` the printing thread's; `pushed` is history. */
  datatype Pipe = Pipe(buffer: seq<string>, transit: seq<string>, queue: seq<seq<string>>,
                       hand: seq<string>, busy: bool, printed: seq<string>,
                       stop: bool, ended: bool, pushed: seq<string>)

  const START := Pipe([], [], [], [], false, [], false, false, [])

  datatype Step =
    | Push(msg: string)  // pushLog
    | Swap               // syncLoop takes the buffer
    | Hand               // pushLogBuffer, for a non-empty vector
    | Take               // the printing thread takes the front batch
    | Print              // one line, unless it is empty
    | EndBatch           // the batch is printed; a raised stop flag ends the thread
    | Stop

  function Do(p: Pipe, s: Step): Pipe {
    match s
    case Push(msg) => p.(buffer := p.buffer + [msg], pushed := p.pushed + [msg])
    case Swap => if p.transit == [] then p.(transit := p.buffer, buffer := []) else p
    case Hand => if p.transit != [] then p.(queue := p.queue + [p.transit], transit := []) else p
    case Take =>
      if !p.busy && !p.ended && p.queue != [] then p.(hand := p.queue[0], queue := p.queue[1..], busy := true)
      else p
    case Print =>
      if p.busy && p.hand != [] then
        p.(hand := p.hand[1..], printed := p.printed + Keep(p.hand[0]))
      else p
    case EndBatch => if p.busy && p.hand == [] then p.(busy := false, ended := p.stop) else p
    case Stop => p.(stop := true)
  }

  function Run(p: Pipe, steps: seq<Step>): Pipe
    decreases |steps|
  {
    if steps == [] then p else Run(Do(p, steps[0]), steps[1..])
  }

  function NonEmpty(ms: seq<string>): seq<string> {
    if ms == [] then [] else Keep(ms[0]) + NonEmpty(ms[1..])
  }

  function Keep(msg: string): seq<string> { if msg != "" then [msg] else [] }

  function Flatten(q: seq<seq<string>>): seq<string> { if q == [] then [] else q[0] + Flatten(q[1..]) }

  /** Exactly the empty messages are dropped: the others keep their number and their order. */
  lemma {:induction false} NonEmptyKeeps(ms: seq<string>)
    ensures "" !in NonEmpty(ms)
    ensures forall m | m != "" :: multiset(NonEmpty(ms))[m] == multiset(ms)[m]
    ensures "" !in ms ==> NonEmpty(ms) == ms
  {
    if ms != [] {
      NonEmptyKeeps(ms[1..]);
      assert ms == [ms[0]] + ms[1..];
    }
  }

  /** Order: a message that is not empty stands between what was kept before and behind it. */
  lemma NonEmptyAround(before: seq<string>, m: string, behind: seq<string>)
    requires m != ""
    ensures NonEmpty(before + [m] + behind) == NonEmpty(before) + [m] + NonEmpty(behind)
  {
    NonEmptyConcat(before + [m], behind);
    NonEmptyConcat(before, [m]);
  }

  /** Everything on its way to the printer, oldest first. */
  function Waiting(p: Pipe): seq<string> { p.hand + Flatten(p.queue) + p.transit + p.buffer }

  /** Nothing is lost, duplicated or reordered; only empty messages are dropped. */
  ghost predicate Inv(p: Pipe) {
    && NonEmpty(p.pushed) == p.printed + NonEmpty(Waiting(p))
    && (!p.busy ==> p.hand == [])
  }

  lemma Assoc(x: seq<string>, y: seq<string>, z: seq<string>)
    ensures x + (y + z) == x + y + z
  {
  }

  lemma {:induction false} NonEmptyConcat(a: seq<string>, b: seq<string>)
    ensures NonEmpty(a + b) == NonEmpty(a) + NonEmpty(b)
  {
    if a == [] {
      assert a + b == b;
    } else {
      NonEmptyConcat(a[1..], b);
      assert (a + b)[0] == a[0] && (a + b)[1..] == a[1..] + b;
      Assoc(Keep(a[0]), NonEmpty(a[1..]), NonEmpty(b));
    }
  }

  lemma {:induction false} FlattenSnoc(q: seq<seq<string>>, v: seq<string>)
    ensures Flatten(q + [v]) == Flatten(q) + v
  {
    if q == [] {
      assert q + [v] == [v] && [v][1..] == [] && v + [] == v;
    } else {
      FlattenSnoc(q[1..], v);
      assert (q + [v])[0] == q[0] && (q + [v])[1..] == q[1..] + [v];
    }
  }

  /** Moving messages along the pipe leaves what is waiting as it was. */
  lemma MoveKeepsWaiting(p: Pipe, s: Step)
    requires (!p.busy ==> p.hand == []) && (s == Swap || s == Hand || s == Take || s == EndBatch || s == Stop)
    ensures Waiting(Do(p, s)) == Waiting(p)
  {
    if s == Hand && p.transit != [] {
      FlattenSnoc(p.queue, p.transit);
    }
  }

  lemma PushKeeps(p: Pipe, msg: string)
    requires Inv(p)
    ensures Inv(Do(p, Push(msg)))
  {
    var w := Waiting(p);
    NonEmptyConcat(p.pushed, [msg]);
    NonEmptyConcat(w, [msg]);
    Assoc(p.hand + Flatten(p.queue) + p.transit, p.buffer, [msg]);
    Assoc(p.printed, NonEmpty(w), NonEmpty([msg]));
  }

  /** A pushed message waits behind all others. */
  lemma PushWaits(p: Pipe, msg: string)
    ensures Waiting(Do(p, Push(msg))) == Waiting(p) + [msg] && Do(p, Push(msg)).pushed == p.pushed + [msg]
  {
    Assoc(p.hand + Flatten(p.queue) + p.transit, p.buffer, [msg]);
  }

  lemma PrintKeeps(p: Pipe)
    requires Inv(p) && p.busy && p.hand != []
    ensures Inv(Do(p, Print))
  {
    var rest, k := Waiting(Do(p, Print)), Keep(p.hand[0]);
    WaitingCons(p);
    NonEmptyCons(p.hand[0], rest);
    Assoc(p.printed, k, NonEmpty(rest));
  }

  lemma WaitingCons(p: Pipe)
    requires p.busy && p.hand != []
    ensures Waiting(p) == [p.hand[0]] + Waiting(Do(p, Print))
  {
    assert p.hand == [p.hand[0]] + p.hand[1..];
    Assoc([p.hand[0]], p.hand[1..], Flatten(p.queue) + p.transit + p.buffer);
  }

  lemma NonEmptyCons(m: string, rest: seq<string>)
    ensures NonEmpty([m] + rest) == Keep(m) + NonEmpty(rest)
  {
    assert ([m] + rest)[1..] == rest;
  }

  lemma StepKeeps(p: Pipe, s: Step)
    requires Inv(p)
    ensures Inv(Do(p, s))
  {
    if s.Push? {
      PushKeeps(p, s.msg);
    } else if s == Print {
      if p.busy && p.hand != [] {
        PrintKeeps(p);
      }
    } else {
      MoveKeepsWaiting(p, s);
    }
  }

  /** Neither the output nor the history is ever taken back. */
  ghost predicate Extends(p: Pipe, q: Pipe) { p.printed <= q.printed && p.pushed <= q.pushed }

  lemma StepExtends(p: Pipe, s: Step)
    ensures Extends(p, Do(p, s))
  {
  }

  lemma ExtendsTransitive(p: Pipe, q: Pipe, r: Pipe)
    requires Extends(p, q) && Extends(q, r)
    ensures Extends(p, r)
  {
  }

  /** Over every run nothing is lost or reordered, and what was printed stays printed. */
  lemma {:induction false} PipelineKeeps(p: Pipe, steps: seq<Step>)
    requires Inv(p)
    ensures Inv(Run(p, steps)) && Extends(p, Run(p, steps))
    decreases |steps|
  {
    if steps != [] {
      var q := Do(p, steps[0]);
      StepKeeps(p, steps[0]);
      StepExtends(p, steps[0]);
      PipelineKeeps(q, steps[1..]);
      ExtendsTransitive(p, q, Run(q, steps[1..]));
    }
  }

  /** A whole round of the printing thread on an idle pipe. */
  function Round(p: Pipe): Pipe
    requires p.queue != []
  {
    p.(queue := p.queue[1..], printed := p.printed + NonEmpty(p.queue[0]), ended := p.stop)
  }

  function Prints(n: nat): seq<Step> { if n == 0 then [EndBatch] else [Print] + Prints(n - 1) }

  lemma {:induction false} PrintsRun(p: Pipe)
    requires p.busy
    ensures Run(p, Prints(|p.hand|))
            == p.(hand := [], busy := false, ended := p.stop, printed := p.printed + NonEmpty(p.hand))
    decreases |p.hand|
  {
    if p.hand == [] {
      assert [EndBatch][1..] == [];
      assert p.printed + [] == p.printed;
    } else {
      var p1 := Do(p, Print);
      PrintsRun(p1);
      assert ([Print] + Prints(|p1.hand|))[1..] == Prints(|p1.hand|);
      assert p.printed + (Keep(p.hand[0]) + NonEmpty(p1.hand)) == p1.printed + NonEmpty(p1.hand);
    }
  }

  /** A round is the steps it consists of, uninterrupted. */
  lemma RoundIsSteps(p: Pipe)
    requires !p.busy && !p.ended && p.hand == [] && p.queue != []
    ensures Run(p, [Take] + Prints(|p.queue[0]|)) == Round(p)
  {
    var steps := Prints(|p.queue[0]|);
    assert ([Take] + steps)[1..] == steps;
    PrintsRun(Do(p, Take));
  }

  /** Whatever is in the caller's buffer of an idle pipe is printed, in order, once it is synced. */
  lemma SyncedIsPrinted(p: Pipe)
    requires p.transit == [] && p.queue == [] && p.hand == [] && !p.busy && !p.ended && p.buffer != []
    ensures var p' := Run(p, [Swap, Hand, Take] + Prints(|p.buffer|));
            && p'.printed == p.printed + NonEmpty(p.buffer) && p'.buffer == [] && p'.queue == []
            && !p'.busy && p'.ended == p.stop && p'.pushed == p.pushed
  {
    var prints := Prints(|p.buffer|);
    var p1 := Do(Do(p, Swap), Hand);
    var p2 := Do(p1, Take);
    assert p1.queue == [p.buffer] && p2.queue == [] && p2.hand == p.buffer;
    RunThree(p, Swap, Hand, Take, prints);
    PrintsRun(p2);
  }

  lemma RunThree(p: Pipe, a: Step, b: Step, c: Step, rest: seq<Step>)
    ensures Run(p, [a, b, c] + rest) == Run(Do(Do(Do(p, a), b), c), rest)
  {
    RunCons(p, a, [b, c] + rest);
    RunCons(Do(p, a), b, [c] + rest);
    RunCons(Do(Do(p, a), b), c, rest);
    assert [a, b, c] + rest == [a] + ([b, c] + rest) && [b, c] + rest == [b] + ([c] + rest);
  }

  lemma RunCons(p: Pipe, s: Step, rest: seq<Step>)
    ensures Run(p, [s] + rest) == Run(Do(p, s), rest)
  {
    assert ([s] + rest)[1..] == rest;
  }

  /** A raised stop flag ends the thread with the batch it takes next, whatever is queued behind. */
  lemma StopEndsAfterBatch(p: Pipe)
    requires !p.busy && !p.ended && p.hand == [] && p.queue != []
    ensures var p' := Run(p, [Stop, Take] + Prints(|p.queue[0]|));
            p'.ended && p'.printed == p.printed + NonEmpty(p.queue[0]) && p'.queue == p.queue[1..]
  {
    var prints := Prints(|p.queue[0]|);
    RunCons(p, Stop, [Take] + prints);
    RunCons(Do(p, Stop), Take, prints);
    assert [Stop, Take] + prints == [Stop] + ([Take] + prints);
    PrintsRun(Do(Do(p, Stop), Take));
  }

  /** After the thread has ended nothing is printed, whatever is pushed. */
  lemma {:induction false} EndedIsFinal(p: Pipe, steps: seq<Step>)
    requires p.ended && !p.busy
    ensures Run(p, steps).printed == p.printed && Run(p, steps).ended && !Run(p, steps).busy
    decreases |steps|
  {
    if steps != [] {
      EndedIsFinal(Do(p, steps[0]), steps[1..]);
    }
  }

  /** Over every run the output is a prefix of what was pushed, even if the thread stops early. */
  lemma OutputIsPrefix(steps: seq<Step>)
    ensures Run(START, steps).printed <= NonEmpty(Run(START, steps).pushed)
  {
    PipelineKeeps(START, steps);
  }
}

/** The two loggers as one object. */
module Loggers {
  import opened LogSpec

  class Logger {
    var m_buffer: seq<string>
    var queue: seq<seq<string>>  // the asynchronous logger's m_buffer
    var m_stop_flag: bool
    var ended: bool
    ghost var printed: seq<string>
    ghost var pushed: seq<string>

    /** Between the calls below nothing is in transit or in hand. */
    ghost function State(): Pipe
      reads this
    {
      Pipe(m_buffer, [], queue, [], false, printed, m_stop_flag, ended, pushed)
    }

    constructor ()
      ensures State() == START
    {
      m_buffer, queue, m_stop_flag, ended := [], [], false, false;
      printed, pushed := [], [];
    }

    method PushLog(msg: string)
      modifies this
      ensures State() == Do(old(State()), Push(msg))
    {
      m_buffer := m_buffer + [msg];
      pushed := pushed + [msg];
    }

    method SyncLoop()
      modifies this
      ensures State() == Do(Do(old(State()), Swap), Hand)
    {
      var tmp := m_buffer;
      m_buffer := [];
      if tmp != [] {
        queue := queue + [tmp];
      }
    }

    /** One round of the printing thread, taken when a batch is queued. */
    method PrintBatch()
      requires !ended && queue != []
      modifies this
      ensures State() == Round(old(State()))
    {
      var tmp := queue[0];
      queue := queue[1..];
      for i := 0 to |tmp|
        invariant printed + NonEmpty(tmp[i..]) == old(printed) + NonEmpty(tmp)
        invariant queue == old(queue)[1..] && m_buffer == old(m_buffer) && pushed == old(pushed)
        invariant m_stop_flag == old(m_stop_flag)
      {
        assert tmp[i..][0] == tmp[i] && tmp[i..][1..] == tmp[i + 1..];
        if tmp[i] != "" {
          printed := printed + [tmp[i]];
        }
      }
      ended := m_stop_flag;
    }
  }
}
