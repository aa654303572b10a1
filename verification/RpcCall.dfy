/**
 * One RPC call on the client: connect failure, response and timeout race to finish it
 * (net/rpc/rpc_channel.cc, net/rpc/rpc_controller.cc).
 */
module RpcCallSpec {
  import opened Bytes

  const ERROR_FAILED_SERIALIZE: int32 := 10000004
  const ERROR_RPC_CALL_TIMEOUT: int32 := 10000007

  /** The three lambdas of `CallMethod`, with what they observe when they run. */
  datatype Event =
    | Connected(code: int32)                // the connect callback; 0 when connected
    | Response(code: int32, parses: bool)   // the read callback
    | Timeout                               // the timer event's task

  datatype Flags = Flags(code: int32, failed: bool, cancelled: bool, finished: bool)

  /** A call: the controller's flags, and the error code shown to each run of the closure. */
  datatype Call = Call(flags: Flags, closure: bool, runs: seq<int32>)

  const FRESH := Flags(0, false, false, false)

  function SetError(f: Flags, code: int32): Flags { f.(code := code, failed := true) }

  function StartCancel(f: Flags): Flags { f.(cancelled := true, failed := true, finished := true) }

  function CallBack(c: Call): Call {
    if c.flags.finished || !c.closure then c
    else c.(runs := c.runs + [c.flags.code], flags := c.flags.(finished := true))
  }

  function Fail(c: Call, code: int32): Call { CallBack(c.(flags := SetError(c.flags, code))) }

  function Step(c: Call, e: Event): Call {
    match e
    case Connected(code) => if code != 0 then Fail(c, code) else c
    case Response(code, parses) =>
      if !parses then Fail(c, ERROR_FAILED_SERIALIZE)
      else if code != 0 then Fail(c, code)
      else CallBack(c)
    case Timeout =>
      if c.flags.finished then c
      else CallBack(c.(flags := SetError(StartCancel(c.flags), ERROR_RPC_CALL_TIMEOUT)))
  }

  function Run(c: Call, events: seq<Event>): Call
    decreases |events|
  {
    if events == [] then c else Run(Step(c, events[0]), events[1..])
  }

  /** The event that decides a call: anything but a successful connect. */
  predicate Decides(e: Event) { e != Connected(0) }

  /** The error code a deciding event hands to the closure, if it runs it at all. */
  function Verdict(e: Event): seq<int32> {
    match e
    case Connected(code) => if code != 0 then [code] else []
    case Response(code, parses) => [if parses then code else ERROR_FAILED_SERIALIZE]
    case Timeout => []
  }

  /** What the first deciding event says, whatever comes after it. */
  function FirstVerdict(events: seq<Event>): seq<int32> {
    if events == [] then [] else if Decides(events[0]) then Verdict(events[0]) else FirstVerdict(events[1..])
  }

  lemma {:induction false} FinishedStaysFinished(c: Call, events: seq<Event>)
    requires c.flags.finished
    ensures Run(c, events).runs == c.runs && Run(c, events).flags.finished
    decreases |events|
  {
    if events != [] {
      FinishedStaysFinished(Step(c, events[0]), events[1..]);
    }
  }

  /**
   * In every interleaving, with any repetitions, the first deciding event alone settles the
   * closure: a failed connect or a response runs it once with its code, a timeout never does.
   */
  lemma {:induction false} FirstEventDecides(c: Call, events: seq<Event>)
    requires c.flags == FRESH && c.closure && c.runs == []
    ensures Run(c, events).runs == FirstVerdict(events)
    decreases |events|
  {
    if events != [] {
      if Decides(events[0]) {
        FinishedStaysFinished(Step(c, events[0]), events[1..]);
      } else {
        FirstEventDecides(c, events[1..]);
      }
    }
  }

  /** Without a closure nothing runs. */
  lemma {:induction false} NoClosureNoRun(c: Call, events: seq<Event>)
    requires !c.closure
    ensures Run(c, events).runs == c.runs
    decreases |events|
  {
    if events != [] {
      NoClosureNoRun(Step(c, events[0]), events[1..]);
    }
  }

  /** The index of the first deciding event. */
  ghost predicate FirstDecision(events: seq<Event>, k: nat) {
    k < |events| && Decides(events[k]) && forall i | 0 <= i < k :: !Decides(events[i])
  }

  lemma {:induction false} FirstVerdictAt(events: seq<Event>, k: nat)
    requires FirstDecision(events, k)
    ensures FirstVerdict(events) == Verdict(events[k])
    decreases k
  {
    if k > 0 {
      FirstVerdictAt(events[1..], k - 1);
    }
  }

  /**
   * The closure runs at most once, never when a timeout came first, and it sees error code 0
   * exactly when the deciding event is a response that carried code 0 and parsed.
   */
  lemma ClosureOutcome(closure: bool, events: seq<Event>, k: nat)
    requires FirstDecision(events, k)
    ensures var runs := Run(Call(FRESH, closure, []), events).runs;
            && |runs| <= 1
            && (runs != [] <==> closure && events[k] != Timeout)
            && (runs == [0] <==> closure && events[k] == Response(0, true))
  {
    if closure {
      FirstEventDecides(Call(FRESH, closure, []), events);
      FirstVerdictAt(events, k);
    } else {
      NoClosureNoRun(Call(FRESH, closure, []), events);
    }
  }

  // ---- The flags a call ends up with ----

  /** The error code an event sets, whatever the state of the call; a timeout depends on it. */
  function ErrorOf(e: Event): seq<int32> {
    match e
    case Connected(code) => if code != 0 then [code] else []
    case Response(code, parses) => if !parses then [ERROR_FAILED_SERIALIZE] else if code != 0 then [code] else []
    case Timeout => []
  }

  /** The last error in `events`, or `code` if there is none. */
  function LastError(events: seq<Event>, code: int32): int32
    decreases |events|
  {
    if events == [] then code
    else LastError(events[1..], if ErrorOf(events[0]) != [] then ErrorOf(events[0])[0] else code)
  }

  predicate AnyError(events: seq<Event>) { exists i | 0 <= i < |events| :: ErrorOf(events[i]) != [] }

  lemma {:induction false} FinishedFlags(c: Call, events: seq<Event>)
    requires c.flags.finished
    ensures var f := Run(c, events).flags;
            && f.finished && f.cancelled == c.flags.cancelled
            && (f.failed <==> c.flags.failed || AnyError(events))
            && f.code == LastError(events, c.flags.code)
    decreases |events|
  {
    if events != [] {
      FinishedFlags(Step(c, events[0]), events[1..]);
      AnyErrorCons(events);
    }
  }

  /** The event that finishes the call: without a closure only a timeout does. */
  predicate Finishes(closure: bool, e: Event) { if closure then Decides(e) else e == Timeout }

  /** The index of the first event that finishes the call, or the number of events. */
  function FinishAt(closure: bool, events: seq<Event>): (k: nat)
    ensures k <= |events| && (k < |events| ==> Finishes(closure, events[k]))
    ensures forall i | 0 <= i < k :: !Finishes(closure, events[i])
  {
    if events == [] || Finishes(closure, events[0]) then 0 else 1 + FinishAt(closure, events[1..])
  }

  lemma AnyErrorCons(events: seq<Event>)
    requires events != []
    ensures AnyError(events) <==> ErrorOf(events[0]) != [] || AnyError(events[1..])
  {
    assert forall i | 0 <= i < |events[1..]| :: events[1..][i] == events[i + 1];
    assert forall i | 0 < i < |events| :: events[i] == events[1..][i - 1];
  }

  /** One event, as the flags see it. */
  lemma StepFlags(c: Call, e: Event)
    requires !c.flags.finished && !c.flags.cancelled
    ensures var f := Step(c, e).flags;
            && Step(c, e).closure == c.closure
            && (f.finished <==> Finishes(c.closure, e)) && (f.cancelled <==> e == Timeout)
            && (f.failed <==> c.flags.failed || e == Timeout || ErrorOf(e) != [])
            && f.code == if e == Timeout then ERROR_RPC_CALL_TIMEOUT
                         else if ErrorOf(e) != [] then ErrorOf(e)[0] else c.flags.code
  {
  }

  lemma FinishAtCons(closure: bool, events: seq<Event>)
    requires events != [] && !Finishes(closure, events[0])
    ensures var k := FinishAt(closure, events[1..]);
            && FinishAt(closure, events) == k + 1
            && (k < |events| - 1 ==> events[k + 1] == events[1..][k] && events[k + 2..] == events[1..][k + 1..])
  {
  }

  /** From any unfinished state. */
  lemma {:induction false} UnfinishedFlags(c: Call, events: seq<Event>)
    requires !c.flags.finished && !c.flags.cancelled
    ensures var f, k := Run(c, events).flags, FinishAt(c.closure, events);
            && (f.finished <==> k < |events|)
            && (f.cancelled <==> k < |events| && events[k] == Timeout)
            && (f.failed <==> c.flags.failed || f.cancelled || AnyError(events))
            && f.code == if f.cancelled then LastError(events[k + 1..], ERROR_RPC_CALL_TIMEOUT)
                         else LastError(events, c.flags.code)
    decreases |events|
  {
    if events != [] {
      AnyErrorCons(events);
      StepFlags(c, events[0]);
      if Finishes(c.closure, events[0]) {
        FinishedFlags(Step(c, events[0]), events[1..]);
      } else {
        UnfinishedFlags(Step(c, events[0]), events[1..]);
        FinishAtCons(c.closure, events);
      }
    }
  }

  /**
   * The flags at the end of any interleaving, with or without a closure: cancelled exactly when
   * a timeout finished the call, and the code of the last error, which an event that comes
   * after the end may still overwrite.
   */
  lemma FlagsOutcome(closure: bool, events: seq<Event>)
    ensures var f, k := Run(Call(FRESH, closure, []), events).flags, FinishAt(closure, events);
            && (f.finished <==> k < |events|)
            && (f.cancelled <==> k < |events| && events[k] == Timeout)
            && (f.failed <==> f.cancelled || AnyError(events))
            && f.code == if f.cancelled then LastError(events[k + 1..], ERROR_RPC_CALL_TIMEOUT)
                         else LastError(events, 0)
  {
    UnfinishedFlags(Call(FRESH, closure, []), events);
  }
}

/** The controller and the channel, specified by the functions above. */
module RpcChannels {
  import opened Bytes
  import S = RpcCallSpec

  class RpcController {
    var m_error_code: int32
    var m_is_failed: bool
    var m_is_cancled: bool
    var m_is_finished: bool

    ghost function State(): S.Flags
      reads this
    {
      S.Flags(m_error_code, m_is_failed, m_is_cancled, m_is_finished)
    }

    constructor ()
      ensures State() == S.FRESH
    {
      m_error_code, m_is_failed, m_is_cancled, m_is_finished := 0, false, false, false;
    }

    method SetError(code: int32)
      modifies this
      ensures State() == S.SetError(old(State()), code)
      ensures m_error_code == code && m_is_failed
      ensures m_is_cancled == old(m_is_cancled) && m_is_finished == old(m_is_finished)
    {
      m_error_code := code;
      m_is_failed := true;
    }

    method SetFinished(value: bool)
      modifies this
      ensures State() == old(State()).(finished := value)
    {
      m_is_finished := value;
    }

    method StartCancel()
      modifies this
      ensures State() == S.StartCancel(old(State()))
      ensures m_is_cancled && m_is_failed && m_is_finished && m_error_code == old(m_error_code)
    {
      m_is_cancled := true;
      m_is_failed := true;
      SetFinished(true);
    }
  }

  class RpcChannel {
    const m_controller: RpcController
    const m_closure: bool      // whether a closure was given
    ghost var runs: seq<int32> // the error code seen by each run of the closure

    ghost function State(): S.Call
      reads this, m_controller
    {
      S.Call(m_controller.State(), m_closure, runs)
    }

    constructor (controller: RpcController, closure: bool)
      ensures m_controller == controller && State() == S.Call(controller.State(), closure, [])
    {
      m_controller, m_closure, runs := controller, closure, [];
    }

    method CallBack()
      modifies this, m_controller
      ensures State() == S.CallBack(old(State()))
    {
      if m_controller.m_is_finished {
        return;
      }
      if m_closure {
        runs := runs + [m_controller.m_error_code];
        m_controller.SetFinished(true);
      }
    }

    method OnTimeout()
      modifies this, m_controller
      ensures State() == S.Step(old(State()), S.Timeout)
    {
      if m_controller.m_is_finished {
        return;
      }
      m_controller.StartCancel();
      m_controller.SetError(S.ERROR_RPC_CALL_TIMEOUT);
      CallBack();
    }

    method OnConnect(code: int32)
      modifies this, m_controller
      ensures State() == S.Step(old(State()), S.Connected(code))
    {
      if code != 0 {
        m_controller.SetError(code);
        CallBack();
      }
    }

    method OnResponse(code: int32, parses: bool)
      modifies this, m_controller
      ensures State() == S.Step(old(State()), S.Response(code, parses))
    {
      if !parses {
        m_controller.SetError(S.ERROR_FAILED_SERIALIZE);
        CallBack();
        return;
      }
      if code != 0 {
        m_controller.SetError(code);
        CallBack();
        return;
      }
      CallBack();
    }
  }
}
