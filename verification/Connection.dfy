/**
 * net/tcp/tcp_connection.cc and `dispatch`: replies travel back over the codec and are
 * matched to callbacks by message id.
 */
module Correlation {
  import opened Bytes
  import opened BufferSpec
  import opened Frames
  import opened Loops
  import opened Decoder
  import opened Streams
  import opened Reassembly
  import Text

  // ---- Client side: the table of pending callbacks ----

  /** A callback, known by its identity. */
  type Callback = nat

  type Dones = map<bytes, Callback>

  datatype Call = Call(cb: Callback, reply: Msg)

  /** The table after `excute` has gone through `msgs`. */
  function Left(d: Dones, msgs: seq<Msg>): Dones
    decreases |msgs|
  {
    if msgs == [] then d else Left(d - {msgs[0].id}, msgs[1..])
  }

  /** The callbacks `excute` invokes, in order. */
  function Calls(d: Dones, msgs: seq<Msg>): seq<Call>
    decreases |msgs|
  {
    if msgs == [] then []
    else
      (if msgs[0].id in d then [Call(d[msgs[0].id], msgs[0])] else [])
      + Calls(d - {msgs[0].id}, msgs[1..])
  }

  ghost function Ids(msgs: seq<Msg>): set<bytes> { set i | 0 <= i < |msgs| :: msgs[i].id }

  lemma {:induction false} CallsConcat(d: Dones, a: seq<Msg>, b: seq<Msg>)
    ensures Calls(d, a + b) == Calls(d, a) + Calls(Left(d, a), b)
    ensures Left(d, a + b) == Left(Left(d, a), b)
    decreases |a|
  {
    if a == [] {
      assert a + b == b;
    } else {
      assert (a + b)[0] == a[0] && (a + b)[1..] == a[1..] + b;
      CallsConcat(d - {a[0].id}, a[1..], b);
    }
  }

  /** Whatever arrives, exactly the ids that arrived leave the table. */
  lemma {:induction false} LeftRemovesIds(d: Dones, msgs: seq<Msg>)
    ensures Left(d, msgs) == d - Ids(msgs)
    decreases |msgs|
  {
    if msgs == [] {
      assert Ids(msgs) == {};
    } else {
      LeftRemovesIds(d - {msgs[0].id}, msgs[1..]);
      assert Ids(msgs) == {msgs[0].id} + Ids(msgs[1..]) by {
        forall i | 0 < i < |msgs| ensures msgs[i].id in Ids(msgs[1..]) {
          assert msgs[i] == msgs[1..][i - 1];
        }
      }
      assert d - {msgs[0].id} - Ids(msgs[1..]) == d - Ids(msgs);
    }
  }

  /** The messages that reach a callback: the first to bear each pending id. */
  ghost predicate Hits(d: Dones, msgs: seq<Msg>, i: nat)
    requires i < |msgs|
  {
    msgs[i].id in d && msgs[i].id !in Ids(msgs[..i])
  }

  /** For arbitrary messages: a callback runs only for its own id, at most once, and whenever hit. */
  lemma {:induction false} CallsMatchIds(d: Dones, msgs: seq<Msg>)
    ensures forall c | c in Calls(d, msgs) :: c.reply.id in d && d[c.reply.id] == c.cb && c.reply in msgs
    ensures forall i, j | 0 <= i < j < |Calls(d, msgs)| ::
              Calls(d, msgs)[i].reply.id != Calls(d, msgs)[j].reply.id
    ensures forall i | 0 <= i < |msgs| && Hits(d, msgs, i) :: Call(d[msgs[i].id], msgs[i]) in Calls(d, msgs)
    decreases |msgs|
  {
    if msgs != [] {
      var rest, d1 := msgs[1..], d - {msgs[0].id};
      CallsMatchIds(d1, rest);
      forall i | 0 <= i < |msgs| && Hits(d, msgs, i) ensures Call(d[msgs[i].id], msgs[i]) in Calls(d, msgs) {
        if i > 0 {
          HitsRest(d, msgs, i);
          assert rest[i - 1] == msgs[i];
        }
      }
    }
  }

  lemma HitsRest(d: Dones, msgs: seq<Msg>, i: nat)
    requires 0 < i < |msgs| && Hits(d, msgs, i)
    ensures Hits(d - {msgs[0].id}, msgs[1..], i - 1)
  {
    assert msgs[..i][0].id in Ids(msgs[..i]);
    forall j | 1 <= j < i ensures msgs[j].id != msgs[i].id {
      assert msgs[..i][j].id in Ids(msgs[..i]);
    }
  }

  ghost predicate DistinctIds(msgs: seq<Msg>) {
    forall i, j | 0 <= i < j < |msgs| :: msgs[i].id != msgs[j].id
  }

  ghost predicate AllPending(d: Dones, msgs: seq<Msg>) { forall i | 0 <= i < |msgs| :: msgs[i].id in d }

  ghost function EachOnce(d: Dones, msgs: seq<Msg>): seq<Call>
    requires AllPending(d, msgs)
  {
    seq(|msgs|, i requires 0 <= i < |msgs| => Call(d[msgs[i].id], msgs[i]))
  }

  /** Replies with distinct pending ids, in any order, run each callback once with its own reply. */
  lemma {:induction false} CallsEachOnce(d: Dones, msgs: seq<Msg>)
    requires DistinctIds(msgs) && AllPending(d, msgs)
    ensures Calls(d, msgs) == EachOnce(d, msgs)
    decreases |msgs|
  {
    if msgs != [] {
      var rest, d1 := msgs[1..], d - {msgs[0].id};
      assert forall i | 0 <= i < |rest| :: rest[i] == msgs[i + 1] && rest[i].id != msgs[0].id;
      CallsEachOnce(d1, rest);
      assert EachOnce(d, msgs) == [Call(d[msgs[0].id], msgs[0])] + EachOnce(d1, rest);
    }
  }

  // ---- Receiving chunks and running callbacks ----

  /** Chunk by chunk: append, decode, run the callbacks of what was decoded. */
  ghost predicate Serves(b: Buf, d: Dones, chunks: seq<bytes>, calls: seq<Call>, d': Dones)
    requires b.Valid()
    decreases |chunks|
  {
    if chunks == [] then calls == [] && d' == d
    else exists k: nat, n: nat | n <= |calls| ::
           var r := Decode(Write(b, chunks[0]), k);
           && r.status == Returned && r.state.buf.Valid() && calls[..n] == Calls(d, r.state.out)
           && Serves(r.state.buf, Left(d, r.state.out), chunks[1..], calls[n..], d')
  }

  lemma ServesCons(b: Buf, d: Dones, chunks: seq<bytes>, k: nat, out: seq<Msg>, rest: seq<Call>, d': Dones)
    requires b.Valid() && chunks != []
    requires var r := Decode(Write(b, chunks[0]), k);
             && r.status == Returned && r.state.buf.Valid() && r.state.out == out
             && Serves(r.state.buf, Left(d, out), chunks[1..], rest, d')
    ensures Serves(b, d, chunks, Calls(d, out) + rest, d')
  {
    var calls, n := Calls(d, out) + rest, |Calls(d, out)|;
    assert calls[..n] == Calls(d, out) && calls[n..] == rest;
  }

  lemma {:induction false} FeedsServes(b: Buf, d: Dones, chunks: seq<bytes>, out: seq<Msg>, b': Buf)
    requires b.Valid() && Feeds(b, chunks, out, b')
    ensures Serves(b, d, chunks, Calls(d, out), Left(d, out))
    decreases |chunks|
  {
    if chunks != [] {
      var k, n := FeedsHead(b, chunks, out, b');
      var first, rest := out[..n], out[n..];
      assert out == first + rest;
      CallsConcat(d, first, rest);
      FeedsServes(Decode(Write(b, chunks[0]), k).state.buf, Left(d, first), chunks[1..], rest, b');
      ServesCons(b, d, chunks, k, first, Calls(Left(d, first), rest), Left(d, out));
    }
  }

  // ---- Server side: dispatching requests and building replies ----

  const ERROR_FAILED_DESERIALIZE: int32 := 10000003
  const ERROR_FAILED_SERIALIZE: int32 := 10000004
  const ERROR_SERVICE_NOT_FOUND: int32 := 10000008
  const ERROR_PARSE_SERVICE_NAME: int32 := 10000010

  const DOT: byte := 46

  function Ascii(s: string): (b: bytes)
    ensures |b| == |s|
  {
    seq(|s|, i requires 0 <= i < |s| => s[i] as int % 256)
  }

  /** What `dispatch` does with a request: run a handler, or stop without replying. */
  datatype Routing = Handle(service: bytes, name: bytes) | Stopped(code: int32)

  /** Registered services by full name, each with its method names. */
  function Route(services: map<bytes, set<bytes>>, full: bytes, parses: bool): Routing {
    if full == [] || DOT !in full then Stopped(ERROR_PARSE_SERVICE_NAME)
    else
      var service, name := Text.Before(full, DOT), Text.Behind(full, DOT);
      if service !in services then Stopped(ERROR_SERVICE_NOT_FOUND)
      else if name !in services[service] then Stopped(ERROR_SERVICE_NOT_FOUND)
      else if !parses then Stopped(ERROR_FAILED_DESERIALIZE)
      else Handle(service, name)
  }

  /** Every request: exactly which are handled, and with which error the others stop. */
  lemma RouteIff(services: map<bytes, set<bytes>>, full: bytes, parses: bool)
    ensures forall s: bytes, n: bytes ::
              Route(services, full, parses) == Handle(s, n)
              <==> parses && DOT !in s && full == FullName(s, n) && s in services && n in services[s]
    ensures Route(services, full, parses) == Stopped(ERROR_PARSE_SERVICE_NAME) <==> DOT !in full
    ensures Route(services, full, parses) == Stopped(ERROR_SERVICE_NOT_FOUND)
            <==> DOT in full && forall s: bytes, n: bytes | DOT !in s && full == FullName(s, n) ::
                   s !in services || n !in services[s]
  {
    if DOT in full {
      var i := Text.IndexOf(full, DOT);
      assert full[..|full|] == full;
      assert i < |full|;
      assert full == FullName(Text.Before(full, DOT), Text.Behind(full, DOT));
    }
    forall s: bytes, n: bytes | DOT !in s && full == FullName(s, n)
      ensures DOT in full && Text.Before(full, DOT) == s && Text.Behind(full, DOT) == n
    {
      Text.SplitJoin(s, DOT, n);
      assert full[|s|] == DOT;
    }
  }

  /** The name under which `registerService` announces a method. */
  function FullName(service: bytes, name: bytes): bytes { service + [DOT] + name }

  /**
   * A registered method's announced name is routed back to that service and method exactly
   * when the service's own name has no dot.
   */
  lemma RoutingIff(services: map<bytes, set<bytes>>, service: bytes, name: bytes)
    requires service in services && name in services[service]
    ensures Route(services, FullName(service, name), true) == Handle(service, name) <==> DOT !in service
  {
    var full := FullName(service, name);
    assert full[|service|] == DOT;
    Text.SplitJoin(service, DOT, name);
  }

  /** The second service's name extends the first's by the dotted beginning of the first's method. */
  ghost predicate Nested(s1: bytes, n1: bytes, s2: bytes, n2: bytes) {
    exists mid: bytes :: s2 == FullName(s1, mid) && n1 == FullName(mid, n2)
  }

  /**
   * Two service and method pairs share an announced name exactly when they are the same or
   * nested, which takes a dot in a service name and one in a method name.
   */
  lemma FullNameInjective(s1: bytes, n1: bytes, s2: bytes, n2: bytes)
    ensures FullName(s1, n1) == FullName(s2, n2)
            <==> (s1 == s2 && n1 == n2) || Nested(s1, n1, s2, n2) || Nested(s2, n2, s1, n1)
    ensures Nested(s1, n1, s2, n2) ==> DOT in s2 && DOT in n1
  {
    if FullName(s1, n1) == FullName(s2, n2) {
      if |s1| <= |s2| {
        SharedNameNests(s1, n1, s2, n2);
      } else {
        SharedNameNests(s2, n2, s1, n1);
      }
    }
    if Nested(s1, n1, s2, n2) {
      NestedShare(s1, n1, s2, n2);
    }
    if Nested(s2, n2, s1, n1) {
      NestedShare(s2, n2, s1, n1);
    }
  }

  lemma SharedNameNests(s1: bytes, n1: bytes, s2: bytes, n2: bytes)
    requires FullName(s1, n1) == FullName(s2, n2) && |s1| <= |s2|
    ensures (s1 == s2 && n1 == n2) || Nested(s1, n1, s2, n2)
  {
    var full := FullName(s1, n1);
    assert s1 == full[..|s1|] == s2[..|s1|] && n1 == full[|s1| + 1..];
    assert s2 == full[..|s2|] && n2 == full[|s2| + 1..] && full[|s1|] == full[|s2|] == DOT;
    if |s1| < |s2| {
      var mid := full[|s1| + 1..|s2|];
      assert s2 == FullName(s1, mid) && n1 == FullName(mid, n2);
    }
  }

  lemma NestedShare(s1: bytes, n1: bytes, s2: bytes, n2: bytes)
    requires Nested(s1, n1, s2, n2)
    ensures FullName(s1, n1) == FullName(s2, n2) && DOT in s2 && DOT in n1
  {
    var mid :| s2 == FullName(s1, mid) && n1 == FullName(mid, n2);
    assert s2[|s1|] == DOT && n1[|mid|] == DOT;
    assert s1 + [DOT] + (mid + [DOT] + n2) == s1 + [DOT] + mid + [DOT] + n2;
  }

  /** The response object's serialisation when the handler's closure runs. */
  datatype Serialised = Bytes(payload: bytes) | SerialiseFails

  /** The reply sent by the closure that `dispatch` hands to the handler. */
  function Reply(req: Msg, s: Serialised): Msg {
    match s
    case Bytes(p) => Msg(req.id, req.name, 0, [], p)
    case SerialiseFails => Msg(req.id, req.name, ERROR_FAILED_SERIALIZE, Ascii("serilize error"), [])
  }

  /** A server: its services, and whether a request's payload parses for the method it names. */
  datatype Server = Server(services: map<bytes, set<bytes>>, parses: (bytes, bytes) -> bool) {
    function Dispatch(req: Msg): Routing { Route(services, req.name, parses(req.name, req.payload)) }
  }

  /** Handlers of different requests may run their closures in any order. */
  datatype Completion = Completion(request: nat, result: Serialised)

  /** Only a request that is routed to a handler gets a closure, and each closure runs at most once. */
  ghost predicate Completions(srv: Server, reqs: seq<Msg>, cs: seq<Completion>) {
    && (forall i | 0 <= i < |cs| :: cs[i].request < |reqs| && srv.Dispatch(reqs[cs[i].request]).Handle?)
    && (forall i, j | 0 <= i < j < |cs| :: cs[i].request != cs[j].request)
  }

  ghost function Replies(reqs: seq<Msg>, cs: seq<Completion>): (rs: seq<Msg>)
    requires forall i | 0 <= i < |cs| :: cs[i].request < |reqs|
    ensures |rs| == |cs|
  {
    seq(|cs|, i requires 0 <= i < |cs| => Reply(reqs[cs[i].request], cs[i].result))
  }

  /** The reply to a request that was decoded is itself decodable, and bears the request's id. */
  lemma RepliesAreGood(srv: Server, sent: seq<Msg>, cs: seq<Completion>)
    requires AllGood(sent) && Completions(srv, WithIds(sent), cs) && AllEncodable(Replies(WithIds(sent), cs))
    ensures var rs := Replies(WithIds(sent), cs);
            && AllGood(rs) && WithIds(rs) == rs
            && forall i | 0 <= i < |cs| :: rs[i].id == WithIds(sent)[cs[i].request].id
  {
    var rs := Replies(WithIds(sent), cs);
    forall i | 0 <= i < |rs| ensures Good(rs[i]) && WithId(rs[i]) == rs[i] {
      assert Encodable(rs[i]) && Good(sent[cs[i].request]);
    }
  }

  /**
   * What the requester is told: the reply bears the request's id and method name, and carries
   * the serialised response, or the serialise error with its text.
   */
  ghost predicate AnswersRequest(reply: Msg, req: Msg, result: Serialised) {
    && reply.id == req.id && reply.name == req.name
    && match result
       case Bytes(p) => reply.payload == p && reply.code == 0 && reply.info == []
       case SerialiseFails =>
         && reply.payload == [] && reply.code == 10000004 && |reply.info| == |"serilize error"|
         && forall i | 0 <= i < |reply.info| :: reply.info[i] == "serilize error"[i] as int
  }

  lemma RepliesDistinct(srv: Server, reqs: seq<Msg>, cs: seq<Completion>, d: Dones)
    requires Completions(srv, reqs, cs) && DistinctIds(reqs) && AllPending(d, reqs)
    ensures DistinctIds(Replies(reqs, cs)) && AllPending(d, Replies(reqs, cs))
  {
    var rs := Replies(reqs, cs);
    forall i, j | 0 <= i < j < |rs| ensures rs[i].id != rs[j].id {
      assert cs[i].request != cs[j].request;
    }
  }

  /** One direction of a connection: an out buffer, an in buffer and the chunks between them. */
  datatype Leg = Leg(out: Buf, into: Buf, chunks: seq<bytes>)

  /** `ms` is encoded into the empty out buffer, and its bytes arrive in clean chunks. */
  ghost predicate Conveys(l: Leg, ms: seq<Msg>)
    requires AllEncodable(ms)
  {
    && l.out.Valid() && l.out.Content() == [] && l.into.Valid() && l.into.Content() == []
    && Concat(l.chunks) == EncodeAll(l.out, ms).Content() && CleanRun(l.into, ms, l.chunks)
  }

  /** Sending everything at once is one way to convey it. */
  lemma OneChunkConveys(out: Buf, into: Buf, ms: seq<Msg>)
    requires AllGood(ms) && out.Valid() && out.Content() == [] && into.Valid() && into.Content() == []
    requires Write(into, Stream(ms)).WriteAble() > 0
    ensures Conveys(Leg(out, into, [Stream(ms)]), ms)
  {
    EncodeAllContent(out, ms);
    assert [] + Stream(ms) == Stream(ms) == Stream(ms) + [];
    OneChunkIsClean(into, ms, Stream(ms));
  }

  /** Exactly the messages sent come out at the other end. */
  lemma LegDelivers(l: Leg, ms: seq<Msg>) returns (b': Buf)
    requires AllGood(ms) && Conveys(l, ms)
    ensures Feeds(l.into, l.chunks, WithIds(ms), b')
    ensures forall got, b2 :: Feeds(l.into, l.chunks, got, b2) ==> got == WithIds(ms)
  {
    EncodeAllContent(l.out, ms);
    assert [] + Stream(ms) == Stream(ms) && l.into.Content() + Concat(l.chunks) == Concat(l.chunks);
    b' := CleanRunFeeds(l.into, ms, l.chunks);
    forall got, b2 | Feeds(l.into, l.chunks, got, b2) ensures got == WithIds(ms) {
      FeedsOnce(l.into, l.chunks, got, b2, WithIds(ms), b');
    }
  }

  /** The client's side: replies with distinct pending ids run each callback once. */
  lemma RepliesServe(l: Leg, rs: seq<Msg>, d: Dones)
    requires AllGood(rs) && WithIds(rs) == rs && Conveys(l, rs) && DistinctIds(rs) && AllPending(d, rs)
    ensures Serves(l.into, d, l.chunks, EachOnce(d, rs), d - Ids(rs))
  {
    var b' := LegDelivers(l, rs);
    FeedsServes(l.into, d, l.chunks, rs, b');
    CallsEachOnce(d, rs);
    LeftRemovesIds(d, rs);
  }

  /** The way back: each completion's callback gets the reply to its request. */
  lemma CompletionsServe(l: Leg, reqs: seq<Msg>, cs: seq<Completion>, d: Dones) returns (calls: seq<Call>, d': Dones)
    requires forall i | 0 <= i < |cs| :: cs[i].request < |reqs|
    requires var rs := Replies(reqs, cs);
             AllGood(rs) && WithIds(rs) == rs && Conveys(l, rs) && DistinctIds(rs) && AllPending(d, rs)
    ensures Serves(l.into, d, l.chunks, calls, d') && |calls| == |cs|
    ensures forall i | 0 <= i < |cs| ::
              var req := reqs[cs[i].request];
              req.id in d && calls[i].cb == d[req.id] && AnswersRequest(calls[i].reply, req, cs[i].result)
    ensures forall x :: x in d' <==> x in d && forall i | 0 <= i < |cs| :: reqs[cs[i].request].id != x
    ensures forall x | x in d' :: d'[x] == d[x]
  {
    var rs := Replies(reqs, cs);
    RepliesServe(l, rs, d);
    calls, d' := EachOnce(d, rs), d - Ids(rs);
    ReplyCarries(reqs, cs);
    IdsOf(rs);
  }

  /**
   * Reply correlation, there and back: the requests `sent` travel to the server, which decodes
   * `reqs`; handlers of routed requests run their closures in any order; the replies travel
   * back. The server decodes exactly the requests, each pending callback runs exactly once,
   * with the reply to its own request, and exactly those ids leave the table.
   */
  lemma ReplyCorrelation(up: Leg, down: Leg, srv: Server, sent: seq<Msg>, reqs: seq<Msg>, left: Buf,
                         cs: seq<Completion>, d: Dones)
    returns (calls: seq<Call>, d': Dones)
    requires AllGood(sent) && DistinctIds(WithIds(sent)) && AllPending(d, WithIds(sent))
    requires Conveys(up, sent) && Feeds(up.into, up.chunks, reqs, left)
    requires Completions(srv, reqs, cs) && AllEncodable(Replies(reqs, cs)) && Conveys(down, Replies(reqs, cs))
    ensures reqs == WithIds(sent) && Serves(down.into, d, down.chunks, calls, d')
    ensures |calls| == |cs|
    ensures forall i | 0 <= i < |cs| ::
              var req := WithIds(sent)[cs[i].request];
              req.id in d && calls[i].cb == d[req.id] && AnswersRequest(calls[i].reply, req, cs[i].result)
    ensures forall x :: x in d' <==> x in d && forall i | 0 <= i < |cs| :: WithIds(sent)[cs[i].request].id != x
    ensures forall x | x in d' :: d'[x] == d[x]
  {
    var b' := LegDelivers(up, sent);
    assert reqs == WithIds(sent);
    RepliesAreGood(srv, sent, cs);
    RepliesDistinct(srv, reqs, cs, d);
    calls, d' := CompletionsServe(down, reqs, cs, d);
  }

  lemma ReplyCarries(reqs: seq<Msg>, cs: seq<Completion>)
    requires forall i | 0 <= i < |cs| :: cs[i].request < |reqs|
    ensures forall i | 0 <= i < |cs| :: AnswersRequest(Replies(reqs, cs)[i], reqs[cs[i].request], cs[i].result)
  {
  }

  lemma IdsOf(rs: seq<Msg>)
    ensures forall x :: x in Ids(rs) <==> exists i :: 0 <= i < |rs| && rs[i].id == x
  {
  }
}

/** The connection object: two buffers and the table of pending callbacks. */
module TcpConnections {
  import opened Bytes
  import opened Frames
  import opened Decoder
  import opened Loops
  import opened Streams
  import opened TcpBuffers
  import opened Correlation
  import Coder = TinyPBCoder

  class TcpConnection {
    const m_in_buffer: TcpBuffer
    const m_out_buffer: TcpBuffer
    var m_read_dones: Dones
    ghost var invoked: seq<Call>  // callbacks run so far

    ghost predicate Valid()
      reads this, m_in_buffer, m_out_buffer
    {
      && m_in_buffer.Valid() && m_out_buffer.Valid()
      && m_in_buffer != m_out_buffer && m_in_buffer.m_buffer != m_out_buffer.m_buffer
    }

    constructor (size: nat)
      ensures Valid() && m_read_dones == map[] && invoked == []
      ensures fresh(m_in_buffer) && fresh(m_out_buffer)
    {
      m_in_buffer := new TcpBuffer(size);
      m_out_buffer := new TcpBuffer(size);
      m_read_dones, invoked := map[], [];
    }

    /** `std::map::insert`: an id that is already pending keeps its callback. */
    method PushReadMessage(id: bytes, done: Callback)
      modifies `m_read_dones
      ensures m_read_dones.Keys == old(m_read_dones).Keys + {id}
      ensures forall x | x in old(m_read_dones) :: m_read_dones[x] == old(m_read_dones)[x]
      ensures id !in old(m_read_dones) ==> m_read_dones[id] == done
    {
      if id !in m_read_dones {
        m_read_dones := m_read_dones[id := done];
      }
    }

    /**
     * `excute` on a client connection: decode, then run and erase the callback of each id.
     * It takes any in-buffer for which decoding ends, within `k` passes.
     */
    method Excute(ghost k: nat) returns (status: Status)
      requires Valid() && Decode(m_in_buffer.State(), k).status != Running
      modifies this, m_in_buffer
      ensures Valid() && m_out_buffer.State() == old(m_out_buffer.State())
      ensures var r := Decode(old(m_in_buffer.State()), k);
              && status == r.status && m_in_buffer.State() == r.state.buf
              && var msgs := if status == Returned then r.state.out else [];
                 && invoked == old(invoked) + Calls(old(m_read_dones), msgs)
                 && m_read_dones == old(m_read_dones) - Ids(msgs)
    {
      var result;
      status, result := Coder.Decode(m_in_buffer, k);
      result := if status == Returned then result else [];
      RunCallbacks(result);
      LeftRemovesIds(old(m_read_dones), result);
    }

    method RunCallbacks(result: seq<Msg>)
      modifies this
      ensures invoked == old(invoked) + Calls(old(m_read_dones), result)
      ensures m_read_dones == Left(old(m_read_dones), result)
    {
      assert old(m_read_dones) == m_read_dones;
      for i := 0 to |result|
        invariant invoked + Calls(m_read_dones, result[i..]) == old(invoked) + Calls(old(m_read_dones), result)
        invariant Left(m_read_dones, result[i..]) == Left(old(m_read_dones), result)
      {
        var id := result[i].id;
        assert result[i..][1..] == result[i + 1..];
        if id in m_read_dones {
          invoked := invoked + [Call(m_read_dones[id], result[i])];
          m_read_dones := m_read_dones - {id};
        } else {
          assert m_read_dones - {id} == m_read_dones;
        }
      }
    }

    /** `reply`: encode into the out buffer. */
    method Reply(messages: seq<Msg>)
      requires Valid() && AllEncodable(messages)
      modifies m_out_buffer, m_out_buffer.m_buffer
      ensures Valid() && m_in_buffer.State() == old(m_in_buffer.State())
      ensures m_out_buffer.State() == EncodeAll(old(m_out_buffer.State()), messages)
    {
      var _ := Coder.Encode(messages, m_out_buffer);
    }
  }
}
