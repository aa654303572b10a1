/** net/coder/tinypb_coder.cc: the coder's methods over the mutable buffer. */
module TinyPBCoder {
  import opened Bytes
  import opened Frames
  import opened Decoder
  import opened Loops
  import opened Streams
  import opened TcpBuffers
  import B = BufferSpec

  /** Copy one field at the cursor; what lies before it stays, what lies behind is untouched. */
  method Put(buf: array<byte>, cursor: nat, field: bytes, ghost done: bytes) returns (next: nat)
    requires cursor + |field| <= buf.Length && buf[..cursor] == done
    modifies buf
    ensures next == cursor + |field| && buf[..next] == done + field
    ensures buf[next..] == old(buf[next..])
  {
    ghost var _ := MemCpy(buf, cursor, field);
    next := cursor + |field|;
    ghost var was := old(buf[..]);
    assert buf[..] == was[..cursor] + field + was[next..];
    assert buf[..next] == (was[..cursor] + field + was[next..])[..next];
    assert buf[next..] == (was[..cursor] + field + was[next..])[next..];
    assert was[..cursor] == done;
  }

  /** `encodeTinyPB`: the id is filled in and the fields are written through a moving cursor. */
  method EncodeTinyPB(m: Msg) returns (buf: array<byte>, sent: Msg)
    requires Encodable(m)
    ensures fresh(buf) && buf[..] == Frame(m) && sent == WithId(m)
  {
    sent := m;
    if sent.id == [] {
      sent := sent.(id := DEFAULT_ID);
    }
    var pkLen := 2 + 24 + |sent.id| + |sent.name| + |sent.info| + |sent.payload|;
    buf := new byte[pkLen];
    var tmp := PutFront(buf, sent, pkLen);
    PutBack(buf, tmp, sent);
    FrontOfRaw(sent, Front(sent, pkLen));
    BackOfRaw(sent, Front(sent, pkLen), buf[..]);
  }

  ghost function Front(m: Msg, pkLen: int32): bytes
    requires |m.id| <= INT32_MAX && |m.name| <= INT32_MAX
  {
    [] + [PB_START] + Word(pkLen) + Word(|m.id|) + m.id + Word(|m.name|) + m.name
  }

  /** Everything up to the error code. */
  method PutFront(buf: array<byte>, m: Msg, pkLen: int32) returns (tmp: nat)
    requires RawLen(m) == pkLen == buf.Length
    modifies buf
    ensures tmp == CodeAt(m) && buf[..tmp] == Front(m, pkLen)
  {
    tmp := Put(buf, 0, [PB_START], []);
    tmp := Put(buf, tmp, Word(pkLen), buf[..tmp]);
    tmp := Put(buf, tmp, Word(|m.id|), buf[..tmp]);
    tmp := Put(buf, tmp, m.id, buf[..tmp]);
    tmp := Put(buf, tmp, Word(|m.name|), buf[..tmp]);
    tmp := Put(buf, tmp, m.name, buf[..tmp]);
  }

  /** The error code and everything behind it. */
  method PutBack(buf: array<byte>, cursor: nat, m: Msg)
    requires RawLen(m) == buf.Length <= INT32_MAX && cursor == CodeAt(m)
    modifies buf
    ensures buf[..] == old(buf[..cursor]) + Word(m.code) + Word(|m.info|) + m.info + m.payload + Word(1) + [PB_END]
  {
    var tmp := Put(buf, cursor, Word(m.code), buf[..cursor]);
    tmp := Put(buf, tmp, Word(|m.info|), buf[..tmp]);
    tmp := Put(buf, tmp, m.info, buf[..tmp]);
    tmp := Put(buf, tmp, m.payload, buf[..tmp]);
    tmp := Put(buf, tmp, Word(1), buf[..tmp]);
    tmp := Put(buf, tmp, [PB_END], buf[..tmp]);
    assert buf[..] == buf[..tmp];
  }

  lemma FrontOfRaw(m: Msg, front: bytes)
    requires RawLen(m) <= INT32_MAX
    requires front == [] + [PB_START] + Word(RawLen(m)) + Word(|m.id|) + m.id + Word(|m.name|) + m.name
    ensures Raw(m) == front + CodePart(m)
  {
    var a, b, c, d, e, f := [PB_START], Word(RawLen(m)), Word(|m.id|), m.id, Word(|m.name|), m.name;
    Nest6(a, b, c, d, e, f, CodePart(m));
    assert [] + a == a;
  }

  lemma BackOfRaw(m: Msg, front: bytes, all: bytes)
    requires RawLen(m) <= INT32_MAX && Raw(m) == front + CodePart(m)
    requires all == front + Word(m.code) + Word(|m.info|) + m.info + m.payload + Word(1) + [PB_END]
    ensures all == Raw(m)
  {
    Nest6(front, Word(m.code), Word(|m.info|), m.info, m.payload, Word(1), [PB_END]);
  }

  lemma Nest6(a: bytes, b: bytes, c: bytes, d: bytes, e: bytes, f: bytes, g: bytes)
    ensures a + b + c + d + e + f + g == a + (b + (c + (d + (e + (f + g)))))
  {
    Assoc(a + b + c + d + e, f, g);
    Assoc(a + b + c + d, e, f + g);
    Assoc(a + b + c, d, e + (f + g));
    Assoc(a + b, c, d + (e + (f + g)));
    Assoc(a, b, c + (d + (e + (f + g))));
  }

  /** One turn of the loop of `encode`. */
  method EncodeOne(m: Msg, out: TcpBuffer) returns (sent: Msg)
    requires out.Valid() && Encodable(m)
    modifies out, out.m_buffer
    ensures out.Valid() && (out.m_buffer == old(out.m_buffer) || fresh(out.m_buffer))
    ensures out.State() == B.Write(old(out.State()), Frame(m)) && sent == WithId(m)
  {
    var buf;
    buf, sent := EncodeTinyPB(m);
    out.WriteToBuffer(buf[..]);
  }

  lemma WithIdsSnoc(ms: seq<Msg>, i: nat)
    requires i < |ms|
    ensures WithIds(ms[..i + 1]) == WithIds(ms[..i]) + [WithId(ms[i])]
  {
  }

  /** `encode`: append the frames of all messages, one write each, and fill in missing ids. */
  method Encode(messages: seq<Msg>, out: TcpBuffer) returns (messages': seq<Msg>)
    requires out.Valid() && AllEncodable(messages)
    modifies out, out.m_buffer
    ensures out.Valid() && (out.m_buffer == old(out.m_buffer) || fresh(out.m_buffer))
    ensures out.State() == EncodeAll(old(out.State()), messages) && messages' == WithIds(messages)
  {
    messages' := [];
    for i := 0 to |messages|
      invariant out.Valid() && (out.m_buffer == old(out.m_buffer) || fresh(out.m_buffer))
      invariant out.State() == EncodeAll(old(out.State()), messages[..i])
      invariant messages' == WithIds(messages[..i])
    {
      EncodeAllSnoc(old(out.State()), messages, i);
      WithIdsSnoc(messages, i);
      var sent := EncodeOne(messages[i], out);
      messages' := messages' + [sent];
    }
    assert messages[..|messages|] == messages;
  }

  /** The inner loop of `decode`; reads outside the vector are an outcome of their own. */
  method FindFrame(tmp: bytes, read: nat, write: nat) returns (r: Scan)
    requires read <= write <= |tmp|
    ensures r == ScanFrom(tmp, read, write)
  {
    var i := read;
    while i < write
      invariant read <= i <= write
      invariant ScanFrom(tmp, i, write) == ScanFrom(tmp, read, write)
    {
      if tmp[i] == PB_START && i + 1 < write {
        if i + 5 > |tmp| {
          return OutOfBounds;
        }
        var pkLen := FromNet(tmp[i + 1..i + 5]);
        var j := i + pkLen - 1;
        if j < 0 || (j >= write && i + pkLen > INT32_MAX) {
          return OutOfBounds;
        }
        if j < write && tmp[j] == PB_END {
          return Found(i, j, pkLen);
        }
      }
      i := i + 1;
    }
    return NotFound;
  }

  /** Scan and parse: what a pass over this vector is about to do. */
  method NextFrame(tmp: bytes, read: nat, write: nat) returns (p: Pass)
    requires read <= write <= |tmp|
    ensures p == DecodePass(B.Buf(tmp, read, write))
  {
    var found := FindFrame(tmp, read, write);
    if found.NotFound? {
      return Stop;
    }
    if found.OutOfBounds? {
      return Crash;
    }
    var l := Parse(tmp, found.start, found.end, found.pkLen);
    return if l.Rejected? then Discard(found.end - found.start + 1)
           else if l.Fault? then Crash
           else Push(found.start, l, found.end - found.start + 1);
  }

  /** One pass of the outer loop of `decode`, on any buffer. */
  method DecodeOne(buffer: TcpBuffer, out: seq<Msg>) returns (status: Status, out': seq<Msg>)
    requires buffer.Valid()
    modifies buffer
    ensures buffer.Valid() && (buffer.m_buffer == old(buffer.m_buffer) || fresh(buffer.m_buffer))
    ensures Passed(DecodeBody, Decoding(old(buffer.State()), out), status, Decoding(buffer.State(), out'))
  {
    var tmp := buffer.m_buffer[..];
    var p := NextFrame(tmp, buffer.m_read_index, buffer.m_write_index);
    status, out' := Running, out;
    if p == Stop || p == Crash {
      status := if p == Stop then Returned else Failed;
    } else {
      buffer.MoveReadIndex(p.n);
      if p.Push? {
        out' := out' + [Message(tmp, p.start, p.l)];
      }
    }
  }

  /** The loop that started as `d`, and ends within `k` passes, is in state `now` after `n`. */
  ghost predicate Underway(d: Decoding, k: nat, n: nat, status: Status, now: Decoding) {
    Iterate(DecodeBody, d, k).status != Running && Reaches(DecodeBody, d, n, status, now)
  }

  /** Pass `n + 1` of the loop. */
  method DecodeStep(buffer: TcpBuffer, out: seq<Msg>, ghost d: Decoding, ghost k: nat, ghost n: nat)
    returns (status: Status, out': seq<Msg>)
    requires buffer.Valid() && Underway(d, k, n, Running, Decoding(buffer.State(), out))
    modifies buffer
    ensures buffer.Valid() && (buffer.m_buffer == old(buffer.m_buffer) || fresh(buffer.m_buffer))
    ensures n < k && Underway(d, k, n + 1, status, Decoding(buffer.State(), out'))
  {
    ghost var mid := Decoding(buffer.State(), out);
    RunningBefore(DecodeBody, d, k, n, mid);
    status, out' := DecodeOne(buffer, out);
    ReachesNext(DecodeBody, d, n, mid, status, Decoding(buffer.State(), out'));
  }

  method DecodeLoop(buffer: TcpBuffer, ghost d: Decoding, ghost k: nat)
    returns (status: Status, out: seq<Msg>, ghost n: nat)
    requires buffer.Valid() && Underway(d, k, 0, Running, Decoding(buffer.State(), []))
    modifies buffer
    ensures buffer.Valid() && (buffer.m_buffer == old(buffer.m_buffer) || fresh(buffer.m_buffer))
    ensures status != Running && Underway(d, k, n, status, Decoding(buffer.State(), out))
  {
    status, out, n := Running, [], 0;
    while status == Running
      invariant buffer.Valid() && (buffer.m_buffer == old(buffer.m_buffer) || fresh(buffer.m_buffer))
      invariant Underway(d, k, n, status, Decoding(buffer.State(), out))
      decreases k - n
    {
      status, out := DecodeStep(buffer, out, d, k, n);
      n := n + 1;
    }
  }

  /**
   * `decode` on any buffer for which its loop ends at all, within `k` passes: the messages in
   * order and the buffer left behind, or the undefined behaviour the loop ran into.
   */
  method Decode(buffer: TcpBuffer, ghost k: nat) returns (status: Status, out: seq<Msg>)
    requires buffer.Valid() && Decoder.Decode(buffer.State(), k).status != Running
    modifies buffer
    ensures buffer.Valid() && (buffer.m_buffer == old(buffer.m_buffer) || fresh(buffer.m_buffer))
    ensures Run(status, Decoding(buffer.State(), out)) == Decoder.Decode(old(buffer.State()), k)
  {
    ghost var d, n := Decoding(buffer.State(), []), 0;
    status, out, n := DecodeLoop(buffer, d, k);
    EndsOnce(DecodeBody, d, k, n);
  }
}
