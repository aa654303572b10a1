/** Decoding a byte stream made of frames: what one call of `decode` delivers, and when it returns at all. */
module Streams {
  import opened Bytes
  import opened BufferSpec
  import opened Frames
  import opened Decoder
  import opened Loops

  /** Messages the codec is meant for: encodable and faithful. */
  predicate Good(m: Msg) { Encodable(m) && Faithful(m) }

  ghost predicate AllGood(ms: seq<Msg>) { forall i | 0 <= i < |ms| :: Good(ms[i]) }

  function WithIds(ms: seq<Msg>): seq<Msg> { seq(|ms|, i requires 0 <= i < |ms| => WithId(ms[i])) }

  /** The readable bytes are the frames of `ms` followed by `tail`. */
  ghost predicate Holds(b: Buf, ms: seq<Msg>, tail: bytes)
    requires AllGood(ms)
  {
    b.Valid() && b.Content() == Stream(ms) + tail
  }

  // ---- One pass over a frame ----

  lemma HoldsFrame(b: Buf, ms: seq<Msg>, tail: bytes)
    requires AllGood(ms) && ms != [] && Holds(b, ms, tail)
    ensures Good(ms[0]) && AllGood(ms[1..])
    ensures b.read + FrameLen(ms[0]) <= b.write && FrameAt(b.data, b.read, ms[0])
    ensures b.Content()[FrameLen(ms[0])..] == Stream(ms[1..]) + tail
  {
    StreamCons(ms);
    HoldsSplit(b, Frame(ms[0]), Stream(ms[1..]), tail);
  }

  lemma HoldsNext(b: Buf, ms: seq<Msg>, tail: bytes)
    requires AllGood(ms) && ms != [] && Holds(b, ms, tail) && !Refused(b, b.read + FrameLen(ms[0]))
    ensures AllGood(ms[1..]) && FrameLen(ms[0]) <= b.ReadAble()
    ensures Holds(MoveRead(b, FrameLen(ms[0])), ms[1..], tail)
  {
    HoldsFrame(b, ms, tail);
  }

  lemma HoldsSplit(b: Buf, f: bytes, rest: bytes, tail: bytes)
    requires b.Valid() && b.Content() == f + rest + tail
    ensures b.read + |f| <= b.write && b.data[b.read..b.read + |f|] == f
    ensures b.Content()[|f|..] == rest + tail
  {
    assert b.Content()[..|f|] == f;
    SliceOfSlice(b.data, b.read, b.write - b.read, 0, |f|);
  }

  lemma ProbeHitsFrame(tmp: bytes, at: nat, write: nat, len: int32)
    requires 5 <= len && at + len <= write <= |tmp|
    requires tmp[at] == PB_START && WordIs(tmp, at + 1, len) && tmp[at + len - 1] == PB_END
    ensures ProbeAt(tmp, at, write) == Accept(at + len - 1, len)
    ensures ScanFrom(tmp, at, write) == Found(at, at + len - 1, len)
  {
  }

  lemma FrameBounds(tmp: bytes, at: nat, m: Msg)
    requires Encodable(m) && FrameAt(tmp, at, m)
    ensures tmp[at] == PB_START && WordIs(tmp, at + 1, FrameLen(m)) && tmp[at + FrameLen(m) - 1] == PB_END
  {
    RawCarries(WithId(m));
    RawBounds(tmp, at, WithId(m), Frame(m));
  }

  lemma RawBounds(tmp: bytes, at: nat, w: Msg, f: bytes)
    requires RawLen(w) <= INT32_MAX && Carries(f, w) && at + |f| <= |tmp| && tmp[at..at + |f|] == f
    ensures tmp[at] == PB_START && WordIs(tmp, at + 1, RawLen(w)) && tmp[at + RawLen(w) - 1] == PB_END
  {
    HeadIsInPlace(tmp, at, w, f);
  }

  lemma ScanFindsFrame(b: Buf, m: Msg)
    requires b.Valid() && Encodable(m) && b.read + FrameLen(m) <= b.write && FrameAt(b.data, b.read, m)
    ensures ScanFrom(b.data, b.read, b.write) == Found(b.read, b.read + FrameLen(m) - 1, FrameLen(m))
  {
    FrameBounds(b.data, b.read, m);
    ProbeHitsFrame(b.data, b.read, b.write, FrameLen(m));
  }

  /** One pass of the loop pushes `m` and asks to move over its frame. */
  ghost predicate Pushes(b: Buf, m: Msg)
    requires b.Valid()
  {
    PushesAs(b, FrameLen(m), WithId(m))
  }

  lemma FoundPass(b: Buf, start: nat, end: nat, len: int32, l: Layout)
    requires b.Valid() && ScanFrom(b.data, b.read, b.write) == Found(start, end, len)
    requires l == Parse(b.data, start, end, len) && end - start + 1 == len
    ensures l.Layout? ==> DecodePass(b) == Push(start, l, len)
    ensures l.Rejected? ==> DecodePass(b) == Discard(len)
    ensures l.Fault? ==> DecodePass(b) == Crash
  {
  }

  lemma FoundPushes(b: Buf, start: nat, len: int32, w: Msg)
    requires b.Valid() && len > 0 && ScanFrom(b.data, b.read, b.write) == Found(start, start + len - 1, len)
    requires ParsesTo(b.data, start, len, w)
    ensures PushesAs(b, len, w)
  {
    var l := LayoutFound(b.data, start, len, w);
    LayoutPushes(b, start, len, w, l);
  }

  /** The pass pushes `w` and asks to move by `len`. */
  ghost predicate PushesAs(b: Buf, len: int, w: Msg)
    requires b.Valid()
  {
    var p := DecodePass(b);
    p.Push? && p.n == len && Message(b.data, p.start, p.l) == w
  }

  lemma LayoutFound(tmp: bytes, start: nat, len: int32, w: Msg) returns (l: Layout)
    requires len > 0 && ParsesTo(tmp, start, len, w)
    ensures l == Parse(tmp, start, start + len - 1, len) && l.Layout? && Spans(tmp, start, l)
    ensures Message(tmp, start, l) == w
  {
    l := Parse(tmp, start, start + len - 1, len);
  }

  lemma LayoutPushes(b: Buf, start: nat, len: int32, w: Msg, l: Layout)
    requires b.Valid() && len > 0 && ScanFrom(b.data, b.read, b.write) == Found(start, start + len - 1, len)
    requires l == Parse(b.data, start, start + len - 1, len) && l.Layout? && Spans(b.data, start, l)
    requires Message(b.data, start, l) == w
    ensures PushesAs(b, len, w)
  {
    FoundPass(b, start, start + len - 1, len, l);
    PushIs(b, start, len, w, l);
  }

  lemma PushIs(b: Buf, start: nat, len: int32, w: Msg, l: Layout)
    requires b.Valid() && l.Layout? && DecodePass(b) == Push(start, l, len)
    requires Spans(b.data, start, l) && Message(b.data, start, l) == w
    ensures PushesAs(b, len, w)
  {
  }

  /**
   * One pass over any bytes whose first index that is not silent is `k`: a package that is too
   * short is skipped, one that runs off the vector is undefined, and the read index moves by the
   * package length even when the scan has passed over bytes in front of the package.
   */
  lemma PassExact(b: Buf, out: seq<Msg>, k: nat)
    requires b.Valid() && FirstLoud(b.data, b.read, b.write, k)
    ensures RunsOff(b.data, k, b.write) ==> DecodeBody(Decoding(b, out)) == Fail
    ensures HasImage(b.data, k, b.write) && IdShort(b.data, k + 5, EndOf(b.data, k)) ==>
              && WordAt(b.data, k + 1) <= b.ReadAble()
              && DecodeBody(Decoding(b, out)) == Again(Decoding(MoveRead(b, WordAt(b.data, k + 1)), out))
  {
    ScanExact(b.data, b.read, b.write);
    if HasImage(b.data, k, b.write) {
      var end, len := EndOf(b.data, k), WordAt(b.data, k + 1);
      RejectedIff(b.data, k, end, len);
      FoundPass(b, k, end, len, Parse(b.data, k, end, len));
    }
  }

  /**
   * Bytes in front of a frame misalign what follows: the message is delivered, but as many bytes
   * as the frame has are dropped from the front, and the end of the frame stays readable.
   */
  lemma JunkMisaligns(b: Buf, junk: bytes, m: Msg, rest: bytes)
    requires b.Valid() && Good(m) && b.Content() == junk + Frame(m) + rest && PB_START !in junk
    requires !Refused(b, b.read + FrameLen(m))
    ensures Pushes(b, m)
    ensures MoveRead(b, FrameLen(m)).Content() == (junk + Frame(m))[FrameLen(m)..] + rest
  {
    var at := b.read + |junk|;
    JunkLies(b, junk, Frame(m), rest);
    PushesBehindJunk(b, at, m);
    DropPastJunk(junk, Frame(m), rest);
  }

  lemma PushesBehindJunk(b: Buf, at: nat, m: Msg)
    requires b.Valid() && Good(m) && b.read <= at && at + FrameLen(m) <= b.write && FrameAt(b.data, at, m)
    requires forall k | b.read <= k < at :: b.data[k] != PB_START
    ensures Pushes(b, m)
  {
    FrameBounds(b.data, at, m);
    ScanSkipsJunk(b.data, b.read, b.write, at, FrameLen(m));
    ParseRoundTrip(b.data, at, m);
    FoundPushes(b, at, FrameLen(m), WithId(m));
  }

  lemma DropPastJunk(junk: bytes, f: bytes, rest: bytes)
    ensures (junk + f + rest)[|f|..] == (junk + f)[|f|..] + rest
  {
  }

  lemma ScanSkipsJunk(tmp: bytes, read: nat, write: nat, at: nat, len: int32)
    requires 5 <= len && read <= at && at + len <= write <= |tmp|
    requires tmp[at] == PB_START && WordIs(tmp, at + 1, len) && tmp[at + len - 1] == PB_END
    requires forall k | read <= k < at :: tmp[k] != PB_START
    ensures ScanFrom(tmp, read, write) == Found(at, at + len - 1, len)
  {
    LoudBehindJunk(tmp, read, write, at, len);
    ScanExact(tmp, read, write);
  }

  lemma LoudBehindJunk(tmp: bytes, read: nat, write: nat, at: nat, len: int32)
    requires 5 <= len && read <= at && at + len <= write <= |tmp|
    requires tmp[at] == PB_START && WordIs(tmp, at + 1, len) && tmp[at + len - 1] == PB_END
    requires forall k | read <= k < at :: tmp[k] != PB_START
    ensures FirstLoud(tmp, read, write, at) && HasImage(tmp, at, write) && EndOf(tmp, at) == at + len - 1
  {
  }

  lemma JunkLies(b: Buf, junk: bytes, f: bytes, rest: bytes)
    requires b.Valid() && b.Content() == junk + f + rest
    ensures var at := b.read + |junk|;
            && at + |f| <= b.write && b.data[at..at + |f|] == f
            && forall k | b.read <= k < at :: b.data[k] == junk[k - b.read]
  {
    var at, c := b.read + |junk|, b.Content();
    assert c[|junk|..|junk| + |f|] == f;
    SliceOfSlice(b.data, b.read, b.write - b.read, |junk|, |junk| + |f|);
    forall k | b.read <= k < at ensures b.data[k] == junk[k - b.read] {
      assert b.data[k] == c[k - b.read];
    }
  }

  lemma PassPushes(b: Buf, m: Msg)
    requires b.Valid() && Good(m) && b.read + FrameLen(m) <= b.write && FrameAt(b.data, b.read, m)
    ensures Pushes(b, m)
  {
    ScanFindsFrame(b, m);
    ParseRoundTrip(b.data, b.read, m);
    FoundPushes(b, b.read, FrameLen(m), WithId(m));
  }

  // ---- The read index after whole frames ----

  /** The buffer after the read index has moved over the frames of `ms`. */
  ghost function After(b: Buf, ms: seq<Msg>): (r: Buf)
    requires b.Valid()
    ensures r.Valid() && |r.data| == |b.data|
    decreases |ms|
  {
    if ms == [] || FrameLen(ms[0]) > b.ReadAble() then b else After(MoveRead(b, FrameLen(ms[0])), ms[1..])
  }

  /** No move over a frame of `ms` is refused. */
  ghost predicate Accepted(b: Buf, ms: seq<Msg>)
    requires b.Valid()
    decreases |ms|
  {
    ms != [] ==>
      && FrameLen(ms[0]) <= b.ReadAble() && !Refused(b, b.read + FrameLen(ms[0]))
      && Accepted(MoveRead(b, FrameLen(ms[0])), ms[1..])
  }

  lemma {:induction false} AfterHolds(b: Buf, ms: seq<Msg>, rest: seq<Msg>, tail: bytes)
    requires AllGood(ms) && AllGood(rest) && Holds(b, ms + rest, tail) && Accepted(b, ms)
    ensures Holds(After(b, ms), rest, tail)
    decreases |ms|
  {
    if ms == [] {
      assert ms + rest == rest;
    } else {
      assert (ms + rest)[0] == ms[0] && (ms + rest)[1..] == ms[1..] + rest;
      HoldsNext(b, ms + rest, tail);
      AfterHolds(MoveRead(b, FrameLen(ms[0])), ms[1..], rest, tail);
    }
  }

  // ---- Running the loop ----

  /** The passes push the messages of `ms` one after the other, and every move succeeds. */
  ghost predicate Train(b: Buf, ms: seq<Msg>)
    requires b.Valid()
    decreases |ms|
  {
    ms != [] ==> Pushes(b, ms[0]) && Train(MoveRead(b, FrameLen(ms[0])), ms[1..])
  }

  /** The passes push messages of `ms` until one of them fails to move the read index. */
  ghost predicate Stuck(b: Buf, ms: seq<Msg>)
    requires b.Valid()
    decreases |ms|
  {
    && ms != [] && Pushes(b, ms[0])
    && (MoveRead(b, FrameLen(ms[0])) == b || Stuck(MoveRead(b, FrameLen(ms[0])), ms[1..]))
  }

  lemma BodyPushes(b: Buf, out: seq<Msg>, m: Msg)
    requires b.Valid() && Pushes(b, m)
    ensures DecodeBody(Decoding(b, out)) == Again(Decoding(MoveRead(b, FrameLen(m)), out + [WithId(m)]))
  {
  }

  lemma WithIdsCons(out: seq<Msg>, ms: seq<Msg>)
    requires ms != []
    ensures out + WithIds(ms) == out + [WithId(ms[0])] + WithIds(ms[1..])
  {
  }

  /** The first passes deliver the messages in order. */
  lemma {:induction false} TrainPath(b: Buf, out: seq<Msg>, ms: seq<Msg>) returns (ss: seq<Decoding>)
    requires b.Valid() && Train(b, ms)
    ensures Path(DecodeBody, ss) && |ss| == |ms| + 1
    ensures ss[0] == Decoding(b, out) && ss[|ms|] == Decoding(After(b, ms), out + WithIds(ms))
    decreases |ms|
  {
    if ms == [] {
      assert out + WithIds(ms) == out;
      ss := [Decoding(b, out)];
    } else {
      BodyPushes(b, out, ms[0]);
      var rest := TrainPath(MoveRead(b, FrameLen(ms[0])), out + [WithId(ms[0])], ms[1..]);
      PathCons(DecodeBody, Decoding(b, out), rest);
      ss := [Decoding(b, out)] + rest;
      WithIdsCons(out, ms);
    }
  }

  lemma {:induction false} StutterPath(b: Buf, out: seq<Msg>, m: Msg, k: nat) returns (ss: seq<Decoding>)
    requires b.Valid() && Pushes(b, m) && MoveRead(b, FrameLen(m)) == b
    ensures Path(DecodeBody, ss) && |ss| == k + 1 && ss[0] == Decoding(b, out)
    decreases k
  {
    ss := [Decoding(b, out)];
    if k > 0 {
      BodyPushes(b, out, m);
      var rest := StutterPath(b, out + [WithId(m)], m, k - 1);
      PathCons(DecodeBody, Decoding(b, out), rest);
      ss := ss + rest;
    }
  }

  /** A move that fails makes the loop push the same message again and again. */
  lemma {:induction false} StuckPath(b: Buf, out: seq<Msg>, ms: seq<Msg>, k: nat) returns (ss: seq<Decoding>)
    requires b.Valid() && Stuck(b, ms)
    ensures Path(DecodeBody, ss) && |ss| == k + 1 && ss[0] == Decoding(b, out)
    decreases |ms|
  {
    ss := [Decoding(b, out)];
    if MoveRead(b, FrameLen(ms[0])) == b {
      ss := StutterPath(b, out, ms[0], k);
    } else if k > 0 {
      BodyPushes(b, out, ms[0]);
      var rest := StuckPath(MoveRead(b, FrameLen(ms[0])), out + [WithId(ms[0])], ms[1..], k - 1);
      PathCons(DecodeBody, Decoding(b, out), rest);
      ss := ss + rest;
    }
  }

  lemma {:induction false} FramesTrain(b: Buf, ms: seq<Msg>, tail: bytes)
    requires AllGood(ms) && Holds(b, ms, tail) && Accepted(b, ms)
    ensures Train(b, ms)
    decreases |ms|
  {
    if ms != [] {
      HoldsFrame(b, ms, tail);
      PassPushes(b, ms[0]);
      FramesTrain(MoveRead(b, FrameLen(ms[0])), ms[1..], tail);
    }
  }

  lemma {:induction false} FramesStuck(b: Buf, ms: seq<Msg>, tail: bytes)
    requires AllGood(ms) && Holds(b, ms, tail) && !Accepted(b, ms)
    ensures Stuck(b, ms)
    decreases |ms|
  {
    HoldsFrame(b, ms, tail);
    PassPushes(b, ms[0]);
    if !Refused(b, b.read + FrameLen(ms[0])) {
      FramesStuck(MoveRead(b, FrameLen(ms[0])), ms[1..], tail);
    }
  }

  // ---- When the moves are accepted ----

  /** A byte behind the frames, readable or free, lets every move over them succeed. */
  lemma {:induction false} SpareAccepts(b: Buf, ms: seq<Msg>, tail: bytes)
    requires AllGood(ms) && Holds(b, ms, tail) && (tail != [] || b.WriteAble() > 0)
    ensures Accepted(b, ms)
    decreases |ms|
  {
    if ms != [] {
      HoldsFrame(b, ms, tail);
      SpareAccepts(MoveRead(b, FrameLen(ms[0])), ms[1..], tail);
    }
  }

  /** What must hold of a full buffer: an earlier frame's move compacts before the last frame. */
  predicate CompactsInTime(b: Buf, ms: seq<Msg>) {
    |ms| >= 2 && |b.data| - FrameLen(ms[|ms| - 1]) >= |b.data| / 3
  }

  lemma {:induction false} FullAccepts(b: Buf, ms: seq<Msg>)
    requires AllGood(ms) && Holds(b, ms, []) && b.WriteAble() == 0 && ms != []
    ensures Accepted(b, ms) <==> CompactsInTime(b, ms)
    decreases |ms|
  {
    HoldsFrame(b, ms, []);
    var b1, rest := MoveRead(b, FrameLen(ms[0])), ms[1..];
    if rest == [] {
      assert Stream(rest) == [];
      assert Refused(b, b.read + FrameLen(ms[0]));
    } else {
      HoldsLast(b, ms);
      assert rest[|rest| - 1] == ms[|ms| - 1];
      if b1.WriteAble() > 0 {
        SpareAccepts(b1, rest, []);
      } else {
        FullAccepts(b1, rest);
      }
    }
  }

  /** With two or more frames, the first ends no later than the last begins. */
  lemma HoldsLast(b: Buf, ms: seq<Msg>)
    requires AllGood(ms) && Holds(b, ms, []) && |ms| >= 2
    ensures b.read + FrameLen(ms[0]) + FrameLen(ms[|ms| - 1]) <= b.write
  {
    var mid, last := ms[1..|ms| - 1], ms[|ms| - 1..];
    HoldsFrame(b, ms, []);
    assert ms[1..] == mid + last;
    StreamConcat(mid, last);
    StreamCons(last);
  }

  /** Exactly when no move over the frames is refused. */
  lemma AcceptedIff(b: Buf, ms: seq<Msg>, tail: bytes)
    requires AllGood(ms) && Holds(b, ms, tail)
    ensures Accepted(b, ms) <==> ms == [] || tail != [] || b.WriteAble() > 0 || CompactsInTime(b, ms)
  {
    if tail != [] || b.WriteAble() > 0 {
      SpareAccepts(b, ms, tail);
    } else if ms != [] {
      FullAccepts(b, ms);
    }
  }

  // ---- When decoding returns ----

  /** A loop that gets stuck never returns. */
  lemma StuckNeverReturns(b: Buf, ms: seq<Msg>, k: nat)
    requires b.Valid() && Stuck(b, ms)
    ensures Decode(b, k).status == Running
  {
    var ss := StuckPath(b, [], ms, k);
    IterateAlongPath(DecodeBody, ss, k);
  }

  /** One call of `decode` delivers `ms`, pass by pass, and then returns. */
  ghost predicate Delivers(b: Buf, ms: seq<Msg>) {
    var r := Decode(b, |ms| + 1);
    r.status == Returned && r.state.out == WithIds(ms)
  }

  lemma LeavesIffQuiet(d: Decoding)
    requires d.buf.Valid()
    ensures DecodeBody(d) == Leave <==> Quiet(d.buf)
  {
    ScanExact(d.buf.data, d.buf.read, d.buf.write);
  }

  lemma LastPass(d: Decoding)
    ensures Iterate(DecodeBody, d, 1).status == Returned <==> DecodeBody(d) == Leave
    ensures DecodeBody(d) == Leave ==> Iterate(DecodeBody, d, 1) == Run(Returned, d)
  {
  }

  lemma TrainDelivers(b: Buf, ms: seq<Msg>)
    requires b.Valid() && Train(b, ms)
    ensures Decode(b, |ms| + 1).status == Returned <==> Quiet(After(b, ms))
    ensures Quiet(After(b, ms)) ==> Decode(b, |ms| + 1).state == Decoding(After(b, ms), WithIds(ms))
  {
    var ss := TrainPath(b, [], ms);
    var last := Decoding(After(b, ms), WithIds(ms));
    assert [] + WithIds(ms) == WithIds(ms);
    IteratePath(DecodeBody, ss, |ms| + 1);
    LeavesIffQuiet(last);
    LastPass(last);
  }

  /**
   * On frames followed by a tail, decoding delivers exactly the frames and leaves the tail
   * if and only if no move is refused and nothing in the tail looks like a frame.
   */
  lemma DeliversIff(b: Buf, ms: seq<Msg>, tail: bytes)
    requires AllGood(ms) && Holds(b, ms, tail)
    ensures Delivers(b, ms) <==> Accepted(b, ms) && Quiet(After(b, ms))
    ensures Delivers(b, ms) ==> Decode(b, |ms| + 1).state.buf == After(b, ms)
    ensures Accepted(b, ms) ==> After(b, ms).Content() == tail
  {
    if Accepted(b, ms) {
      FramesTrain(b, ms, tail);
      TrainDelivers(b, ms);
      assert ms + [] == ms;
      AfterHolds(b, ms, [], tail);
      assert Stream([]) + tail == tail;
    } else {
      FramesStuck(b, ms, tail);
      StuckNeverReturns(b, ms, |ms| + 1);
    }
  }

  /**
   * Decoding a buffer that holds exactly the frames of `ms` returns if and only if there is
   * nothing to decode, a free byte behind the frames, or a compaction before the last frame.
   */
  lemma DecodeReturnsIff(b: Buf, ms: seq<Msg>)
    requires AllGood(ms) && Holds(b, ms, [])
    ensures (exists k: nat :: Decode(b, k).status == Returned)
            <==> ms == [] || b.WriteAble() > 0 || CompactsInTime(b, ms)
  {
    AcceptedIff(b, ms, []);
    DeliversIff(b, ms, []);
    if Accepted(b, ms) {
      assert Quiet(After(b, ms));
      assert Decode(b, |ms| + 1).status == Returned;
    } else {
      FramesStuck(b, ms, []);
      forall k: nat ensures Decode(b, k).status == Running {
        StuckNeverReturns(b, ms, k);
      }
    }
  }

  // ---- Encoding a list, then decoding it ----

  /** The buffer after `encode` has appended the frames of `ms`. */
  ghost function EncodeAll(b: Buf, ms: seq<Msg>): (r: Buf)
    requires b.Valid() && AllEncodable(ms)
    ensures r.Valid()
    decreases |ms|
  {
    if ms == [] then b else Write(EncodeAll(b, ms[..|ms| - 1]), Frame(ms[|ms| - 1]))
  }

  lemma EncodeAllSnoc(b: Buf, ms: seq<Msg>, i: nat)
    requires b.Valid() && AllEncodable(ms) && i < |ms|
    ensures EncodeAll(b, ms[..i + 1]) == Write(EncodeAll(b, ms[..i]), Frame(ms[i]))
  {
    assert ms[..i + 1][..i] == ms[..i];
  }

  lemma StreamSnoc(front: seq<Msg>, m: Msg, c: bytes)
    requires AllEncodable(front) && Encodable(m)
    ensures AllEncodable(front + [m]) && c + Stream(front + [m]) == c + Stream(front) + Frame(m)
  {
    StreamConcat(front, [m]);
    StreamCons([m]);
    assert Frame(m) + [] == Frame(m);
    Assoc(c, Stream(front), Frame(m));
  }

  lemma ContentSnoc(b: Buf, c: bytes, ms: seq<Msg>, front: seq<Msg>, last: Msg)
    requires b.Valid() && AllEncodable(ms) && ms != [] && front == ms[..|ms| - 1] && last == ms[|ms| - 1]
    requires AllEncodable(front) && Encodable(last) && c == b.Content() + Stream(front)
    ensures c + Frame(last) == b.Content() + Stream(ms)
  {
    StreamSnoc(front, last, b.Content());
    assert ms == front + [last];
  }

  lemma EncodeAllLast(b: Buf, ms: seq<Msg>, front: seq<Msg>, last: Msg)
    requires b.Valid() && AllEncodable(ms) && ms != [] && front == ms[..|ms| - 1] && last == ms[|ms| - 1]
    requires AllEncodable(front) && Encodable(last)
    ensures EncodeAll(b, ms).Content() == EncodeAll(b, front).Content() + Frame(last)
  {
    var e := EncodeAll(b, front);
    assert EncodeAll(b, ms) == Write(e, Frame(last));
  }

  lemma {:induction false} EncodeAllContent(b: Buf, ms: seq<Msg>)
    requires b.Valid() && AllEncodable(ms)
    ensures EncodeAll(b, ms).Content() == b.Content() + Stream(ms)
    decreases |ms|
  {
    if ms == [] {
      assert b.Content() + [] == b.Content();
    } else {
      var front, last := ms[..|ms| - 1], ms[|ms| - 1];
      EncodeAllContent(b, front);
      EncodeAllLast(b, ms, front, last);
      ContentSnoc(b, EncodeAll(b, front).Content(), ms, front, last);
    }
  }

  /**
   * Batch round trip: any list of good messages, payloads unrestricted, encoded into an empty
   * buffer, is decoded back in order with nothing left, if and only if the list is empty, a
   * byte is spare, or a compaction comes in time.
   */
  lemma BatchRoundTrip(b: Buf, ms: seq<Msg>)
    requires b.Valid() && b.Content() == [] && AllGood(ms)
    ensures var e := EncodeAll(b, ms);
            && (Delivers(e, ms) <==> ms == [] || e.WriteAble() > 0 || CompactsInTime(e, ms))
            && (Delivers(e, ms) ==> Decode(e, |ms| + 1).state.buf.Valid()
                                    && Decode(e, |ms| + 1).state.buf.Content() == [])
  {
    var e := EncodeAll(b, ms);
    EncodeAllContent(b, ms);
    assert [] + Stream(ms) == Stream(ms) && Stream(ms) + [] == Stream(ms);
    AcceptedIff(e, ms, []);
    DeliversIff(e, ms, []);
  }

  /** A buffer whose capacity is exactly one frame: decoding that frame never returns. */
  lemma ExactFitNeverReturns(m: Msg, k: nat)
    requires Good(m)
    ensures Decode(Write(New(FrameLen(m)), Frame(m)), k).status == Running
  {
    var b := Write(New(FrameLen(m)), Frame(m));
    StreamCons([m]);
    assert Frame(m) + [] == Frame(m) && [] + Frame(m) == Frame(m) && Frame(m) + [] + [] == Frame(m);
    assert b.WriteAble() == 0;
    FullAccepts(b, [m]);
    FramesStuck(b, [m], []);
    StuckNeverReturns(b, [m], k);
  }
}
