/** A stream of frames that arrives in chunks, decoded after every chunk. */
module Reassembly {
  import opened Bytes
  import opened BufferSpec
  import opened Frames
  import opened Loops
  import opened Decoder
  import opened Streams

  // ---- Cutting a stream of frames ----

  /** How many frames lie wholly within the first `n` bytes. */
  ghost function Completed(ms: seq<Msg>, n: nat): (k: nat)
    ensures k <= |ms|
  {
    if ms == [] || n < FrameLen(ms[0]) then 0 else 1 + Completed(ms[1..], n - FrameLen(ms[0]))
  }

  /** The bytes of the unfinished frame among the first `n` bytes. */
  ghost function Unfinished(ms: seq<Msg>, n: nat): (r: nat)
    ensures r <= n
  {
    if ms == [] || n < FrameLen(ms[0]) then n else Unfinished(ms[1..], n - FrameLen(ms[0]))
  }

  /** `tail` is a proper beginning of the first frame of `ms`, or empty. */
  ghost predicate Begins(tail: bytes, ms: seq<Msg>)
    requires AllGood(ms)
  {
    tail == [] || (ms != [] && |tail| < FrameLen(ms[0]) && tail == Frame(ms[0])[..|tail|])
  }

  lemma AllGoodSplit(ms: seq<Msg>, k: nat)
    requires AllGood(ms) && k <= |ms|
    ensures AllGood(ms[..k]) && AllGood(ms[k..]) && ms == ms[..k] + ms[k..]
  {
  }

  lemma FrameOfPrefix(f: bytes, rest: bytes, p: bytes, more: bytes)
    requires f + rest == p + more
    ensures |p| <= |f| ==> p == f[..|p|]
    ensures |p| >= |f| ==> p == f + p[|f|..] && rest == p[|f|..] + more
  {
    var s := f + rest;
    if |p| <= |f| {
      assert p == s[..|p|] == f[..|p|];
    }
    if |p| >= |f| {
      assert p[..|f|] == s[..|f|] == f;
      assert p[|f|..] + more == (p + more)[|f|..];
      assert s[|f|..] == rest;
    }
  }

  /** Every beginning of a stream is whole frames and a beginning of the next one. */
  lemma {:induction false} SplitPrefix(ms: seq<Msg>, p: bytes, more: bytes) returns (tail: bytes)
    requires AllGood(ms) && Stream(ms) == p + more
    ensures var k := Completed(ms, |p|);
            && AllGood(ms[..k]) && AllGood(ms[k..])
            && p == Stream(ms[..k]) + tail && |tail| == Unfinished(ms, |p|)
            && Begins(tail, ms[k..]) && Stream(ms[k..]) == tail + more
    decreases |ms|
  {
    var k := Completed(ms, |p|);
    AllGoodSplit(ms, k);
    tail := p;
    if ms == [] {
    } else {
      StreamCons(ms);
      FrameOfPrefix(Frame(ms[0]), Stream(ms[1..]), p, more);
      if |p| < FrameLen(ms[0]) {
        assert ms[..k] == [] && ms[k..] == ms;
      } else {
        AllGoodSplit(ms, 1);
        tail := SplitPrefix(ms[1..], p[FrameLen(ms[0])..], more);
        SplitPrefixStep(ms, p, tail, k);
      }
    }
  }

  lemma SplitPrefixStep(ms: seq<Msg>, p: bytes, tail: bytes, k: nat)
    requires AllGood(ms) && 1 <= k <= |ms| && |p| >= FrameLen(ms[0])
    requires p == Frame(ms[0]) + p[FrameLen(ms[0])..]
    requires AllGood(ms[1..][..k - 1]) && p[FrameLen(ms[0])..] == Stream(ms[1..][..k - 1]) + tail
    ensures AllGood(ms[..k]) && p == Stream(ms[..k]) + tail && ms[k..] == ms[1..][k - 1..]
  {
    AllGoodSplit(ms, k);
    assert ms[..k][1..] == ms[1..][..k - 1];
    StreamCons(ms[..k]);
    Assoc(Frame(ms[0]), Stream(ms[1..][..k - 1]), tail);
  }

  // ---- Receiving chunk by chunk ----

  /** Chunks are appended and decoded one by one: `out` is everything delivered, `b'` what remains. */
  ghost predicate Feeds(b: Buf, chunks: seq<bytes>, out: seq<Msg>, b': Buf)
    requires b.Valid()
    decreases |chunks|
  {
    if chunks == [] then out == [] && b' == b
    else exists k: nat, n: nat | n <= |out| ::
           var r := Decode(Write(b, chunks[0]), k);
           && r.status == Returned && r.state.out == out[..n] && r.state.buf.Valid()
           && Feeds(r.state.buf, chunks[1..], out[n..], b')
  }

  /** At each cut every move is accepted and the unfinished frame is quiet. */
  ghost predicate CleanRun(b: Buf, ms: seq<Msg>, chunks: seq<bytes>)
    requires b.Valid()
    decreases |chunks|
  {
    chunks != [] ==>
      var b1 := Write(b, chunks[0]);
      var k := Completed(ms, b1.ReadAble());
      && Accepted(b1, ms[..k]) && Quiet(After(b1, ms[..k]))
      && CleanRun(After(b1, ms[..k]), ms[k..], chunks[1..])
  }

  /** The last `n` readable bytes of `b1` are what is readable in `b2`. */
  ghost predicate Leaves(b1: Buf, b2: Buf, n: nat)
    requires b1.Valid() && n <= b1.ReadAble()
  {
    b2.Valid() && b2.Content() == b1.Content()[b1.ReadAble() - n..]
  }

  /** Each decode delivers exactly the messages its chunk completed and leaves the unfinished bytes. */
  ghost predicate Lockstep(b: Buf, ms: seq<Msg>, chunks: seq<bytes>)
    requires b.Valid()
    decreases |chunks|
  {
    chunks != [] ==>
      var b1 := Write(b, chunks[0]);
      var k := Completed(ms, b1.ReadAble());
      && Delivers(b1, ms[..k]) && Leaves(b1, Decode(b1, k + 1).state.buf, Unfinished(ms, b1.ReadAble()))
      && Lockstep(Decode(b1, k + 1).state.buf, ms[k..], chunks[1..])
  }

  /** What one chunk does: the frames it completes sit in front, the unfinished one behind. */
  lemma ChunkHolds(b: Buf, ms: seq<Msg>, chunks: seq<bytes>) returns (b1: Buf, k: nat, tail: bytes)
    requires AllGood(ms) && b.Valid() && chunks != [] && b.Content() + Concat(chunks) == Stream(ms)
    ensures b1 == Write(b, chunks[0]) && k == Completed(ms, b1.ReadAble())
    ensures b1.ReadAble() == b.ReadAble() + |chunks[0]|
    ensures AllGood(ms[..k]) && AllGood(ms[k..]) && Holds(b1, ms[..k], tail)
    ensures |tail| == Unfinished(ms, b1.ReadAble()) && Begins(tail, ms[k..])
    ensures tail + Concat(chunks[1..]) == Stream(ms[k..])
  {
    b1 := Write(b, chunks[0]);
    var c, more := b1.Content(), Concat(chunks[1..]);
    Assoc(b.Content(), chunks[0], more);
    assert c + more == Stream(ms) && |c| == b1.ReadAble();
    tail := SplitPrefix(ms, c, more);
    k := Completed(ms, b1.ReadAble());
  }

  /** One chunk is received in step exactly when its moves are accepted and its tail is quiet. */
  lemma ChunkDelivers(b: Buf, ms: seq<Msg>, chunks: seq<bytes>) returns (b1: Buf, k: nat, b2: Buf)
    requires AllGood(ms) && b.Valid() && chunks != [] && b.Content() + Concat(chunks) == Stream(ms)
    ensures b1 == Write(b, chunks[0]) && k == Completed(ms, b1.ReadAble()) && b2 == After(b1, ms[..k])
    ensures AllGood(ms[k..])
    ensures Delivers(b1, ms[..k]) <==> Accepted(b1, ms[..k]) && Quiet(b2)
    ensures Delivers(b1, ms[..k]) ==>
              && Decode(b1, k + 1).state.buf == b2 && b2.Content() + Concat(chunks[1..]) == Stream(ms[k..])
              && Begins(b2.Content(), ms[k..]) && Leaves(b1, b2, Unfinished(ms, b1.ReadAble()))
  {
    var tail;
    b1, k, tail := ChunkHolds(b, ms, chunks);
    b2 := After(b1, ms[..k]);
    DeliversIff(b1, ms[..k], tail);
    assert (Stream(ms[..k]) + tail)[|Stream(ms[..k])|..] == tail;
  }

  lemma LockstepNext(b: Buf, ms: seq<Msg>, chunks: seq<bytes>, b1: Buf, k: nat, b2: Buf)
    requires b.Valid() && chunks != [] && b1 == Write(b, chunks[0]) && k == Completed(ms, b1.ReadAble())
    requires Delivers(b1, ms[..k]) && Decode(b1, k + 1).state.buf == b2 && Leaves(b1, b2, Unfinished(ms, b1.ReadAble()))
    ensures Lockstep(b, ms, chunks) <==> Lockstep(b2, ms[k..], chunks[1..])
  {
  }

  lemma CleanRunNext(b: Buf, ms: seq<Msg>, chunks: seq<bytes>, b1: Buf, k: nat, b2: Buf)
    requires b.Valid() && chunks != [] && b1 == Write(b, chunks[0]) && k == Completed(ms, b1.ReadAble())
    requires b2 == After(b1, ms[..k]) && Accepted(b1, ms[..k]) && Quiet(b2)
    ensures CleanRun(b, ms, chunks) <==> CleanRun(b2, ms[k..], chunks[1..])
  {
  }

  /** Reassembly works step by step if and only if the run is clean. */
  lemma {:induction false} LockstepIff(b: Buf, ms: seq<Msg>, chunks: seq<bytes>)
    requires AllGood(ms) && b.Valid() && b.Content() + Concat(chunks) == Stream(ms)
    ensures Lockstep(b, ms, chunks) <==> CleanRun(b, ms, chunks)
    decreases |chunks|
  {
    if chunks != [] {
      var b1, k, b2 := ChunkDelivers(b, ms, chunks);
      if Delivers(b1, ms[..k]) {
        LockstepIff(b2, ms[k..], chunks[1..]);
        LockstepNext(b, ms, chunks, b1, k, b2);
        CleanRunNext(b, ms, chunks, b1, k, b2);
      }
    }
  }

  lemma FeedsCons(b: Buf, chunks: seq<bytes>, k: nat, b2: Buf, out: seq<Msg>, rest: seq<Msg>, b': Buf)
    requires b.Valid() && chunks != [] && b2.Valid()
    requires var r := Decode(Write(b, chunks[0]), k);
             r.status == Returned && r.state.out == out && r.state.buf == b2
    requires Feeds(b2, chunks[1..], rest, b')
    ensures Feeds(b, chunks, out + rest, b')
  {
    var all, n := out + rest, |out|;
    assert all[..n] == out && all[n..] == rest;
  }

  lemma WithIdsSplit(ms: seq<Msg>, k: nat)
    requires k <= |ms|
    ensures WithIds(ms) == WithIds(ms[..k]) + WithIds(ms[k..])
  {
  }

  lemma DeliversFeeds(b: Buf, ms: seq<Msg>, chunks: seq<bytes>, b1: Buf, k: nat, b2: Buf, b': Buf)
    requires b.Valid() && chunks != [] && b1 == Write(b, chunks[0]) && k <= |ms| && b2.Valid()
    requires Delivers(b1, ms[..k]) && Decode(b1, k + 1).state.buf == b2
    requires Feeds(b2, chunks[1..], WithIds(ms[k..]), b')
    ensures Feeds(b, chunks, WithIds(ms), b')
  {
    FeedsCons(b, chunks, k + 1, b2, WithIds(ms[..k]), WithIds(ms[k..]), b');
    WithIdsSplit(ms, k);
  }

  lemma NothingLeft(c: bytes, ms: seq<Msg>)
    requires AllGood(ms) && c == Stream(ms) && Begins(c, ms)
    ensures ms == [] && c == []
  {
    if ms != [] {
      StreamCons(ms);
    }
  }

  lemma CleanHead(b: Buf, ms: seq<Msg>, chunks: seq<bytes>, b1: Buf, k: nat)
    requires b.Valid() && chunks != [] && b1 == Write(b, chunks[0]) && k == Completed(ms, b1.ReadAble())
    requires CleanRun(b, ms, chunks)
    ensures Accepted(b1, ms[..k]) && Quiet(After(b1, ms[..k]))
  {
  }

  /** A clean run delivers the whole message list, in order, and leaves nothing readable. */
  lemma {:induction false} CleanRunFeeds(b: Buf, ms: seq<Msg>, chunks: seq<bytes>) returns (b': Buf)
    requires AllGood(ms) && b.Valid() && b.Content() + Concat(chunks) == Stream(ms)
    requires Begins(b.Content(), ms) && CleanRun(b, ms, chunks)
    ensures Feeds(b, chunks, WithIds(ms), b') && b'.Valid() && b'.Content() == []
    decreases |chunks|
  {
    if chunks == [] {
      assert b.Content() + [] == b.Content();
      NothingLeft(b.Content(), ms);
      b' := b;
    } else {
      var b1, k, b2 := ChunkDelivers(b, ms, chunks);
      CleanHead(b, ms, chunks, b1, k);
      CleanRunNext(b, ms, chunks, b1, k, b2);
      b' := CleanRunFeeds(b2, ms[k..], chunks[1..]);
      DeliversFeeds(b, ms, chunks, b1, k, b2, b');
    }
  }

  lemma DecodeEndsOnce(b: Buf, k: nat, n: nat)
    requires Decode(b, k).status == Returned && Decode(b, n).status == Returned
    ensures Decode(b, k).state == Decode(b, n).state
  {
    EndsOnce(DecodeBody, Decoding(b, []), k, n);
  }

  /** What a run of chunks delivers and leaves is determined by the chunks. */
  lemma {:induction false} FeedsOnce(b: Buf, chunks: seq<bytes>, out: seq<Msg>, b1: Buf, out2: seq<Msg>, b2: Buf)
    requires b.Valid() && Feeds(b, chunks, out, b1) && Feeds(b, chunks, out2, b2)
    ensures out == out2 && b1 == b2
    decreases |chunks|
  {
    if chunks != [] {
      var k, n := FeedsHead(b, chunks, out, b1);
      var k2, n2 := FeedsHead(b, chunks, out2, b2);
      var w := Write(b, chunks[0]);
      DecodeEndsOnce(w, k, k2);
      FeedsOnce(Decode(w, k).state.buf, chunks[1..], out[n..], b1, out2[n2..], b2);
      SameParts(out, n, out2, n2);
    }
  }

  lemma SameParts(a: seq<Msg>, n: nat, b: seq<Msg>, k: nat)
    requires n <= |a| && k <= |b| && a[..n] == b[..k] && a[n..] == b[k..]
    ensures a == b
  {
    assert a == a[..n] + a[n..] && b == b[..k] + b[k..];
  }

  lemma FeedsHead(b: Buf, chunks: seq<bytes>, out: seq<Msg>, b': Buf) returns (k: nat, n: nat)
    requires b.Valid() && chunks != [] && Feeds(b, chunks, out, b')
    ensures n <= |out|
    ensures var r := Decode(Write(b, chunks[0]), k);
            && r.status == Returned && r.state.out == out[..n] && r.state.buf.Valid()
            && Feeds(r.state.buf, chunks[1..], out[n..], b')
  {
    k, n :| n <= |out| &&
      var r := Decode(Write(b, chunks[0]), k);
      && r.status == Returned && r.state.out == out[..n] && r.state.buf.Valid()
      && Feeds(r.state.buf, chunks[1..], out[n..], b');
  }

  // ---- A condition on the cuts alone ----

  /**
   * A start byte of the received bytes `p` that the scan passes over whatever lies behind them:
   * the last byte, or one with a whole length word that points behind `p` or at no end byte.
   */
  predicate Harmless(p: bytes, i: nat)
    requires i < |p|
  {
    p[i] == PB_START && i + 1 < |p| ==>
      i + 5 <= |p| && 0 <= EndOf(p, i) && (EndOf(p, i) >= |p| || p[EndOf(p, i)] != PB_END)
  }

  ghost predicate AllHarmless(p: bytes) { forall i | 0 <= i < |p| :: Harmless(p, i) }

  /** What the decoder computes from a start byte at offset `i`, if it is unfinished, is an `int`. */
  predicate IndexFits(b: Buf, i: nat)
    requires b.Valid() && i < b.ReadAble()
  {
    var c := b.Content();
    i + 5 <= |c| && c[i] == PB_START && EndOf(c, i) >= |c| ==> b.read + EndOf(c, i) < INT32_MAX
  }

  ghost predicate EndsFit(b: Buf)
    requires b.Valid()
  {
    forall i | 0 <= i < b.ReadAble() :: IndexFits(b, i)
  }

  /** A whole length word among the readable bytes reads the same in the vector. */
  lemma WordInside(b: Buf, i: nat)
    requires b.Valid() && i + 5 <= b.ReadAble()
    ensures b.read + i + 5 <= |b.data| && EndOf(b.data, b.read + i) == b.read + EndOf(b.Content(), i)
  {
    SliceOfSlice(b.data, b.read, b.ReadAble(), i + 1, i + 5);
  }

  lemma SilentInside(b: Buf, i: nat)
    requires b.Valid() && i < b.ReadAble() && Harmless(b.Content(), i)
    ensures Silent(b.data, b.read + i, b.write) <==> IndexFits(b, i)
  {
    var c := b.Content();
    assert b.data[b.read + i] == c[i];
    if c[i] == PB_START && i + 1 < |c| {
      WordInside(b, i);
      assert EndOf(c, i) < |c| ==> b.data[b.read + EndOf(c, i)] == c[EndOf(c, i)];
    }
  }

  /** Harmless readable bytes, of whatever origin, are quiet exactly when the indices fit. */
  lemma HarmlessIsQuiet(b: Buf)
    requires b.Valid() && AllHarmless(b.Content())
    ensures Quiet(b) <==> EndsFit(b)
  {
    if EndsFit(b) {
      forall k | b.read <= k < b.write ensures Silent(b.data, k, b.write) {
        SilentAt(b, k, k - b.read);
      }
    }
    if Quiet(b) {
      forall i | 0 <= i < b.ReadAble() ensures IndexFits(b, i) {
        SilentAt(b, b.read + i, i);
      }
    }
  }

  lemma SilentAt(b: Buf, k: nat, i: nat)
    requires b.Valid() && AllHarmless(b.Content()) && i < b.ReadAble() && k == b.read + i
    ensures Silent(b.data, k, b.write) <==> IndexFits(b, i)
  {
    assert Harmless(b.Content(), i);
    SilentInside(b, i);
  }

  /** The converse: a start byte whose received length word points at a received end byte is found. */
  lemma ImageIsNotQuiet(b: Buf, i: nat)
    requires b.Valid() && i + 5 <= b.ReadAble()
    requires var c := b.Content(); c[i] == PB_START && 0 <= EndOf(c, i) < |c| && c[EndOf(c, i)] == PB_END
    ensures !Quiet(b)
  {
    var c := b.Content();
    WordInside(b, i);
    assert b.data[b.read + i] == c[i] && b.data[b.read + EndOf(c, i)] == c[EndOf(c, i)];
    assert !Silent(b.data, b.read + i, b.write);
  }

  /** The `n` bytes that have arrived of the unfinished first frame of `ms`. */
  ghost function Received(ms: seq<Msg>, n: nat): bytes
    requires AllGood(ms)
  {
    if ms == [] || n >= FrameLen(ms[0]) then [] else Frame(ms[0])[..n]
  }

  ghost predicate Gentle(ms: seq<Msg>, n: nat)
    requires AllGood(ms)
  {
    AllHarmless(Received(ms, n))
  }

  /** A frame cut gently is quiet exactly when the indices fit. */
  lemma UnfinishedIsQuiet(b: Buf, ms: seq<Msg>)
    requires AllGood(ms) && b.Valid() && Begins(b.Content(), ms) && Gentle(ms, b.ReadAble())
    ensures Quiet(b) <==> EndsFit(b)
  {
    var c := b.Content();
    assert |c| == b.ReadAble();
    GentleIsHarmless(c, ms);
    HarmlessIsQuiet(b);
  }

  lemma GentleIsHarmless(c: bytes, ms: seq<Msg>)
    requires AllGood(ms) && Begins(c, ms) && Gentle(ms, |c|)
    ensures AllHarmless(c)
  {
    assert Received(ms, |c|) == c;
  }

  /** With `pending` bytes waiting, every chunk ends where the unfinished frame is gentle. */
  ghost predicate GentleCuts(ms: seq<Msg>, pending: nat, chunks: seq<bytes>)
    requires AllGood(ms)
    decreases |chunks|, 0
  {
    chunks != [] ==>
      var n := pending + |chunks[0]|;
      GentleFrom(ms[Completed(ms, n)..], Unfinished(ms, n), chunks[1..])
  }

  /** The cut that leaves `n` bytes of the first frame is gentle, and so are those after it. */
  ghost predicate GentleFrom(ms: seq<Msg>, n: nat, chunks: seq<bytes>)
    requires AllGood(ms)
    decreases |chunks|, 1
  {
    Gentle(ms, n) && GentleCuts(ms, n, chunks)
  }

  /** No chunk fills the buffer to its last byte, and the indices fit. */
  ghost predicate KeepsSpare(b: Buf, ms: seq<Msg>, chunks: seq<bytes>)
    requires b.Valid()
    decreases |chunks|
  {
    chunks != [] ==>
      var b1 := Write(b, chunks[0]);
      var k := Completed(ms, b1.ReadAble());
      var b2 := After(b1, ms[..k]);
      b1.WriteAble() > 0 && EndsFit(b2) && KeepsSpare(b2, ms[k..], chunks[1..])
  }

  lemma ChunkLands(b: Buf, ms: seq<Msg>, chunks: seq<bytes>) returns (b1: Buf, k: nat, b2: Buf)
    requires AllGood(ms) && b.Valid() && chunks != [] && b.Content() + Concat(chunks) == Stream(ms)
    requires Write(b, chunks[0]).WriteAble() > 0
    ensures b1 == Write(b, chunks[0]) && k == Completed(ms, b1.ReadAble()) && b2 == After(b1, ms[..k])
    ensures Accepted(b1, ms[..k]) && AllGood(ms[k..]) && b1.ReadAble() == b.ReadAble() + |chunks[0]|
    ensures b2.ReadAble() == Unfinished(ms, b1.ReadAble()) && Begins(b2.Content(), ms[k..])
    ensures b2.Content() + Concat(chunks[1..]) == Stream(ms[k..])
  {
    var tail;
    b1, k, tail := ChunkHolds(b, ms, chunks);
    SpareAccepts(b1, ms[..k], tail);
    DeliversIff(b1, ms[..k], tail);
    b2 := After(b1, ms[..k]);
  }

  lemma CutsNext(ms: seq<Msg>, pending: nat, chunks: seq<bytes>, n: nat, rest: seq<Msg>, u: nat)
    requires AllGood(ms) && AllGood(rest) && chunks != [] && GentleCuts(ms, pending, chunks)
    requires n == pending + |chunks[0]| && rest == ms[Completed(ms, n)..] && u == Unfinished(ms, n)
    ensures GentleFrom(rest, u, chunks[1..])
  {
  }

  lemma SpareNext(b: Buf, ms: seq<Msg>, chunks: seq<bytes>, b1: Buf, k: nat)
    requires b.Valid() && chunks != [] && b1 == Write(b, chunks[0]) && k == Completed(ms, b1.ReadAble())
    requires KeepsSpare(b, ms, chunks)
    ensures b1.WriteAble() > 0 && EndsFit(After(b1, ms[..k]))
    ensures KeepsSpare(After(b1, ms[..k]), ms[k..], chunks[1..])
  {
  }

  /** One gentle chunk: its moves are accepted, what it leaves is quiet, and the rest is gentle again. */
  lemma GentleChunk(b: Buf, ms: seq<Msg>, chunks: seq<bytes>) returns (b1: Buf, k: nat, b2: Buf)
    requires AllGood(ms) && b.Valid() && chunks != [] && b.Content() + Concat(chunks) == Stream(ms)
    requires GentleCuts(ms, b.ReadAble(), chunks) && KeepsSpare(b, ms, chunks)
    ensures b1 == Write(b, chunks[0]) && k == Completed(ms, b1.ReadAble()) && b2 == After(b1, ms[..k])
    ensures Accepted(b1, ms[..k]) && Quiet(b2) && AllGood(ms[k..])
    ensures b2.Content() + Concat(chunks[1..]) == Stream(ms[k..])
    ensures GentleCuts(ms[k..], b2.ReadAble(), chunks[1..]) && KeepsSpare(b2, ms[k..], chunks[1..])
  {
    SpareNext(b, ms, chunks, Write(b, chunks[0]), Completed(ms, Write(b, chunks[0]).ReadAble()));
    b1, k, b2 := ChunkLands(b, ms, chunks);
    CutsNext(ms, b.ReadAble(), chunks, b1.ReadAble(), ms[k..], b2.ReadAble());
    UnfinishedIsQuiet(b2, ms[k..]);
  }

  lemma {:induction false} GentleCutsAreClean(b: Buf, ms: seq<Msg>, chunks: seq<bytes>)
    requires AllGood(ms) && b.Valid() && b.Content() + Concat(chunks) == Stream(ms)
    requires GentleCuts(ms, b.ReadAble(), chunks) && KeepsSpare(b, ms, chunks)
    ensures CleanRun(b, ms, chunks)
    decreases |chunks|
  {
    if chunks != [] {
      var b1, k, b2 := GentleChunk(b, ms, chunks);
      GentleCutsAreClean(b2, ms[k..], chunks[1..]);
      CleanRunNext(b, ms, chunks, b1, k, b2);
    }
  }

  /**
   * Stream reassembly: chunks that are received with a byte to spare, and end between frames,
   * behind a start byte or behind a length word with no second start byte received, come out
   * as the original messages: each decode delivers what its chunk completed and no more.
   */
  lemma StreamReassembly(b: Buf, ms: seq<Msg>, chunks: seq<bytes>) returns (b': Buf)
    requires AllGood(ms) && b.Valid() && b.Content() == []
    requires Concat(chunks) == Stream(ms)
    requires GentleCuts(ms, 0, chunks) && KeepsSpare(b, ms, chunks)
    ensures Feeds(b, chunks, WithIds(ms), b') && b'.Valid() && b'.Content() == []
    ensures Lockstep(b, ms, chunks)
  {
    assert b.Content() + Concat(chunks) == Stream(ms) && b.ReadAble() == 0;
    assert CleanRun(b, ms, chunks) by {
      GentleCutsAreClean(b, ms, chunks);
    }
    LockstepIff(b, ms, chunks);
    b' := CleanRunFeeds(b, ms, chunks);
  }

  /** The start byte occurs in the frame only where it belongs. */
  ghost predicate LoneStart(m: Msg)
    requires Encodable(m)
  {
    forall i | 0 < i < FrameLen(m) :: Frame(m)[i] != PB_START
  }

  ghost predicate AllLone(ms: seq<Msg>)
    requires AllGood(ms)
  {
    forall i | 0 <= i < |ms| :: LoneStart(ms[i])
  }

  /** Each cut leaves 0, 1 or at least 5 bytes of the unfinished frame. */
  ghost predicate CutsOutsideLength(ms: seq<Msg>, pending: nat, chunks: seq<bytes>)
    decreases |chunks|
  {
    chunks != [] ==>
      var n := pending + |chunks[0]|;
      && (Unfinished(ms, n) <= 1 || Unfinished(ms, n) >= 5)
      && CutsOutsideLength(ms[Completed(ms, n)..], Unfinished(ms, n), chunks[1..])
  }

  lemma OutsideNext(ms: seq<Msg>, pending: nat, chunks: seq<bytes>, n: nat, rest: seq<Msg>, u: nat)
    requires chunks != [] && CutsOutsideLength(ms, pending, chunks)
    requires n == pending + |chunks[0]| && rest == ms[Completed(ms, n)..] && u == Unfinished(ms, n)
    ensures (u <= 1 || u >= 5) && CutsOutsideLength(rest, u, chunks[1..])
  {
  }

  lemma GentleFirst(ms: seq<Msg>, pending: nat, chunks: seq<bytes>, n: nat, rest: seq<Msg>, u: nat)
    requires AllGood(ms) && AllGood(rest) && chunks != []
    requires n == pending + |chunks[0]| && rest == ms[Completed(ms, n)..] && u == Unfinished(ms, n)
    requires GentleFrom(rest, u, chunks[1..])
    ensures GentleCuts(ms, pending, chunks)
  {
  }

  lemma LoneIsGentle(ms: seq<Msg>, n: nat)
    requires AllGood(ms) && AllLone(ms) && (n <= 1 || n >= 5)
    ensures Gentle(ms, n)
  {
    var p := Received(ms, n);
    if p != [] {
      assert LoneStart(ms[0]);
      RawCarries(WithId(ms[0]));
      FromNetWord(FrameLen(ms[0]));
      assert |p| >= 5 ==> p[1..5] == Frame(ms[0])[1..5];
      forall i | 0 <= i < |p| ensures Harmless(p, i) {
      }
    }
  }

  /** Frames with a lone start byte may be cut anywhere outside their length words. */
  lemma {:induction false} LoneStartsCutGently(ms: seq<Msg>, pending: nat, chunks: seq<bytes>)
    requires AllGood(ms) && AllLone(ms) && CutsOutsideLength(ms, pending, chunks)
    ensures GentleCuts(ms, pending, chunks)
    decreases |chunks|
  {
    if chunks != [] {
      var n := pending + |chunks[0]|;
      var rest, u := ms[Completed(ms, n)..], Unfinished(ms, n);
      OutsideNext(ms, pending, chunks, n, rest, u);
      LoneIsGentle(rest, u);
      LoneStartsCutGently(rest, u, chunks[1..]);
      GentleFirst(ms, pending, chunks, n, rest, u);
    }
  }

  lemma {:induction false} GroupCompletes(g: seq<Msg>, more: seq<Msg>)
    requires AllGood(g)
    ensures Completed(g + more, |Stream(g)|) == |g| && Unfinished(g + more, |Stream(g)|) == 0
    decreases |g|
  {
    if g == [] {
      assert g + more == more;
    } else {
      StreamCons(g);
      assert (g + more)[0] == g[0] && (g + more)[1..] == g[1..] + more;
      GroupCompletes(g[1..], more);
    }
  }

  /** A whole stream in one chunk is a clean run, given a byte to spare. */
  lemma OneChunkIsClean(b: Buf, ms: seq<Msg>, c: bytes)
    requires AllGood(ms) && c == Stream(ms) && b.Valid() && b.Content() == [] && Write(b, c).WriteAble() > 0
    ensures CleanRun(b, ms, [c])
  {
    var b1 := Write(b, c);
    WriteToEmpty(b, c);
    AllComplete(ms);
    FramesAreClean(b1, ms);
    CleanRunOne(b, ms, c, b1, |ms|);
  }

  lemma WriteToEmpty(b: Buf, s: bytes)
    requires b.Valid() && b.Content() == []
    ensures Write(b, s).Content() == s && Write(b, s).ReadAble() == |s|
  {
    assert [] + s == s;
  }

  lemma CleanRunOne(b: Buf, ms: seq<Msg>, c: bytes, b1: Buf, k: nat)
    requires b.Valid() && b1 == Write(b, c) && k == Completed(ms, b1.ReadAble())
    requires Accepted(b1, ms[..k]) && Quiet(After(b1, ms[..k]))
    ensures CleanRun(b, ms, [c])
  {
    CleanRunNext(b, ms, [c], b1, k, After(b1, ms[..k]));
  }

  lemma AllComplete(ms: seq<Msg>)
    requires AllGood(ms)
    ensures Completed(ms, |Stream(ms)|) == |ms| && ms[..|ms|] == ms
  {
    assert ms + [] == ms;
    GroupCompletes(ms, []);
  }

  lemma FramesAreClean(b: Buf, ms: seq<Msg>)
    requires AllGood(ms) && b.Valid() && b.Content() == Stream(ms) && b.WriteAble() > 0
    ensures Accepted(b, ms) && Quiet(After(b, ms))
  {
    assert Stream(ms) == Stream(ms) + [];
    SpareAccepts(b, ms, []);
    DeliversIff(b, ms, []);
  }

  /** Whatever the payloads hold, whole frames in a chunk of their own are cut gently. */
  lemma WholeFramesCutGently(g: seq<Msg>, more: seq<Msg>, chunks: seq<bytes>)
    requires AllGood(g) && AllGood(more) && GentleCuts(more, 0, chunks)
    ensures AllGood(g + more) && GentleCuts(g + more, 0, [Stream(g)] + chunks)
  {
    GroupCompletes(g, more);
    assert (g + more)[|g|..] == more && ([Stream(g)] + chunks)[1..] == chunks;
  }

  /**
   * The cut rule cannot be dropped: the first two bytes of any frame shorter than 2^24,
   * received alone in a fresh buffer, make the decoder read before its vector.
   */
  lemma CutInsideLengthFails(m: Msg, size: nat)
    requires Encodable(m) && FrameLen(m) < 0x100_0000
    ensures Decode(Write(New(size), Frame(m)[..2]), 1).status == Failed
  {
    RawCarries(WithId(m));
    TopByte(FrameLen(m));
    assert Frame(m)[1] == Frame(m)[1..5][0];
    assert Frame(m)[..2] == [PB_START, 0];
    TwoBytesFail(size);
  }

  /** Two bytes in a vector that ends there or goes on with zeros. */
  lemma TwoBytesOverrun(tmp: bytes)
    requires |tmp| >= 2 && tmp[0] == PB_START && forall i | 1 <= i < |tmp| :: tmp[i] == 0
    ensures RunsOff(tmp, 0, 2)
  {
    if |tmp| >= 5 {
      assert tmp[1..5] == [0, 0, 0, 0];
      ZeroWord();
    }
  }

  /** Room made in an empty buffer of zeros is zeros. */
  lemma FreshRoom(size: nat, n: nat)
    ensures var room := Room(New(size), n);
            room.read == room.write == 0 && room.data == Zeros(|room.data|) && |room.data| >= n
  {
  }

  lemma TwoBytesWritten(size: nat)
    ensures var b := Write(New(size), [PB_START, 0]);
            && b.read == 0 && b.write == 2 && |b.data| >= 2 && b.data[0] == PB_START
            && forall i | 1 <= i < |b.data| :: b.data[i] == 0
  {
    var room, b := Room(New(size), 2), Write(New(size), [PB_START, 0]);
    FreshRoom(size, 2);
    assert b.data == [PB_START, 0] + Zeros(|room.data|)[2..];
  }

  lemma TwoBytesFail(size: nat)
    ensures Decode(Write(New(size), [PB_START, 0]), 1).status == Failed
  {
    var b := Write(New(size), [PB_START, 0]);
    TwoBytesWritten(size);
    TwoBytesOverrun(b.data);
    ScanExact(b.data, 0, 2);
    assert !Silent(b.data, 0, 2) && FirstLoud(b.data, 0, 2, 0);
    assert DecodeBody(Decoding(b, [])) == Fail;
  }

  /**
   * Nor can the rule on start bytes: a complete frame image anywhere in the readable bytes,
   * say in the payload of an unfinished frame, keeps the buffer from being quiet.
   */
  lemma FrameImageIsNotQuiet(b: Buf, at: nat, inner: Msg)
    requires b.Valid() && Encodable(inner) && b.read <= at && at + FrameLen(inner) <= b.write
    requires FrameAt(b.data, at, inner)
    ensures !Quiet(b)
  {
    FrameBounds(b.data, at, inner);
    assert !Silent(b.data, at, b.write);
  }

  /** Nor the one on the end index: such a length, in any field, makes `i + pk_len` overflow. */
  lemma OverflowIsNotQuiet(b: Buf, at: nat)
    requires b.Valid() && b.read <= at && at + 1 < b.write && at + 5 <= |b.data| && b.data[at] == PB_START
    requires at + WordAt(b.data, at + 1) > INT32_MAX >= b.write
    ensures !Quiet(b)
  {
    assert !Silent(b.data, at, b.write);
  }

  lemma TopByte(n: nat)
    requires n < 0x100_0000
    ensures Word(n)[0] == 0
  {
    assert Word(n)[0] == BigEndian(n / 0x100, 3)[0] == BigEndian(n / 0x100 / 0x100, 2)[0]
        == BigEndian(n / 0x100 / 0x100 / 0x100, 1)[0];
  }

  lemma ZeroWord()
    ensures Unsigned([0, 0, 0, 0]) == 0
  {
    NetworkOrder(0, 0, 0, 0);
  }
}
