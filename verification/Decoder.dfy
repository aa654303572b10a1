/**
 * net/coder/tinypb_coder.cc, `decode`, on values. Reads outside the vector, copies that
 * overflow the decoder's local arrays and unterminated C strings are the outcome `Fault`.
 */
module Decoder {
  import opened Bytes
  import opened BufferSpec
  import opened Frames
  import opened Loops

  /** The result of parsing: field lengths, a frame the decoder skips, or undefined behaviour. */
  datatype Layout = Layout(idLen: nat, nameLen: nat, infoLen: nat, payloadLen: nat) | Rejected | Fault

  const ID_SIZE := 100
  const TEXT_SIZE := 512

  predicate Has(tmp: bytes, at: int, n: int) { 0 <= at && 0 <= n && at + n <= |tmp| }

  function Cut(tmp: bytes, at: int, n: int): bytes
    requires Has(tmp, at, n)
  {
    tmp[at..at + n]
  }

  function WordAt(tmp: bytes, at: int): int32
    requires Has(tmp, at, 4)
  {
    FromNet(tmp[at..at + 4])
  }

  /**
   * `memcpy` into a zeroed array of `size` bytes, then a C-string constructor: the copy must
   * fit, and there must be a NUL left to stop at.
   */
  predicate Terminated(s: bytes, size: nat) { |s| < size || (|s| == size && |CString(s)| < |s|) }

  predicate TextOk(tmp: bytes, at: int, n: int, size: nat) {
    Has(tmp, at, n) && Terminated(Cut(tmp, at, n), size)
  }

  /** The field-by-field parse of the frame found between `start` and `end`. */
  function Parse(tmp: bytes, start: nat, end: int, pkLen: int): (l: Layout)
    ensures l.Layout? ==> Spans(tmp, start, l)
  {
    var at := start + 5;
    if at >= end then Rejected
    else if !Has(tmp, at, 4) || !TextOk(tmp, at + 4, WordAt(tmp, at), ID_SIZE) then Fault
    else ParseName(tmp, start, end, pkLen, WordAt(tmp, at))
  }

  function ParseName(tmp: bytes, start: nat, end: int, pkLen: int, idLen: nat): (l: Layout)
    requires Has(tmp, start + 9, idLen)
    ensures l.Layout? ==> Spans(tmp, start, l) && l.idLen == idLen
  {
    var at := start + 9 + idLen;
    if at >= end then Rejected
    else if !Has(tmp, at, 4) || !TextOk(tmp, at + 4, WordAt(tmp, at), TEXT_SIZE) then Fault
    else ParseInfo(tmp, start, end, pkLen, idLen, WordAt(tmp, at))
  }

  function ParseInfo(tmp: bytes, start: nat, end: int, pkLen: int, idLen: nat, nameLen: nat): (l: Layout)
    requires Has(tmp, start + 13 + idLen, nameLen)
    ensures l.Layout? ==> Spans(tmp, start, l) && l.idLen == idLen && l.nameLen == nameLen
  {
    var at := start + 13 + idLen + nameLen;
    if at >= end then Rejected
    else if !Has(tmp, at, 4) then Fault
    else if at + 4 >= end then Rejected
    else if !Has(tmp, at + 4, 4) || !TextOk(tmp, at + 8, WordAt(tmp, at + 4), TEXT_SIZE) then Fault
    else
      var infoLen := WordAt(tmp, at + 4);
      var payloadLen := pkLen - nameLen - idLen - infoLen - 2 - 24;
      if !Has(tmp, at + 8 + infoLen, payloadLen) then Fault
      else Layout(idLen, nameLen, infoLen, payloadLen)
  }

  /** All fields of the layout lie within the vector. */
  predicate Spans(tmp: bytes, start: nat, l: Layout)
    requires l.Layout?
  {
    start + 21 + l.idLen + l.nameLen + l.infoLen + l.payloadLen <= |tmp|
  }

  /** The message object filled from the parsed fields. */
  function MsgAt(tmp: bytes, start: nat, idLen: nat, nameLen: nat, infoLen: nat, payloadLen: nat): Msg
    requires start + 21 + idLen + nameLen + infoLen + payloadLen <= |tmp|
  {
    var at := start + 13 + idLen + nameLen;
    Msg(CString(Cut(tmp, start + 9, idLen)),
        CString(Cut(tmp, start + 13 + idLen, nameLen)),
        WordAt(tmp, at),
        CString(Cut(tmp, at + 8, infoLen)),
        Cut(tmp, at + 8 + infoLen, payloadLen))
  }

  // ---- What the parse accepts, on the bytes alone ----

  /**
   * A text field at index `at`: its length word begins before the end byte, its `n` bytes lie in
   * the vector, and a zeroed array of `size` bytes takes them and leaves a NUL to stop at.
   */
  ghost predicate FieldAt(tmp: bytes, at: int, end: int, n: nat, size: nat) {
    && at < end && Has(tmp, at, 4) && WordAt(tmp, at) == n && Has(tmp, at + 4, n)
    && (n < size || (n == size && 0 in Cut(tmp, at + 4, n)))
  }

  lemma TerminatedIff(s: bytes, size: nat)
    ensures Terminated(s, size) <==> |s| < size || (|s| == size && 0 in s)
  {
    if |CString(s)| < |s| {
      assert s[|CString(s)|] == 0;
    } else {
      assert CString(s) == s;
    }
  }

  /** The guard of the parse at a text field is the field's being there. */
  lemma FieldIff(tmp: bytes, at: nat, end: int, size: nat)
    requires at < end
    ensures Has(tmp, at, 4) && TextOk(tmp, at + 4, WordAt(tmp, at), size)
            <==> Has(tmp, at, 4) && WordAt(tmp, at) >= 0 && FieldAt(tmp, at, end, WordAt(tmp, at), size)
  {
    if Has(tmp, at, 4) && Has(tmp, at + 4, WordAt(tmp, at)) {
      TerminatedIff(Cut(tmp, at + 4, WordAt(tmp, at)), size);
    }
  }

  /** The error code, the last text field and the payload behind `texts` bytes of text. */
  ghost predicate RestAt(tmp: bytes, at: nat, end: int, pkLen: int, texts: nat, infoLen: nat, payloadLen: nat) {
    && at < end && Has(tmp, at, 4) && FieldAt(tmp, at + 4, end, infoLen, TEXT_SIZE)
    && payloadLen == pkLen - OVERHEAD - texts - infoLen && Has(tmp, at + 8 + infoLen, payloadLen)
  }

  lemma InfoStageIff(tmp: bytes, start: nat, end: int, pkLen: int, l: Layout)
    requires l.Layout? && Has(tmp, start + 13 + l.idLen, l.nameLen)
    ensures ParseInfo(tmp, start, end, pkLen, l.idLen, l.nameLen) == l
            <==> RestAt(tmp, start + 13 + l.idLen + l.nameLen, end, pkLen, l.idLen + l.nameLen, l.infoLen, l.payloadLen)
  {
    var at := start + 13 + l.idLen + l.nameLen;
    if at + 4 < end {
      FieldIff(tmp, at + 4, end, TEXT_SIZE);
    }
  }

  lemma NameStageIff(tmp: bytes, start: nat, end: int, pkLen: int, idLen: nat, l: Layout)
    requires l.Layout? && Has(tmp, start + 9, idLen)
    ensures ParseName(tmp, start, end, pkLen, idLen) == l
            <==> FieldAt(tmp, start + 9 + idLen, end, l.nameLen, TEXT_SIZE)
                 && ParseInfo(tmp, start, end, pkLen, idLen, l.nameLen) == l
  {
    if start + 9 + idLen < end {
      FieldIff(tmp, start + 9 + idLen, end, TEXT_SIZE);
    }
  }

  lemma IdStageIff(tmp: bytes, start: nat, end: int, pkLen: int, l: Layout)
    requires l.Layout?
    ensures Parse(tmp, start, end, pkLen) == l
            <==> FieldAt(tmp, start + 5, end, l.idLen, ID_SIZE) && ParseName(tmp, start, end, pkLen, l.idLen) == l
  {
    if start + 5 < end {
      FieldIff(tmp, start + 5, end, ID_SIZE);
    }
  }

  /** A package of any origin is laid out as `l` exactly when its bytes say so. */
  lemma ParseIff(tmp: bytes, start: nat, end: int, pkLen: int, l: Layout)
    requires l.Layout?
    ensures Parse(tmp, start, end, pkLen) == l
            <==> FieldAt(tmp, start + 5, end, l.idLen, ID_SIZE)
                 && FieldAt(tmp, start + 9 + l.idLen, end, l.nameLen, TEXT_SIZE)
                 && RestAt(tmp, start + 13 + l.idLen + l.nameLen, end, pkLen, l.idLen + l.nameLen, l.infoLen, l.payloadLen)
  {
    IdStageIff(tmp, start, end, pkLen, l);
    if FieldAt(tmp, start + 5, end, l.idLen, ID_SIZE) {
      NameStageIff(tmp, start, end, pkLen, l.idLen, l);
      if FieldAt(tmp, start + 9 + l.idLen, end, l.nameLen, TEXT_SIZE) {
        InfoStageIff(tmp, start, end, pkLen, l);
      }
    }
  }

  /** The error code at `at`, or the length word behind it, does not begin before the end byte. */
  ghost predicate CodeShort(tmp: bytes, at: nat, end: int) { at >= end || (Has(tmp, at, 4) && at + 4 >= end) }

  ghost predicate NameShort(tmp: bytes, at: nat, end: int) {
    at >= end || exists n: nat :: FieldAt(tmp, at, end, n, TEXT_SIZE) && CodeShort(tmp, at + 4 + n, end)
  }

  ghost predicate IdShort(tmp: bytes, at: nat, end: int) {
    at >= end || exists n: nat :: FieldAt(tmp, at, end, n, ID_SIZE) && NameShort(tmp, at + 4 + n, end)
  }

  lemma NameRejects(tmp: bytes, start: nat, end: int, pkLen: int, idLen: nat)
    requires Has(tmp, start + 9, idLen)
    ensures ParseName(tmp, start, end, pkLen, idLen) == Rejected <==> NameShort(tmp, start + 9 + idLen, end)
  {
    if start + 9 + idLen < end {
      FieldIff(tmp, start + 9 + idLen, end, TEXT_SIZE);
    }
  }

  /** A package is skipped exactly when it ends before the words of a message have begun. */
  lemma RejectedIff(tmp: bytes, start: nat, end: int, pkLen: int)
    ensures Parse(tmp, start, end, pkLen) == Rejected <==> IdShort(tmp, start + 5, end)
  {
    var at := start + 5;
    if at < end {
      FieldIff(tmp, at, end, ID_SIZE);
      if Has(tmp, at, 4) && WordAt(tmp, at) >= 0 && Has(tmp, at + 4, WordAt(tmp, at)) {
        NameRejects(tmp, start, end, pkLen, WordAt(tmp, at));
      }
    }
  }

  // ---- The scan for a frame ----

  datatype Scan = NotFound | Found(start: nat, end: nat, pkLen: int32) | OutOfBounds

  /** What the loop body concludes about a start byte at index `i` with more bytes behind it. */
  datatype Probe = Continue | Accept(end: nat, pkLen: int32) | Overrun

  function ProbeAt(tmp: bytes, i: nat, write: nat): Probe
    requires i < write <= |tmp|
  {
    if tmp[i] != PB_START || i + 1 >= write then Continue
    else if i + 5 > |tmp| then Overrun
    else
      var pkLen := FromNet(tmp[i + 1..i + 5]);
      var j := i + pkLen - 1;
      if j >= write then (if i + pkLen > INT32_MAX then Overrun else Continue)  // i + pk_len is an int
      else if j < 0 then Overrun
      else if tmp[j] == PB_END then Accept(j, pkLen)
      else Continue
  }

  function ScanFrom(tmp: bytes, i: nat, write: nat): (r: Scan)
    requires i <= write <= |tmp|
    ensures r.Found? ==> i <= r.start < write && r.end < write && r.end == r.start + r.pkLen - 1
    decreases write - i
  {
    if i == write then NotFound
    else
      match ProbeAt(tmp, i, write)
      case Continue => ScanFrom(tmp, i + 1, write)
      case Accept(j, pkLen) => Found(i, j, pkLen)
      case Overrun => OutOfBounds
  }

  // ---- What the scan looks for, on the bytes alone ----

  /** The index of the last byte of the package whose start byte is at `i`. */
  function EndOf(tmp: bytes, i: nat): int
    requires i + 5 <= |tmp|
  {
    i + WordAt(tmp, i + 1) - 1
  }

  /** A start byte whose length word points at an end byte before the write index. */
  predicate HasImage(tmp: bytes, i: nat, write: nat)
    requires i < write <= |tmp|
  {
    && tmp[i] == PB_START && i + 1 < write && i + 5 <= |tmp|
    && 0 <= EndOf(tmp, i) < write && tmp[EndOf(tmp, i)] == PB_END
  }

  /** A start byte whose length word is cut off by the vector, points before it, or overflows. */
  predicate RunsOff(tmp: bytes, i: nat, write: nat)
    requires i < write <= |tmp|
  {
    && tmp[i] == PB_START && i + 1 < write
    && (i + 5 > |tmp| || EndOf(tmp, i) < 0 || (EndOf(tmp, i) >= write && EndOf(tmp, i) >= INT32_MAX))
  }

  predicate Silent(tmp: bytes, i: nat, write: nat)
    requires i < write <= |tmp|
  {
    !HasImage(tmp, i, write) && !RunsOff(tmp, i, write)
  }

  ghost predicate AllSilent(tmp: bytes, i: nat, write: nat)
    requires write <= |tmp|
  {
    forall k | i <= k < write :: Silent(tmp, k, write)
  }

  /** Nothing in the readable bytes looks like a complete frame, wherever it may start. */
  ghost predicate Quiet(b: Buf)
    requires b.Valid()
  {
    AllSilent(b.data, b.read, b.write)
  }

  lemma ProbeMeaning(tmp: bytes, i: nat, write: nat)
    requires i < write <= |tmp|
    ensures ProbeAt(tmp, i, write) == Continue <==> Silent(tmp, i, write)
    ensures ProbeAt(tmp, i, write) == Overrun <==> RunsOff(tmp, i, write)
    ensures ProbeAt(tmp, i, write).Accept? <==> HasImage(tmp, i, write)
    ensures HasImage(tmp, i, write) ==> ProbeAt(tmp, i, write) == Accept(EndOf(tmp, i), WordAt(tmp, i + 1))
  {
  }

  /** The first index that is not silent. */
  ghost predicate FirstLoud(tmp: bytes, i: nat, write: nat, k: nat)
    requires write <= |tmp|
  {
    i <= k < write && !Silent(tmp, k, write) && forall j | i <= j < k :: Silent(tmp, j, write)
  }

  lemma FirstLoudStep(tmp: bytes, i: nat, write: nat, k: nat)
    requires i < write <= |tmp| && FirstLoud(tmp, i, write, k)
    ensures if Silent(tmp, i, write) then FirstLoud(tmp, i + 1, write, k) else k == i
  {
  }

  lemma {:induction false} ScanQuiet(tmp: bytes, i: nat, write: nat)
    requires i <= write <= |tmp|
    ensures ScanFrom(tmp, i, write) == NotFound <==> AllSilent(tmp, i, write)
    decreases write - i
  {
    if i < write {
      ProbeMeaning(tmp, i, write);
      if Silent(tmp, i, write) {
        ScanQuiet(tmp, i + 1, write);
      }
    }
  }

  lemma {:induction false} ScanLoud(tmp: bytes, i: nat, write: nat, k: nat)
    requires i <= write <= |tmp| && FirstLoud(tmp, i, write, k)
    ensures ScanFrom(tmp, i, write)
            == if HasImage(tmp, k, write) then Found(k, EndOf(tmp, k), WordAt(tmp, k + 1)) else OutOfBounds
    decreases write - i
  {
    ProbeMeaning(tmp, i, write);
    FirstLoudStep(tmp, i, write, k);
    if Silent(tmp, i, write) {
      ScanLoud(tmp, i + 1, write, k);
    }
  }

  /** The scan stops at the first index that is not silent, and does there what the bytes say. */
  lemma ScanExact(tmp: bytes, i: nat, write: nat)
    requires i <= write <= |tmp|
    ensures ScanFrom(tmp, i, write) == NotFound <==> AllSilent(tmp, i, write)
    ensures forall k: nat | FirstLoud(tmp, i, write, k) ::
              ScanFrom(tmp, i, write)
              == if HasImage(tmp, k, write) then Found(k, EndOf(tmp, k), WordAt(tmp, k + 1)) else OutOfBounds
  {
    ScanQuiet(tmp, i, write);
    forall k: nat | FirstLoud(tmp, i, write, k)
      ensures ScanFrom(tmp, i, write)
              == if HasImage(tmp, k, write) then Found(k, EndOf(tmp, k), WordAt(tmp, k + 1)) else OutOfBounds
    {
      ScanLoud(tmp, i, write, k);
    }
  }

  // ---- One pass of the outer loop, and its iteration ----

  /** Stop, push the message laid out as `l` and move on by `n`, just move on, or fault. */
  datatype Pass = Stop | Push(start: nat, l: Layout, n: int) | Discard(n: int) | Crash

  function DecodePass(b: Buf): (p: Pass)
    requires b.Valid()
    ensures p.Push? || p.Discard? ==> p.n <= b.ReadAble()
    ensures p.Push? ==> p.l.Layout? && Spans(b.data, p.start, p.l)
  {
    match ScanFrom(b.data, b.read, b.write)
    case NotFound => Stop
    case OutOfBounds => Crash
    case Found(start, end, pkLen) =>
      var l := Parse(b.data, start, end, pkLen);
      if l.Rejected? then Discard(end - start + 1)
      else if l.Fault? then Crash
      else Push(start, l, end - start + 1)
  }

  /** The message a layout stands for. */
  function Message(tmp: bytes, start: nat, l: Layout): Msg
    requires l.Layout? && Spans(tmp, start, l)
  {
    MsgAt(tmp, start, l.idLen, l.nameLen, l.infoLen, l.payloadLen)
  }

  /** The loop's state: the buffer and the messages pushed so far. */
  datatype Decoding = Decoding(buf: Buf, out: seq<Msg>)

  /** The body of the outer loop. */
  function DecodeBody(d: Decoding): Next<Decoding> {
    if !d.buf.Valid() then Fail
    else
      match DecodePass(d.buf)
      case Stop => Leave
      case Crash => Fail
      case Push(start, l, n) =>
        Again(Decoding(MoveRead(d.buf, n), d.out + [Message(d.buf.data, start, l)]))
      case Discard(n) => Again(Decoding(MoveRead(d.buf, n), d.out))
  }

  /** The first `k` passes of `decode` over `b`. */
  function Decode(b: Buf, k: nat): Run<Decoding> { Iterate(DecodeBody, Decoding(b, []), k) }

  // ---- Parsing a frame the encoder produced ----

  predicate Fits(s: bytes, size: nat) { |s| < size && NulFree(s) }

  /** A message whose text fields survive the decoder's fixed-size arrays. */
  predicate Faithful(m: Msg) {
    AllFit(WithId(m))
  }

  lemma CStringIff(s: bytes)
    ensures CString(s) == s <==> NulFree(s)
  {
    assert |CString(s)| < |s| ==> s[|CString(s)|] == 0;
  }

  /** `tmp` holds the raw frame of `m` from index `start` on. */
  ghost predicate RawAt(tmp: bytes, start: nat, m: Msg)
    requires RawLen(m) <= INT32_MAX
  {
    start + RawLen(m) <= |tmp| && tmp[start..start + RawLen(m)] == Raw(m)
  }

  lemma SliceOfSlice(tmp: bytes, start: nat, len: nat, lo: nat, hi: nat)
    requires start + len <= |tmp| && lo <= hi <= len
    ensures tmp[start..start + len][lo..hi] == tmp[start + lo..start + hi]
  {
    var a, b := tmp[start..start + len][lo..hi], tmp[start + lo..start + hi];
    assert |a| == |b| == hi - lo;
    assert forall k | 0 <= k < hi - lo :: a[k] == tmp[start + lo + k] == b[k];
  }

  ghost predicate WordIs(tmp: bytes, at: int, v: int32) { Has(tmp, at, 4) && WordAt(tmp, at) == v }

  ghost predicate CutIs(tmp: bytes, at: int, x: bytes) { Has(tmp, at, |x|) && Cut(tmp, at, |x|) == x }

  /** Reading a stretch of the frame is reading the same stretch of `tmp`, shifted by `start`. */
  lemma FrameSlice(tmp: bytes, start: nat, f: bytes, lo: nat, x: bytes, at: nat)
    requires start + |f| <= |tmp| && tmp[start..start + |f|] == f && at == start + lo
    requires lo + |x| <= |f| && f[lo..lo + |x|] == x
    ensures CutIs(tmp, at, x)
  {
    SliceOfSlice(tmp, start, |f|, lo, lo + |x|);
  }

  lemma FrameWord(tmp: bytes, start: nat, f: bytes, lo: nat, v: int32, at: nat)
    requires start + |f| <= |tmp| && tmp[start..start + |f|] == f && at == start + lo
    requires lo + 4 <= |f| && f[lo..lo + 4] == Word(v)
    ensures WordIs(tmp, at, v)
  {
    SliceOfSlice(tmp, start, |f|, lo, lo + 4);
    FromNetWord(v);
  }

  ghost predicate HeadInPlace(tmp: bytes, start: nat, m: Msg)
    requires RawLen(m) <= INT32_MAX
  {
    && start + RawLen(m) <= |tmp|
    && tmp[start] == PB_START && tmp[start + RawLen(m) - 1] == PB_END
    && WordIs(tmp, start + 1, RawLen(m))
    && WordIs(tmp, start + 5, |m.id|)
    && CutIs(tmp, start + 9, m.id)
  }

  ghost predicate NameInPlace(tmp: bytes, start: nat, m: Msg)
    requires RawLen(m) <= INT32_MAX
  {
    && WordIs(tmp, start + 9 + |m.id|, |m.name|)
    && CutIs(tmp, start + 13 + |m.id|, m.name)
    && WordIs(tmp, start + 13 + |m.id| + |m.name|, m.code)
  }

  ghost predicate InfoInPlace(tmp: bytes, start: nat, m: Msg)
    requires RawLen(m) <= INT32_MAX
  {
    var at := start + 13 + |m.id| + |m.name|;
    && WordIs(tmp, at + 4, |m.info|)
    && CutIs(tmp, at + 8, m.info)
    && CutIs(tmp, at + 8 + |m.info|, m.payload)
  }

  lemma HeadIsInPlace(tmp: bytes, start: nat, m: Msg, f: bytes)
    requires RawLen(m) <= INT32_MAX && Carries(f, m)
    requires start + |f| <= |tmp| && tmp[start..start + |f|] == f
    ensures HeadInPlace(tmp, start, m)
  {
    FrameWord(tmp, start, f, 1, RawLen(m), start + 1);
    FrameWord(tmp, start, f, 5, |m.id|, start + 5);
    FrameSlice(tmp, start, f, 9, m.id, start + 9);
  }

  lemma NameIsInPlace(tmp: bytes, start: nat, m: Msg, f: bytes)
    requires RawLen(m) <= INT32_MAX && Carries(f, m)
    requires start + |f| <= |tmp| && tmp[start..start + |f|] == f
    ensures NameInPlace(tmp, start, m)
  {
    NameTextIsInPlace(tmp, start, m, f);
    CodeIsInPlace(tmp, start, m, f);
  }

  lemma NameTextIsInPlace(tmp: bytes, start: nat, m: Msg, f: bytes)
    requires RawLen(m) <= INT32_MAX && Carries(f, m)
    requires start + |f| <= |tmp| && tmp[start..start + |f|] == f
    ensures WordIs(tmp, start + 9 + |m.id|, |m.name|) && CutIs(tmp, start + 13 + |m.id|, m.name)
  {
    FrameWord(tmp, start, f, 9 + |m.id|, |m.name|, start + 9 + |m.id|);
    FrameSlice(tmp, start, f, 13 + |m.id|, m.name, start + 13 + |m.id|);
  }

  lemma CodeIsInPlace(tmp: bytes, start: nat, m: Msg, f: bytes)
    requires RawLen(m) <= INT32_MAX && Carries(f, m)
    requires start + |f| <= |tmp| && tmp[start..start + |f|] == f
    ensures WordIs(tmp, start + 13 + |m.id| + |m.name|, m.code)
  {
    FrameWord(tmp, start, f, CodeAt(m), m.code, start + CodeAt(m));
  }

  lemma InfoIsInPlace(tmp: bytes, start: nat, m: Msg, f: bytes)
    requires RawLen(m) <= INT32_MAX && Carries(f, m)
    requires start + |f| <= |tmp| && tmp[start..start + |f|] == f
    ensures InfoInPlace(tmp, start, m)
  {
    InfoLengthIsInPlace(tmp, start, m, f);
    InfoTextIsInPlace(tmp, start, m, f);
    PayloadIsInPlace(tmp, start, m, f);
  }

  lemma InfoTextIsInPlace(tmp: bytes, start: nat, m: Msg, f: bytes)
    requires RawLen(m) <= INT32_MAX && Carries(f, m)
    requires start + |f| <= |tmp| && tmp[start..start + |f|] == f
    ensures CutIs(tmp, start + 13 + |m.id| + |m.name| + 8, m.info)
  {
    FrameSlice(tmp, start, f, CodeAt(m) + 8, m.info, start + CodeAt(m) + 8);
  }

  lemma InfoLengthIsInPlace(tmp: bytes, start: nat, m: Msg, f: bytes)
    requires RawLen(m) <= INT32_MAX && Carries(f, m)
    requires start + |f| <= |tmp| && tmp[start..start + |f|] == f
    ensures WordIs(tmp, start + 13 + |m.id| + |m.name| + 4, |m.info|)
  {
    FrameWord(tmp, start, f, CodeAt(m) + 4, |m.info|, start + CodeAt(m) + 4);
  }

  lemma PayloadIsInPlace(tmp: bytes, start: nat, m: Msg, f: bytes)
    requires RawLen(m) <= INT32_MAX && Carries(f, m)
    requires start + |f| <= |tmp| && tmp[start..start + |f|] == f
    ensures CutIs(tmp, start + 13 + |m.id| + |m.name| + 8 + |m.info|, m.payload)
  {
    var c := CodeAt(m) + 8 + |m.info|;
    FrameSlice(tmp, start, f, c, m.payload, start + c);
  }

  /** A frame's fields are read back one by one, whatever surrounds it. */
  lemma RawInPlace(tmp: bytes, start: nat, m: Msg)
    requires RawLen(m) <= INT32_MAX && RawAt(tmp, start, m)
    ensures HeadInPlace(tmp, start, m) && NameInPlace(tmp, start, m) && InfoInPlace(tmp, start, m)
  {
    RawCarries(m);
    HeadIsInPlace(tmp, start, m, Raw(m));
    NameIsInPlace(tmp, start, m, Raw(m));
    InfoIsInPlace(tmp, start, m, Raw(m));
  }

  predicate AllTerminated(m: Msg) {
    Terminated(m.id, ID_SIZE) && Terminated(m.name, TEXT_SIZE) && Terminated(m.info, TEXT_SIZE)
  }

  function LayoutOf(m: Msg): Layout {
    if AllTerminated(m) then Layout(|m.id|, |m.name|, |m.info|, |m.payload|) else Fault
  }

  function CTexts(m: Msg): Msg { Msg(CString(m.id), CString(m.name), m.code, CString(m.info), m.payload) }

  lemma ParseIdStage(tmp: bytes, start: nat, end: int, pkLen: int, id: bytes)
    requires start + 5 < end && |id| <= INT32_MAX
    requires WordIs(tmp, start + 5, |id|) && CutIs(tmp, start + 9, id)
    ensures Parse(tmp, start, end, pkLen) ==
            if Terminated(id, ID_SIZE) then ParseName(tmp, start, end, pkLen, |id|) else Fault
  {
  }

  lemma ParseNameStage(tmp: bytes, start: nat, end: int, pkLen: int, idLen: nat, name: bytes)
    requires Has(tmp, start + 9, idLen) && start + 9 + idLen < end && |name| <= INT32_MAX
    requires WordIs(tmp, start + 9 + idLen, |name|) && CutIs(tmp, start + 13 + idLen, name)
    ensures ParseName(tmp, start, end, pkLen, idLen) ==
            if Terminated(name, TEXT_SIZE) then ParseInfo(tmp, start, end, pkLen, idLen, |name|) else Fault
  {
  }

  lemma ParseInfoStage(tmp: bytes, start: nat, end: int, idLen: nat, nameLen: nat, info: bytes, payloadLen: nat)
    requires Has(tmp, start + 13 + idLen, nameLen) && |info| <= INT32_MAX
    requires var at := start + 13 + idLen + nameLen;
             && at + 4 < end && WordIs(tmp, at + 4, |info|) && CutIs(tmp, at + 8, info)
             && Has(tmp, at + 8 + |info|, payloadLen)
    ensures ParseInfo(tmp, start, end, OVERHEAD + idLen + nameLen + |info| + payloadLen, idLen, nameLen) ==
            if Terminated(info, TEXT_SIZE) then Layout(idLen, nameLen, |info|, payloadLen) else Fault
  {
  }

  lemma ParseInPlace(tmp: bytes, start: nat, m: Msg)
    requires RawLen(m) <= INT32_MAX
    requires HeadInPlace(tmp, start, m) && NameInPlace(tmp, start, m) && InfoInPlace(tmp, start, m)
    ensures Parse(tmp, start, start + RawLen(m) - 1, RawLen(m)) == LayoutOf(m)
  {
    var end := start + RawLen(m) - 1;
    ParseIdStage(tmp, start, end, RawLen(m), m.id);
    ParseNameStage(tmp, start, end, RawLen(m), |m.id|, m.name);
    ParseInfoStage(tmp, start, end, |m.id|, |m.name|, m.info, |m.payload|);
  }

  /** What the message object holds, given where the fields are. */
  lemma MsgStage(tmp: bytes, start: nat, m: Msg)
    requires start + 21 + |m.id| + |m.name| + |m.info| + |m.payload| <= |tmp|
    requires CutIs(tmp, start + 9, m.id) && CutIs(tmp, start + 13 + |m.id|, m.name)
    requires var at := start + 13 + |m.id| + |m.name|;
             WordIs(tmp, at, m.code) && CutIs(tmp, at + 8, m.info) && CutIs(tmp, at + 8 + |m.info|, m.payload)
    ensures var r := MsgAt(tmp, start, |m.id|, |m.name|, |m.info|, |m.payload|);
            && r.id == CString(m.id) && r.name == CString(m.name) && r.code == m.code
            && r.info == CString(m.info) && r.payload == m.payload
  {
  }

  lemma ParseRaw(tmp: bytes, start: nat, m: Msg)
    requires RawLen(m) <= INT32_MAX && RawAt(tmp, start, m)
    ensures Parse(tmp, start, start + RawLen(m) - 1, RawLen(m)) == LayoutOf(m)
    ensures MsgAt(tmp, start, |m.id|, |m.name|, |m.info|, |m.payload|) == CTexts(m)
  {
    RawInPlace(tmp, start, m);
    ParseInPlace(tmp, start, m);
    MsgStage(tmp, start, m);
  }

  predicate AllFit(m: Msg) { Fits(m.id, ID_SIZE) && Fits(m.name, TEXT_SIZE) && Fits(m.info, TEXT_SIZE) }

  lemma CTextsIff(m: Msg)
    ensures CTexts(m) == m && AllTerminated(m) <==> AllFit(m)
  {
    CStringIff(m.id);
    CStringIff(m.name);
    CStringIff(m.info);
  }

  /** `tmp` holds the frame of `m` from index `start` on. */
  ghost predicate FrameAt(tmp: bytes, start: nat, m: Msg)
    requires Encodable(m)
  {
    start + FrameLen(m) <= |tmp| && tmp[start..start + FrameLen(m)] == Frame(m)
  }

  /** The `len` bytes from index `start` on are parsed, and the result is `m`. */
  ghost predicate ParsesTo(tmp: bytes, start: nat, len: nat, m: Msg) {
    var l := Parse(tmp, start, start + len - 1, len);
    l.Layout? && Message(tmp, start, l) == m
  }

  lemma RawRoundTrip(tmp: bytes, start: nat, m: Msg)
    requires RawLen(m) <= INT32_MAX && RawAt(tmp, start, m)
    ensures ParsesTo(tmp, start, RawLen(m), m) <==> AllFit(m)
  {
    ParseRaw(tmp, start, m);
    CTextsIff(m);
  }

  /** A frame parses back to its message exactly when the message is faithful. */
  lemma ParseRoundTrip(tmp: bytes, start: nat, m: Msg)
    requires Encodable(m) && FrameAt(tmp, start, m)
    ensures ParsesTo(tmp, start, FrameLen(m), WithId(m)) <==> Faithful(m)
  {
    RawRoundTrip(tmp, start, WithId(m));
  }
}
