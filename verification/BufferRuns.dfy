/**
 * Whole runs of buffer operations: the buffer is a byte queue that loses nothing,
 * and the bytes it copies are paid for by the bytes that pass through it.
 */
module BufferRuns {
  import opened Bytes
  import opened BufferSpec

  datatype Op =
    | Append(s: bytes)  // writeToBuffer
    | Fill(s: bytes)    // a socket read into the free space, then moveWriteIndex
    | Double            // resizeBuffer(2 * size), issued by onRead when nothing is writable
    | Take(n: nat)      // readFromBuffer
    | Skip(n: nat)      // moveReadIndex

  /** A buffer with its history: bytes accepted, bytes consumed, and bytes copied. */
  datatype Meter = Meter(buf: Buf, written: bytes, consumed: bytes, grown: nat, compacted: nat)

  function Start(size: nat): Meter { Meter(New(size), [], [], 0, 0) }

  ghost predicate Legal(b: Buf, op: Op)
    requires b.Valid()
  {
    match op
    case Fill(s) => |s| <= b.WriteAble()
    case Double => b.WriteAble() == 0
    case Skip(n) => n <= b.ReadAble()
    case _ => true
  }

  function Step(m: Meter, op: Op): (m': Meter)
    requires m.buf.Valid() && Legal(m.buf, op)
    ensures m'.buf.Valid()
  {
    var b := m.buf;
    match op
    case Append(s) =>
      m.(buf := Write(b, s), written := m.written + s, grown := m.grown + GrowCost(b, |s|))
    case Fill(s) =>
      m.(buf := MoveWrite(Store(b, s), |s|),
         written := if Refused(b, b.write + |s|) then m.written else m.written + s,
         compacted := m.compacted + MoveWriteCost(Store(b, s), |s|))
    case Double =>
      m.(buf := Resize(b, 2 * |b.data|), grown := m.grown + b.ReadAble())
    case Take(n) =>
      m.(buf := Drop(b, n), consumed := m.consumed + b.Content()[..Min(n, b.ReadAble())],
         compacted := m.compacted + DropCost(b, n))
    case Skip(n) =>
      m.(buf := MoveRead(b, n),
         consumed := if Refused(b, b.read + n) then m.consumed else m.consumed + b.Content()[..n],
         compacted := m.compacted + MoveReadCost(b, n))
  }

  ghost predicate AllLegal(m: Meter, ops: seq<Op>)
    requires m.buf.Valid()
    decreases |ops|
  {
    ops != [] ==> Legal(m.buf, ops[0]) && AllLegal(Step(m, ops[0]), ops[1..])
  }

  ghost function Run(m: Meter, ops: seq<Op>): (m': Meter)
    requires m.buf.Valid() && AllLegal(m, ops)
    ensures m'.buf.Valid()
    decreases |ops|
  {
    if ops == [] then m else Run(Step(m, ops[0]), ops[1..])
  }

  // ---- FIFO over whole runs ----

  ghost predicate Conserves(m: Meter) {
    m.buf.Valid() && m.written == m.consumed + m.buf.Content()
  }

  lemma FillConserves(m: Meter, s: bytes)
    requires Conserves(m) && Legal(m.buf, Fill(s))
    ensures Conserves(Step(m, Fill(s)))
  {
    var b := Store(m.buf, s);
    assert b.data[b.write..b.write + |s|] == s;
  }

  lemma TakeConserves(m: Meter, n: nat)
    requires Conserves(m)
    ensures Conserves(Step(m, Take(n)))
  {
    var c, k := m.buf.Content(), Min(n, m.buf.ReadAble());
    assert c == c[..k] + c[k..];
  }

  lemma SkipConserves(m: Meter, n: nat)
    requires Conserves(m) && Legal(m.buf, Skip(n))
    ensures Conserves(Step(m, Skip(n)))
  {
    var c := m.buf.Content();
    assert c == c[..n] + c[n..];
  }

  lemma StepConserves(m: Meter, op: Op)
    requires Conserves(m) && Legal(m.buf, op)
    ensures Conserves(Step(m, op))
  {
    match op
    case Append(s) =>
      assert m.written + s == m.consumed + (m.buf.Content() + s);
    case Fill(s) => FillConserves(m, s);
    case Double =>
    case Take(n) => TakeConserves(m, n);
    case Skip(n) => SkipConserves(m, n);
  }

  /** Every byte accepted is either consumed, in order, or still readable. */
  lemma {:induction false} QueueRefinement(m: Meter, ops: seq<Op>)
    requires Conserves(m) && AllLegal(m, ops)
    ensures Conserves(Run(m, ops))
    decreases |ops|
  {
    if ops != [] {
      StepConserves(m, ops[0]);
      QueueRefinement(Step(m, ops[0]), ops[1..]);
    }
  }

  /** From a new buffer on, what was accepted is what was consumed followed by what is readable. */
  lemma QueueFromStart(size: nat, ops: seq<Op>)
    requires AllLegal(Start(size), ops)
    ensures var m := Run(Start(size), ops); m.written == m.consumed + m.buf.Content()
  {
    QueueRefinement(Start(size), ops);
  }

  // ---- Amortised cost of growth ----

  /** Writes still owed to the next growth. */
  function Debt(b: Buf): nat { if 3 * b.write > 2 * |b.data| then 3 * b.write - 2 * |b.data| else 0 }

  ghost predicate GrowthPaid(m: Meter) {
    m.buf.Valid() && m.grown + Debt(m.buf) <= 3 * |m.written|
  }

  /** Moving or compacting never raises the debt. */
  lemma AdjustDebt(b: Buf)
    requires b.Valid()
    ensures Debt(Adjust(b)) <= Debt(b)
  {
  }

  lemma AppendGrowthPaid(b: Buf, s: bytes)
    requires b.Valid()
    ensures GrowCost(b, |s|) + Debt(Write(b, s)) <= Debt(b) + 3 * |s|
  {
    var room := Room(b, |s|);
    assert Write(b, s).write == room.write + |s| && |Write(b, s).data| == |room.data|;
    if Grows(b, |s|) {
      assert room.write == b.ReadAble() && |room.data| == 3 * (b.write + |s|) / 2;
    }
  }

  lemma FillGrowthPaid(m: Meter, s: bytes)
    requires GrowthPaid(m) && Legal(m.buf, Fill(s))
    ensures GrowthPaid(Step(m, Fill(s)))
  {
    var b := Store(m.buf, s);
    MoveWriteDebt(b, |s|);
  }

  lemma MoveWriteDebt(b: Buf, n: nat)
    requires b.Valid()
    ensures Debt(MoveWrite(b, n)) <= if Refused(b, b.write + n) then Debt(b) else Debt(b) + 3 * n
  {
    if !Refused(b, b.write + n) {
      AdjustDebt(b.(write := b.write + n));
    }
  }

  lemma TakeGrowthPaid(m: Meter, n: nat)
    requires GrowthPaid(m)
    ensures GrowthPaid(Step(m, Take(n)))
  {
    AdjustDebt(m.buf.(read := m.buf.read + Min(n, m.buf.ReadAble())));
  }

  lemma SkipGrowthPaid(m: Meter, n: nat)
    requires GrowthPaid(m) && Legal(m.buf, Skip(n))
    ensures GrowthPaid(Step(m, Skip(n)))
  {
    if !Refused(m.buf, m.buf.read + n) {
      AdjustDebt(m.buf.(read := m.buf.read + n));
    }
  }

  lemma DoubleGrowthPaid(m: Meter)
    requires GrowthPaid(m) && Legal(m.buf, Double)
    ensures GrowthPaid(Step(m, Double))
  {
  }

  lemma StepGrowthPaid(m: Meter, op: Op)
    requires GrowthPaid(m) && Legal(m.buf, op)
    ensures GrowthPaid(Step(m, op))
  {
    match op
    case Append(s) => AppendGrowthPaid(m.buf, s);
    case Fill(s) => FillGrowthPaid(m, s);
    case Double => DoubleGrowthPaid(m);
    case Take(n) => TakeGrowthPaid(m, n);
    case Skip(n) => SkipGrowthPaid(m, n);
  }

  /** A write that grows a buffer beyond one byte leaves a byte to spare, as the decoder needs. */
  lemma GrowthLeavesSpare(b: Buf, s: bytes)
    requires b.Valid() && Grows(b, |s|) && b.write + |s| >= 2
    ensures Write(b, s).WriteAble() > 0
  {
    var room := Room(b, |s|);
    assert |room.data| == 3 * (b.write + |s|) / 2 && room.write <= b.write;
  }

  // ---- Amortised cost of compaction ----

  ghost predicate CompactionPaid(m: Meter) {
    m.buf.Valid() && |m.buf.data| >= 3 && m.compacted + 4 * m.buf.read <= 4 * |m.consumed|
  }

  /** A compaction is paid for by the bytes consumed since the last one. */
  lemma AdjustPaid(b: Buf)
    requires b.Valid() && |b.data| >= 3
    ensures CompactCost(b) + 4 * Adjust(b).read <= 4 * b.read
  {
  }

  lemma AppendCompactionPaid(m: Meter, s: bytes)
    requires CompactionPaid(m)
    ensures CompactionPaid(Step(m, Append(s)))
  {
    var room := Room(m.buf, |s|);
    assert |Write(m.buf, s).data| == |room.data| && Write(m.buf, s).read == room.read <= m.buf.read;
  }

  lemma FillCompactionPaid(m: Meter, s: bytes)
    requires CompactionPaid(m) && Legal(m.buf, Fill(s))
    ensures CompactionPaid(Step(m, Fill(s)))
  {
    var b := Store(m.buf, s);
    if !Refused(b, b.write + |s|) {
      AdjustPaid(b.(write := b.write + |s|));
    }
  }

  lemma TakeCompactionPaid(m: Meter, n: nat)
    requires CompactionPaid(m)
    ensures CompactionPaid(Step(m, Take(n)))
  {
    AdjustPaid(m.buf.(read := m.buf.read + Min(n, m.buf.ReadAble())));
  }

  lemma SkipCompactionPaid(m: Meter, n: nat)
    requires CompactionPaid(m) && Legal(m.buf, Skip(n))
    ensures CompactionPaid(Step(m, Skip(n)))
  {
    if !Refused(m.buf, m.buf.read + n) {
      AdjustPaid(m.buf.(read := m.buf.read + n));
    }
  }

  lemma StepCompactionPaid(m: Meter, op: Op)
    requires CompactionPaid(m) && Legal(m.buf, op)
    ensures CompactionPaid(Step(m, op))
  {
    match op
    case Append(s) => AppendCompactionPaid(m, s);
    case Fill(s) => FillCompactionPaid(m, s);
    case Double =>
    case Take(n) => TakeCompactionPaid(m, n);
    case Skip(n) => SkipCompactionPaid(m, n);
  }

  lemma {:induction false} RunGrowthPaid(m: Meter, ops: seq<Op>)
    requires GrowthPaid(m) && AllLegal(m, ops)
    ensures GrowthPaid(Run(m, ops))
    decreases |ops|
  {
    if ops != [] {
      StepGrowthPaid(m, ops[0]);
      RunGrowthPaid(Step(m, ops[0]), ops[1..]);
    }
  }

  lemma {:induction false} RunCompactionPaid(m: Meter, ops: seq<Op>)
    requires CompactionPaid(m) && AllLegal(m, ops)
    ensures CompactionPaid(Run(m, ops))
    decreases |ops|
  {
    if ops != [] {
      StepCompactionPaid(m, ops[0]);
      RunCompactionPaid(Step(m, ops[0]), ops[1..]);
    }
  }

  /** Growth copies at most three bytes per byte written, from any initial capacity. */
  lemma GrowthIsAmortised(size: nat, ops: seq<Op>)
    requires AllLegal(Start(size), ops)
    ensures Run(Start(size), ops).grown <= 3 * |Run(Start(size), ops).written|
  {
    RunGrowthPaid(Start(size), ops);
  }

  ghost predicate CompactionBound(size: nat, ops: seq<Op>) {
    AllLegal(Start(size), ops) ==>
      Run(Start(size), ops).compacted <= 4 * |Run(Start(size), ops).consumed|
  }

  /**
   * Compaction copies at most four bytes per byte consumed, over every run, exactly when the
   * initial capacity is at least three: below that `capacity / 3` is zero and even an idle
   * move copies the whole content.
   */
  lemma CompactionIsAmortised(size: nat)
    ensures (forall ops :: CompactionBound(size, ops)) <==> size >= 3
  {
    if size >= 3 {
      forall ops ensures CompactionBound(size, ops) {
        if AllLegal(Start(size), ops) {
          RunCompactionPaid(Start(size), ops);
        }
      }
    } else {
      IdleMoveCopies(size);
      assert !CompactionBound(size, [Append([7]), Skip(0)]);
    }
  }

  lemma FirstWrite(b: Buf)
    requires b.Valid() && b.read == b.write == 0 && |b.data| < 3
    ensures Write(b, [7]).read == 0 && Write(b, [7]).write == 1 && |Write(b, [7]).data| < 3
  {
    var room := Room(b, 1);
    assert |room.data| == if |b.data| == 0 then 1 else |b.data|;
  }

  lemma FirstByte(size: nat) returns (m: Meter)
    requires size < 3
    ensures m == Step(Start(size), Append([7]))
    ensures m.buf.Valid() && m.buf.read == 0 && m.buf.write == 1 && |m.buf.data| < 3
    ensures m.consumed == [] && m.compacted == 0
  {
    m := Step(Start(size), Append([7]));
    FirstWrite(New(size));
  }

  lemma IdleSkip(m: Meter) returns (m': Meter)
    requires m.buf.Valid() && m.buf.read == 0 && m.buf.write == 1 && |m.buf.data| < 3
    ensures m' == Step(m, Skip(0)) && m'.buf.Valid()
    ensures m'.consumed == m.consumed && m'.compacted == m.compacted + 1
  {
    m' := Step(m, Skip(0));
  }

  lemma IdleMoveCopies(size: nat)
    requires size < 3
    ensures AllLegal(Start(size), [Append([7]), Skip(0)])
    ensures Run(Start(size), [Append([7]), Skip(0)]).compacted == 1
    ensures Run(Start(size), [Append([7]), Skip(0)]).consumed == []
  {
    var m1 := FirstByte(size);
    var m2 := IdleSkip(m1);
    RunCons(m1, Skip(0), []);
    RunCons(Start(size), Append([7]), [Skip(0)] + []);
    assert [Append([7])] + ([Skip(0)] + []) == [Append([7]), Skip(0)];
  }

  lemma RunCons(m: Meter, op: Op, ops: seq<Op>)
    requires m.buf.Valid() && Legal(m.buf, op) && AllLegal(Step(m, op), ops)
    ensures AllLegal(m, [op] + ops) && Run(m, [op] + ops) == Run(Step(m, op), ops)
  {
    assert ([op] + ops)[1..] == ops;
  }
}
