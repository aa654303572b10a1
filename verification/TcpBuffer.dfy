/** net/tcp/tcp_buffer.cc on values: a byte vector with a read and a write index. */
module BufferSpec {
  import opened Bytes

  datatype Buf = Buf(data: bytes, read: nat, write: nat) {
    predicate Valid() {
      read <= write <= |data|
    }

    function ReadAble(): nat
      requires Valid()
    {
      write - read
    }

    function WriteAble(): nat
      requires Valid()
    {
      |data| - write
    }

    /** The bytes between the two indices: the queue this buffer stands for. */
    function Content(): (c: bytes)
      requires Valid()
      ensures |c| == write - read
    {
      data[read..write]
    }
  }

  function New(size: nat): (b: Buf)
    ensures b.Valid()
  {
    Buf(Zeros(size), 0, 0)
  }

  function Min(a: int, b: int): int { if a < b then a else b }

  /** `n` fresh zero bytes holding the (possibly truncated) content at index 0. */
  function Resize(b: Buf, n: nat): (r: Buf)
    requires b.Valid()
    ensures r.Valid() && |r.data| == n && r.read == 0
    ensures n >= b.ReadAble() ==> r.Content() == b.Content()
  {
    var count := Min(n, b.ReadAble());
    Buf(b.Content()[..count] + Zeros(n - count), 0, count)
  }

  lemma ResizedData(b: Buf, n: nat, kept: bytes)
    requires b.Valid() && kept == b.Content()[..Min(n, b.ReadAble())]
    ensures Overwrite(Zeros(n), 0, kept) == Resize(b, n).data
  {
  }

  predicate Compacts(b: Buf) { b.read >= |b.data| / 3 }

  /** Bytes that `Adjust` copies. */
  function CompactCost(b: Buf): nat
    requires b.Valid()
  {
    if Compacts(b) then b.ReadAble() else 0
  }

  function Adjust(b: Buf): (r: Buf)
    requires b.Valid()
    ensures r.Valid() && |r.data| == |b.data|
    ensures r.Content() == b.Content()
  {
    if Compacts(b) then Resize(b, |b.data|) else b
  }

  predicate Grows(b: Buf, size: nat)
    requires b.Valid()
  {
    size > b.WriteAble()
  }

  /** Bytes that a write of `size` bytes copies to make room. */
  function GrowCost(b: Buf, size: nat): nat
    requires b.Valid()
  {
    if Grows(b, size) then b.ReadAble() else 0
  }

  function Room(b: Buf, size: nat): (r: Buf)
    requires b.Valid()
    ensures r.Valid() && r.Content() == b.Content() && size <= r.WriteAble()
  {
    if Grows(b, size) then Resize(b, 3 * (b.write + size) / 2) else b
  }

  /** Store `s` behind the write index without moving it: what a socket read does. */
  function Store(b: Buf, s: bytes): (r: Buf)
    requires b.Valid() && |s| <= b.WriteAble()
    ensures r.Valid() && r.Content() == b.Content() && |r.data| == |b.data|
  {
    b.(data := Overwrite(b.data, b.write, s))
  }

  function Write(b: Buf, s: bytes): (r: Buf)
    requires b.Valid()
    ensures r.Valid() && r.Content() == b.Content() + s
  {
    var room := Room(b, |s|);
    var stored := Store(room, s);
    assert stored.data[room.write..room.write + |s|] == s;
    stored.(write := room.write + |s|)
  }

  /** A read move is refused exactly when it would not stay below the capacity. */
  predicate Refused(b: Buf, index: int) { index < 0 || index >= |b.data| }

  function MoveRead(b: Buf, n: int): (r: Buf)
    requires b.Valid() && n <= b.ReadAble()
    ensures r.Valid() && |r.data| == |b.data|
    ensures Refused(b, b.read + n) ==> r == b
    ensures !Refused(b, b.read + n) && n >= 0 ==> r.Content() == b.Content()[n..]
  {
    if Refused(b, b.read + n) then b else Adjust(b.(read := b.read + n))
  }

  function MoveReadCost(b: Buf, n: int): nat
    requires b.Valid() && n <= b.ReadAble()
  {
    if Refused(b, b.read + n) then 0 else CompactCost(b.(read := b.read + n))
  }

  function MoveWrite(b: Buf, n: nat): (r: Buf)
    requires b.Valid()
    ensures r.Valid() && |r.data| == |b.data|
    ensures Refused(b, b.write + n) ==> r == b
    ensures !Refused(b, b.write + n) ==> r.Content() == b.Content() + b.data[b.write..b.write + n]
  {
    if Refused(b, b.write + n) then b
    else
      SliceSplit(b.data, b.read, b.write, b.write + n);
      Adjust(b.(write := b.write + n))
  }

  lemma SliceSplit(s: bytes, i: nat, j: nat, k: nat)
    requires i <= j <= k <= |s|
    ensures s[i..k] == s[i..j] + s[j..k]
  {
  }

  function MoveWriteCost(b: Buf, n: nat): nat
    requires b.Valid()
  {
    if Refused(b, b.write + n) then 0 else CompactCost(b.(write := b.write + n))
  }

  /** A read drops `n` bytes, or everything when less is readable. */
  function Drop(b: Buf, n: nat): (r: Buf)
    requires b.Valid()
    ensures r.Valid() && |r.data| == |b.data|
    ensures r.Content() == b.Content()[Min(n, b.ReadAble())..]
  {
    if b.ReadAble() == 0 then b else Adjust(b.(read := b.read + Min(n, b.ReadAble())))
  }

  function DropCost(b: Buf, n: nat): nat
    requires b.Valid()
  {
    if b.ReadAble() == 0 then 0 else CompactCost(b.(read := b.read + Min(n, b.ReadAble())))
  }

  // ---- The indices and the capacity ----

  /** Where a read index of `j` ends up: at 0 once a third of the capacity lies in front of it. */
  function Settled(cap: nat, j: nat): nat { if cap < 3 * (j + 1) then 0 else j }

  lemma MoveReadExact(b: Buf, n: int)
    requires b.Valid() && n <= b.ReadAble() && !Refused(b, b.read + n)
    ensures MoveRead(b, n).Content() == b.data[b.read + n..b.write]
    ensures MoveRead(b, n).read == Settled(|b.data|, b.read + n)
    ensures MoveReadCost(b, n) == if |b.data| < 3 * (b.read + n + 1) then b.ReadAble() - n else 0
  {
  }

  lemma MoveWriteExact(b: Buf, n: nat)
    requires b.Valid() && !Refused(b, b.write + n)
    ensures MoveWrite(b, n).read == Settled(|b.data|, b.read)
    ensures MoveWriteCost(b, n) == if |b.data| < 3 * (b.read + 1) then b.ReadAble() + n else 0
  {
  }

  lemma DropExact(b: Buf, n: nat)
    requires b.Valid()
    ensures b.ReadAble() == 0 ==> Drop(b, n) == b
    ensures b.ReadAble() > 0 ==>
              Drop(b, n).read == Settled(|b.data|, if n < b.ReadAble() then b.read + n else b.write)
  {
  }

  /** A write that does not fit leaves half as much again as it needs, rounded down. */
  lemma WriteExact(b: Buf, s: bytes)
    requires b.Valid()
    ensures var r, need := Write(b, s), b.write + |s|;
            if need <= |b.data| then |r.data| == |b.data| && r.read == b.read
            else 2 * |r.data| <= 3 * need <= 2 * |r.data| + 1 && r.read == 0
    ensures GrowCost(b, |s|) == if b.write + |s| <= |b.data| then 0 else b.ReadAble()
  {
  }

  /** Too small a capacity keeps the front of the content. */
  lemma ResizeTruncates(b: Buf, n: nat)
    requires b.Valid() && n < b.ReadAble()
    ensures Resize(b, n).Content() == b.Content()[..n] && Resize(b, n).write == n
  {
  }

  lemma DropIsMove(b: Buf, n: nat, k: nat)
    requires b.Valid() && b.ReadAble() > 0 && k == Min(n, b.ReadAble())
    ensures Drop(b, n) == Adjust(b.(read := b.read + k)) && DropCost(b, n) == CompactCost(b.(read := b.read + k))
  {
  }
}

/** The mutable buffer. Each method is specified by the function of the same name above. */
module TcpBuffers {
  import opened Bytes
  import B = BufferSpec

  class TcpBuffer {
    var m_buffer: array<byte>
    var m_read_index: nat
    var m_write_index: nat
    ghost var grown: nat      // bytes copied so far by growth
    ghost var compacted: nat  // bytes copied so far by compaction

    ghost predicate Valid()
      reads this
    {
      m_read_index <= m_write_index <= m_buffer.Length
    }

    ghost function State(): (b: B.Buf)
      reads this, m_buffer
    {
      B.Buf(m_buffer[..], m_read_index, m_write_index)
    }

    constructor (size: nat)
      ensures Valid() && fresh(m_buffer)
      ensures State() == B.New(size) && grown == compacted == 0
    {
      m_buffer := new byte[size](_ => 0);
      m_read_index, m_write_index := 0, 0;
      grown, compacted := 0, 0;
      new;
      assert m_buffer[..] == Zeros(size);
    }

    function ReadAble(): (n: nat)
      requires Valid()
      reads this, m_buffer
      ensures n == |State().Content()|
    {
      m_write_index - m_read_index
    }

    function WriteAble(): nat
      requires Valid()
      reads this
    {
      m_buffer.Length - m_write_index
    }

    method ResizeBuffer(new_size: nat) returns (ghost copied: nat)
      requires Valid()
      modifies this
      ensures Valid() && fresh(m_buffer)
      ensures State() == B.Resize(old(State()), new_size)
      ensures grown == old(grown) && compacted == old(compacted) && copied == B.Min(new_size, old(ReadAble()))
    {
      var tmp := new byte[new_size](_ => 0);
      var count := B.Min(new_size, ReadAble());
      assert tmp[..] == Zeros(new_size);
      var kept := Front(count);
      copied := MemCpy(tmp, 0, kept);
      B.ResizedData(State(), new_size, kept);
      m_buffer := tmp;
      m_read_index := 0;
      m_write_index := count;
    }

    method AdjustBuffer()
      requires Valid()
      modifies this
      ensures Valid() && (m_buffer == old(m_buffer) || fresh(m_buffer))
      ensures State() == B.Adjust(old(State()))
      ensures grown == old(grown)
      ensures compacted == old(compacted) + B.CompactCost(old(State()))
    {
      if m_read_index < m_buffer.Length / 3 {
        return;
      }
      ghost var copied := ResizeBuffer(m_buffer.Length);
      compacted := compacted + copied;
    }

    method WriteToBuffer(buf: bytes)
      requires Valid()
      modifies this, m_buffer
      ensures Valid() && (m_buffer == old(m_buffer) || fresh(m_buffer))
      ensures State() == B.Write(old(State()), buf)
      ensures compacted == old(compacted)
      ensures grown == old(grown) + B.GrowCost(old(State()), |buf|)
    {
      MakeRoom(|buf|);
      Append(buf);
    }

    /** Grow unless `size` more bytes fit. */
    method MakeRoom(size: nat)
      requires Valid()
      modifies this
      ensures Valid() && (m_buffer == old(m_buffer) || fresh(m_buffer))
      ensures State() == B.Room(old(State()), size) && compacted == old(compacted)
      ensures grown == old(grown) + B.GrowCost(old(State()), size)
    {
      if size > WriteAble() {
        ghost var copied := ResizeBuffer(3 * (m_write_index + size) / 2);
        grown := grown + copied;
      }
    }

    method Append(buf: bytes)
      requires Valid() && |buf| <= WriteAble()
      modifies this`m_write_index, m_buffer
      ensures Valid()
      ensures State() == B.Store(old(State()), buf).(write := old(m_write_index) + |buf|)
    {
      ghost var _ := MemCpy(m_buffer, m_write_index, buf);
      m_write_index := m_write_index + |buf|;
    }

    /** `re` is left alone when nothing is readable. */
    method ReadFromBuffer(re: bytes, size: nat) returns (re': bytes)
      requires Valid()
      modifies this
      ensures Valid() && (m_buffer == old(m_buffer) || fresh(m_buffer))
      ensures State() == B.Drop(old(State()), size)
      ensures re' == if old(ReadAble()) == 0 then re
                     else old(State()).Content()[..B.Min(size, old(ReadAble()))]
      ensures grown == old(grown) && compacted == old(compacted) + B.DropCost(old(State()), size)
    {
      re' := re;
      if ReadAble() == 0 {
        return;
      }
      var read_size := B.Min(size, ReadAble());
      B.DropIsMove(State(), size, read_size);
      re' := TakeFront(read_size);
    }

    /** Return the first `n` readable bytes and move over them. */
    method TakeFront(n: nat) returns (re: bytes)
      requires Valid() && n <= ReadAble()
      modifies this
      ensures Valid() && (m_buffer == old(m_buffer) || fresh(m_buffer))
      ensures State() == B.Adjust(old(State()).(read := old(m_read_index) + n)) && re == old(State()).Content()[..n]
      ensures grown == old(grown)
      ensures compacted == old(compacted) + B.CompactCost(old(State()).(read := old(m_read_index) + n))
    {
      re := Front(n);
      SetReadIndex(m_read_index + n);
    }

    /** The first `n` readable bytes. */
    method Front(n: nat) returns (re: bytes)
      requires Valid() && n <= ReadAble()
      ensures re == State().Content()[..n]
    {
      re := m_buffer[m_read_index..m_read_index + n];
      assert re == m_buffer[..][m_read_index..m_write_index][..n];
    }

    /** Move the read index and compact if it has come far enough. */
    method SetReadIndex(j: nat)
      requires Valid() && j <= m_write_index
      modifies this
      ensures Valid() && (m_buffer == old(m_buffer) || fresh(m_buffer))
      ensures State() == B.Adjust(old(State()).(read := j))
      ensures grown == old(grown) && compacted == old(compacted) + B.CompactCost(old(State()).(read := j))
    {
      m_read_index := j;
      AdjustBuffer();
    }

    method SetWriteIndex(j: nat)
      requires Valid() && m_read_index <= j <= m_buffer.Length
      modifies this
      ensures Valid() && (m_buffer == old(m_buffer) || fresh(m_buffer))
      ensures State() == B.Adjust(old(State()).(write := j))
      ensures grown == old(grown) && compacted == old(compacted) + B.CompactCost(old(State()).(write := j))
    {
      m_write_index := j;
      AdjustBuffer();
    }

    method MoveReadIndex(size: int)
      requires Valid() && size <= ReadAble()
      modifies this
      ensures Valid() && (m_buffer == old(m_buffer) || fresh(m_buffer))
      ensures State() == B.MoveRead(old(State()), size)
      ensures grown == old(grown) && compacted == old(compacted) + B.MoveReadCost(old(State()), size)
    {
      var j := m_read_index + size;
      if j < 0 || j >= m_buffer.Length {
        return;
      }
      SetReadIndex(j);
    }

    method MoveWriteIndex(size: nat)
      requires Valid()
      modifies this
      ensures Valid() && (m_buffer == old(m_buffer) || fresh(m_buffer))
      ensures State() == B.MoveWrite(old(State()), size)
      ensures grown == old(grown) && compacted == old(compacted) + B.MoveWriteCost(old(State()), size)
    {
      var j := m_write_index + size;
      if j >= m_buffer.Length {
        return;
      }
      SetWriteIndex(j);
    }
  }
}
