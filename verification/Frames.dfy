/** The TinyPB frame as a pure concatenation of its fields. */
module Frames {
  import opened Bytes

  const PB_START: byte := 0x02
  const PB_END: byte := 0x03
  const DEFAULT_ID: bytes := [49, 50, 51, 52, 53, 54, 55, 56, 57]  // "123456789"
  const OVERHEAD := 26  // two delimiters and six words

  datatype Msg = Msg(id: bytes, name: bytes, code: int32, info: bytes, payload: bytes)

  function RawLen(m: Msg): (n: nat)
    ensures n >= OVERHEAD
  {
    OVERHEAD + |m.id| + |m.name| + |m.info| + |m.payload|
  }

  function IdPart(m: Msg): (f: bytes)
    requires RawLen(m) <= INT32_MAX
    ensures |f| == RawLen(m) - 5
  {
    Word(|m.id|) + (m.id + NamePart(m))
  }

  function NamePart(m: Msg): (f: bytes)
    requires RawLen(m) <= INT32_MAX
    ensures |f| == RawLen(m) - 9 - |m.id|
  {
    Word(|m.name|) + (m.name + CodePart(m))
  }

  function CodePart(m: Msg): (f: bytes)
    requires RawLen(m) <= INT32_MAX
    ensures |f| == 13 + |m.info| + |m.payload|
  {
    Word(m.code) + (Word(|m.info|) + (m.info + PayloadPart(m)))
  }

  /** The payload, the check sum word (always 1) and the end byte. */
  function PayloadPart(m: Msg): (f: bytes)
    ensures |f| == |m.payload| + 5
  {
    m.payload + (Word(1) + [PB_END])
  }

  /** The frame of a message that already has its id. */
  function Raw(m: Msg): (f: bytes)
    requires RawLen(m) <= INT32_MAX
    ensures |f| == RawLen(m)
  {
    [PB_START] + (Word(RawLen(m)) + IdPart(m))
  }

  /** An empty message id is replaced before encoding. */
  function WithId(m: Msg): Msg { if m.id == [] then m.(id := DEFAULT_ID) else m }

  function FrameLen(m: Msg): nat { RawLen(WithId(m)) }

  /** The package length is an `int`. */
  predicate Encodable(m: Msg) { FrameLen(m) <= INT32_MAX }

  function Frame(m: Msg): (f: bytes)
    requires Encodable(m)
    ensures |f| == FrameLen(m)
  {
    Raw(WithId(m))
  }

  ghost predicate AllEncodable(ms: seq<Msg>) { forall i | 0 <= i < |ms| :: Encodable(ms[i]) }

  function Concat(fs: seq<bytes>): bytes {
    if fs == [] then [] else fs[0] + Concat(fs[1..])
  }

  lemma Assoc(x: bytes, y: bytes, z: bytes)
    ensures x + (y + z) == x + y + z
  {
  }

  lemma {:induction false} ConcatAppend(a: seq<bytes>, b: seq<bytes>)
    ensures Concat(a + b) == Concat(a) + Concat(b)
  {
    if a == [] {
      assert a + b == b;
    } else {
      ConcatAppend(a[1..], b);
      assert (a + b)[0] == a[0] && (a + b)[1..] == a[1..] + b;
      Assoc(a[0], Concat(a[1..]), Concat(b));
    }
  }

  ghost function FramesOf(ms: seq<Msg>): (fs: seq<bytes>)
    requires AllEncodable(ms)
    ensures |fs| == |ms|
  {
    seq(|ms|, i requires 0 <= i < |ms| => Frame(ms[i]))
  }

  /** The bytes of a list of messages on the wire. */
  ghost function Stream(ms: seq<Msg>): bytes
    requires AllEncodable(ms)
  {
    Concat(FramesOf(ms))
  }

  lemma StreamConcat(a: seq<Msg>, b: seq<Msg>)
    requires AllEncodable(a) && AllEncodable(b)
    ensures AllEncodable(a + b) && Stream(a + b) == Stream(a) + Stream(b)
  {
    assert FramesOf(a + b) == FramesOf(a) + FramesOf(b);
    ConcatAppend(FramesOf(a), FramesOf(b));
  }

  lemma StreamCons(ms: seq<Msg>)
    requires ms != [] && AllEncodable(ms)
    ensures AllEncodable(ms[1..]) && Stream(ms) == Frame(ms[0]) + Stream(ms[1..])
  {
    assert FramesOf(ms)[1..] == FramesOf(ms[1..]);
  }

  // ---- Where each field sits ----

  /** Where the error code starts: behind the id and the method name. */
  function CodeAt(m: Msg): nat { 13 + |m.id| + |m.name| }

  /** Read one field off the rest of a frame. */
  lemma Peel(f: bytes, at: nat, x: bytes, rest: bytes)
    requires at <= |f| && f[at..] == x + rest
    ensures at + |x| <= |f| && f[at..at + |x|] == x && f[at + |x|..] == rest
  {
    var g := f[at..];
    assert f[at..at + |x|] == g[..|x|] == x;
    assert f[at + |x|..] == g[|x|..] == rest;
  }

  lemma HeadFields(m: Msg, f: bytes)
    requires RawLen(m) <= INT32_MAX && f == Raw(m)
    ensures f[0] == PB_START && f[1..5] == Word(RawLen(m)) && f[5..] == IdPart(m)
  {
    assert f[0..] == f;
    Peel(f, 0, [PB_START], Word(RawLen(m)) + IdPart(m));
    Peel(f, 1, Word(RawLen(m)), IdPart(m));
  }

  lemma IdFields(m: Msg, f: bytes)
    requires RawLen(m) <= INT32_MAX && |f| == RawLen(m) && f[5..] == IdPart(m)
    ensures f[5..9] == Word(|m.id|) && f[9..9 + |m.id|] == m.id && f[9 + |m.id|..] == NamePart(m)
  {
    Peel(f, 5, Word(|m.id|), m.id + NamePart(m));
    Peel(f, 9, m.id, NamePart(m));
  }

  lemma NameFields(m: Msg, f: bytes)
    requires RawLen(m) <= INT32_MAX && |f| == RawLen(m) && f[9 + |m.id|..] == NamePart(m)
    ensures f[9 + |m.id|..9 + |m.id| + 4] == Word(|m.name|)
    ensures f[13 + |m.id|..13 + |m.id| + |m.name|] == m.name && f[CodeAt(m)..] == CodePart(m)
  {
    Peel(f, 9 + |m.id|, Word(|m.name|), m.name + CodePart(m));
    Peel(f, 13 + |m.id|, m.name, CodePart(m));
  }

  lemma InfoFields(m: Msg, f: bytes)
    requires RawLen(m) <= INT32_MAX && |f| == RawLen(m) && f[CodeAt(m)..] == CodePart(m)
    ensures f[CodeAt(m)..CodeAt(m) + 4] == Word(m.code)
    ensures f[CodeAt(m) + 4..CodeAt(m) + 4 + 4] == Word(|m.info|)
    ensures f[CodeAt(m) + 8..CodeAt(m) + 8 + |m.info|] == m.info
    ensures f[CodeAt(m) + 8 + |m.info|..] == PayloadPart(m)
  {
    var c := CodeAt(m);
    Peel(f, c, Word(m.code), Word(|m.info|) + (m.info + PayloadPart(m)));
    Peel(f, c + 4, Word(|m.info|), m.info + PayloadPart(m));
    Peel(f, c + 8, m.info, PayloadPart(m));
  }

  lemma PayloadFields(m: Msg, f: bytes, at: nat)
    requires at <= |f| && f[at..] == PayloadPart(m)
    ensures f[at..at + |m.payload|] == m.payload && f[|f| - 1] == PB_END
  {
    Peel(f, at, m.payload, Word(1) + [PB_END]);
    Peel(f, at + |m.payload|, Word(1), [PB_END]);
    assert f[|f| - 1..][0] == PB_END;
  }

  // ---- Prefix-freedom ----

  lemma WordInjective(a: int32, b: int32)
    requires Word(a) == Word(b)
    ensures a == b
  {
    FromNetWord(a);
    FromNetWord(b);
  }

  /** `f` holds the fields of `m` at their offsets. */
  ghost predicate Carries(f: bytes, m: Msg)
    requires RawLen(m) <= INT32_MAX
  {
    && |f| == RawLen(m)
    && f[0] == PB_START && f[1..5] == Word(RawLen(m))
    && f[5..9] == Word(|m.id|) && f[9..9 + |m.id|] == m.id
    && f[9 + |m.id|..9 + |m.id| + 4] == Word(|m.name|)
    && f[13 + |m.id|..13 + |m.id| + |m.name|] == m.name
    && f[CodeAt(m)..CodeAt(m) + 4] == Word(m.code)
    && f[CodeAt(m) + 4..CodeAt(m) + 4 + 4] == Word(|m.info|)
    && f[CodeAt(m) + 8..CodeAt(m) + 8 + |m.info|] == m.info
    && f[CodeAt(m) + 8 + |m.info|..CodeAt(m) + 8 + |m.info| + |m.payload|] == m.payload
    && f[RawLen(m) - 1] == PB_END
  }

  lemma PartsCarry(m: Msg, f: bytes)
    requires RawLen(m) <= INT32_MAX && |f| == RawLen(m)
    requires f[0] == PB_START && f[1..5] == Word(RawLen(m)) && f[5..] == IdPart(m)
    ensures Carries(f, m)
  {
    IdFields(m, f);
    NameFields(m, f);
    InfoFields(m, f);
    PayloadFields(m, f, CodeAt(m) + 8 + |m.info|);
  }

  lemma RawCarries(m: Msg)
    requires RawLen(m) <= INT32_MAX
    ensures Carries(Raw(m), m)
  {
    HeadFields(m, Raw(m));
    PartsCarry(m, Raw(m));
  }

  /** A frame ends with a check sum that is always 1, and the end byte. */
  lemma FrameEnds(m: Msg)
    requires RawLen(m) <= INT32_MAX
    ensures Raw(m)[RawLen(m) - 5..] == [0, 0, 0, 1, PB_END]
  {
    var f := Raw(m);
    PayloadBegins(m, f);
    Peel(f, CodeAt(m) + 8 + |m.info|, m.payload, Word(1) + [PB_END]);
    assert CodeAt(m) + 8 + |m.info| + |m.payload| == RawLen(m) - 5;
    WordOfOne();
  }

  lemma PayloadBegins(m: Msg, f: bytes)
    requires RawLen(m) <= INT32_MAX && f == Raw(m)
    ensures CodeAt(m) + 8 + |m.info| <= |f| && f[CodeAt(m) + 8 + |m.info|..] == PayloadPart(m)
  {
    HeadFields(m, f);
    IdFields(m, f);
    NameFields(m, f);
    InfoFields(m, f);
  }

  lemma WordOfOne()
    ensures Word(1) == [0, 0, 0, 1]
  {
    NetworkOrder(0, 0, 0, 1);
    WordFromNet([0, 0, 0, 1]);
  }

  /** A missing id becomes the nine digits, and any other id is kept. */
  lemma WithIdFills(m: Msg)
    ensures m.id != [] ==> WithId(m) == m
    ensures m.id == [] ==> WithId(m) == m.(id := WithId(m).id) && |WithId(m).id| == |"123456789"|
    ensures m.id == [] ==> forall i | 0 <= i < |WithId(m).id| :: WithId(m).id[i] == "123456789"[i] as int
  {
  }

  lemma SameNames(f: bytes, a: Msg, b: Msg)
    requires RawLen(a) <= INT32_MAX && RawLen(b) <= INT32_MAX && Carries(f, a) && Carries(f, b)
    ensures a.id == b.id && a.name == b.name
  {
    WordInjective(|a.id|, |b.id|);
    assert a.id == b.id;
    WordInjective(|a.name|, |b.name|);
  }

  lemma CarriesInjective(f: bytes, a: Msg, b: Msg)
    requires RawLen(a) <= INT32_MAX && RawLen(b) <= INT32_MAX && Carries(f, a) && Carries(f, b)
    ensures a == b
  {
    SameNames(f, a, b);
    SameInfo(f, a, b);
    assert |a.payload| == |b.payload|;
  }

  lemma SameInfo(f: bytes, a: Msg, b: Msg)
    requires RawLen(a) <= INT32_MAX && RawLen(b) <= INT32_MAX && Carries(f, a) && Carries(f, b)
    requires a.id == b.id && a.name == b.name
    ensures a.code == b.code && a.info == b.info
  {
    WordInjective(a.code, b.code);
    WordInjective(|a.info|, |b.info|);
  }

  lemma CarriesPrefix(f: bytes, g: bytes, a: Msg, b: Msg)
    requires RawLen(a) <= INT32_MAX && RawLen(b) <= INT32_MAX && Carries(f, a) && Carries(g, b) && f <= g
    ensures a == b
  {
    assert f[1..5] == g[1..5];
    WordInjective(RawLen(a), RawLen(b));
    assert f == g;
    CarriesInjective(f, a, b);
  }

  /** No frame is a proper prefix of another, and equal frames carry equal messages. */
  lemma FramesArePrefixFree(a: Msg, b: Msg)
    requires Encodable(a) && Encodable(b) && Frame(a) <= Frame(b)
    ensures WithId(a) == WithId(b)
  {
    RawCarries(WithId(a));
    RawCarries(WithId(b));
    CarriesPrefix(Frame(a), Frame(b), WithId(a), WithId(b));
  }

  /** Two message lists with the same byte stream are the same list. */
  lemma {:induction false} StreamInjective(a: seq<Msg>, b: seq<Msg>)
    requires AllEncodable(a) && AllEncodable(b) && Stream(a) == Stream(b)
    ensures |a| == |b| && forall i | 0 <= i < |a| :: WithId(a[i]) == WithId(b[i])
  {
    if a == [] && b != [] {
      StreamCons(b);
    } else if a != [] && b == [] {
      StreamCons(a);
    } else if a != [] {
      StreamCons(a);
      StreamCons(b);
      SameHead(a[0], b[0], Stream(a[1..]), Stream(b[1..]));
      StreamInjective(a[1..], b[1..]);
    }
  }

  lemma SameHead(a: Msg, b: Msg, s: bytes, t: bytes)
    requires Encodable(a) && Encodable(b) && Frame(a) + s == Frame(b) + t
    ensures WithId(a) == WithId(b) && s == t
  {
    var f, g := Frame(a), Frame(b);
    if |f| <= |g| {
      assert f == (f + s)[..|f|] == g[..|f|];
      FramesArePrefixFree(a, b);
    } else {
      assert g == (g + t)[..|g|] == f[..|g|];
      FramesArePrefixFree(b, a);
    }
    assert s == (f + s)[|f|..] && t == (g + t)[|g|..];
  }
}
