/** Bytes, network-order words and C strings: the vocabulary of the wire format. */
module Bytes {

  type byte = x: int | 0 <= x < 256

  type bytes = seq<byte>

  const INT32_MAX := 0x7fff_ffff

  type int32 = x: int | -0x8000_0000 <= x <= 0x7fff_ffff

  function Zeros(n: nat): (z: bytes)
    ensures |z| == n
    ensures forall i | 0 <= i < n :: z[i] == 0
  {
    seq<byte>(n, _ => 0)
  }

  /** The `n` low-order bytes of `u`, most significant first. */
  function BigEndian(u: nat, n: nat): (w: bytes)
    ensures |w| == n
  {
    if n == 0 then [] else BigEndian(u / 0x100, n - 1) + [u % 0x100]
  }

  /** The four bytes that `htonl` followed by `memcpy` puts on the wire. */
  function Word(v: int32): (w: bytes)
    ensures |w| == 4
  {
    BigEndian(if v < 0 then v + 0x1_0000_0000 else v, 4)
  }

  function Pow256(n: nat): (p: nat)
    ensures p >= 1
  {
    if n == 0 then 1 else 0x100 * Pow256(n - 1)
  }

  lemma Pow256Of4()
    ensures Pow256(4) == 0x1_0000_0000
  {
    assert Pow256(2) == 0x1_0000;
  }

  /** A byte string read as an unsigned number, most significant byte first. */
  function Unsigned(w: bytes): (u: nat)
    ensures u < Pow256(|w|)
  {
    if w == [] then 0 else Unsigned(w[..|w| - 1]) * 0x100 + w[|w| - 1] as int
  }

  /** `getInt32FromNetByte`: `memcpy` followed by `ntohl`. */
  function FromNet(w: bytes): (v: int32)
    requires |w| == 4
  {
    var u := Unsigned(w);
    Pow256Of4();
    if u > INT32_MAX then u - 0x1_0000_0000 else u
  }

  lemma {:induction false} UnsignedBigEndian(u: nat, n: nat)
    requires u < Pow256(n)
    ensures Unsigned(BigEndian(u, n)) == u
  {
    if n > 0 {
      UnsignedBigEndian(u / 0x100, n - 1);
      var w := BigEndian(u, n);
      assert w[..n - 1] == BigEndian(u / 0x100, n - 1);
    }
  }

  lemma {:induction false} BigEndianUnsigned(w: bytes)
    ensures BigEndian(Unsigned(w), |w|) == w
  {
    if w != [] {
      BigEndianUnsigned(w[..|w| - 1]);
    }
  }

  lemma FromNetWord(v: int32)
    ensures FromNet(Word(v)) == v
  {
    Pow256Of4();
    UnsignedBigEndian(if v < 0 then v + 0x1_0000_0000 else v, 4);
  }

  /** The first byte on the wire is the most significant one. */
  lemma NetworkOrder(a: byte, b: byte, c: byte, d: byte)
    ensures Unsigned([a, b, c, d])
            == a as int * 0x100_0000 + b as int * 0x1_0000 + c as int * 0x100 + d as int
  {
    assert [a, b, c, d][..3] == [a, b, c] && [a, b, c][..2] == [a, b] && [a, b][..1] == [a] && [a][..0] == [];
    assert Unsigned([a]) == a && Unsigned([a, b]) == Unsigned([a]) * 0x100 + b as int;
    assert Unsigned([a, b, c]) == Unsigned([a, b]) * 0x100 + c as int;
  }

  lemma WordFromNet(w: bytes)
    requires |w| == 4
    ensures Word(FromNet(w)) == w
  {
    BigEndianUnsigned(w);
  }

  predicate NulFree(s: bytes) { forall i | 0 <= i < |s| :: s[i] != 0 }

  /** The string a C-string constructor reads from `a`: everything before the first NUL. */
  function CString(a: bytes): (s: bytes)
    ensures |s| <= |a| && s == a[..|s|] && NulFree(s)
    ensures |s| < |a| ==> a[|s|] == 0
  {
    if a == [] || a[0] == 0 then [] else [a[0]] + CString(a[1..])
  }

  /** `memcpy` of `src` into `dst` at index `at`; the bytes copied are counted. */
  method MemCpy(dst: array<byte>, at: nat, src: bytes) returns (ghost copied: nat)
    requires at + |src| <= dst.Length
    modifies dst
    ensures dst[..] == Overwrite(old(dst[..]), at, src) && copied == |src|
  {
    copied := 0;
    for k := 0 to |src|
      invariant forall i | 0 <= i < at || at + k <= i < dst.Length :: dst[i] == old(dst[i])
      invariant forall i | 0 <= i < k :: dst[at + i] == src[i]
      invariant copied == k
    {
      dst[at + k] := src[k];
      copied := copied + 1;
    }
    assert forall i | at <= i < at + |src| :: dst[i] == src[i - at] by {
      assert forall i | at <= i < at + |src| :: dst[i] == dst[at + (i - at)];
    }
  }

  /** `d` with the bytes from index `at` on replaced by `s`. */
  function Overwrite(d: bytes, at: nat, s: bytes): (r: bytes)
    requires at + |s| <= |d|
    ensures |r| == |d|
  {
    d[..at] + s + d[at + |s|..]
  }
}
