/** Splitting at a separator, as `find_first_of` followed by two `substr` calls does. */
module Text {

  /** The index of the first `c`, or the length when there is none. */
  function IndexOf<T(==)>(s: seq<T>, c: T): (i: nat)
    ensures i <= |s| && c !in s[..i]
    ensures i < |s| ==> s[i] == c
  {
    if s == [] || s[0] == c then 0
    else
      var i := IndexOf(s[1..], c);
      assert s[..1 + i] == [s[0]] + s[1..][..i];
      1 + i
  }

  function Before<T(==)>(s: seq<T>, c: T): seq<T> { s[..IndexOf(s, c)] }

  /** What follows the first `c`. Without a `c`, `npos + 1` wraps to zero and it is all of `s`. */
  function Behind<T(==)>(s: seq<T>, c: T): seq<T> {
    var i := IndexOf(s, c);
    if i == |s| then s else s[i + 1..]
  }

  lemma {:induction false} IndexOfUnique<T>(s: seq<T>, c: T, i: nat)
    requires i < |s| && s[i] == c && c !in s[..i]
    ensures IndexOf(s, c) == i
    decreases i
  {
    if i > 0 {
      assert s[..i] == [s[0]] + s[1..][..i - 1];
      IndexOfUnique(s[1..], c, i - 1);
    }
  }

  lemma {:induction false} IndexOfNone<T>(s: seq<T>, c: T)
    requires c !in s
    ensures IndexOf(s, c) == |s|
  {
    if s != [] {
      IndexOfNone(s[1..], c);
    }
  }

  /** Without a separator both halves are everything. */
  lemma SplitNone<T>(s: seq<T>, c: T)
    requires c !in s
    ensures Before(s, c) == s && Behind(s, c) == s
  {
    IndexOfNone(s, c);
  }

  /** Splitting undoes joining exactly when the separator does not occur in the first part. */
  lemma SplitJoin<T>(a: seq<T>, c: T, b: seq<T>)
    ensures Before(a + [c] + b, c) == a && Behind(a + [c] + b, c) == b <==> c !in a
    ensures Before(a + [c] + b, c) == a <==> c !in a
  {
    var s := a + [c] + b;
    if c !in a {
      assert s[..|a|] == a && s[|a| + 1..] == b;
      IndexOfUnique(s, c, |a|);
    }
  }
}
