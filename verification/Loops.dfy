/** A `while (true)` loop as the iteration of its body. */
module Loops {

  /** What one pass over the body does: leave the loop, hit undefined behaviour, or go round again. */
  datatype Next<S> = Leave | Fail | Again(s: S)

  datatype Status = Running | Returned | Failed

  datatype Run<S> = Run(status: Status, state: S)

  /** The first `k` passes. */
  function Iterate<S>(body: S -> Next<S>, s: S, k: nat): Run<S>
    decreases k
  {
    if k == 0 then Run(Running, s)
    else
      match body(s)
      case Leave => Run(Returned, s)
      case Fail => Run(Failed, s)
      case Again(s') => Iterate(body, s', k - 1)
  }

  /** One pass takes `s` to `s'`; the loop goes on, returns or fails there. */
  ghost predicate Passed<S(!new)>(body: S -> Next<S>, s: S, status: Status, s': S) {
    match body(s)
    case Leave => status == Returned && s' == s
    case Fail => status == Failed && s' == s
    case Again(next) => status == Running && s' == next
  }

  /** `n` passes from `s` lead to `s'`; there the loop goes on, returns or fails. */
  ghost predicate Reaches<S(!new)>(body: S -> Next<S>, s: S, n: nat, status: Status, s': S) {
    Iterate(body, s, n) == Run(status, s')
  }

  lemma {:induction false} ReachesNext<S(!new)>(body: S -> Next<S>, s: S, n: nat, mid: S, status: Status, s': S)
    requires Reaches(body, s, n, Running, mid) && Passed(body, mid, status, s')
    ensures Reaches(body, s, n + 1, status, s')
    decreases n
  {
    if n > 0 {
      ReachesNext(body, body(s).s, n - 1, mid, status, s');
    }
  }

  /** A loop that ends within `k` passes is still running only before the `k`-th. */
  lemma RunningBefore<S(!new)>(body: S -> Next<S>, s: S, k: nat, n: nat, mid: S)
    requires Iterate(body, s, k).status != Running && Reaches(body, s, n, Running, mid)
    ensures n < k
  {
    if k <= n {
      IterateEnds(body, s, k, n);
    }
  }

  /** A loop that has ended stays as it is: more passes change nothing. */
  lemma {:induction false} IterateEnds<S>(body: S -> Next<S>, s: S, k: nat, more: nat)
    requires Iterate(body, s, k).status != Running && k <= more
    ensures Iterate(body, s, more) == Iterate(body, s, k)
    decreases k
  {
    match body(s)
    case Leave =>
    case Fail =>
    case Again(s') => IterateEnds(body, s', k - 1, more - 1);
  }

  lemma EndsOnce<S>(body: S -> Next<S>, s: S, k: nat, n: nat)
    requires Iterate(body, s, k).status != Running && Iterate(body, s, n).status != Running
    ensures Iterate(body, s, k) == Iterate(body, s, n)
  {
    if k <= n {
      IterateEnds(body, s, k, n);
    } else {
      IterateEnds(body, s, n, k);
    }
  }

  /** Consecutive states of a run. */
  ghost predicate Path<S(!new)>(body: S -> Next<S>, ss: seq<S>) {
    && ss != []
    && forall i | 0 <= i < |ss| - 1 :: body(ss[i]) == Again(ss[i + 1])
  }

  lemma PathCons<S(!new)>(body: S -> Next<S>, s: S, ss: seq<S>)
    requires Path(body, ss) && body(s) == Again(ss[0])
    ensures Path(body, [s] + ss)
  {
    var all := [s] + ss;
    forall i | 0 <= i < |all| - 1 ensures body(all[i]) == Again(all[i + 1]) {
      if i > 0 {
        assert all[i] == ss[i - 1] && all[i + 1] == ss[i - 1 + 1];
      }
    }
  }

  /** Passes along a path can be skipped. */
  lemma {:induction false} IteratePath<S(!new)>(body: S -> Next<S>, ss: seq<S>, k: nat)
    requires Path(body, ss) && k >= |ss| - 1
    ensures Iterate(body, ss[0], k) == Iterate(body, ss[|ss| - 1], k - (|ss| - 1))
    decreases |ss|
  {
    if |ss| > 1 {
      assert body(ss[0]) == Again(ss[1]);
      var rest := ss[1..];
      forall i | 0 <= i < |rest| - 1 ensures body(rest[i]) == Again(rest[i + 1]) {
        assert rest[i] == ss[i + 1] && rest[i + 1] == ss[i + 1 + 1];
      }
      IteratePath(body, rest, k - 1);
    }
  }

  lemma {:induction false} IterateAlongPath<S(!new)>(body: S -> Next<S>, ss: seq<S>, k: nat)
    requires Path(body, ss) && k < |ss|
    ensures Iterate(body, ss[0], k) == Run(Running, ss[k])
  {
    var front := ss[..k + 1];
    forall i | 0 <= i < |front| - 1 ensures body(front[i]) == Again(front[i + 1]) {
      assert body(ss[i]) == Again(ss[i + 1]);
    }
    IteratePath(body, front, k);
  }
}
