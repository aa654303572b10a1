/** net/rpc/msg_id_util.cc: message ids are decimal strings counted upwards from a random seed. */
module MsgIds {
  import opened Decimal

  predicate AllNines(s: string) { forall i | 0 <= i < |s| :: s[i] == '9' }

  function Nines(n: nat): (s: string)
    ensures |s| == n && AllNines(s)
  {
    seq(n, _ => '9')
  }

  function Pow10(n: nat): (p: nat)
    ensures p >= 1
  {
    if n == 0 then 1 else 10 * Pow10(n - 1)
  }

  /** The carry: trailing nines become zeros and the digit before them goes up. */
  function Next(s: string): (r: string)
    requires Digits(s) && !AllNines(s)
    ensures |r| == |s| && Digits(r)
    decreases |s|
  {
    var front, last := s[..|s| - 1], s[|s| - 1];
    if last == '9' then Next(front) + "0" else front + [last + 1 as char]
  }

  lemma {:induction false} NextAddsOne(s: string)
    requires Digits(s) && !AllNines(s)
    ensures Value(Next(s)) == Value(s) + 1
    decreases |s|
  {
    var front, last := s[..|s| - 1], s[|s| - 1];
    if last == '9' {
      NextAddsOne(front);
      assert (Next(front) + "0")[..|s| - 1] == Next(front);
    } else {
      assert Next(s)[..|s| - 1] == front;
    }
  }

  lemma {:induction false} ValueBound(s: string)
    requires Digits(s)
    ensures Value(s) < Pow10(|s|)
    ensures Value(s) == Pow10(|s|) - 1 <==> AllNines(s)
    decreases |s|
  {
    if s != "" {
      var front := s[..|s| - 1];
      ValueBound(front);
      assert AllNines(s) <==> AllNines(front) && s[|s| - 1] == '9';
    }
  }

  lemma {:induction false} ValueInjective(a: string, b: string)
    requires Digits(a) && Digits(b) && |a| == |b| && Value(a) == Value(b)
    ensures a == b
    decreases |a|
  {
    if a != "" {
      ValueInjective(a[..|a| - 1], b[..|b| - 1]);
      assert a == a[..|a| - 1] + [a[|a| - 1]] && b == b[..|b| - 1] + [b[|b| - 1]];
    }
  }

  /** The id `k` steps after `seed`, while there are ids left. */
  function Nth(seed: string, k: nat): (r: string)
    requires Digits(seed) && Value(seed) + k < Pow10(|seed|)
    ensures |r| == |seed| && Digits(r) && Value(r) == Value(seed) + k
    decreases k
  {
    if k == 0 then seed
    else
      var prev := Nth(seed, k - 1);
      ValueBound(prev);
      NextAddsOne(prev);
      Next(prev)
  }

  /** From a seed to the first all-nines value no id repeats, and the all-nines value comes last. */
  lemma IdsNeverRepeat(seed: string, j: nat, k: nat)
    requires Digits(seed) && j < k && Value(seed) + k < Pow10(|seed|)
    ensures Nth(seed, j) != Nth(seed, k)
    ensures !AllNines(Nth(seed, j))
    ensures AllNines(Nth(seed, k)) <==> Value(seed) + k == Pow10(|seed|) - 1
  {
    ValueBound(Nth(seed, j));
    ValueBound(Nth(seed, k));
  }

  const ID_LENGTH := 20

  /** Twenty bytes of /dev/urandom as twenty digits. */
  function Seed(random: seq<int>): (s: string)
    requires |random| == ID_LENGTH && forall i | 0 <= i < |random| :: 0 <= random[i] < 256
    ensures |s| == ID_LENGTH && Digits(s)
  {
    seq(ID_LENGTH, i requires 0 <= i < ID_LENGTH => '0' + (random[i] % 10) as char)
  }

  /** Each digit is its byte's residue, so two readings give one seed exactly when they agree modulo 10. */
  lemma SeedDigits(a: seq<int>, b: seq<int>)
    requires |a| == |b| == ID_LENGTH
    requires forall i | 0 <= i < ID_LENGTH :: 0 <= a[i] < 256 && 0 <= b[i] < 256
    ensures forall i | 0 <= i < ID_LENGTH :: Value([Seed(a)[i]]) == a[i] % 10
    ensures Seed(a) == Seed(b) <==> forall i | 0 <= i < ID_LENGTH :: a[i] % 10 == b[i] % 10
  {
    forall i | 0 <= i < ID_LENGTH ensures Value([Seed(a)[i]]) == a[i] % 10 && Value([Seed(b)[i]]) == b[i] % 10 {
      DigitValue(Seed(a)[i]);
      DigitValue(Seed(b)[i]);
    }
    if forall i | 0 <= i < ID_LENGTH :: a[i] % 10 == b[i] % 10 {
      assert forall i | 0 <= i < ID_LENGTH :: Seed(a)[i] == Seed(b)[i];
    }
  }

  lemma DigitValue(c: char)
    requires IsDigit(c)
    ensures Digits([c]) && Value([c]) == c as int - '0' as int
  {
    assert [c][..0] == "";
  }

  /** An id, the empty string after a short read, or a carry that runs off the front of the string. */
  datatype Drawn = Id(id: string) | NoId | Overrun

  class MsgIdUtil {
    var t_msg_id_no: string
    var t_max_msg_id_no: string

    constructor ()
      ensures Valid() && t_msg_id_no == "" && t_max_msg_id_no == ""
    {
      t_msg_id_no, t_max_msg_id_no := "", "";
    }

    /** Never seeded, or seeded once or twice: every seeding appends to the limit. */
    ghost predicate Valid()
      reads this
    {
      || (t_msg_id_no == "" && t_max_msg_id_no == "")
      || (|t_msg_id_no| == ID_LENGTH && Digits(t_msg_id_no)
          && (t_max_msg_id_no == Nines(ID_LENGTH) || t_max_msg_id_no == Nines(2 * ID_LENGTH)))
    }

    /** The next call reads a new seed; after the second seeding this never happens again. */
    predicate SeedNeeded()
      reads this
    {
      t_msg_id_no == "" || t_msg_id_no == t_max_msg_id_no
    }

    /** `random` holds what the read from /dev/urandom returned; a short read yields no id. */
    method GenMsgID(random: seq<int>) returns (r: Drawn)
      requires forall i | 0 <= i < |random| :: 0 <= random[i] < 256
      requires Valid()
      modifies this
      ensures Valid()
      ensures old(SeedNeeded()) && |random| == ID_LENGTH ==>
                r == Id(Seed(random)) && t_max_msg_id_no == old(t_max_msg_id_no) + Nines(ID_LENGTH)
      ensures !old(SeedNeeded()) && !AllNines(old(t_msg_id_no)) ==>
                r == Id(Next(old(t_msg_id_no))) && t_max_msg_id_no == old(t_max_msg_id_no)
      ensures r == NoId <==> old(SeedNeeded()) && |random| != ID_LENGTH
      ensures r == Overrun <==> !old(SeedNeeded()) && AllNines(old(t_msg_id_no))
      ensures r.Id? ==> t_msg_id_no == r.id
      ensures !r.Id? ==> t_msg_id_no == old(t_msg_id_no) && t_max_msg_id_no == old(t_max_msg_id_no)
    {
      if t_msg_id_no == "" || t_msg_id_no == t_max_msg_id_no {
        if |random| != ID_LENGTH {
          return NoId;
        }
        NinesAppend(|t_max_msg_id_no|, ID_LENGTH);
        Reseed(random);
      } else {
        var ok := Increment();
        if !ok {
          return Overrun;
        }
      }
      r := Id(t_msg_id_no);
    }

    /** The digits are taken from `random`, and each appends a nine to the limit. */
    method Reseed(random: seq<int>)
      requires |random| == ID_LENGTH && forall i | 0 <= i < |random| :: 0 <= random[i] < 256
      modifies this
      ensures t_msg_id_no == Seed(random) && t_max_msg_id_no == old(t_max_msg_id_no) + Nines(ID_LENGTH)
    {
      var res := "";
      for i := 0 to ID_LENGTH
        invariant res == Seed(random)[..i]
        invariant t_max_msg_id_no == old(t_max_msg_id_no) + Nines(i)
      {
        res := res + ['0' + (random[i] % 10) as char];
        t_max_msg_id_no := t_max_msg_id_no + "9";
        assert Nines(i + 1) == Nines(i) + "9";
      }
      t_msg_id_no := res;
      assert Seed(random)[..ID_LENGTH] == Seed(random);
    }

    /**
     * Skip the trailing nines, raise the digit before them, and zero what follows; with nothing
     * but nines the index runs below zero.
     */
    method Increment() returns (ok: bool)
      requires Digits(t_msg_id_no)
      modifies `t_msg_id_no
      ensures ok <==> !AllNines(old(t_msg_id_no))
      ensures t_msg_id_no == if ok then Next(old(t_msg_id_no)) else old(t_msg_id_no)
    {
      var i, n := |t_msg_id_no| - 1, |t_msg_id_no|;
      ghost var s := t_msg_id_no;
      while i >= 0 && t_msg_id_no[i] == '9'
        invariant -1 <= i < n
        invariant forall k | i < k < n :: s[k] == '9'
        decreases i
      {
        i := i - 1;
      }
      if i < 0 {
        return false;
      }
      ok := true;
      t_msg_id_no := t_msg_id_no[i := t_msg_id_no[i] + 1 as char];
      for j := i + 1 to n
        invariant |t_msg_id_no| == n && t_msg_id_no[..i + 1] == s[..i] + [s[i] + 1 as char]
        invariant forall k | i < k < j :: t_msg_id_no[k] == '0'
      {
        t_msg_id_no := t_msg_id_no[j := '0'];
      }
      NextIs(s, i, t_msg_id_no);
    }
  }

  lemma NinesAppend(m: nat, n: nat)
    ensures Nines(m) + Nines(n) == Nines(m + n)
  {
  }

  /** `ids` are numerals of the seed's length for the seed's value and the values behind it. */
  ghost predicate CountsFrom(seed: string, ids: seq<string>)
    requires Digits(seed)
  {
    forall j | 0 <= j < |ids| :: |ids[j]| == |seed| && Digits(ids[j]) && Value(ids[j]) == Value(seed) + j
  }

  lemma CountsNext(seed: string, ids: seq<string>, last: string)
    requires Digits(seed) && CountsFrom(seed, ids) && ids != [] && last == ids[|ids| - 1]
    requires Value(seed) + |ids| < Pow10(|seed|)
    ensures Digits(last) && !AllNines(last) && CountsFrom(seed, ids + [Next(last)])
  {
    ValueBound(last);
    NextAddsOne(last);
    CountsSnoc(seed, ids, Next(last));
  }

  lemma CountsSnoc(seed: string, ids: seq<string>, s: string)
    requires Digits(seed) && CountsFrom(seed, ids)
    requires |s| == |seed| && Digits(s) && Value(s) == Value(seed) + |ids|
    ensures CountsFrom(seed, ids + [s])
  {
  }

  lemma CountedIds(seed: string, ids: seq<string>)
    requires Digits(seed) && CountsFrom(seed, ids) && Value(seed) + |ids| <= Pow10(|seed|)
    ensures forall j | 0 <= j < |ids| :: ids[j] == Nth(seed, j)
    ensures forall i, j | 0 <= i < j < |ids| :: ids[i] != ids[j]
  {
    forall j | 0 <= j < |ids| ensures ids[j] == Nth(seed, j) {
      ValueInjective(ids[j], Nth(seed, j));
    }
  }

  /** A seeding and `k` more calls: the ids count up from the seed, and so never repeat. */
  method DrawIds(u: MsgIdUtil, random: seq<int>, k: nat) returns (ids: seq<string>)
    requires |random| == ID_LENGTH && forall i | 0 <= i < |random| :: 0 <= random[i] < 256
    requires u.Valid() && u.SeedNeeded() && Value(Seed(random)) + k < Pow10(|Seed(random)|)
    modifies u
    ensures u.Valid() && |ids| == k + 1
    ensures forall j | 0 <= j <= k :: ids[j] == Nth(Seed(random), j)
    ensures forall i, j | 0 <= i < j <= k :: ids[i] != ids[j]
  {
    var r := u.GenMsgID(random);
    ids := DrawMore(u, r.id, k);
    CountedIds(r.id, ids);
  }

  method DrawMore(u: MsgIdUtil, seed: string, k: nat) returns (ids: seq<string>)
    requires u.Valid() && u.t_msg_id_no == seed && |seed| == ID_LENGTH && Digits(seed)
    requires Value(seed) + k < Pow10(|seed|)
    modifies u
    ensures u.Valid() && |ids| == k + 1 && CountsFrom(seed, ids)
  {
    ids := [seed];
    for i := 0 to k
      invariant u.Valid() && |ids| == i + 1 && CountsFrom(seed, ids) && u.t_msg_id_no == ids[i]
    {
      CountsNext(seed, ids, ids[i]);
      var id := DrawNext(u);
      ids := ids + [id];
    }
  }

  method DrawNext(u: MsgIdUtil) returns (id: string)
    requires u.Valid() && u.t_msg_id_no != "" && !AllNines(u.t_msg_id_no)
    modifies u
    ensures u.Valid() && id == u.t_msg_id_no == Next(old(u.t_msg_id_no))
  {
    var r := u.GenMsgID([]);
    id := r.id;
  }

  /** What the two loops leave behind is the successor. */
  lemma {:induction false} NextIs(s: string, i: nat, r: string)
    requires Digits(s) && i < |s| == |r| && s[i] != '9' && (forall k | i < k < |s| :: s[k] == '9')
    requires r[..i + 1] == s[..i] + [s[i] + 1 as char] && forall k | i < k < |r| :: r[k] == '0'
    ensures !AllNines(s) && r == Next(s)
    decreases |s|
  {
    if i + 1 < |s| {
      var front := s[..|s| - 1];
      assert front[..i] == s[..i];
      NextIs(front, i, r[..|r| - 1]);
      assert r == r[..|r| - 1] + "0";
    } else {
      assert r == r[..i + 1];
    }
  }
}
