/** Order-preserving filtering of sequences, the shape of Rust's
    `Vec::retain` and of an `if`-guarded `push` loop. */
module Lists {

  /** The elements of `s` that satisfy `f`, in their original order. */
  function Filter<T>(s: seq<T>, f: T -> bool): (r: seq<T>)
    ensures |r| <= |s|
    decreases |s|
  {
    if s == [] then []
    else Filter(s[..|s| - 1], f) + (if f(s[|s| - 1]) then [s[|s| - 1]] else [])
  }

  /** An element is kept exactly when it is in `s` and satisfies `f`. */
  lemma {:induction false} FilterMembership<T>(s: seq<T>, f: T -> bool, x: T)
    ensures x in Filter(s, f) <==> x in s && f(x)
    decreases |s|
  {
    if s != [] {
      assert s == s[..|s| - 1] + [s[|s| - 1]];
      FilterMembership(s[..|s| - 1], f, x);
    }
  }

  /** Filtering distributes over concatenation: the kept elements stay in
      their relative order. */
  lemma {:induction false} FilterAppend<T>(s: seq<T>, t: seq<T>, f: T -> bool)
    ensures Filter(s + t, f) == Filter(s, f) + Filter(t, f)
    decreases |t|
  {
    if t == [] {
      assert s + t == s;
    } else {
      var n := |t| - 1;
      assert (s + t)[..|s + t| - 1] == s + t[..n];
      FilterAppend(s, t[..n], f);
    }
  }

  /** Filtering a one-step-longer prefix adds at most that element. */
  lemma FilterSnoc<T>(s: seq<T>, j: nat, f: T -> bool)
    requires j < |s|
    ensures Filter(s[..j + 1], f) == Filter(s[..j], f) + (if f(s[j]) then [s[j]] else [])
  {
    assert s[..j + 1][..j] == s[..j];
  }

  /** Filtering `s` followed by a one-step-longer prefix of `t` adds at most
      that element of `t`. */
  lemma FilterAppendSnoc<T>(s: seq<T>, t: seq<T>, k: nat, f: T -> bool)
    requires k < |t|
    ensures Filter(s + t[..k + 1], f) == Filter(s + t[..k], f) + (if f(t[k]) then [t[k]] else [])
  {
    FilterAppend(s, t[..k + 1], f);
    FilterAppend(s, t[..k], f);
    FilterSnoc(t, k, f);
  }

  /** Elements kept and elements dropped add up to the whole sequence. */
  lemma {:induction false} FilterPartition<T>(s: seq<T>, f: T -> bool, g: T -> bool)
    requires forall x :: x in s ==> g(x) == !f(x)
    ensures |Filter(s, f)| + |Filter(s, g)| == |s|
    decreases |s|
  {
    if s != [] {
      FilterPartition(s[..|s| - 1], f, g);
    }
  }

  /** Filters that agree on the elements of `s` keep the same elements. */
  lemma {:induction false} FilterCongruent<T>(s: seq<T>, f: T -> bool, g: T -> bool)
    requires forall x :: x in s ==> f(x) == g(x)
    ensures Filter(s, f) == Filter(s, g)
    decreases |s|
  {
    if s != [] {
      FilterCongruent(s[..|s| - 1], f, g);
    }
  }

  /** The sequences of `ss` joined in order. */
  function Concat<T>(ss: seq<seq<T>>): seq<T> {
    if ss == [] then [] else ss[0] + Concat(ss[1..])
  }

  /** An element of the join is an element of one of the joined sequences,
      and every element of each of them is in the join. */
  lemma {:induction false} ConcatMembership<T>(ss: seq<seq<T>>, x: T)
    ensures x in Concat(ss) <==> exists j :: 0 <= j < |ss| && x in ss[j]
  {
    if ss != [] {
      ConcatMembership(ss[1..], x);
      if j :| 0 <= j < |ss| && x in ss[j] {
        if j > 0 {
          assert x in ss[1..][j - 1];
        }
      }
      if x in Concat(ss[1..]) {
        var j :| 0 <= j < |ss[1..]| && x in ss[1..][j];
        assert x in ss[j + 1];
      }
    }
  }
}
