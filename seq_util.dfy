/** Sequence vocabulary shared by the LFD model: optional values, zipping of
    parallel arrays, occurrence counts, sums, first-appearance order and
    ascending order. */
module SeqUtil {

  datatype Option<T> = None | Some(value: T)

  /** The (value, partner) pairs of two parallel sequences. */
  function Zip<A, B>(a: seq<A>, b: seq<B>): (z: seq<(A, B)>)
    requires |a| == |b|
    ensures |z| == |a|
    ensures forall k :: 0 <= k < |z| ==> z[k] == (a[k], b[k])
  {
    seq(|a|, k requires 0 <= k < |a| => (a[k], b[k]))
  }

  function Firsts<A, B>(z: seq<(A, B)>): (a: seq<A>)
    ensures |a| == |z|
    ensures forall k :: 0 <= k < |z| ==> a[k] == z[k].0
  {
    seq(|z|, k requires 0 <= k < |z| => z[k].0)
  }

  function Seconds<A, B>(z: seq<(A, B)>): (b: seq<B>)
    ensures |b| == |z|
    ensures forall k :: 0 <= k < |z| ==> b[k] == z[k].1
  {
    seq(|z|, k requires 0 <= k < |z| => z[k].1)
  }

  /** Number of occurrences of x in s. */
  function Count<T(==)>(s: seq<T>, x: T): nat
  {
    if s == [] then 0 else Count(s[..|s| - 1], x) + (if s[|s| - 1] == x then 1 else 0)
  }

  function Sum(s: seq<int>): int
  {
    if s == [] then 0 else Sum(s[..|s| - 1]) + s[|s| - 1]
  }

  /** The distinct elements of s, each in the position of its first
      appearance; this is the order in which a left-to-right scan that
      appends unseen values discovers them. */
  function FirstAppearance<T(==)>(s: seq<T>): seq<T>
  {
    if s == [] then []
    else
      var p := FirstAppearance(s[..|s| - 1]);
      if s[|s| - 1] in p then p else p + [s[|s| - 1]]
  }

  ghost predicate Distinct<T>(s: seq<T>)
  {
    forall i, j :: 0 <= i < j < |s| ==> s[i] != s[j]
  }

  ghost predicate StrictlyAscending(s: seq<real>)
  {
    forall i, j :: 0 <= i < j < |s| ==> s[i] < s[j]
  }

  lemma {:induction false} CountAppend<T>(s: seq<T>, t: seq<T>, x: T)
    ensures Count(s + t, x) == Count(s, x) + Count(t, x)
    decreases |t|
  {
    if t == [] {
      assert s + t == s;
    } else {
      assert (s + t)[..|s + t| - 1] == s + t[..|t| - 1];
      CountAppend(s, t[..|t| - 1], x);
    }
  }

  lemma {:induction false} CountPositive<T>(s: seq<T>, x: T)
    ensures Count(s, x) > 0 <==> x in s
  {
    if s != [] {
      CountPositive(s[..|s| - 1], x);
      assert s == s[..|s| - 1] + [s[|s| - 1]];
    }
  }

  /** FirstAppearance lists exactly the elements of its input, each once, and
      never more of them than the input has. */
  lemma {:induction false} FirstAppearanceSpec<T>(s: seq<T>)
    ensures Distinct(FirstAppearance(s))
    ensures forall x :: x in FirstAppearance(s) <==> x in s
    ensures |FirstAppearance(s)| <= |s|
  {
    if s != [] {
      var init := s[..|s| - 1];
      FirstAppearanceSpec(init);
      assert s == init + [s[|s| - 1]];
    }
  }

  lemma {:induction false} CountBound<T>(s: seq<T>, x: T)
    ensures Count(s, x) <= |s|
  {
    if s != [] {
      CountBound(s[..|s| - 1], x);
    }
  }

  /** Overwriting entry k with y changes the count of x by what leaves and
      what arrives. */
  lemma {:induction false} CountUpdate<T>(s: seq<T>, k: nat, y: T, x: T)
    requires k < |s|
    ensures Count(s[k := y], x) ==
            Count(s, x) - (if s[k] == x then 1 else 0) + (if y == x then 1 else 0)
  {
    var t := s[k := y];
    if k < |s| - 1 {
      assert t[..|t| - 1] == s[..|s| - 1][k := y];
      CountUpdate(s[..|s| - 1], k, y, x);
    } else {
      assert t[..|t| - 1] == s[..|s| - 1];
    }
  }

  /** An element of a sequence without repetitions occurs exactly once. */
  lemma {:induction false} DistinctCount<T>(s: seq<T>, x: T)
    requires Distinct(s) && x in s
    ensures Count(s, x) == 1
  {
    var init := s[..|s| - 1];
    assert s == init + [s[|s| - 1]];
    if s[|s| - 1] == x {
      assert x !in init;
      CountPositive(init, x);
    } else {
      DistinctCount(init, x);
    }
  }

  /** Sum of a sequence after incrementing one entry. */
  lemma {:induction false} SumIncrement(s: seq<int>, k: nat)
    requires k < |s|
    ensures Sum(s[k := s[k] + 1]) == Sum(s) + 1
  {
    var t := s[k := s[k] + 1];
    if k < |s| - 1 {
      assert t[..|t| - 1] == s[..|s| - 1][k := s[k] + 1];
      SumIncrement(s[..|s| - 1], k);
    } else {
      assert t[..|t| - 1] == s[..|s| - 1];
    }
  }
}
