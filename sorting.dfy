/** The two exchange sorts of LFD.java over parallel arrays: SortAsc orders
    distinct values ascending and carries their counts along; rankNAttributes
    orders scores descending and carries the attribute indices along. Both
    compare position i with every later position j and swap the two pairs
    when the later one must come first. Their meaning is the functional
    exchange sort ExchangeSort on (key, partner) pairs below. */
module Sorting {
  import opened SeqUtil

  type Pair = (real, int)

  /** Whether key x must be moved in front of key y: a smaller value for the
      ascending sort, a larger score for the descending one. */
  predicate Outranks(x: real, y: real, descending: bool)
  {
    if descending then x > y else x < y
  }

  /** Whether key x may stand before key y in the finished order. */
  predicate InOrder(x: real, y: real, descending: bool)
  {
    if descending then x >= y else x <= y
  }

  ghost predicate Sorted(s: seq<Pair>, descending: bool)
  {
    forall p, q :: 0 <= p < q < |s| ==> InOrder(s[p].0, s[q].0, descending)
  }

  ghost predicate DistinctKeys(s: seq<Pair>)
  {
    forall p, q :: 0 <= p < q < |s| ==> s[p].0 != s[q].0
  }

  ghost predicate DistinctPartners(s: seq<Pair>)
  {
    forall p, q :: 0 <= p < q < |s| ==> s[p].1 != s[q].1
  }

  function Swap(s: seq<Pair>, i: nat, j: nat): (r: seq<Pair>)
    requires i < |s| && j < |s|
    ensures |r| == |s|
  {
    s[i := s[j]][j := s[i]]
  }

  /** The inner loop for a fixed i, from position j to the end. */
  function InnerPass(s: seq<Pair>, i: nat, j: nat, descending: bool): (r: seq<Pair>)
    requires i < j <= |s|
    ensures |r| == |s|
    decreases |s| - j
  {
    if j == |s| then s
    else InnerPass(if Outranks(s[j].0, s[i].0, descending) then Swap(s, i, j) else s, i, j + 1, descending)
  }

  /** The outer loop from position i on. */
  function OuterPass(s: seq<Pair>, i: nat, descending: bool): (r: seq<Pair>)
    requires i <= |s|
    ensures |r| == |s|
    decreases |s| - i
  {
    if i + 1 >= |s| then s else OuterPass(InnerPass(s, i, i + 1, descending), i + 1, descending)
  }

  function ExchangeSort(s: seq<Pair>, descending: bool): (r: seq<Pair>)
    ensures |r| == |s|
  {
    OuterPass(s, 0, descending)
  }

  // ---------------------------------------------------------------------
  // Properties of the functional exchange sort
  // ---------------------------------------------------------------------

  lemma SwapFacts(s: seq<Pair>, i: nat, j: nat)
    requires i < j < |s|
    ensures multiset(Swap(s, i, j)) == multiset(s)
    ensures Swap(s, i, j)[..i] == s[..i]
    ensures multiset(Swap(s, i, j)[i..]) == multiset(s[i..])
  {
    var r := Swap(s, i, j);
    assert r[i..] == s[i..][0 := s[j]][j - i := s[i]];
    assert s[i..][j - i] == s[j];
  }

  lemma SwapDistinct(s: seq<Pair>, i: nat, j: nat)
    requires i < j < |s|
    ensures DistinctKeys(s) ==> DistinctKeys(Swap(s, i, j))
    ensures DistinctPartners(s) ==> DistinctPartners(Swap(s, i, j))
  {
  }

  /** The inner pass permutes the pairs from position i on, keeps the ones
      before i, and leaves at position i a key that may stand before every
      later key. */
  /** The inner pass only swaps pairs at i and later positions. */
  lemma {:induction false} InnerPassPermutes(s: seq<Pair>, i: nat, j: nat, descending: bool)
    requires i < j <= |s|
    ensures multiset(InnerPass(s, i, j, descending)) == multiset(s)
    ensures InnerPass(s, i, j, descending)[..i] == s[..i]
    ensures multiset(InnerPass(s, i, j, descending)[i..]) == multiset(s[i..])
    decreases |s| - j
  {
    if j < |s| {
      var t := if Outranks(s[j].0, s[i].0, descending) then Swap(s, i, j) else s;
      SwapFacts(s, i, j);
      InnerPassPermutes(t, i, j + 1, descending);
    }
  }

  lemma {:induction false} InnerPassFacts(s: seq<Pair>, i: nat, j: nat, descending: bool)
    requires i < j <= |s|
    requires forall m :: i < m < j ==> InOrder(s[i].0, s[m].0, descending)
    ensures multiset(InnerPass(s, i, j, descending)) == multiset(s)
    ensures InnerPass(s, i, j, descending)[..i] == s[..i]
    ensures multiset(InnerPass(s, i, j, descending)[i..]) == multiset(s[i..])
    ensures forall m :: i < m < |s| ==>
              InOrder(InnerPass(s, i, j, descending)[i].0, InnerPass(s, i, j, descending)[m].0, descending)
    decreases |s| - j
  {
    InnerPassPermutes(s, i, j, descending);
    if j < |s| {
      var t := if Outranks(s[j].0, s[i].0, descending) then Swap(s, i, j) else s;
      forall m | i < m < j + 1
        ensures InOrder(t[i].0, t[m].0, descending)
      {
        if m < j {
          assert InOrder(s[i].0, s[m].0, descending);
        }
      }
      InnerPassFacts(t, i, j + 1, descending);
    }
  }

  /** The passes only swap pairs, so distinct keys and distinct partners
      stay distinct. */
  lemma {:induction false} InnerPassDistinct(s: seq<Pair>, i: nat, j: nat, descending: bool)
    requires i < j <= |s|
    ensures DistinctKeys(s) ==> DistinctKeys(InnerPass(s, i, j, descending))
    ensures DistinctPartners(s) ==> DistinctPartners(InnerPass(s, i, j, descending))
    decreases |s| - j
  {
    if j < |s| {
      SwapDistinct(s, i, j);
      InnerPassDistinct(if Outranks(s[j].0, s[i].0, descending) then Swap(s, i, j) else s, i, j + 1, descending);
    }
  }

  lemma {:induction false} OuterPassDistinct(s: seq<Pair>, i: nat, descending: bool)
    requires i <= |s|
    ensures DistinctKeys(s) ==> DistinctKeys(OuterPass(s, i, descending))
    ensures DistinctPartners(s) ==> DistinctPartners(OuterPass(s, i, descending))
    decreases |s| - i
  {
    if i + 1 < |s| {
      InnerPassDistinct(s, i, i + 1, descending);
      OuterPassDistinct(InnerPass(s, i, i + 1, descending), i + 1, descending);
    }
  }

  /** One inner pass extends the sorted prefix by one position. */
  lemma InnerPassExtendsPrefix(s: seq<Pair>, i: nat, descending: bool)
    requires i + 1 < |s|
    requires forall p, q :: 0 <= p < q < i ==> InOrder(s[p].0, s[q].0, descending)
    requires forall p, m :: 0 <= p < i <= m < |s| ==> InOrder(s[p].0, s[m].0, descending)
    ensures var t := InnerPass(s, i, i + 1, descending);
      (forall p, q :: 0 <= p < q < i + 1 ==> InOrder(t[p].0, t[q].0, descending)) &&
      (forall p, m :: 0 <= p < i + 1 <= m < |t| ==> InOrder(t[p].0, t[m].0, descending))
  {
    var t := InnerPass(s, i, i + 1, descending);
    InnerPassFacts(s, i, i + 1, descending);
    forall p | 0 <= p < i
      ensures t[p] == s[p]
    {
      assert t[p] == t[..i][p];
    }
    forall p, m | 0 <= p < i <= m < |t|
      ensures InOrder(t[p].0, t[m].0, descending)
    {
      assert t[m] == t[i..][m - i];
      assert t[m] in multiset(s[i..]);
      var m' :| 0 <= m' < |s[i..]| && s[i..][m'] == t[m];
      assert InOrder(s[p].0, s[i + m'].0, descending);
    }
  }

  /** The outer pass from i on sorts the whole sequence, provided the part
      before i is sorted and may stand before everything after it. */
  lemma {:induction false} OuterPassFacts(s: seq<Pair>, i: nat, descending: bool)
    requires i <= |s|
    requires forall p, q :: 0 <= p < q < i ==> InOrder(s[p].0, s[q].0, descending)
    requires forall p, m :: 0 <= p < i <= m < |s| ==> InOrder(s[p].0, s[m].0, descending)
    ensures multiset(OuterPass(s, i, descending)) == multiset(s)
    ensures Sorted(OuterPass(s, i, descending), descending)
    decreases |s| - i
  {
    if i + 1 < |s| {
      InnerPassFacts(s, i, i + 1, descending);
      InnerPassExtendsPrefix(s, i, descending);
      OuterPassFacts(InnerPass(s, i, i + 1, descending), i + 1, descending);
    } else {
      forall p, q | 0 <= p < q < |s|
        ensures InOrder(s[p].0, s[q].0, descending)
      {
        if q >= i {
          assert InOrder(s[p].0, s[q].0, descending);
        }
      }
    }
  }

  /** The exchange sort returns a permutation of the (key, partner) pairs, in
      order of its direction, with distinct keys staying distinct and
      distinct partners staying distinct. */
  lemma ExchangeSortFacts(s: seq<Pair>, descending: bool)
    ensures multiset(ExchangeSort(s, descending)) == multiset(s)
    ensures Sorted(ExchangeSort(s, descending), descending)
    ensures DistinctKeys(s) ==> DistinctKeys(ExchangeSort(s, descending))
    ensures DistinctPartners(s) ==> DistinctPartners(ExchangeSort(s, descending))
  {
    OuterPassFacts(s, 0, descending);
    OuterPassDistinct(s, 0, descending);
  }

  ghost predicate EqualKeys(s: seq<Pair>)
  {
    forall p, q :: 0 <= p < q < |s| ==> s[p].0 == s[q].0
  }

  lemma {:induction false} InnerPassEqualKeys(s: seq<Pair>, i: nat, j: nat, descending: bool)
    requires i < j <= |s| && EqualKeys(s)
    ensures InnerPass(s, i, j, descending) == s
    decreases |s| - j
  {
    if j < |s| {
      assert s[i].0 == s[j].0;
      InnerPassEqualKeys(s, i, j + 1, descending);
    }
  }

  lemma {:induction false} OuterPassEqualKeys(s: seq<Pair>, i: nat, descending: bool)
    requires i <= |s| && EqualKeys(s)
    ensures OuterPass(s, i, descending) == s
    decreases |s| - i
  {
    if i + 1 < |s| {
      InnerPassEqualKeys(s, i, i + 1, descending);
      OuterPassEqualKeys(s, i + 1, descending);
    }
  }

  /** When all keys are equal no pair ever outranks another, so the exchange
      sort leaves the order as it is. */
  lemma ExchangeSortEqualKeys(s: seq<Pair>, descending: bool)
    requires EqualKeys(s)
    ensures ExchangeSort(s, descending) == s
  {
    OuterPassEqualKeys(s, 0, descending);
  }

  /** Sorting ascending keys that are distinct leaves them strictly
      ascending. */
  lemma StrictlyAscendingKeys(s: seq<Pair>)
    requires Sorted(s, false) && DistinctKeys(s)
    ensures StrictlyAscending(Firsts(s))
  {
  }

  /** Every pair of a permutation comes from the original sequence, so a
      relation between key and partner that held before still holds. */
  lemma PermutedPairFrom(s: seq<Pair>, r: seq<Pair>, k: nat)
    requires multiset(r) == multiset(s) && k < |r|
    ensures exists m :: 0 <= m < |s| && s[m] == r[k]
  {
    assert r[k] in multiset(r);
    assert r[k] in s;
  }

  // ---------------------------------------------------------------------
  // The in-place sorts on parallel arrays
  // ---------------------------------------------------------------------

  /** Swaps entries i and j of both arrays. */
  method SwapEntries(ra: array<real>, partner: array<int>, n: nat, i: nat, j: nat)
    requires n <= ra.Length && n <= partner.Length && i < j < n
    modifies ra, partner
    ensures Zip(ra[..n], partner[..n]) == Swap(Zip(old(ra[..n]), old(partner[..n])), i, j)
    ensures ra[n..] == old(ra[n..]) && partner[n..] == old(partner[n..])
  {
    var tmp := ra[j];
    ra[j] := ra[i];
    ra[i] := tmp;
    var tmpA := partner[j];
    partner[j] := partner[i];
    partner[i] := tmpA;
    assert ra[..n] == old(ra[..n])[i := old(ra[j])][j := old(ra[i])];
    assert partner[..n] == old(partner[..n])[i := old(partner[j])][j := old(partner[i])];
  }

  /** SortAsc: the first n values ascending, each count moving with its
      value; the entries from n on are not touched. */
  method SortAsc(ra: array<real>, nAttrs: array<int>, nA: nat)
    requires nA <= ra.Length && nA <= nAttrs.Length
    modifies ra, nAttrs
    ensures Zip(ra[..nA], nAttrs[..nA]) == ExchangeSort(Zip(old(ra[..nA]), old(nAttrs[..nA])), false)
    ensures ra[nA..] == old(ra[nA..]) && nAttrs[nA..] == old(nAttrs[nA..])
  {
    ghost var final := ExchangeSort(Zip(ra[..nA], nAttrs[..nA]), false);
    var i := 0;
    while i + 1 < nA
      invariant 0 <= i <= nA
      invariant OuterPass(Zip(ra[..nA], nAttrs[..nA]), i, false) == final
      invariant ra[nA..] == old(ra[nA..]) && nAttrs[nA..] == old(nAttrs[nA..])
    {
      var j := i + 1;
      while j < nA
        invariant i < j <= nA
        invariant OuterPass(InnerPass(Zip(ra[..nA], nAttrs[..nA]), i, j, false), i + 1, false) == final
        invariant ra[nA..] == old(ra[nA..]) && nAttrs[nA..] == old(nAttrs[nA..])
      {
        ghost var s := Zip(ra[..nA], nAttrs[..nA]);
        if ra[j] < ra[i] {
          SwapEntries(ra, nAttrs, nA, i, j);
        }
        assert Zip(ra[..nA], nAttrs[..nA]) == if Outranks(s[j].0, s[i].0, false) then Swap(s, i, j) else s;
        assert InnerPass(s, i, j, false) == InnerPass(Zip(ra[..nA], nAttrs[..nA]), i, j + 1, false);
        j := j + 1;
      }
      i := i + 1;
    }
  }

  /** rankNAttributes: the first n scores descending (non-increasing), each
      attribute index moving with its score; the entries from n on are not
      touched. */
  method RankNAttributes(ra: array<real>, nAttrs: array<int>, nA: nat)
    requires nA <= ra.Length && nA <= nAttrs.Length
    modifies ra, nAttrs
    ensures Zip(ra[..nA], nAttrs[..nA]) == ExchangeSort(Zip(old(ra[..nA]), old(nAttrs[..nA])), true)
    ensures ra[nA..] == old(ra[nA..]) && nAttrs[nA..] == old(nAttrs[nA..])
  {
    ghost var final := ExchangeSort(Zip(ra[..nA], nAttrs[..nA]), true);
    var i := 0;
    while i + 1 < nA
      invariant 0 <= i <= nA
      invariant OuterPass(Zip(ra[..nA], nAttrs[..nA]), i, true) == final
      invariant ra[nA..] == old(ra[nA..]) && nAttrs[nA..] == old(nAttrs[nA..])
    {
      var j := i + 1;
      while j < nA
        invariant i < j <= nA
        invariant OuterPass(InnerPass(Zip(ra[..nA], nAttrs[..nA]), i, j, true), i + 1, true) == final
        invariant ra[nA..] == old(ra[nA..]) && nAttrs[nA..] == old(nAttrs[nA..])
      {
        ghost var s := Zip(ra[..nA], nAttrs[..nA]);
        if ra[j] > ra[i] {
          SwapEntries(ra, nAttrs, nA, i, j);
        }
        assert Zip(ra[..nA], nAttrs[..nA]) == if Outranks(s[j].0, s[i].0, true) then Swap(s, i, j) else s;
        assert InnerPass(s, i, j, true) == InnerPass(Zip(ra[..nA], nAttrs[..nA]), i, j + 1, true);
        j := j + 1;
      }
      i := i + 1;
    }
  }
}
