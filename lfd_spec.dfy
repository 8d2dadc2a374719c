/** Value-level meaning of the LFD engine in LFD.java: the missing-value
    classifier, the frequency table of a numerical column, the choice of
    categorical predictors (findCatAttrs), the weighted CAIM score of a
    tentative cut-point set, the average correlation used for ranking
    (calAvgEta) and the text written by arrayToFile. The floating-point
    statistics calEta and CAIM_Uncertainty enter as function parameters over a
    snapshot of the engine's state. */
module LfdSpec {
  import opened SeqUtil
  import opened Sorting
  import opened Cutpoints
  import Binning
  import FileManager

  // ---------------------------------------------------------------------
  // Missing values
  // ---------------------------------------------------------------------

  /** The placeholder LFD.java recognises: the single replacement character
      U+FFFD. */
  const Placeholder: string := "\U{FFFD}"

  const MissingMarkers: set<string> := {"", "?", Placeholder, "NaN", "  NaN"}

  /** isMissing: 1 for the five exact marker strings, 0 for anything else. */
  function IsMissing(oStr: string): (ret: int)
    ensures ret == 0 || ret == 1
    ensures ret == 1 <==> oStr in MissingMarkers
  {
    if oStr == "" || oStr == "?" || oStr == Placeholder || oStr == "NaN" || oStr == "  NaN" then 1 else 0
  }

  /** The engine's classifier and the file helper's classifier agree on every
      string except their two placeholders: U+FFFD is missing only here, its
      three-character UTF-8 mis-decoding only in the file helper. */
  lemma ClassifiersDiffer(s: string)
    ensures IsMissing(s) != FileManager.IsMissing(s) <==>
            s == Placeholder || s == FileManager.MojibakePlaceholder
    ensures s == Placeholder ==> IsMissing(s) == 1 && FileManager.IsMissing(s) == 0
  {
    assert |Placeholder| == 1 && |FileManager.MojibakePlaceholder| == 3;
  }

  // ---------------------------------------------------------------------
  // Snapshot of the engine's state read by the statistics
  // ---------------------------------------------------------------------

  /** The table (records x attributes), the missing-value flags, the current
      type of every attribute (1 numerical, 0 categorical) and the domain of
      every attribute (the first domainsize entries of its row of
      domainValues). */
  datatype View = View(table: seq<seq<string>>, missing: seq<seq<int>>, types: seq<int>, domains: seq<seq<string>>)

  // ---------------------------------------------------------------------
  // Frequency table (frequencyDistribution)
  // ---------------------------------------------------------------------

  /** The parsed values of the non-missing cells of a column, in row order. */
  function PresentValues(parse: string -> real, col: seq<string>): (vs: seq<real>)
    ensures |vs| <= |col|
  {
    if col == [] then []
    else PresentValues(parse, col[..|col| - 1]) +
         (if IsMissing(col[|col| - 1]) == 0 then [parse(col[|col| - 1])] else [])
  }

  lemma PresentValuesStep(parse: string -> real, col: seq<string>, i: nat)
    requires i < |col|
    ensures PresentValues(parse, col[..i + 1]) ==
            PresentValues(parse, col[..i]) + (if IsMissing(col[i]) == 0 then [parse(col[i])] else [])
  {
    assert col[..i + 1][..i] == col[..i];
  }

  /** A parsed value of a non-missing cell is among the column's present
      values. */
  lemma {:induction false} PresentValuesMember(parse: string -> real, col: seq<string>, i: nat)
    requires i < |col| && IsMissing(col[i]) == 0
    ensures parse(col[i]) in PresentValues(parse, col)
  {
    var init := col[..|col| - 1];
    if i < |col| - 1 {
      assert init[i] == col[i];
      PresentValuesMember(parse, init, i);
    }
  }

  /** The cells whose missing flag is 0, in row order (the domain of a
      categorical attribute is built from these). */
  function KeptCells(col: seq<string>, mv: seq<int>): (kept: seq<string>)
    requires |col| == |mv|
    ensures |kept| <= |col|
  {
    if col == [] then []
    else KeptCells(col[..|col| - 1], mv[..|mv| - 1]) + (if mv[|mv| - 1] == 0 then [col[|col| - 1]] else [])
  }

  lemma KeptCellsStep(col: seq<string>, mv: seq<int>, i: nat)
    requires |col| == |mv| && i < |col|
    ensures KeptCells(col[..i + 1], mv[..i + 1]) ==
            KeptCells(col[..i], mv[..i]) + (if mv[i] == 0 then [col[i]] else [])
  {
    assert col[..i + 1][..i] == col[..i];
    assert mv[..i + 1][..i] == mv[..i];
  }

  /** One more record adds its cell to the domain when it is kept and not
      yet there. */
  lemma KeptDomainStep(col: seq<string>, mv: seq<int>, i: nat)
    requires |col| == |mv| && i < |col|
    ensures var u := FirstAppearance(KeptCells(col[..i], mv[..i]));
      && |u| <= i
      && FirstAppearance(KeptCells(col[..i + 1], mv[..i + 1])) ==
         if mv[i] == 0 && col[i] !in u then u + [col[i]] else u
  {
    var kept := KeptCells(col[..i], mv[..i]);
    KeptCellsStep(col, mv, i);
    FirstAppearanceSpec(kept);
    if mv[i] == 0 {
      FirstAppearanceStep(kept, col[i]);
    } else {
      assert kept + [] == kept;
    }
  }

  lemma FirstAppearanceStep<T>(s: seq<T>, x: T)
    ensures FirstAppearance(s + [x]) ==
            if x in FirstAppearance(s) then FirstAppearance(s) else FirstAppearance(s) + [x]
  {
    assert (s + [x])[..|s|] == s;
  }

  /** The occurrence count of every distinct value, in first-appearance
      order. */
  function Counts(s: seq<real>): (c: seq<int>)
    ensures |c| == |FirstAppearance(s)|
  {
    var u := FirstAppearance(s);
    seq(|u|, k requires 0 <= k < |u| => Count(s, u[k]))
  }

  /** Appending x raises the count of x by one and leaves every other
      count alone. */
  lemma CountSnoc(s: seq<real>, x: real)
    ensures forall y :: Count(s + [x], y) == Count(s, y) + (if x == y then 1 else 0)
  {
    assert (s + [x])[..|s|] == s;
  }

  /** A value seen before raises its own count by one. */
  lemma CountsStepSeen(s: seq<real>, x: real, k: nat)
    requires k < |FirstAppearance(s)| && FirstAppearance(s)[k] == x
    ensures FirstAppearance(s + [x]) == FirstAppearance(s)
    ensures Counts(s + [x]) == Counts(s)[k := Counts(s)[k] + 1]
  {
    var u := FirstAppearance(s);
    FirstAppearanceStep(s, x);
    FirstAppearanceSpec(s);
    assert (s + [x])[..|s|] == s;
    forall m | 0 <= m < |u|
      ensures Counts(s + [x])[m] == Counts(s)[k := Counts(s)[k] + 1][m]
    {
      if m != k {
        assert u[m] != u[k];
      }
    }
  }

  /** A new value is appended with count 1. */
  lemma CountsStepNew(s: seq<real>, x: real)
    requires x !in FirstAppearance(s)
    ensures FirstAppearance(s + [x]) == FirstAppearance(s) + [x]
    ensures Counts(s + [x]) == Counts(s) + [1]
  {
    FirstAppearanceStep(s, x);
    FirstAppearanceSpec(s);
    assert (s + [x])[..|s|] == s;
    CountPositive(s, x);
  }

  /** Every distinct value occurs at least once and the counts add up to the
      number of values. */
  lemma {:induction false} CountsSum(s: seq<real>)
    ensures forall k :: 0 <= k < |Counts(s)| ==> Counts(s)[k] >= 1
    ensures Sum(Counts(s)) == |s|
  {
    var u := FirstAppearance(s);
    FirstAppearanceSpec(s);
    forall k | 0 <= k < |u|
      ensures Counts(s)[k] >= 1
    {
      CountPositive(s, u[k]);
    }
    if s != [] {
      var init := s[..|s| - 1];
      var x := s[|s| - 1];
      assert s == init + [x];
      CountsSum(init);
      if x in FirstAppearance(init) {
        var k :| 0 <= k < |FirstAppearance(init)| && FirstAppearance(init)[k] == x;
        CountsStepSeen(init, x, k);
        SumIncrement(Counts(init), k);
      } else {
        CountsStepNew(init, x);
        assert (Counts(init) + [1])[..|Counts(init)|] == Counts(init);
      }
    }
  }

  /** lambda of frequencyDistribution: the mean count, or 0 when the column has
      no value. */
  function Lambda(s: seq<real>): (lambda: real)
    ensures |s| == 0 ==> lambda == 0.0
    ensures |s| > 0 ==> lambda * (|FirstAppearance(s)| as real) == |s| as real
  {
    FirstAppearanceSpec(s);
    if |FirstAppearance(s)| > 0 then (|s| as real) / (|FirstAppearance(s)| as real) else 0.0
  }

  // ---------------------------------------------------------------------
  // Candidate cut-points of an attribute
  // ---------------------------------------------------------------------

  /** The distinct values with their counts, sorted ascending by value
      (frequencyDistribution followed by SortAsc). */
  function SortedFrequencies(vs: seq<real>): (r: seq<Pair>)
    ensures |r| == |FirstAppearance(vs)|
  {
    ExchangeSort(Zip(FirstAppearance(vs), Counts(vs)), false)
  }

  /** The candidate cut-points of findInitialCutpoints over the sorted
      distinct values. */
  function CandidateCutpoints(vs: seq<real>): seq<real>
  {
    var r := SortedFrequencies(vs);
    InitialCutpoints(Firsts(r), Seconds(r), Lambda(vs))
  }

  /** After sorting, the values are strictly ascending, are exactly the
      values of vs, and each still carries its own number of occurrences. */
  lemma SortedFrequenciesFacts(vs: seq<real>)
    ensures var r := SortedFrequencies(vs);
      && StrictlyAscending(Firsts(r))
      && (forall x :: x in Firsts(r) <==> x in vs)
      && (forall k :: 0 <= k < |r| ==> r[k].1 == Count(vs, r[k].0))
  {
    var u := FirstAppearance(vs);
    var z := Zip(u, Counts(vs));
    var r := SortedFrequencies(vs);
    FirstAppearanceSpec(vs);
    assert DistinctKeys(z);
    ExchangeSortFacts(z, false);
    StrictlyAscendingKeys(r);
    forall k | 0 <= k < |r|
      ensures r[k].0 in vs && r[k].1 == Count(vs, r[k].0)
    {
      PermutedPairFrom(z, r, k);
    }
    forall x | x in vs
      ensures x in Firsts(r)
    {
      var m :| 0 <= m < |u| && u[m] == x;
      assert z[m] in multiset(r);
      var k :| 0 <= k < |r| && r[k] == z[m];
      assert Firsts(r)[k] == x;
    }
  }

  /** The candidates of a column with at least one present value run
      strictly upwards from its smallest value to its largest; there are at
      least two when the column has two distinct values. */
  lemma CandidateCutpointsFacts(vs: seq<real>)
    requires vs != []
    ensures var c := CandidateCutpoints(vs);
      && 1 <= |c|
      && StrictlyAscending(c)
      && c[0] in vs && c[|c| - 1] in vs
      && (forall x :: x in vs ==> c[0] <= x <= c[|c| - 1])
      && (|FirstAppearance(vs)| >= 2 ==> |c| >= 2)
  {
    var r := SortedFrequencies(vs);
    var f := Firsts(r);
    FirstAppearanceSpec(vs);
    assert vs[0] in FirstAppearance(vs);
    SortedFrequenciesFacts(vs);
    InitialCutpointsFacts(f, Seconds(r), Lambda(vs));
    forall x | x in vs
      ensures f[0] <= x <= f[|f| - 1]
    {
      var k :| 0 <= k < |f| && f[k] == x;
    }
  }

  /** With two distinct values, any selection of the candidates that keeps
      the first and the last gives every present value an interval: its
      label is one of 0 .. n-2 for n cut-points. */
  lemma LabelsCover(vs: seq<real>, flags: seq<int>, x: real)
    requires |FirstAppearance(vs)| >= 2
    requires |flags| == |CandidateCutpoints(vs)| && flags[0] == 1 && flags[|flags| - 1] == 1
    requires x in vs
    ensures var cps := ActiveCutpoints(CandidateCutpoints(vs), flags, -1);
      IsLabelBelow(Binning.Label(x, cps), |cps| - 1)
  {
    var icp := CandidateCutpoints(vs);
    var cps := ActiveCutpoints(icp, flags, -1);
    CandidateCutpointsFacts(vs);
    ActiveCutpointsFacts(icp, flags, -1);
    Binning.BinCoverage(x, cps);
  }

  // ---------------------------------------------------------------------
  // Interval labels of a discretized attribute
  // ---------------------------------------------------------------------

  /** The domain of a discretized attribute with k intervals: "0" .. "k-1". */
  function Labels(k: nat): (ls: seq<string>)
    ensures |ls| == k
  {
    seq(k, t requires 0 <= t < k => Binning.NatToString(t))
  }

  ghost predicate IsLabelBelow(s: string, k: int)
  {
    exists j :: 0 <= j < k && s == Binning.NatToString(j)
  }

  /** The labels are pairwise distinct. */
  lemma LabelsDistinct(k: nat)
    ensures Distinct(Labels(k))
  {
    forall t, t' | 0 <= t < t' < k
      ensures Labels(k)[t] != Labels(k)[t']
    {
      Binning.NatToStringInjective(t, t');
    }
  }

  // ---------------------------------------------------------------------
  // Categorical predictors (findCatAttrs)
  // ---------------------------------------------------------------------

  /** The attribute types initialize reads from the first row of the
      attribute information: 1 where it says "1", 0 elsewhere. */
  function TypesOf(info: seq<string>): seq<int>
  {
    seq(|info|, a requires 0 <= a < |info| => if info[a] == "1" then 1 else 0)
  }

  /** The attributes of type x, in increasing order. */
  function TypeIndices(types: seq<int>, x: int): seq<nat>
  {
    Selected(TypeMarks(types, x))
  }

  function TypeMarks(types: seq<int>, x: int): (marks: seq<bool>)
    ensures |marks| == |types|
    ensures forall i :: 0 <= i < |types| ==> marks[i] == (types[i] == x)
  {
    seq(|types|, i requires 0 <= i < |types| => types[i] == x)
  }

  /** The categorical attributes (type 0), in increasing order. */
  function CategoricalIndices(types: seq<int>): seq<nat>
  {
    TypeIndices(types, 0)
  }

  lemma {:induction false} TypeMarksCount(types: seq<int>, x: int)
    ensures Count(TypeMarks(types, x), true) == Count(types, x)
  {
    if types != [] {
      var n := |types|;
      assert TypeMarks(types, x)[..n - 1] == TypeMarks(types[..n - 1], x);
      TypeMarksCount(types[..n - 1], x);
    }
  }

  lemma TypeMarksPrefix(types: seq<int>, x: int, i: nat)
    requires i <= |types|
    ensures TypeMarks(types[..i], x) == TypeMarks(types, x)[..i]
  {
  }

  /** TypeIndices lists each attribute of type x once, in increasing order,
      and nothing else. */
  lemma TypeIndicesFacts(types: seq<int>, x: int)
    ensures |TypeIndices(types, x)| == Count(types, x)
    ensures Increasing(TypeIndices(types, x))
    ensures forall k :: 0 <= k < |TypeIndices(types, x)| ==>
              TypeIndices(types, x)[k] < |types| && types[TypeIndices(types, x)[k]] == x
    ensures forall c :: 0 <= c < |types| && types[c] == x ==> c in TypeIndices(types, x)
  {
    SelectedFacts(TypeMarks(types, x));
    TypeMarksCount(types, x);
  }

  /** An attribute of type x stands in TypeIndices at the position given by
      the number of attributes of type x before it. */
  lemma TypeIndicesAt(types: seq<int>, x: int, i: nat)
    requires i < |types|
    ensures Count(types[..i + 1], x) == Count(types[..i], x) + (if types[i] == x then 1 else 0)
    ensures Count(types[..i + 1], x) <= Count(types, x)
    ensures types[i] == x ==>
              Count(types[..i], x) < |TypeIndices(types, x)| && TypeIndices(types, x)[Count(types[..i], x)] == i
  {
    assert types[..i + 1][..i] == types[..i];
    var marks := TypeMarks(types, x);
    TypeMarksPrefix(types, x, i + 1);
    TypeMarksPrefix(types, x, i);
    SelectedPrefix(marks, i);
    SelectedPrefixOf(marks, i + 1);
    TypeIndicesFacts(types[..i], x);
    TypeIndicesFacts(types[..i + 1], x);
    TypeIndicesFacts(types, x);
  }

  /** Java's (int) cast of a double: truncation toward zero. */
  function Truncate(r: real): (t: int)
    ensures r >= 0.0 ==> t as real <= r < t as real + 1.0
    ensures r < 0.0 ==> t as real - 1.0 < r <= t as real
  {
    if r >= 0.0 then r.Floor else -((-r).Floor)
  }

  /** ncAttr of findCatAttrs: the truncated share p of the noCat categorical
      attributes, raised to 1 and capped at noCat. */
  function SubsetSize(p: real, noCat: nat): (n: nat)
    ensures noCat == 0 ==> n == 0
    ensures noCat > 0 ==> 1 <= n <= noCat
    ensures noCat > 0 && 1 <= Truncate(p * noCat as real) <= noCat ==> n == Truncate(p * noCat as real)
    ensures noCat > 0 && Truncate(p * noCat as real) < 1 ==> n == 1
    ensures Truncate(p * noCat as real) > noCat ==> n == noCat
  {
    var k := Truncate(p * noCat as real);
    var k1 := if k <= 0 then 1 else k;
    if k1 > noCat then noCat else k1
  }

  /** The (eta, attribute) pairs of the categorical attributes as collected by
      findCatAttrs. */
  function EtaPairs(eta: (View, int, int) -> real, v: View, n: int): (z: seq<Pair>)
    ensures |z| == |CategoricalIndices(v.types)|
  {
    var idx := CategoricalIndices(v.types);
    Zip(seq(|idx|, k requires 0 <= k < |idx| => eta(v, n, idx[k])), seq(|idx|, k requires 0 <= k < |idx| => idx[k] as int))
  }

  /** findCatAttrs(n): the categorical attributes ranked by eta with n
      (descending exchange sort), cut to SubsetSize of them. */
  function CatAttrsOf(eta: (View, int, int) -> real, p: real, v: View, n: int): seq<int>
  {
    var ranked := ExchangeSort(EtaPairs(eta, v, n), true);
    Seconds(ranked)[..SubsetSize(p, |ranked|)]
  }

  /** The ranked pairs are a descending permutation of the collected pairs;
      each still pairs a categorical attribute with its own eta, and no
      attribute appears twice. */
  lemma RankedPairsFacts(eta: (View, int, int) -> real, v: View, n: int)
    ensures var z := EtaPairs(eta, v, n); var r := ExchangeSort(z, true);
      && multiset(r) == multiset(z)
      && Sorted(r, true)
      && DistinctPartners(r)
      && (forall k :: 0 <= k < |r| ==>
            0 <= r[k].1 < |v.types| && v.types[r[k].1] == 0 && r[k].0 == eta(v, n, r[k].1))
  {
    var idx := CategoricalIndices(v.types);
    var z := EtaPairs(eta, v, n);
    var r := ExchangeSort(z, true);
    TypeIndicesFacts(v.types, 0);
    ExchangeSortFacts(z, true);
    assert DistinctPartners(z) by {
      forall a, b | 0 <= a < b < |z|
        ensures z[a].1 != z[b].1
      {
        assert idx[a] < idx[b];
      }
    }
    forall k | 0 <= k < |r|
      ensures 0 <= r[k].1 < |v.types| && v.types[r[k].1] == 0 && r[k].0 == eta(v, n, r[k].1)
    {
      PermutedPairFrom(z, r, k);
    }
  }

  /** A categorical attribute left out of the selection ranks after every
      selected one, so its eta is no larger. */
  lemma CatAttrsTop(eta: (View, int, int) -> real, p: real, v: View, n: int, c: int, k: nat)
    requires 0 <= c < |v.types| && v.types[c] == 0
    requires c !in CatAttrsOf(eta, p, v, n) && k < |CatAttrsOf(eta, p, v, n)|
    ensures eta(v, n, c) <= eta(v, n, CatAttrsOf(eta, p, v, n)[k])
  {
    var idx := CategoricalIndices(v.types);
    var z := EtaPairs(eta, v, n);
    var r := ExchangeSort(z, true);
    var cs := CatAttrsOf(eta, p, v, n);
    TypeIndicesFacts(v.types, 0);
    RankedPairsFacts(eta, v, n);
    var a :| 0 <= a < |idx| && idx[a] == c;
    assert z[a] == (eta(v, n, c), c);
    assert z[a] in multiset(r);
    var m :| 0 <= m < |r| && r[m] == z[a];
    assert InOrder(r[k].0, r[m].0, true);
  }

  /** The selected predictors: SubsetSize of the categorical attributes
      (none when there is no categorical attribute), each one categorical and
      distinct, in non-increasing order of eta, and none weaker than an
      attribute left out. */
  lemma CatAttrsFacts(eta: (View, int, int) -> real, p: real, v: View, n: int)
    ensures var cs := CatAttrsOf(eta, p, v, n);
      && |cs| == SubsetSize(p, Count(v.types, 0))
      && (forall k :: 0 <= k < |cs| ==> 0 <= cs[k] < |v.types| && v.types[cs[k]] == 0)
      && Distinct(cs)
      && (forall k, k' :: 0 <= k < k' < |cs| ==> eta(v, n, cs[k]) >= eta(v, n, cs[k']))
      && (forall c, k :: 0 <= c < |v.types| && v.types[c] == 0 && c !in cs && 0 <= k < |cs| ==>
            eta(v, n, c) <= eta(v, n, cs[k]))
  {
    var r := ExchangeSort(EtaPairs(eta, v, n), true);
    var cs := CatAttrsOf(eta, p, v, n);
    TypeIndicesFacts(v.types, 0);
    RankedPairsFacts(eta, v, n);
    assert |cs| == SubsetSize(p, Count(v.types, 0)) <= |r|;
    forall k | 0 <= k < |cs|
      ensures cs[k] == r[k].1 && 0 <= cs[k] < |v.types| && v.types[cs[k]] == 0 && eta(v, n, cs[k]) == r[k].0
    {
    }
    forall k, k' | 0 <= k < k' < |cs|
      ensures cs[k] != cs[k'] && eta(v, n, cs[k]) >= eta(v, n, cs[k'])
    {
      assert r[k].1 != r[k'].1 && InOrder(r[k].0, r[k'].0, true);
    }
    forall c, k | 0 <= c < |v.types| && v.types[c] == 0 && c !in cs && 0 <= k < |cs|
      ensures eta(v, n, c) <= eta(v, n, cs[k])
    {
      CatAttrsTop(eta, p, v, n, c, k);
    }
  }

  // ---------------------------------------------------------------------
  // Score of a tentative cut-point set
  // ---------------------------------------------------------------------

  /** (sum of weight * CAIM, sum of weights) over the categorical attributes
      of cats; an attribute that is not categorical is skipped. */
  function WeightedCaim(caimU: (View, int, int, seq<real>) -> (real, real), v: View, n: int,
                        cats: seq<int>, cps: seq<real>): (real, real)
  {
    if cats == [] then (0.0, 0.0)
    else
      var acc := WeightedCaim(caimU, v, n, cats[..|cats| - 1], cps);
      var c := cats[|cats| - 1];
      if 0 <= c < |v.types| && v.types[c] == 0 then
        var cu := caimU(v, n, c, cps);
        (acc.0 + cu.1 * cu.0, acc.1 + cu.1)
      else acc
  }

  lemma WeightedCaimStep(caimU: (View, int, int, seq<real>) -> (real, real), v: View, n: int,
                         cats: seq<int>, k: nat, cps: seq<real>)
    requires k < |cats|
    ensures var acc := WeightedCaim(caimU, v, n, cats[..k], cps);
            var c := cats[k];
            var cu := caimU(v, n, c, cps);
            var next := WeightedCaim(caimU, v, n, cats[..k + 1], cps);
            if 0 <= c < |v.types| && v.types[c] == 0 then
              next.0 == acc.0 + cu.1 * cu.0 && next.1 == acc.1 + cu.1
            else next == acc
  {
    var t := cats[..k + 1];
    assert t[..|t| - 1] == cats[..k];
    assert t[|t| - 1] == cats[k];
  }

  /** The score of discretization: the uncertainty-weighted mean CAIM over
      the selected predictors, 0 when the weights add up to nothing. */
  function ScoreOf(eta: (View, int, int) -> real, caimU: (View, int, int, seq<real>) -> (real, real),
                   p: real, v: View, n: int, cps: seq<real>): real
  {
    var acc := WeightedCaim(caimU, v, n, CatAttrsOf(eta, p, v, n), cps);
    if acc.1 > 0.0 then acc.0 / acc.1 else 0.0
  }

  /** A weighted sum acc.0 over a non-negative total weight acc.1 whose
      terms all lie in [lo, hi]. */
  ghost predicate WithinBounds(acc: (real, real), lo: real, hi: real)
  {
    acc.1 >= 0.0 && lo * acc.1 <= acc.0 <= hi * acc.1
  }

  /** A weighted mean of CAIM values that all lie in [lo, hi], with
      non-negative weights, lies in [lo, hi] too (or is 0 when there is no
      weight). */
  lemma {:induction false} WeightedCaimBounds(caimU: (View, int, int, seq<real>) -> (real, real), v: View, n: int,
                                              cats: seq<int>, cps: seq<real>, lo: real, hi: real)
    requires forall c :: c in cats ==> caimU(v, n, c, cps).1 >= 0.0
    requires forall c :: c in cats ==> lo <= caimU(v, n, c, cps).0 <= hi
    ensures WithinBounds(WeightedCaim(caimU, v, n, cats, cps), lo, hi)
  {
    if cats != [] {
      var init := cats[..|cats| - 1];
      var c := cats[|cats| - 1];
      assert forall x :: x in init ==> x in cats;
      WeightedCaimBounds(caimU, v, n, init, cps, lo, hi);
      var acc := WeightedCaim(caimU, v, n, init, cps);
      if 0 <= c < |v.types| && v.types[c] == 0 {
        var cu := caimU(v, n, c, cps);
        assert c in cats;
        AddBounds(acc, cu.1, cu.0, lo, hi);
        assert WeightedCaim(caimU, v, n, cats, cps).0 == acc.0 + cu.1 * cu.0;
        assert WeightedCaim(caimU, v, n, cats, cps).1 == acc.1 + cu.1;
      } else {
        assert WeightedCaim(caimU, v, n, cats, cps) == acc;
      }
    }
  }

  /** Adding a term w * x, with w >= 0 and x in [lo, hi], to a weighted sum
      keeps it within bounds. */
  lemma AddBounds(acc: (real, real), w: real, x: real, lo: real, hi: real)
    requires WithinBounds(acc, lo, hi)
    requires w >= 0.0 && lo <= x <= hi
    ensures WithinBounds((acc.0 + w * x, acc.1 + w), lo, hi)
  {
    assert w * (x - lo) >= 0.0;
    assert w * (hi - x) >= 0.0;
  }

  lemma DivBounds(a: real, t: real, lo: real, hi: real)
    requires t > 0.0 && lo * t <= a <= hi * t
    ensures lo <= a / t <= hi
  {
    assert a / t * t == a;
  }

  /** With every CAIM value in [lo, hi] (lo <= 0 <= hi) and non-negative
      weights, the score lies in [lo, hi]. */
  lemma ScoreBounds(eta: (View, int, int) -> real, caimU: (View, int, int, seq<real>) -> (real, real),
                    p: real, v: View, n: int, cps: seq<real>, lo: real, hi: real)
    requires lo <= 0.0 <= hi
    requires forall c :: caimU(v, n, c, cps).1 >= 0.0 && lo <= caimU(v, n, c, cps).0 <= hi
    ensures lo <= ScoreOf(eta, caimU, p, v, n, cps) <= hi
  {
    var cats := CatAttrsOf(eta, p, v, n);
    WeightedCaimBounds(caimU, v, n, cats, cps, lo, hi);
    var acc := WeightedCaim(caimU, v, n, cats, cps);
    if acc.1 > 0.0 {
      DivBounds(acc.0, acc.1, lo, hi);
    }
  }

  // ---------------------------------------------------------------------
  // Greedy selection of cut-points (discretization)
  // ---------------------------------------------------------------------

  /** The score of the cut-points tried when candidate t joins the active
      candidates (t = -1: the active candidates alone). */
  function TentativeScoreOf(eta: (View, int, int) -> real, caimU: (View, int, int, seq<real>) -> (real, real),
                            p: real, v: View, n: int, icp: seq<real>, flags: seq<int>, t: int): real
    requires |icp| == |flags|
  {
    ScoreOf(eta, caimU, p, v, n, ActiveCutpoints(icp, flags, t))
  }

  /** Among the first t candidates, the clear candidate mt leads: it scores
      mV > 0, no clear candidate scores more and every clear one before it
      scores less; mt = -1 with mV = 0 when none of them scores above 0. */
  ghost predicate LeadsUpTo(score: seq<real>, flags: seq<int>, t: nat, mV: real, mt: int)
    requires |score| == |flags| && t <= |flags|
  {
    && -1 <= mt < t
    && (mt == -1 ==> mV == 0.0)
    && (mt >= 0 ==> flags[mt] == 0 && mV > 0.0 && mV == score[mt])
    && (forall u :: 0 <= u < t && flags[u] == 0 ==> score[u] <= mV)
    && (forall u :: 0 <= u < mt && flags[u] == 0 ==> score[u] < mV)
  }

  /** What holds after every round of the greedy loop: a 0/1 flag per
      candidate with the first and the last set; V is the score of the
      active candidates once one was added, and 0 while only the two ends
      are active. */
  ghost predicate GreedyState(eta: (View, int, int) -> real, caimU: (View, int, int, seq<real>) -> (real, real),
                              p: real, v: View, n: int, icp: seq<real>, flags: seq<int>, V: real)
  {
    && |flags| == |icp| >= 1
    && (forall k :: 0 <= k < |flags| ==> flags[k] == 0 || flags[k] == 1)
    && flags[0] == 1 && flags[|flags| - 1] == 1
    && (Count(flags, 1) > 2 ==> V > 0.0 && V == TentativeScoreOf(eta, caimU, p, v, n, icp, flags, -1))
    && (Count(flags, 1) <= 2 ==> V == 0.0)
  }

  /** What the greedy loop leaves: a greedy state whose score V no single
      further candidate improves on. */
  ghost predicate GreedyOutcome(eta: (View, int, int) -> real, caimU: (View, int, int, seq<real>) -> (real, real),
                                p: real, v: View, n: int, icp: seq<real>, flags: seq<int>, V: real)
  {
    && GreedyState(eta, caimU, p, v, n, icp, flags, V)
    && (forall t :: 0 <= t < |flags| && flags[t] == 0 ==> TentativeScoreOf(eta, caimU, p, v, n, icp, flags, t) <= V)
  }

  /** A round that activates a candidate t scoring mV > V moves to the
      greedy state with V = mV and one flag fewer at 0. */
  lemma GreedyStep(eta: (View, int, int) -> real, caimU: (View, int, int, seq<real>) -> (real, real),
                   p: real, v: View, n: int, icp: seq<real>, flags: seq<int>, V: real, t: nat, mV: real)
    requires GreedyState(eta, caimU, p, v, n, icp, flags, V)
    requires t < |flags| && flags[t] == 0 && mV > V
    requires mV == TentativeScoreOf(eta, caimU, p, v, n, icp, flags, t)
    ensures GreedyState(eta, caimU, p, v, n, icp, flags[t := 1], mV)
    ensures Count(flags[t := 1], 0) < Count(flags, 0)
    ensures Count(flags[t := 1], 1) == Count(flags, 1) + 1
  {
    var flags' := flags[t := 1];
    ActivateCandidate(icp, flags, t);
    CountUpdate(flags, t, 1, 1);
    CountUpdate(flags, t, 1, 0);
    EndsCount(flags);
    assert flags'[0] == 1 && flags'[|flags'| - 1] == 1;
    assert TentativeScoreOf(eta, caimU, p, v, n, icp, flags', -1) == mV;
  }

  /** The tentative score of every candidate under flags. */
  function Scores(eta: (View, int, int) -> real, caimU: (View, int, int, seq<real>) -> (real, real),
                  p: real, v: View, n: int, icp: seq<real>, flags: seq<int>): (score: seq<real>)
    requires |icp| == |flags|
    ensures |score| == |flags|
  {
    seq(|flags|, u requires 0 <= u < |flags| => TentativeScoreOf(eta, caimU, p, v, n, icp, flags, u))
  }

  /** The scan of one greedy round over the first t candidates: a clear
      candidate scoring above the best so far takes the lead, starting from
      mV = 0 and mt = -1. */
  function LeaderOf(score: seq<real>, flags: seq<int>, t: nat): (real, int)
    requires |score| == |flags| && t <= |flags|
  {
    if t == 0 then (0.0, -1)
    else
      var prev := LeaderOf(score, flags, t - 1);
      if flags[t - 1] == 0 && score[t - 1] > prev.0 then (score[t - 1], t - 1) else prev
  }

  /** The scan finds the leader: the first clear candidate with the highest
      score, when that score is above 0. */
  lemma {:induction false} LeaderOfLeads(score: seq<real>, flags: seq<int>, t: nat)
    requires |score| == |flags| && t <= |flags|
    ensures var r := LeaderOf(score, flags, t);
      LeadsUpTo(score, flags, t, r.0, r.1)
  {
    if t > 0 {
      LeaderOfLeads(score, flags, t - 1);
    }
  }

  /** The flags the greedy loop starts from: the first and the last of the k
      candidates set, every other one clear. */
  function InitialFlags(k: nat): seq<int>
  {
    seq(k, i => if i == 0 || i == k - 1 then 1 else 0)
  }

  /** The greedy loop of discretization from flags and score V: while the
      leader of a round scores above V, it joins the active candidates and
      its score becomes V; the first round whose leader does not, ends it. */
  ghost function GreedyRun(eta: (View, int, int) -> real, caimU: (View, int, int, seq<real>) -> (real, real),
                           p: real, v: View, n: int, icp: seq<real>, flags: seq<int>, V: real): (r: (seq<int>, real))
    requires |icp| == |flags|
    ensures |r.0| == |flags|
    decreases Count(flags, 0)
  {
    var score := Scores(eta, caimU, p, v, n, icp, flags);
    var lead := LeaderOf(score, flags, |flags|);
    LeaderOfLeads(score, flags, |flags|);
    if lead.0 > V && lead.1 >= 0 then
      CountUpdate(flags, lead.1, 1, 0);
      GreedyRun(eta, caimU, p, v, n, icp, flags[lead.1 := 1], lead.0)
    else (flags, V)
  }

  /** One round of GreedyRun: with (mV, mt) the leader under flags, the run
      goes on from flags[mt := 1] and mV when mV > V, and stops otherwise. */
  lemma GreedyRunStep(eta: (View, int, int) -> real, caimU: (View, int, int, seq<real>) -> (real, real),
                      p: real, v: View, n: int, icp: seq<real>, flags: seq<int>, V: real, mV: real, mt: int)
    requires |icp| == |flags|
    requires (mV, mt) == LeaderOf(Scores(eta, caimU, p, v, n, icp, flags), flags, |flags|)
    ensures mV > V && mt >= 0 ==>
              mt < |flags| && GreedyRun(eta, caimU, p, v, n, icp, flags, V) == GreedyRun(eta, caimU, p, v, n, icp, flags[mt := 1], mV)
    ensures !(mV > V && mt >= 0) ==> GreedyRun(eta, caimU, p, v, n, icp, flags, V) == (flags, V)
  {
    LeaderOfLeads(Scores(eta, caimU, p, v, n, icp, flags), flags, |flags|);
  }

  /** From any greedy state the run ends in a greedy outcome: no clear
      candidate scores above the final V. */
  lemma {:induction false} GreedyRunOutcome(eta: (View, int, int) -> real, caimU: (View, int, int, seq<real>) -> (real, real),
                                            p: real, v: View, n: int, icp: seq<real>, flags: seq<int>, V: real)
    requires GreedyState(eta, caimU, p, v, n, icp, flags, V)
    ensures var r := GreedyRun(eta, caimU, p, v, n, icp, flags, V);
      GreedyOutcome(eta, caimU, p, v, n, icp, r.0, r.1)
    decreases Count(flags, 0)
  {
    var score := Scores(eta, caimU, p, v, n, icp, flags);
    var lead := LeaderOf(score, flags, |flags|);
    LeaderOfLeads(score, flags, |flags|);
    if lead.0 > V && lead.1 >= 0 {
      GreedyStep(eta, caimU, p, v, n, icp, flags, V, lead.1, lead.0);
      GreedyRunOutcome(eta, caimU, p, v, n, icp, flags[lead.1 := 1], lead.0);
    } else {
      forall t | 0 <= t < |flags| && flags[t] == 0
        ensures TentativeScoreOf(eta, caimU, p, v, n, icp, flags, t) <= V
      {
        assert score[t] == TentativeScoreOf(eta, caimU, p, v, n, icp, flags, t);
      }
    }
  }

  /** With the first and the last of two or more flags set, at least two
      flags are set. */
  lemma EndsCount(flags: seq<int>)
    requires |flags| >= 2 && flags[0] == 1 && flags[|flags| - 1] == 1
    ensures Count(flags, 1) >= 2
  {
    CountUpdate(flags, 0, 0, 1);
    CountPositive(flags[0 := 0], 1);
    assert flags[0 := 0][|flags| - 1] == 1;
  }

  /** Setting the flag of candidate t gives the cut-points tried with t. */
  lemma ActivateCandidate(icp: seq<real>, flags: seq<int>, t: nat)
    requires |icp| == |flags| && t < |flags|
    ensures ActiveCutpoints(icp, flags[t := 1], -1) == ActiveCutpoints(icp, flags, t)
  {
    assert FlagMarks(flags[t := 1], -1) == FlagMarks(flags, t);
  }

  /** The cut-points of a discretized attribute: the active candidates in a
      zero-filled array of at least two entries. */
  function FinalCutpoints(icp: seq<real>, flags: seq<int>): (cps: seq<real>)
    requires |icp| == |flags|
    ensures |cps| >= 2 && |cps| >= |ActiveCutpoints(icp, flags, -1)|
    ensures cps[..|ActiveCutpoints(icp, flags, -1)|] == ActiveCutpoints(icp, flags, -1)
    ensures forall k :: |ActiveCutpoints(icp, flags, -1)| <= k < |cps| ==> cps[k] == 0.0
  {
    var a := ActiveCutpoints(icp, flags, -1);
    if |a| < 2 then a + seq(2 - |a|, _ => 0.0) else a
  }

  /** The array collectCutpoints fills, fcp entries of which the first are
      the active candidates and the rest 0, is FinalCutpoints. */
  lemma FinalCutpointsOf(icp: seq<real>, flags: seq<int>, cps: seq<real>)
    requires |icp| == |flags| >= 1 && flags[0] == 1 && flags[|flags| - 1] == 1
    requires |cps| == if |icp| == 1 then 2 else Count(flags, 1)
    requires Count(flags, 1) <= |cps|
    requires cps[..Count(flags, 1)] == ActiveCutpoints(icp, flags, -1)
    requires forall k :: Count(flags, 1) <= k < |cps| ==> cps[k] == 0.0
    ensures cps == FinalCutpoints(icp, flags)
  {
    var a := ActiveCutpoints(icp, flags, -1);
    ActiveCutpointsFacts(icp, flags, -1);
    var f := FinalCutpoints(icp, flags);
    assert |f| == |cps|;
    forall k | 0 <= k < |cps|
      ensures cps[k] == f[k]
    {
      if k < |a| {
        assert cps[..|a|][k] == f[..|a|][k];
      }
    }
  }

  /** The label every present value of a column receives. With two or more
      distinct values it is one of the interval labels "0" .. "k-2" for k
      cut-points; with a single value v (one candidate, cut-points [v, 0])
      it is "0" when v is not positive and the missing marker "" otherwise. */
  lemma DiscretizedLabel(vs: seq<real>, flags: seq<int>, x: real)
    requires x in vs
    requires |flags| == |CandidateCutpoints(vs)| >= 1 && flags[0] == 1 && flags[|flags| - 1] == 1
    ensures var cps := FinalCutpoints(CandidateCutpoints(vs), flags);
      && (|FirstAppearance(vs)| >= 2 ==> Binning.Label(x, cps) in Labels(|cps| - 1))
      && (|FirstAppearance(vs)| == 1 ==> cps == [x, 0.0] && Binning.Label(x, cps) == if x <= 0.0 then "0" else "")
  {
    if |FirstAppearance(vs)| >= 2 {
      ManyValuesLabel(vs, flags, x);
    } else if |FirstAppearance(vs)| == 1 {
      OneValueCutpoints(vs, flags, x);
      Binning.SingleValueLabel(x);
    }
  }

  lemma ManyValuesLabel(vs: seq<real>, flags: seq<int>, x: real)
    requires x in vs && |FirstAppearance(vs)| >= 2
    requires |flags| == |CandidateCutpoints(vs)| >= 1 && flags[0] == 1 && flags[|flags| - 1] == 1
    ensures var cps := FinalCutpoints(CandidateCutpoints(vs), flags);
      Binning.Label(x, cps) in Labels(|cps| - 1)
  {
    var icp := CandidateCutpoints(vs);
    var cps := FinalCutpoints(icp, flags);
    CandidateCutpointsFacts(vs);
    ActiveCutpointsFacts(icp, flags, -1);
    assert cps == ActiveCutpoints(icp, flags, -1);
    LabelsCover(vs, flags, x);
    var j :| 0 <= j < |cps| - 1 && Binning.Label(x, cps) == Binning.NatToString(j);
    assert Labels(|cps| - 1)[j] == Binning.Label(x, cps);
  }

  lemma OneValueCutpoints(vs: seq<real>, flags: seq<int>, x: real)
    requires x in vs && |FirstAppearance(vs)| == 1
    requires |flags| == |CandidateCutpoints(vs)| >= 1 && flags[0] == 1 && flags[|flags| - 1] == 1
    ensures FinalCutpoints(CandidateCutpoints(vs), flags) == [x, 0.0]
  {
    var icp := CandidateCutpoints(vs);
    var r := SortedFrequencies(vs);
    CandidateCutpointsFacts(vs);
    InitialCutpointsFacts(Firsts(r), Seconds(r), Lambda(vs));
    assert |icp| == 1;
    ActiveCutpointsFacts(icp, flags, -1);
    FirstAppearanceSpec(vs);
    var u := FirstAppearance(vs);
    assert x in u && icp[0] in u;
  }

  /** A relabelled column whose values vs had two or more distinct values
      holds one of the k interval labels in every present cell. */
  ghost predicate LabelledColumn(vs: seq<real>, col: seq<string>, mv: seq<int>, k: nat)
  {
    |FirstAppearance(vs)| >= 2 ==>
      forall i :: 0 <= i < |col| && i < |mv| && mv[i] == 0 ==> col[i] in Labels(k)
  }

  /** Cut-points cps give every one of the values vs one of the |cps| - 1
      interval labels when vs holds two or more distinct values. */
  ghost predicate LabelsValues(vs: seq<real>, cps: seq<real>)
    requires |cps| >= 1
  {
    |FirstAppearance(vs)| >= 2 ==> forall x :: x in vs ==> Binning.Label(x, cps) in Labels(|cps| - 1)
  }

  /** The column discretizeX leaves: each cell whose missing flag is 0
      replaced by the label of its value, every other cell as it was. */
  function RelabelledColumn(parse: string -> real, col: seq<string>, mv: seq<int>, cps: seq<real>): seq<string>
    requires |col| == |mv|
  {
    seq(|col|, i requires 0 <= i < |col| => if mv[i] == 0 then Binning.Label(parse(col[i]), cps) else col[i])
  }

  /** A column relabelled with cut-points that give every present value one
      of the k interval labels holds such a label in every present cell. */
  lemma ColumnLabels(parse: string -> real, col0: seq<string>, mv: seq<int>, col1: seq<string>,
                     vs: seq<real>, cps: seq<real>, k: nat)
    requires |col0| == |mv|
    requires forall i :: 0 <= i < |mv| ==> mv[i] == IsMissing(col0[i])
    requires vs == PresentValues(parse, col0)
    requires |FirstAppearance(vs)| >= 2 ==> forall x :: x in vs ==> Binning.Label(x, cps) in Labels(k)
    requires col1 == RelabelledColumn(parse, col0, mv, cps)
    ensures LabelledColumn(vs, col1, mv, k)
  {
    if |FirstAppearance(vs)| >= 2 {
      forall i | 0 <= i < |mv| && mv[i] == 0
        ensures col1[i] in Labels(k)
      {
        PresentValuesMember(parse, col0, i);
      }
    }
  }

  // ---------------------------------------------------------------------
  // Discretization of the whole state
  // ---------------------------------------------------------------------

  /** Column a of a table held as rows; a row too short for it contributes
      absent. */
  function CellColumn<T>(table: seq<seq<T>>, a: nat, absent: T): (col: seq<T>)
    ensures |col| == |table|
  {
    seq(|table|, i requires 0 <= i < |table| => if a < |table[i]| then table[i][a] else absent)
  }

  /** The present values of attribute n in state v. */
  function ValuesOf(parse: string -> real, v: View, n: nat): seq<real>
  {
    PresentValues(parse, CellColumn(v.table, n, ""))
  }

  /** The cut-points discretization chooses for attribute n in state v: the
      candidates of its present values, thinned by the greedy run that
      starts from the first and the last of them with score 0, all scores
      taken over v. */
  ghost function ChosenCutpoints(eta: (View, int, int) -> real, caimU: (View, int, int, seq<real>) -> (real, real),
                                 p: real, parse: string -> real, v: View, n: nat): (cps: seq<real>)
    ensures |cps| >= 2
  {
    var icp := CandidateCutpoints(ValuesOf(parse, v, n));
    FinalCutpoints(icp, GreedyRun(eta, caimU, p, v, n, icp, InitialFlags(|icp|), 0.0).0)
  }

  /** The rows after attribute a is relabelled with cut-points cps: every
      cell of column a whose missing flag is 0 gets the label of its value,
      every other cell stays. */
  function RelabelTable(parse: string -> real, table: seq<seq<string>>, missing: seq<seq<int>>, a: nat,
                        cps: seq<real>): (t: seq<seq<string>>)
    ensures |t| == |table|
  {
    seq(|table|, i requires 0 <= i < |table| =>
      if a < |table[i]| && i < |missing| && a < |missing[i]| && missing[i][a] == 0
      then table[i][a := Binning.Label(parse(table[i][a]), cps)]
      else table[i])
  }

  /** The state after attribute a is discretized with cut-points cps: its
      cells relabelled, its type categorical and its domain the |cps| - 1
      interval labels; the missing flags and every other attribute stay. */
  function DiscretizeWith(parse: string -> real, v: View, a: nat, cps: seq<real>): (w: View)
    requires a < |v.types| && a < |v.domains| && |cps| >= 1
  {
    View(RelabelTable(parse, v.table, v.missing, a, cps), v.missing, v.types[a := 0], v.domains[a := Labels(|cps| - 1)])
  }

  /** A list of cut-points with at least two entries, that is, at least
      one interval. */
  type Cuts = cps: seq<real> | |cps| >= 2 witness [0.0, 0.0]

  /** discretization over the attributes attrs in turn, the cut-points of
      each pass chosen by choose from the state the previous passes left. */
  function DiscretizeAllWith(parse: string -> real, choose: (View, nat) -> Cuts, v: View, attrs: seq<int>): (w: View)
    requires |v.types| == |v.domains|
    requires forall q :: 0 <= q < |attrs| ==> 0 <= attrs[q] < |v.types|
    ensures |w.types| == |v.types| && |w.domains| == |v.domains|
    decreases |attrs|
  {
    if attrs == [] then v
    else
      var u := DiscretizeAllWith(parse, choose, v, attrs[..|attrs| - 1]);
      var a := attrs[|attrs| - 1];
      DiscretizeWith(parse, u, a, choose(u, a))
  }

  /** A run over attrs and then a is one more pass, with the cut-points
      chosen in the state the run over attrs leaves. */
  lemma DiscretizeAllWithStep(parse: string -> real, choose: (View, nat) -> Cuts, v: View, attrs: seq<int>, a: int)
    requires |v.types| == |v.domains| && 0 <= a < |v.types|
    requires forall q :: 0 <= q < |attrs| ==> 0 <= attrs[q] < |v.types|
    ensures var u := DiscretizeAllWith(parse, choose, v, attrs);
            DiscretizeAllWith(parse, choose, v, attrs + [a]) == DiscretizeWith(parse, u, a, choose(u, a))
  {
    assert (attrs + [a])[..|attrs|] == attrs;
  }

  /** A run over attrs leaves every listed attribute categorical, every
      other attribute of its former type, and the missing flags and the
      number of records as they were. */
  lemma {:induction false} DiscretizeAllTypes(parse: string -> real, choose: (View, nat) -> Cuts, v: View, attrs: seq<int>)
    requires |v.types| == |v.domains|
    requires forall q :: 0 <= q < |attrs| ==> 0 <= attrs[q] < |v.types|
    ensures var w := DiscretizeAllWith(parse, choose, v, attrs);
      && w.missing == v.missing && |w.table| == |v.table|
      && forall b :: 0 <= b < |v.types| ==> w.types[b] == if b in attrs then 0 else v.types[b]
    decreases |attrs|
  {
    if attrs != [] {
      var init := attrs[..|attrs| - 1];
      DiscretizeAllTypes(parse, choose, v, init);
      assert forall b :: b in attrs <==> b in init || b == attrs[|attrs| - 1] by {
        assert attrs == init + [attrs[|attrs| - 1]];
      }
    }
  }

  /** Relabelling column a of a table whose rows all reach past a and b:
      column a becomes the relabelled column, column b != a stays. */
  lemma RelabelTableColumns(parse: string -> real, table: seq<seq<string>>, missing: seq<seq<int>>, a: nat,
                            cps: seq<real>, b: nat)
    requires |missing| == |table|
    requires forall i :: 0 <= i < |table| ==> a < |table[i]| && a < |missing[i]| && b < |table[i]|
    ensures var t := RelabelTable(parse, table, missing, a, cps);
      CellColumn(t, b, "") ==
        if b == a then RelabelledColumn(parse, CellColumn(table, a, ""), CellColumn(missing, a, 1), cps)
        else CellColumn(table, b, "")
  {
  }

  /** One cell and one missing flag per attribute in every row, and one
      type and one domain per attribute. */
  ghost predicate Rectangular(v: View)
  {
    && |v.types| == |v.domains| && |v.missing| == |v.table|
    && forall i :: 0 <= i < |v.table| ==> |v.table[i]| == |v.types| && |v.missing[i]| == |v.types|
  }

  /** Every cell of attribute a carries its missing flag. */
  ghost predicate FlagsMatch(v: View, a: nat)
  {
    forall i :: 0 <= i < |v.table| && i < |v.missing| && a < |v.table[i]| && a < |v.missing[i]| ==>
      v.missing[i][a] == IsMissing(v.table[i][a])
  }

  /** A run over attrs keeps the shape of the state, and every attribute it
      does not list keeps its cells and its domain. */
  lemma {:induction false} DiscretizeAllKeeps(parse: string -> real, choose: (View, nat) -> Cuts, v: View, attrs: seq<int>)
    requires |v.types| == |v.domains|
    requires forall q :: 0 <= q < |attrs| ==> 0 <= attrs[q] < |v.types|
    ensures var w := DiscretizeAllWith(parse, choose, v, attrs);
      && (Rectangular(v) ==> Rectangular(w))
      && forall b :: 0 <= b < |v.types| && b !in attrs ==>
           CellColumn(w.table, b, "") == CellColumn(v.table, b, "") && w.domains[b] == v.domains[b]
    decreases |attrs|
  {
    if attrs != [] {
      var init, a := attrs[..|attrs| - 1], attrs[|attrs| - 1];
      DiscretizeAllKeeps(parse, choose, v, init);
      assert attrs == init + [a];
    }
  }

  /** Every row of table has width cells. */
  ghost predicate TableWidth(table: seq<seq<string>>, width: nat)
  {
    forall i :: 0 <= i < |table| ==> |table[i]| == width
  }

  /** nums lists every attribute the type row info marks numerical ("1"),
      each once. */
  ghost predicate NumericalList(info: seq<string>, nums: seq<int>)
  {
    && (forall q :: 0 <= q < |nums| ==> 0 <= nums[q] < |info| && info[nums[q]] == "1")
    && (forall q, r :: 0 <= q < r < |nums| ==> nums[q] != nums[r])
    && (forall a :: 0 <= a < |info| && info[a] == "1" ==> a in nums)
  }

  /** attrs lists distinct numerical attributes of the rectangular state v. */
  ghost predicate RunFrom(v: View, attrs: seq<int>)
  {
    && Rectangular(v)
    && (forall r :: 0 <= r < |attrs| ==> 0 <= attrs[r] < |v.types| && v.types[attrs[r]] == 1)
    && (forall r, s :: 0 <= r < s < |attrs| ==> attrs[r] != attrs[s])
  }

  /** At the q-th pass of a run over distinct numerical attributes,
      attribute attrs[q] is still numerical with its values of v, and the
      pass extends the run by one. */
  lemma NextPass(parse: string -> real, choose: (View, nat) -> Cuts, v: View, attrs: seq<int>, q: nat)
    requires RunFrom(v, attrs) && q < |attrs|
    ensures var u, a := DiscretizeAllWith(parse, choose, v, attrs[..q]), attrs[q];
      && u.types[a] == 1 && ValuesOf(parse, u, a) == ValuesOf(parse, v, a)
      && DiscretizeAllWith(parse, choose, v, attrs[..q + 1]) == DiscretizeWith(parse, u, a, choose(u, a))
  {
    var done, a := attrs[..q], attrs[q];
    assert a !in done;
    DiscretizeAllTypes(parse, choose, v, done);
    DiscretizeAllKeeps(parse, choose, v, done);
    assert attrs[..q + 1] == done + [a];
    DiscretizeAllWithStep(parse, choose, v, done, a);
  }

  /** The cut-points a run over attrs chooses at its q-th pass: those choose
      gives attribute attrs[q] in the state the earlier passes left. */
  function StepCutpoints(parse: string -> real, choose: (View, nat) -> Cuts, v: View, attrs: seq<int>, q: nat): Cuts
    requires |v.types| == |v.domains|
    requires forall r :: 0 <= r < |attrs| ==> 0 <= attrs[r] < |v.types|
    requires q < |attrs|
  {
    choose(DiscretizeAllWith(parse, choose, v, attrs[..q]), attrs[q])
  }

  /** choose gives cut-points that label every value of an attribute with
      two or more distinct values, in every state. */
  ghost predicate ChoiceLabels(parse: string -> real, choose: (View, nat) -> Cuts)
  {
    forall w: View, n: nat :: LabelsValues(ValuesOf(parse, w, n), choose(w, n))
  }

  /** The last pass of a run over distinct attributes relabels the cells
      its attribute had in v, which the earlier passes left alone. */
  lemma LastPassColumn(parse: string -> real, choose: (View, nat) -> Cuts, v: View, attrs: seq<int>)
    requires Rectangular(v)
    requires forall r :: 0 <= r < |attrs| ==> 0 <= attrs[r] < |v.types|
    requires forall r, s :: 0 <= r < s < |attrs| ==> attrs[r] != attrs[s]
    requires |attrs| >= 1
    ensures var w, n := DiscretizeAllWith(parse, choose, v, attrs), |attrs| - 1;
      var a, cps := attrs[n], StepCutpoints(parse, choose, v, attrs, n);
      && CellColumn(w.table, a, "") == RelabelledColumn(parse, CellColumn(v.table, a, ""), CellColumn(v.missing, a, 1), cps)
      && w.domains[a] == Labels(|cps| - 1)
  {
    var n := |attrs| - 1;
    var init, a := attrs[..n], attrs[n];
    var u := DiscretizeAllWith(parse, choose, v, init);
    assert a !in init;
    DiscretizeAllTypes(parse, choose, v, init);
    DiscretizeAllKeeps(parse, choose, v, init);
    PassColumn(parse, u, a, choose(u, a), a);
  }

  /** In a run over distinct attributes, the q-th one ends up with its cells
      of v relabelled with the cut-points chosen at its pass (missing cells
      as they were) and the |cps| - 1 interval labels as its domain. */
  lemma {:induction false} DiscretizeAllColumn(parse: string -> real, choose: (View, nat) -> Cuts, v: View,
                                               attrs: seq<int>, q: nat)
    requires Rectangular(v)
    requires forall r :: 0 <= r < |attrs| ==> 0 <= attrs[r] < |v.types|
    requires forall r, s :: 0 <= r < s < |attrs| ==> attrs[r] != attrs[s]
    requires q < |attrs|
    ensures var w := DiscretizeAllWith(parse, choose, v, attrs);
      var a, cps := attrs[q], StepCutpoints(parse, choose, v, attrs, q);
      && CellColumn(w.table, a, "") == RelabelledColumn(parse, CellColumn(v.table, a, ""), CellColumn(v.missing, a, 1), cps)
      && w.domains[a] == Labels(|cps| - 1)
    decreases |attrs|
  {
    var n := |attrs| - 1;
    if q == n {
      LastPassColumn(parse, choose, v, attrs);
    } else {
      var init, last := attrs[..n], attrs[n];
      var u := DiscretizeAllWith(parse, choose, v, init);
      var a := attrs[q];
      assert init[q] == a && a != last;
      DiscretizeAllColumn(parse, choose, v, init, q);
      DiscretizeAllKeeps(parse, choose, v, init);
      PassColumn(parse, u, last, choose(u, last), a);
      assert init[..q] == attrs[..q];
    }
  }

  /** Cell (i, attrs[q]) after a run over distinct attributes, as
      discretizeX leaves it: the label of its value under the cut-points
      chosen at the attribute's pass when it is present, its old text when
      it is missing. */
  lemma DiscretizedCell(parse: string -> real, choose: (View, nat) -> Cuts, v: View,
                        attrs: seq<int>, q: nat, i: nat)
    requires Rectangular(v)
    requires forall r :: 0 <= r < |attrs| ==> 0 <= attrs[r] < |v.types|
    requires forall r, s :: 0 <= r < s < |attrs| ==> attrs[r] != attrs[s]
    requires q < |attrs| && i < |v.table|
    ensures var w, a := DiscretizeAllWith(parse, choose, v, attrs), attrs[q];
      && i < |w.table| && a < |w.table[i]|
      && w.table[i][a] == if v.missing[i][a] == 0 then Binning.Label(parse(v.table[i][a]), StepCutpoints(parse, choose, v, attrs, q))
                          else v.table[i][a]
  {
    var w, a := DiscretizeAllWith(parse, choose, v, attrs), attrs[q];
    DiscretizeAllKeeps(parse, choose, v, attrs);
    DiscretizeAllColumn(parse, choose, v, attrs, q);
    assert CellColumn(w.table, a, "")[i] == w.table[i][a];
  }

  /** When choose labels values, the cut-points chosen at the pass of a
      listed attribute label each of its values in v (the earlier passes,
      over other attributes, leave its cells as they were). */
  lemma StepLabels(parse: string -> real, choose: (View, nat) -> Cuts, v: View, attrs: seq<int>, q: nat)
    requires |v.types| == |v.domains| && ChoiceLabels(parse, choose)
    requires forall r :: 0 <= r < |attrs| ==> 0 <= attrs[r] < |v.types|
    requires forall r, s :: 0 <= r < s < |attrs| ==> attrs[r] != attrs[s]
    requires q < |attrs|
    ensures LabelsValues(ValuesOf(parse, v, attrs[q]), StepCutpoints(parse, choose, v, attrs, q))
  {
    var u := DiscretizeAllWith(parse, choose, v, attrs[..q]);
    DiscretizeAllKeeps(parse, choose, v, attrs[..q]);
    assert attrs[q] !in attrs[..q];
    assert ValuesOf(parse, u, attrs[q]) == ValuesOf(parse, v, attrs[q]);
  }

  /** One pass over attribute a of a rectangular state: column a is
      relabelled with cps and gets their |cps| - 1 labels as its domain,
      every other column and domain stays. */
  lemma PassColumn(parse: string -> real, u: View, a: nat, cps: seq<real>, b: nat)
    requires Rectangular(u) && a < |u.types| && b < |u.types| && |cps| >= 1
    ensures var w := DiscretizeWith(parse, u, a, cps);
      && CellColumn(w.table, b, "") ==
           (if b == a then RelabelledColumn(parse, CellColumn(u.table, a, ""), CellColumn(u.missing, a, 1), cps)
            else CellColumn(u.table, b, ""))
      && w.domains[b] == if b == a then Labels(|cps| - 1) else u.domains[b]
  {
    RelabelTableColumns(parse, u.table, u.missing, a, cps, b);
  }

  /** Attribute a of state w as discretization leaves it, vs being its
      values before: categorical, with the interval labels "0" .. "k-1"
      (k >= 1) as its domain, and, when it had two or more distinct values,
      one of those labels in every present cell. */
  ghost predicate DiscretizedIn(w: View, a: nat, vs: seq<real>)
    requires a < |w.types| && a < |w.domains|
  {
    && w.types[a] == 0 && |w.domains[a]| >= 1 && w.domains[a] == Labels(|w.domains[a]|)
    && LabelledColumn(vs, CellColumn(w.table, a, ""), CellColumn(w.missing, a, 1), |w.domains[a]|)
  }

  /** Each attribute of a run over distinct attributes ends up discretized
      when its cells carried their missing flags and the cut-points chosen
      at its pass label its values. */
  lemma DiscretizeAllDiscretized(parse: string -> real, choose: (View, nat) -> Cuts, v: View, attrs: seq<int>, q: nat)
    requires Rectangular(v)
    requires forall r :: 0 <= r < |attrs| ==> 0 <= attrs[r] < |v.types|
    requires forall r, s :: 0 <= r < s < |attrs| ==> attrs[r] != attrs[s]
    requires q < |attrs| && FlagsMatch(v, attrs[q])
    requires LabelsValues(ValuesOf(parse, v, attrs[q]), StepCutpoints(parse, choose, v, attrs, q))
    ensures DiscretizedIn(DiscretizeAllWith(parse, choose, v, attrs), attrs[q], ValuesOf(parse, v, attrs[q]))
  {
    var w := DiscretizeAllWith(parse, choose, v, attrs);
    var a, cps := attrs[q], StepCutpoints(parse, choose, v, attrs, q);
    var col0, mv := CellColumn(v.table, a, ""), CellColumn(w.missing, a, 1);
    DiscretizeAllColumn(parse, choose, v, attrs, q);
    DiscretizeAllTypes(parse, choose, v, attrs);
    assert a in attrs;
    var k := |w.domains[a]|;
    assert w.types[a] == 0 && w.domains[a] == Labels(k) && k == |cps| - 1;
    assert mv == CellColumn(v.missing, a, 1);
    assert forall i :: 0 <= i < |mv| ==> mv[i] == IsMissing(col0[i]);
    ColumnLabels(parse, col0, mv, CellColumn(w.table, a, ""), ValuesOf(parse, v, a), cps, k);
  }

  /** The missing flag of every cell of a table. */
  function MissingGrid(table: seq<seq<string>>): (missing: seq<seq<int>>)
    ensures |missing| == |table|
  {
    seq(|table|, i requires 0 <= i < |table| =>
      seq(|table[i]|, j requires 0 <= j < |table[i]| => IsMissing(table[i][j])))
  }

  /** The state initialize builds from the rows of a table and the type row
      info: the missing flags of the cells, the types, and as the domain of
      each categorical attribute its distinct non-missing cells in order of
      first appearance (none for a numerical one). */
  function InitialView(table: seq<seq<string>>, info: seq<string>): View
  {
    var missing := MissingGrid(table);
    var types := TypesOf(info);
    View(table, missing, types,
      seq(|types|, a requires 0 <= a < |types| =>
        if types[a] == 0 then FirstAppearance(KeptCells(CellColumn(table, a, ""), CellColumn(missing, a, 1))) else []))
  }

  /** The state initialize builds from a table with one cell per attribute
      in every row is rectangular, every cell carrying its missing flag. */
  lemma InitialViewShape(table: seq<seq<string>>, info: seq<string>)
    requires forall i :: 0 <= i < |table| ==> |table[i]| == |info|
    ensures Rectangular(InitialView(table, info))
    ensures forall a :: 0 <= a < |info| ==> FlagsMatch(InitialView(table, info), a)
  {
    var v := InitialView(table, info);
    assert |v.types| == |info| == |v.domains|;
    forall a | 0 <= a < |info|
      ensures FlagsMatch(v, a)
    {
    }
  }

  /** A run of discretization from the state initialize builds, over
      numerical attributes only, keeps the missing flags, and every
      categorical attribute keeps its type, its cells and the domain
      initialize collected for it. */
  lemma CategoricalKept(parse: string -> real, choose: (View, nat) -> Cuts, table: seq<seq<string>>,
                        info: seq<string>, attrs: seq<int>)
    requires forall r :: 0 <= r < |attrs| ==> 0 <= attrs[r] < |info| && info[attrs[r]] == "1"
    ensures var w := DiscretizeAllWith(parse, choose, InitialView(table, info), attrs);
      && w.missing == MissingGrid(table)
      && forall a :: 0 <= a < |info| && info[a] != "1" ==>
           && w.types[a] == 0 && CellColumn(w.table, a, "") == CellColumn(table, a, "")
           && w.domains[a] == FirstAppearance(KeptCells(CellColumn(table, a, ""), CellColumn(w.missing, a, 1)))
  {
    var v := InitialView(table, info);
    var w := DiscretizeAllWith(parse, choose, v, attrs);
    DiscretizeAllTypes(parse, choose, v, attrs);
    DiscretizeAllKeeps(parse, choose, v, attrs);
    forall a | 0 <= a < |info| && info[a] != "1"
      ensures w.types[a] == 0 && CellColumn(w.table, a, "") == CellColumn(table, a, "")
      ensures w.domains[a] == FirstAppearance(KeptCells(CellColumn(table, a, ""), CellColumn(w.missing, a, 1)))
    {
      assert a !in attrs;
      assert v.types[a] == 0;
      assert w.domains[a] == v.domains[a];
    }
  }

  /** A run of discretization from the state initialize builds, over
      distinct numerical attributes, discretizes each of them when choose
      labels values. */
  lemma ListedDiscretized(parse: string -> real, choose: (View, nat) -> Cuts, table: seq<seq<string>>,
                          info: seq<string>, attrs: seq<int>)
    requires ChoiceLabels(parse, choose)
    requires forall i :: 0 <= i < |table| ==> |table[i]| == |info|
    requires forall r :: 0 <= r < |attrs| ==> 0 <= attrs[r] < |info|
    requires forall r, s :: 0 <= r < s < |attrs| ==> attrs[r] != attrs[s]
    ensures var v := InitialView(table, info);
      forall q :: 0 <= q < |attrs| ==>
        DiscretizedIn(DiscretizeAllWith(parse, choose, v, attrs), attrs[q], ValuesOf(parse, v, attrs[q]))
  {
    var v := InitialView(table, info);
    InitialViewShape(table, info);
    forall q | 0 <= q < |attrs|
      ensures DiscretizedIn(DiscretizeAllWith(parse, choose, v, attrs), attrs[q], ValuesOf(parse, v, attrs[q]))
    {
      StepLabels(parse, choose, v, attrs, q);
      DiscretizeAllDiscretized(parse, choose, v, attrs, q);
    }
  }

  /** A run of discretization from the state initialize builds that lists
      every numerical attribute leaves every attribute categorical. */
  lemma AllCategorical(parse: string -> real, choose: (View, nat) -> Cuts, table: seq<seq<string>>,
                       info: seq<string>, attrs: seq<int>)
    requires forall r :: 0 <= r < |attrs| ==> 0 <= attrs[r] < |info|
    requires forall a :: 0 <= a < |info| && info[a] == "1" ==> a in attrs
    ensures var w := DiscretizeAllWith(parse, choose, InitialView(table, info), attrs);
      forall a :: 0 <= a < |info| ==> w.types[a] == 0
  {
    DiscretizeAllTypes(parse, choose, InitialView(table, info), attrs);
  }

  /** A run over every numerical attribute, each listed once, from the
      state InitialView builds leaves every attribute categorical and every
      numerical one discretized in its values. */
  lemma CompletedRun(parse: string -> real, choose: (View, nat) -> Cuts, table: seq<seq<string>>,
                     info: seq<string>, attrs: seq<int>)
    requires ChoiceLabels(parse, choose)
    requires forall i :: 0 <= i < |table| ==> |table[i]| == |info|
    requires forall r :: 0 <= r < |attrs| ==> 0 <= attrs[r] < |info|
    requires forall r, s :: 0 <= r < s < |attrs| ==> attrs[r] != attrs[s]
    requires forall a :: 0 <= a < |info| && info[a] == "1" ==> a in attrs
    ensures var w := DiscretizeAllWith(parse, choose, InitialView(table, info), attrs);
      && (forall a :: 0 <= a < |info| ==> w.types[a] == 0)
      && forall a :: 0 <= a < |info| && info[a] == "1" ==>
           DiscretizedIn(w, a, PresentValues(parse, CellColumn(table, a, "")))
  {
    var v := InitialView(table, info);
    AllCategorical(parse, choose, table, info, attrs);
    ListedDiscretized(parse, choose, table, info, attrs);
    forall a | 0 <= a < |info| && info[a] == "1"
      ensures DiscretizedIn(DiscretizeAllWith(parse, choose, v, attrs), a, PresentValues(parse, CellColumn(table, a, "")))
    {
      var q :| 0 <= q < |attrs| && attrs[q] == a;
      assert ValuesOf(parse, v, attrs[q]) == PresentValues(parse, CellColumn(table, a, ""));
    }
  }

  // ---------------------------------------------------------------------
  // The greedy choice of discretization
  // ---------------------------------------------------------------------

  /** choose makes the greedy choice in every state. */
  ghost predicate IsGreedy(eta: (View, int, int) -> real, caimU: (View, int, int, seq<real>) -> (real, real),
                           p: real, parse: string -> real, choose: (View, nat) -> Cuts)
  {
    forall w: View, n: nat {:trigger ChosenCutpoints(eta, caimU, p, parse, w, n)} ::
      choose(w, n) == ChosenCutpoints(eta, caimU, p, parse, w, n)
  }

  /** The cut-point choice of discretization, as a function of the state. */
  ghost function Chooser(eta: (View, int, int) -> real, caimU: (View, int, int, seq<real>) -> (real, real),
                         p: real, parse: string -> real): (View, nat) -> Cuts
  {
    (w: View, n: nat) => ChosenCutpoints(eta, caimU, p, parse, w, n)
  }

  /** discretization over the attributes attrs in turn, each pass reading
      the state the previous ones left. */
  ghost function DiscretizeAll(eta: (View, int, int) -> real, caimU: (View, int, int, seq<real>) -> (real, real),
                               p: real, parse: string -> real, v: View, attrs: seq<int>): View
    requires |v.types| == |v.domains|
    requires forall q :: 0 <= q < |attrs| ==> 0 <= attrs[q] < |v.types|
  {
    DiscretizeAllWith(parse, Chooser(eta, caimU, p, parse), v, attrs)
  }

  /** A run whose every pass takes the greedy cut-points is discretization. */
  lemma {:induction false} GreedyRunIsDiscretizeAll(eta: (View, int, int) -> real, caimU: (View, int, int, seq<real>) -> (real, real),
                                                    p: real, parse: string -> real, choose: (View, nat) -> Cuts,
                                                    v: View, attrs: seq<int>)
    requires |v.types| == |v.domains|
    requires forall q :: 0 <= q < |attrs| ==> 0 <= attrs[q] < |v.types|
    requires IsGreedy(eta, caimU, p, parse, choose)
    ensures DiscretizeAllWith(parse, choose, v, attrs) == DiscretizeAll(eta, caimU, p, parse, v, attrs)
    decreases |attrs|
  {
    if attrs != [] {
      var init := attrs[..|attrs| - 1];
      GreedyRunIsDiscretizeAll(eta, caimU, p, parse, choose, v, init);
    }
  }

  /** Cut-points choose gives cut-points that label every value of an
      attribute with two or more distinct values, in every state, when it
      makes the greedy choice. */
  lemma GreedyLabels(eta: (View, int, int) -> real, caimU: (View, int, int, seq<real>) -> (real, real),
                     p: real, parse: string -> real, choose: (View, nat) -> Cuts)
    requires IsGreedy(eta, caimU, p, parse, choose)
    ensures ChoiceLabels(parse, choose)
  {
    forall w: View, n: nat
      ensures LabelsValues(ValuesOf(parse, w, n), choose(w, n))
    {
      ChosenLabelsValues(eta, caimU, p, parse, w, n);
    }
  }

  /** With two or more distinct present values, the chosen cut-points give
      every present value one of the |cps| - 1 interval labels. */
  lemma ChosenLabels(eta: (View, int, int) -> real, caimU: (View, int, int, seq<real>) -> (real, real),
                     p: real, parse: string -> real, v: View, n: nat, x: real)
    requires x in ValuesOf(parse, v, n) && |FirstAppearance(ValuesOf(parse, v, n))| >= 2
    ensures var cps := ChosenCutpoints(eta, caimU, p, parse, v, n);
      Binning.Label(x, cps) in Labels(|cps| - 1)
  {
    var vs := ValuesOf(parse, v, n);
    var icp := CandidateCutpoints(vs);
    CandidateCutpointsFacts(vs);
    var start := InitialFlags(|icp|);
    InitialGreedyState(eta, caimU, p, v, n, icp);
    GreedyRunOutcome(eta, caimU, p, v, n, icp, start, 0.0);
    var flags := GreedyRun(eta, caimU, p, v, n, icp, start, 0.0).0;
    assert |flags| == |icp| && flags[0] == 1 && flags[|flags| - 1] == 1;
    ManyValuesLabel(vs, flags, x);
  }

  /** The cut-points the greedy run picks among the candidates of attribute
      n are ChosenCutpoints, and they label its values. */
  lemma ChosenOf(eta: (View, int, int) -> real, caimU: (View, int, int, seq<real>) -> (real, real),
                 p: real, parse: string -> real, v: View, n: nat, flags: seq<int>, V: real)
    requires var icp := CandidateCutpoints(ValuesOf(parse, v, n));
      |icp| >= 1 && (flags, V) == GreedyRun(eta, caimU, p, v, n, icp, InitialFlags(|icp|), 0.0)
    ensures var cps := FinalCutpoints(CandidateCutpoints(ValuesOf(parse, v, n)), flags);
      cps == ChosenCutpoints(eta, caimU, p, parse, v, n) && LabelsValues(ValuesOf(parse, v, n), cps)
  {
    var vs := ValuesOf(parse, v, n);
    var icp := CandidateCutpoints(vs);
    var cps := FinalCutpoints(icp, flags);
    if |FirstAppearance(vs)| >= 2 {
      forall x | x in vs
        ensures Binning.Label(x, cps) in Labels(|cps| - 1)
      {
        ChosenLabels(eta, caimU, p, parse, v, n, x);
      }
    }
  }

  /** The greedy loop starts from a greedy state. */
  lemma InitialGreedyState(eta: (View, int, int) -> real, caimU: (View, int, int, seq<real>) -> (real, real),
                           p: real, v: View, n: int, icp: seq<real>)
    requires |icp| >= 1
    ensures GreedyState(eta, caimU, p, v, n, icp, InitialFlags(|icp|), 0.0)
  {
    var k := |icp|;
    var zeros := seq(k, _ => 0);
    CountPositive(zeros, 1);
    CountUpdate(zeros, 0, 1, 1);
    CountUpdate(zeros[0 := 1], k - 1, 1, 1);
    assert InitialFlags(k) == zeros[0 := 1][k - 1 := 1];
  }

  /** The chosen cut-points label every value of the attribute when it has
      two or more distinct values. */
  lemma ChosenLabelsValues(eta: (View, int, int) -> real, caimU: (View, int, int, seq<real>) -> (real, real),
                           p: real, parse: string -> real, v: View, n: nat)
    ensures LabelsValues(ValuesOf(parse, v, n), ChosenCutpoints(eta, caimU, p, parse, v, n))
  {
    var vs := ValuesOf(parse, v, n);
    if |FirstAppearance(vs)| >= 2 {
      forall x | x in vs
        ensures Binning.Label(x, ChosenCutpoints(eta, caimU, p, parse, v, n)) in
                Labels(|ChosenCutpoints(eta, caimU, p, parse, v, n)| - 1)
      {
        ChosenLabels(eta, caimU, p, parse, v, n, x);
      }
    }
  }

  // ---------------------------------------------------------------------
  // Average correlation (calAvgEta)
  // ---------------------------------------------------------------------

  function EtaSum(eta: (View, int, int) -> real, v: View, n: int, cats: seq<int>): real
  {
    if cats == [] then 0.0 else EtaSum(eta, v, n, cats[..|cats| - 1]) + eta(v, n, cats[|cats| - 1])
  }

  lemma EtaSumStep(eta: (View, int, int) -> real, v: View, n: int, cats: seq<int>, k: nat)
    requires k < |cats|
    ensures EtaSum(eta, v, n, cats[..k + 1]) == EtaSum(eta, v, n, cats[..k]) + eta(v, n, cats[k])
  {
    assert cats[..k + 1][..k] == cats[..k];
  }

  /** The mean eta of numerical attribute n over the categorical attributes
      cats. With no categorical attribute the source divides 0.0 by 0 and
      stores NaN for every attribute; 0.0 stands for it here, which ranks the
      same because every comparison between the scores is then false. */
  function AvgEta(eta: (View, int, int) -> real, v: View, n: int, cats: seq<int>): (r: real)
    ensures |cats| > 0 ==> r * (|cats| as real) == EtaSum(eta, v, n, cats)
    ensures |cats| == 0 ==> r == 0.0
  {
    if |cats| > 0 then EtaSum(eta, v, n, cats) / (|cats| as real) else 0.0
  }

  /** The averages calAvgEta stores for the numerical attributes nums, in
      their order. */
  function AvgEtas(eta: (View, int, int) -> real, v: View, nums: seq<int>, cats: seq<int>): (r: seq<real>)
    ensures |r| == |nums|
  {
    seq(|nums|, i requires 0 <= i < |nums| => AvgEta(eta, v, nums[i], cats))
  }

  /** The numerical attributes of v in the order rankNAttributes leaves
      them: by average correlation with the categorical attributes, highest
      first. */
  function RankedByAvgEta(eta: (View, int, int) -> real, v: View): seq<int>
  {
    var nums := TypeIndices(v.types, 1);
    Seconds(ExchangeSort(Zip(AvgEtas(eta, v, nums, CategoricalIndices(v.types)), nums), true))
  }

  lemma RankedByAvgEtaOf(eta: (View, int, int) -> real, v: View, nums: seq<int>, avgs: seq<real>)
    requires nums == TypeIndices(v.types, 1)
    requires avgs == AvgEtas(eta, v, nums, CategoricalIndices(v.types))
    ensures RankedByAvgEta(eta, v) == Seconds(ExchangeSort(Zip(avgs, nums), true))
  {
    var z := Zip(avgs, nums);
    assert Zip(AvgEtas(eta, v, TypeIndices(v.types, 1), CategoricalIndices(v.types)), TypeIndices(v.types, 1)) == z;
  }

  /** calAvgEta as written: the division after the empty statement of its
      guard runs even without categorical attributes, giving 0.0 / 0, which
      is NaN (None here). */
  function AvgEtaAsWritten(eta: (View, int, int) -> real, v: View, n: int, cats: seq<int>): (r: Option<real>)
    ensures r.None? <==> |cats| == 0
  {
    if |cats| > 0 then Some(EtaSum(eta, v, n, cats) / (|cats| as real)) else None
  }

  /** The two readings of calAvgEta agree whenever there is a categorical
      attribute; without one the code as written stores NaN where 0.0, the
      value every average starts from, was evidently meant to stay. */
  lemma AvgEtaGuard(eta: (View, int, int) -> real, v: View, n: int, cats: seq<int>)
    ensures |cats| > 0 ==> AvgEtaAsWritten(eta, v, n, cats) == Some(AvgEta(eta, v, n, cats))
    ensures |cats| == 0 ==> AvgEtaAsWritten(eta, v, n, cats).None? && AvgEta(eta, v, n, cats) == 0.0
  {
  }

  /** Ranking the numerical attributes by their averages permutes them: the
      ranked list holds every numerical attribute, each once, and nothing
      else. */
  lemma RankedNumerical(types: seq<int>, ra: seq<real>, attrs: seq<int>)
    requires attrs == TypeIndices(types, 1) && |ra| == |attrs|
    ensures var r := Seconds(ExchangeSort(Zip(ra, attrs), true));
      && |r| == Count(types, 1)
      && (forall k :: 0 <= k < |r| ==> 0 <= r[k] < |types| && types[r[k]] == 1)
      && (forall p, q :: 0 <= p < q < |r| ==> r[p] != r[q])
      && (forall c :: 0 <= c < |types| && types[c] == 1 ==> c in r)
  {
    TypeIndicesFacts(types, 1);
    ExchangeSortFacts(Zip(ra, attrs), true);
    RankedRange(types, ra, attrs);
    RankedDistinct(types, ra, attrs);
    forall c | 0 <= c < |types| && types[c] == 1
      ensures c in Seconds(ExchangeSort(Zip(ra, attrs), true))
    {
      ListedKept(ra, attrs, ExchangeSort(Zip(ra, attrs), true), c);
    }
  }

  lemma RankedRange(types: seq<int>, ra: seq<real>, attrs: seq<int>)
    requires attrs == TypeIndices(types, 1) && |ra| == |attrs|
    ensures var r := Seconds(ExchangeSort(Zip(ra, attrs), true));
      forall k :: 0 <= k < |r| ==> 0 <= r[k] < |types| && types[r[k]] == 1
  {
    var s := Zip(ra, attrs);
    var sorted := ExchangeSort(s, true);
    TypeIndicesFacts(types, 1);
    ExchangeSortFacts(s, true);
    forall k | 0 <= k < |sorted|
      ensures 0 <= sorted[k].1 < |types| && types[sorted[k].1] == 1
    {
      PermutedPairFrom(s, sorted, k);
    }
  }

  lemma RankedDistinct(types: seq<int>, ra: seq<real>, attrs: seq<int>)
    requires attrs == TypeIndices(types, 1) && |ra| == |attrs|
    ensures var r := Seconds(ExchangeSort(Zip(ra, attrs), true));
      forall p, q :: 0 <= p < q < |r| ==> r[p] != r[q]
  {
    var s := Zip(ra, attrs);
    TypeIndicesFacts(types, 1);
    assert DistinctPartners(s) by {
      forall p, q | 0 <= p < q < |s|
        ensures s[p].1 != s[q].1
      {
        assert attrs[p] < attrs[q];
      }
    }
    ExchangeSortFacts(s, true);
  }

  /** A listed attribute is still listed after a permutation of the
      (average, attribute) pairs. */
  lemma ListedKept(ra: seq<real>, attrs: seq<int>, sorted: seq<Pair>, c: int)
    requires |ra| == |attrs| && multiset(sorted) == multiset(Zip(ra, attrs)) && c in attrs
    ensures c in Seconds(sorted)
  {
    var m :| 0 <= m < |attrs| && attrs[m] == c;
    PartnerKept(Zip(ra, attrs), sorted, m);
  }

  /** A permutation of pairs keeps the partner of every pair. */
  lemma PartnerKept(s: seq<Pair>, sorted: seq<Pair>, m: nat)
    requires multiset(sorted) == multiset(s) && m < |s|
    ensures s[m].1 in Seconds(sorted)
  {
    PermutedPairFrom(sorted, s, m);
    var k :| 0 <= k < |sorted| && sorted[k] == s[m];
    assert Seconds(sorted)[k] == s[m].1;
  }

  /** Without categorical attributes all averages are equal and ranking keeps
      the numerical attributes in their original order. */
  lemma RankWithoutCategorical(ra: seq<real>, nAttrs: seq<int>)
    requires |ra| == |nAttrs|
    requires forall k :: 0 <= k < |ra| ==> ra[k] == 0.0
    ensures ExchangeSort(Zip(ra, nAttrs), true) == Zip(ra, nAttrs)
  {
    ExchangeSortEqualKeys(Zip(ra, nAttrs), true);
  }

  // ---------------------------------------------------------------------
  // Output text (arrayToFile)
  // ---------------------------------------------------------------------

  /** The text of the first i records: every record is its cells each
      followed by ", ", and every record but the last of all is followed by a
      line break. */
  function RecordsText(rows: seq<seq<string>>, i: nat): string
    requires i <= |rows|
  {
    if i == 0 then ""
    else RecordsText(rows, i - 1) + FileManager.Joined(rows[i - 1]) + (if i - 1 < |rows| - 1 then "\n" else "")
  }

  function FileText(rows: seq<seq<string>>): string
  {
    RecordsText(rows, |rows|)
  }

  /** Lines joined by single line breaks. */
  function JoinLines(lines: seq<string>): string
  {
    if |lines| <= 1 then (if lines == [] then "" else lines[0])
    else JoinLines(lines[..|lines| - 1]) + "\n" + lines[|lines| - 1]
  }

  /** The text split at every line break. */
  function Lines(text: string): (ls: seq<string>)
    ensures |ls| >= 1
    decreases |text|
  {
    if '\n' in text then
      var k := FirstNewline(text, 0);
      [text[..k]] + Lines(text[k + 1..])
    else [text]
  }

  function FirstNewline(text: string, from: nat): (k: nat)
    requires from <= |text|
    requires exists j :: from <= j < |text| && text[j] == '\n'
    ensures from <= k < |text| && text[k] == '\n'
    ensures forall j :: from <= j < k ==> text[j] != '\n'
    decreases |text| - from
  {
    if text[from] == '\n' then from else FirstNewline(text, from + 1)
  }

  ghost predicate NoNewline(s: string)
  {
    forall j :: 0 <= j < |s| ==> s[j] != '\n'
  }

  lemma {:induction false} RecordsTextJoinLines(rows: seq<seq<string>>, i: nat)
    requires 1 <= i <= |rows|
    ensures RecordsText(rows, i) ==
            JoinLines(seq(i, k requires 0 <= k < i => FileManager.Joined(rows[k]))) +
            (if i < |rows| then "\n" else "")
  {
    var ls := seq(i, k requires 0 <= k < i => FileManager.Joined(rows[k]));
    if i > 1 {
      RecordsTextJoinLines(rows, i - 1);
      var prev := seq(i - 1, k requires 0 <= k < i - 1 => FileManager.Joined(rows[k]));
      assert ls[..i - 1] == prev;
      assert JoinLines(ls) == JoinLines(prev) + "\n" + ls[i - 1];
      assert RecordsText(rows, i - 1) == JoinLines(prev) + "\n";
    }
  }

  /** The text of arrayToFile is the records' lines joined by line breaks,
      with none after the last record. */
  lemma FileTextLines(rows: seq<seq<string>>)
    requires |rows| >= 1
    ensures FileText(rows) == JoinLines(seq(|rows|, k requires 0 <= k < |rows| => FileManager.Joined(rows[k])))
  {
    RecordsTextJoinLines(rows, |rows|);
  }

  /** Splitting a text made of one line, a line break and more text. */
  lemma LinesCons(line: string, rest: string)
    requires NoNewline(line)
    ensures Lines(line + "\n" + rest) == [line] + Lines(rest)
  {
    var text := line + "\n" + rest;
    assert text[|line|] == '\n';
    var k := FirstNewline(text, 0);
    assert forall j :: 0 <= j < |line| ==> text[j] == line[j];
    assert k == |line|;
    assert text[..k] == line;
    assert text[k + 1..] == rest;
  }

  /** Line breaks inside none of the lines: splitting the joined text gives
      the lines back. */
  lemma {:induction false} LinesJoinLines(lines: seq<string>)
    requires |lines| >= 1
    requires forall k :: 0 <= k < |lines| ==> NoNewline(lines[k])
    ensures Lines(JoinLines(lines)) == lines
    decreases |lines|
  {
    if |lines| == 1 {
      assert '\n' !in lines[0] by {
        assert NoNewline(lines[0]);
      }
    } else {
      var tail := lines[1..];
      LinesJoinLines(tail);
      JoinLinesCons(lines);
      LinesCons(lines[0], JoinLines(tail));
      assert lines == [lines[0]] + tail;
    }
  }

  lemma {:induction false} JoinLinesCons(lines: seq<string>)
    requires |lines| >= 2
    ensures JoinLines(lines) == lines[0] + "\n" + JoinLines(lines[1..])
    decreases |lines|
  {
    var n := |lines|;
    if n > 2 {
      var init := lines[..n - 1];
      var tail := lines[1..];
      JoinLinesCons(init);
      assert init[1..] == tail[..n - 2];
      assert tail[n - 2] == lines[n - 1] && init[0] == lines[0];
      var mid := JoinLines(tail[..n - 2]);
      assert JoinLines(tail) == mid + "\n" + lines[n - 1];
      assert JoinLines(lines) == (lines[0] + "\n" + mid) + "\n" + lines[n - 1];
    } else {
      assert lines[1..] == [lines[1]];
      assert lines[..1] == [lines[0]];
    }
  }

  /** A record whose cells are non-empty and free of the tokenizer's
      delimiters has no line break in its text. */
  lemma JoinedNoNewline(cells: seq<string>)
    requires forall c :: c in cells ==> FileManager.WellFormedToken(c)
    ensures NoNewline(FileManager.Joined(cells))
  {
    FileManager.TokensOfJoined(cells);
    JoinedNoNewlineRec(cells);
  }

  lemma {:induction false} JoinedNoNewlineRec(cells: seq<string>)
    requires forall c :: c in cells ==> FileManager.WellFormedToken(c)
    ensures NoNewline(FileManager.Joined(cells))
  {
    if cells != [] {
      var init := cells[..|cells| - 1];
      var last := cells[|cells| - 1];
      assert forall c :: c in init ==> c in cells;
      JoinedNoNewlineRec(init);
      assert FileManager.WellFormedToken(last);
      assert forall j :: 0 <= j < |last| ==> FileManager.IsDelimiter(last[j]) == false;
    }
  }

  /** Reading the written text back line by line and tokenizing each line as
      readFileAs2DArray does returns the table, provided every cell is
      non-empty and free of delimiters. */
  lemma ReadBack(rows: seq<seq<string>>)
    requires |rows| >= 1
    requires forall i, c :: 0 <= i < |rows| && c in rows[i] ==> FileManager.WellFormedToken(c)
    ensures |Lines(FileText(rows))| == |rows|
    ensures forall i :: 0 <= i < |rows| ==> FileManager.Tokens(Lines(FileText(rows))[i]) == rows[i]
  {
    var ls := seq(|rows|, k requires 0 <= k < |rows| => FileManager.Joined(rows[k]));
    FileTextLines(rows);
    forall k | 0 <= k < |rows|
      ensures NoNewline(ls[k])
    {
      JoinedNoNewline(rows[k]);
    }
    LinesJoinLines(ls);
    forall i | 0 <= i < |rows|
      ensures FileManager.Tokens(ls[i]) == rows[i]
    {
      FileManager.TokensOfJoined(rows[i]);
    }
  }
}
