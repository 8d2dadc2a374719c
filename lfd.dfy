/** The LFD discretizer of LFD.java: the state of one run (the data set, the
    attribute types, missing-value flags, domains and the working arrays of
    the attribute being discretized) and the operations that change it. */
module Lfd {
  import opened SeqUtil
  import opened Sorting
  import opened Cutpoints
  import opened Binning
  import opened LfdSpec
  import FileManager

  /** How discretization ends: every listed attribute done, or the attribute
      at the given position of the list has no present value (the source then
      fails on an index into an empty flag array). */
  datatype Outcome = Completed | EmptyAttribute(position: nat)

  /** How many listed attributes a run of discretization with this outcome
      has discretized. */
  function DoneCount(outcome: Outcome, nA: nat): nat
  {
    if outcome.EmptyAttribute? then outcome.position else nA
  }

  /** The rows of a table, as values. */
  function Grid<T>(g: array2<T>): (rows: seq<seq<T>>)
    reads g
  {
    seq(g.Length0, i requires 0 <= i < g.Length0 reads g =>
      seq(g.Length1, j requires 0 <= j < g.Length1 reads g => g[i, j]))
  }

  /** The first k entries of row a of a table. */
  function RowPrefix<T>(g: array2<T>, a: nat, k: nat): (row: seq<T>)
    requires a < g.Length0 && k <= g.Length1
    reads g
  {
    seq(k, j requires 0 <= j < k reads g => g[a, j])
  }

  /** Column a of a table, top to bottom. */
  function ColumnOf<T>(g: array2<T>, a: nat): (col: seq<T>)
    requires a < g.Length1
    reads g
  {
    seq(g.Length0, i requires 0 <= i < g.Length0 reads g => g[i, a])
  }

  /** Column a of a table is column a of its rows. */
  lemma GridColumn<T>(g: array2<T>, a: nat, absent: T)
    requires a < g.Length1
    ensures ColumnOf(g, a) == CellColumn(Grid(g), a, absent)
  {
  }

  /** The first totRec records, each cut to its first totAttr cells. */
  ghost function Rows(data: array2<string>, totRec: nat, totAttr: nat): (rows: seq<seq<string>>)
    requires totRec <= data.Length0 && totAttr <= data.Length1
    reads data
  {
    seq(totRec, i requires 0 <= i < totRec reads data => RowPrefix(data, i, totAttr))
  }

  /** All the records, whole, are the rows of the table. */
  lemma RowsGrid(data: array2<string>)
    ensures Rows(data, data.Length0, data.Length1) == Grid(data)
  {
    forall i | 0 <= i < data.Length0
      ensures Rows(data, data.Length0, data.Length1)[i] == Grid(data)[i]
    {
      assert RowPrefix(data, i, data.Length1) == Grid(data)[i];
    }
  }

  /** findDomain: the position of the first of dl[0..dsl) equal to cVal, or
      -1 when there is none. */
  method FindDomain(dl: array<real>, dsl: nat, cVal: real) returns (flg: int)
    requires dsl <= dl.Length
    ensures -1 <= flg < dsl
    ensures flg >= 0 ==> dl[flg] == cVal && cVal !in dl[..flg]
    ensures flg == -1 <==> cVal !in dl[..dsl]
  {
    flg := -1;
    var i := 0;
    while i < dsl
      invariant 0 <= i <= dsl
      invariant flg == -1 && cVal !in dl[..i]
    {
      if cVal == dl[i] {
        flg := i;
        break;
      }
      i := i + 1;
    }
  }

  /** arrayToFile: the text written to the output file, every record its
      cells each followed by ", " and every record but the last followed by
      a line break. */
  method ArrayToFile(data: array2<string>, totRec: nat, totAttr: nat) returns (text: string)
    requires totRec <= data.Length0 && totAttr <= data.Length1
    ensures text == FileText(Rows(data, totRec, totAttr))
  {
    ghost var rows := Rows(data, totRec, totAttr);
    text := "";
    var i := 0;
    while i < totRec
      invariant 0 <= i <= totRec
      invariant text == RecordsText(rows, i)
    {
      var rec := "";
      var j := 0;
      while j < totAttr
        invariant 0 <= j <= totAttr
        invariant rec == FileManager.Joined(rows[i][..j])
      {
        assert rows[i][..j + 1][..j] == rows[i][..j];
        rec := rec + data[i, j] + ", ";
        j := j + 1;
      }
      assert rows[i][..totAttr] == rows[i];
      if i < totRec - 1 {
        rec := rec + "\n";
      }
      text := text + rec;
      i := i + 1;
    }
  }

  /** The type loop of initialize: 1 (numerical) where the attribute
      information says "1", 0 (categorical) elsewhere, with the two counts. */
  method ReadTypes(info: seq<string>, nAttr: nat) returns (types: array<int>, nNum: nat, nCat: nat)
    requires nAttr <= |info|
    ensures fresh(types) && types[..] == TypesOf(info[..nAttr])
    ensures nNum == Count(TypesOf(info[..nAttr]), 1) && nCat == Count(TypesOf(info[..nAttr]), 0)
  {
    ghost var ty := TypesOf(info[..nAttr]);
    types := new int[nAttr];
    nNum := 0;
    nCat := 0;
    var i := 0;
    while i < nAttr
      invariant 0 <= i <= nAttr
      invariant types[..i] == ty[..i]
      invariant nNum == Count(ty[..i], 1) && nCat == Count(ty[..i], 0)
    {
      if info[i] == "1" {
        types[i] := 1;
        nNum := nNum + 1;
      } else {
        types[i] := 0;
        nCat := nCat + 1;
      }
      assert ty[..i + 1][..i] == ty[..i];
      i := i + 1;
    }
    assert ty[..nAttr] == ty;
    assert types[..nAttr] == types[..];
  }

  /** The missing-value loop of initialize: MV[i, j] is isMissing of cell
      (i, j). */
  method MissingFlags(data: array2<string>) returns (missing: array2<int>)
    ensures fresh(missing) && missing.Length0 == data.Length0 && missing.Length1 == data.Length1
    ensures forall r, a :: 0 <= r < data.Length0 && 0 <= a < data.Length1 ==> missing[r, a] == IsMissing(data[r, a])
  {
    missing := new int[data.Length0, data.Length1];
    var i := 0;
    while i < data.Length0
      invariant 0 <= i <= data.Length0
      invariant forall r, a :: 0 <= r < i && 0 <= a < data.Length1 ==> missing[r, a] == IsMissing(data[r, a])
    {
      var j := 0;
      while j < data.Length1
        invariant 0 <= j <= data.Length1
        invariant forall r, a :: 0 <= r < i && 0 <= a < data.Length1 ==> missing[r, a] == IsMissing(data[r, a])
        invariant forall a :: 0 <= a < j ==> missing[i, a] == IsMissing(data[i, a])
      {
        missing[i, j] := IsMissing(data[i, j]);
        j := j + 1;
      }
      i := i + 1;
    }
  }

  /** The attribute loop of initialize, listing part, for one type: the
      attributes of type x in increasing order (NumAttrs for x = 1, CatAttrs
      for x = 0). */
  method ListAttributes(types: seq<int>, x: int, n: nat) returns (attrs: array<int>)
    requires n == Count(types, x)
    ensures fresh(attrs) && attrs.Length == n
    ensures attrs[..] == TypeIndices(types, x)
  {
    ghost var listed := TypeIndices(types, x);
    TypeIndicesFacts(types, x);
    attrs := new int[n];
    var t := 0;
    var i := 0;
    while i < |types|
      invariant 0 <= i <= |types|
      invariant t == Count(types[..i], x) <= n
      invariant forall k :: 0 <= k < t ==> attrs[k] == listed[k]
    {
      TypeIndicesAt(types, x, i);
      if types[i] == x {
        attrs[t] := i;
        t := t + 1;
      }
      i := i + 1;
    }
    assert types[..|types|] == types;
  }

  /** The arrays initialize allocates: domain sizes (all 0) and domain rows
      (all empty) per attribute, the frequency arrays per record, and the
      average correlations (all 0) per numerical attribute. */
  method Workspace(nAttr: nat, nRec: nat, nNum: nat)
    returns (sizes: array<int>, values: array2<string>, counts: array<int>, dist: array<real>,
             ra: array<real>, none: array<real>)
    ensures fresh(sizes) && fresh(values) && fresh(counts) && fresh(dist) && fresh(ra) && fresh(none)
    ensures sizes.Length == nAttr && forall a :: 0 <= a < nAttr ==> sizes[a] == 0
    ensures values.Length0 == nAttr && values.Length1 == nRec
    ensures counts.Length == nRec && dist.Length == nRec && none.Length == 0
    ensures ra.Length == nNum && forall k :: 0 <= k < nNum ==> ra[k] == 0.0
    ensures sizes != counts && dist != ra
  {
    sizes := new int[nAttr](_ => 0);
    values := new string[nAttr, nRec]((_, _) => "");
    counts := new int[nRec];
    dist := new real[nRec];
    ra := new real[nNum](_ => 0.0);
    none := new real[0];
  }

  /** ncAttr of findCatAttrs: the share p of noCat, truncated toward zero,
      raised to 1 and capped at noCat. */
  method ShareOf(p: real, noCat: nat) returns (ncAttr: nat)
    ensures ncAttr == SubsetSize(p, noCat)
  {
    var k := Truncate(p * noCat as real);
    if k <= 0 {
      k := 1;
    }
    if k > noCat {
      k := noCat;
    }
    ncAttr := k;
  }

  /** A fresh array holding the first n entries of src. */
  method CopyPrefix(src: array<int>, n: nat) returns (dst: array<int>)
    requires n <= src.Length
    ensures fresh(dst) && dst[..] == src[..n]
  {
    dst := new int[n];
    var i := 0;
    while i < n
      invariant 0 <= i <= n
      invariant dst[..i] == src[..i]
    {
      dst[i] := src[i];
      i := i + 1;
    }
  }

  /** The weighting loop of discretization over the selected predictors
      cats: the uncertainty-weighted mean of their CAIM values for the
      cut-points cps, 0 when the weights add up to nothing. */
  method WeightedScore(caimU: (View, int, int, seq<real>) -> (real, real), v: View, n: int,
                       cats: array<int>, cps: seq<real>) returns (tv: real)
    requires forall k :: 0 <= k < cats.Length ==> 0 <= cats[k] < |v.types|
    ensures var acc := WeightedCaim(caimU, v, n, cats[..], cps);
      tv == if acc.1 > 0.0 then acc.0 / acc.1 else 0.0
  {
    var twCaim := 0.0;
    var tUn := 0.0;
    var c := 0;
    while c < cats.Length
      invariant 0 <= c <= cats.Length
      invariant twCaim == WeightedCaim(caimU, v, n, cats[..c], cps).0
      invariant tUn == WeightedCaim(caimU, v, n, cats[..c], cps).1
    {
      WeightedCaimStep(caimU, v, n, cats[..], c, cps);
      assert cats[..c + 1] == cats[..][..c + 1] && cats[..c] == cats[..][..c];
      var cIndex := cats[c];
      if v.types[cIndex] == 0 {
        var cu := caimU(v, n, cIndex, cps);
        twCaim := twCaim + cu.1 * cu.0;
        tUn := tUn + cu.1;
      }
      c := c + 1;
    }
    assert cats[..cats.Length] == cats[..];
    tv := 0.0;
    if tUn > 0.0 {
      tv := twCaim / tUn;
    }
  }

  /** The body of frequencyDistribution's loop for a present value cv, over
      the ds distinct values d[0..ds) seen so far in vs and their counts:
      raise the count of cv when findDomain finds it, otherwise append it
      with count 1; returns the new ds. */
  method Tally(d: array<real>, fqCount: array<int>, ds: nat, cv: real, ghost vs: seq<real>) returns (ds': nat)
    requires ds <= d.Length && d.Length == fqCount.Length
    requires d[..ds] == FirstAppearance(vs)
    requires forall k :: 0 <= k < ds ==> fqCount[k] == Count(vs, d[k])
    requires cv !in FirstAppearance(vs) ==> ds < d.Length
    modifies d, fqCount
    ensures ds <= ds' <= d.Length && d[..ds'] == FirstAppearance(vs + [cv])
    ensures forall k :: 0 <= k < ds' ==> fqCount[k] == Count(vs + [cv], d[k])
    ensures forall k :: ds' <= k < d.Length ==> d[k] == old(d[k]) && fqCount[k] == old(fqCount[k])
  {
    FirstAppearanceStep(vs, cv);
    CountSnoc(vs, cv);
    FirstAppearanceSpec(vs);
    ghost var u := d[..ds];
    var flg := FindDomain(d, ds, cv);
    ds' := ds;
    if flg < 0 {
      CountPositive(vs, cv);
      d[ds] := cv;
      fqCount[ds] := 1;
      ds' := ds + 1;
      assert d[..ds'] == u + [cv];
      forall k | 0 <= k < ds'
        ensures fqCount[k] == Count(vs + [cv], d[k])
      {
        if k < ds {
          assert d[k] == u[k] && u[k] in u;
        }
      }
    } else {
      fqCount[flg] := fqCount[flg] + 1;
      forall k | 0 <= k < ds'
        ensures fqCount[k] == Count(vs + [cv], d[k])
      {
        if k != flg {
          assert d[k] == u[k] && d[flg] == u[flg];
        }
      }
    }
  }

  /** Record i of frequencyDistribution's loop: a present cell is counted
      and tallied, a missing one skipped. */
  method TallyRecord(data: array2<string>, a: nat, parse: string -> real, d: array<real>, fqCount: array<int>,
                     i: nat, ds: nat, totalValue: nat, ghost vs: seq<real>)
    returns (ds': nat, totalValue': nat)
    requires a < data.Length1 && d.Length == fqCount.Length == data.Length0 && i < data.Length0
    requires vs == PresentValues(parse, ColumnOf(data, a)[..i]) && totalValue == |vs|
    requires ds <= i && d[..ds] == FirstAppearance(vs)
    requires forall k :: 0 <= k < ds ==> fqCount[k] == Count(vs, d[k])
    modifies d, fqCount
    ensures totalValue' == |PresentValues(parse, ColumnOf(data, a)[..i + 1])|
    ensures ds <= ds' <= i + 1 && d[..ds'] == FirstAppearance(PresentValues(parse, ColumnOf(data, a)[..i + 1]))
    ensures forall k :: 0 <= k < ds' ==> fqCount[k] == Count(PresentValues(parse, ColumnOf(data, a)[..i + 1]), d[k])
    ensures forall k :: ds' <= k < d.Length ==> d[k] == old(d[k]) && fqCount[k] == old(fqCount[k])
  {
    ghost var col := ColumnOf(data, a);
    PresentValuesStep(parse, col, i);
    FirstAppearanceSpec(vs);
    assert col[i] == data[i, a];
    ds' := ds;
    totalValue' := totalValue;
    if IsMissing(data[i, a]) == 0 {
      totalValue' := totalValue + 1;
      var cv := parse(data[i, a]);
      ds' := Tally(d, fqCount, ds, cv, vs);
    } else {
      assert vs + [] == vs;
    }
  }

  /** The record loop of frequencyDistribution over column a of data: fills
      d[0..ds) with the distinct present values in order of first appearance
      and fqCount[0..ds) with their counts, and returns ds and the number of
      present values. */
  method Tabulate(data: array2<string>, a: nat, parse: string -> real, d: array<real>, fqCount: array<int>)
    returns (ds: nat, totalValue: nat)
    requires a < data.Length1 && d.Length == fqCount.Length == data.Length0
    modifies d, fqCount
    ensures totalValue == |PresentValues(parse, ColumnOf(data, a))|
    ensures ds == |FirstAppearance(PresentValues(parse, ColumnOf(data, a)))| <= d.Length
    ensures d[..ds] == FirstAppearance(PresentValues(parse, ColumnOf(data, a)))
    ensures forall k :: 0 <= k < ds ==> fqCount[k] == Count(PresentValues(parse, ColumnOf(data, a)), d[k])
    ensures forall k :: ds <= k < d.Length ==> d[k] == old(d[k]) && fqCount[k] == old(fqCount[k])
  {
    ghost var col := ColumnOf(data, a);
    ghost var vs: seq<real> := [];
    totalValue := 0;
    ds := 0;
    var i := 0;
    while i < data.Length0
      invariant 0 <= i <= data.Length0
      invariant vs == PresentValues(parse, col[..i]) && totalValue == |vs|
      invariant ds <= i && d[..ds] == FirstAppearance(vs)
      invariant forall k :: 0 <= k < ds ==> fqCount[k] == Count(vs, d[k])
      invariant forall k :: ds <= k < d.Length ==> d[k] == old(d[k]) && fqCount[k] == old(fqCount[k])
    {
      ds, totalValue := TallyRecord(data, a, parse, d, fqCount, i, ds, totalValue, vs);
      vs := PresentValues(parse, col[..i + 1]);
      i := i + 1;
    }
    assert col[..data.Length0] == col;
  }

  /** The steps of discretization after frequencyDistribution for the
      values vs: the distinct values sorted ascending with their counts, then
      the initial cut-points in a fresh array of length ds. */
  method SortedCandidates(d: array<real>, fqCount: array<int>, ds: nat, lambda: real, ghost vs: seq<real>)
    returns (iCutpoints: array<real>, ticp: nat)
    requires ds <= d.Length && ds <= fqCount.Length
    requires ds == |FirstAppearance(vs)| && d[..ds] == FirstAppearance(vs)
    requires fqCount[..ds] == Counts(vs) && lambda == Lambda(vs)
    modifies d, fqCount
    ensures fresh(iCutpoints) && ticp <= iCutpoints.Length == ds
    ensures iCutpoints[..ticp] == CandidateCutpoints(vs)
    ensures ticp == 0 <==> vs == []
    ensures d[ds..] == old(d[ds..]) && fqCount[ds..] == old(fqCount[ds..])
  {
    SortAsc(d, fqCount, ds);
    ghost var r := SortedFrequencies(vs);
    assert d[..ds] == Firsts(r) && fqCount[..ds] == Seconds(r) by {
      assert Zip(d[..ds], fqCount[..ds]) == r;
    }
    iCutpoints := new real[ds];
    ticp := FindInitialCutpoints(d, fqCount, ds, iCutpoints, lambda);
    FirstAppearanceSpec(vs);
    if vs != [] {
      assert vs[0] in FirstAppearance(vs);
      InitialCutpointsFacts(Firsts(r), Seconds(r), Lambda(vs));
    }
  }

  /** The flag array the greedy loop of discretization starts from: all
      ticp flags 0 but the first and the last. */
  method StartFlags(ticp: nat) returns (fcFlg: array<int>)
    requires ticp >= 1
    ensures fresh(fcFlg) && fcFlg.Length == ticp
    ensures fcFlg[0] == 1 && fcFlg[ticp - 1] == 1
    ensures forall k :: 0 < k < ticp - 1 ==> fcFlg[k] == 0
    ensures Count(fcFlg[..], 1) == if ticp == 1 then 1 else 2
    ensures fcFlg[..] == InitialFlags(ticp)
  {
    fcFlg := new int[ticp];
    var t := 0;
    while t < ticp
      invariant 0 <= t <= ticp
      invariant forall k :: 0 <= k < t ==> fcFlg[k] == 0
    {
      fcFlg[t] := 0;
      t := t + 1;
    }
    CountPositive(fcFlg[..], 1);
    CountUpdate(fcFlg[..], 0, 1, 1);
    fcFlg[0] := 1;
    CountUpdate(fcFlg[..], ticp - 1, 1, 1);
    fcFlg[ticp - 1] := 1;
  }

  /** One pass of calAvgEta's outer loop: the eta of numerical attribute n
      summed over the categorical attributes cats[0 .. nC) and divided by
      their number when there is one. */
  method MeanEta(eta: (View, int, int) -> real, v: View, n: int, cats: array<int>, nC: nat) returns (r: real)
    requires nC <= cats.Length
    ensures r == AvgEta(eta, v, n, cats[..nC])
  {
    var etaTmp := 0.0;
    var j := 0;
    while j < nC
      invariant 0 <= j <= nC
      invariant etaTmp == EtaSum(eta, v, n, cats[..nC][..j])
    {
      EtaSumStep(eta, v, n, cats[..nC], j);
      etaTmp := etaTmp + eta(v, n, cats[j]);
      j := j + 1;
    }
    assert cats[..nC][..nC] == cats[..nC];
    r := 0.0;
    if nC > 0 {
      r := etaTmp / nC as real;
    }
  }

  /** Entry k of row a of g becomes x, extending the row's first k entries
      by x. */
  method AppendToRow(g: array2<string>, a: nat, k: nat, x: string)
    requires a < g.Length0 && k < g.Length1
    modifies g
    ensures RowPrefix(g, a, k + 1) == old(RowPrefix(g, a, k)) + [x]
    ensures forall b, t :: 0 <= b < g.Length0 && 0 <= t < g.Length1 && (b != a || t != k) ==> g[b, t] == old(g[b, t])
  {
    ghost var row := RowPrefix(g, a, k);
    g[a, k] := x;
    assert RowPrefix(g, a, k + 1) == row + [x];
  }

  /** The body of findCatAttrs over the state snapshot v. */
  method RankCatAttrs(eta: (View, int, int) -> real, p: real, v: View, numAttr: int) returns (catIndex: array<int>)
    ensures fresh(catIndex)
    ensures catIndex[..] == CatAttrsOf(eta, p, v, numAttr)
  {
    var tmpcatIndex := RankedCategorical(eta, v, numAttr);
    var noCat := tmpcatIndex.Length;
    var ncAttr := ShareOf(p, noCat);
    catIndex := CopyPrefix(tmpcatIndex, ncAttr);
  }

  /** The first part of findCatAttrs: count the categorical attributes,
      collect them with their eta, and rank them by descending eta. */
  method RankedCategorical(eta: (View, int, int) -> real, v: View, numAttr: int) returns (tmpcatIndex: array<int>)
    ensures fresh(tmpcatIndex)
    ensures tmpcatIndex[..] == Seconds(ExchangeSort(EtaPairs(eta, v, numAttr), true))
  {
    var noCat := 0;
    var i := 0;
    while i < |v.types|
      invariant 0 <= i <= |v.types|
      invariant noCat == Count(v.types[..i], 0)
    {
      assert v.types[..i + 1][..i] == v.types[..i];
      if v.types[i] == 0 {
        noCat := noCat + 1;
      }
      i := i + 1;
    }
    assert v.types[..|v.types|] == v.types;
    var R;
    R, tmpcatIndex := CollectEtas(eta, v, numAttr, noCat);
    assert R[..noCat] == R[..] && tmpcatIndex[..noCat] == tmpcatIndex[..];
    RankNAttributes(R, tmpcatIndex, noCat);
    assert R[..noCat] == R[..] && tmpcatIndex[..noCat] == tmpcatIndex[..];
  }

  /** The score discretization gives the tentative cut-points tCP: the
      weighted mean CAIM over the predictors findCatAttrs selects, both
      evaluated over the state snapshot v. */
  method TentativeScore(eta: (View, int, int) -> real, caimU: (View, int, int, seq<real>) -> (real, real), p: real,
                        v: View, currAttr: int, tCP: array<real>, nc: nat) returns (tv: real)
    requires nc == tCP.Length
    ensures tv == ScoreOf(eta, caimU, p, v, currAttr, tCP[..])
  {
    var catAttr := RankCatAttrs(eta, p, v, currAttr);
    assert tCP[..nc] == tCP[..];
    CatAttrsFacts(eta, p, v, currAttr);
    tv := WeightedScore(caimU, v, currAttr, catAttr, tCP[..nc]);
  }

  /** The score of the cut-points that candidate t would add to those whose
      flag is set: tCP built, then scored. */
  method ScoreCandidate(eta: (View, int, int) -> real, caimU: (View, int, int, seq<real>) -> (real, real), p: real,
                        v: View, currAttr: int, icp: array<real>, ticp: nat, fcFlg: array<int>, fcp: nat, t: nat)
    returns (tv: real)
    requires ticp <= icp.Length && fcFlg.Length == ticp && t < ticp && fcFlg[t] == 0
    requires fcp == Count(fcFlg[..], 1)
    ensures tv == TentativeScoreOf(eta, caimU, p, v, currAttr, icp[..ticp], fcFlg[..], t)
  {
    var nc := fcp + 1;
    var tCP := TentativeCutpoints(icp, ticp, fcFlg, t, nc);
    tv := TentativeScore(eta, caimU, p, v, currAttr, tCP, nc);
  }

  /** The scan of one round of the greedy loop: score stands for the
      tentative scores of the candidates, so the leader is tracked without
      unfolding how each score is computed. */
  method Leader(eta: (View, int, int) -> real, caimU: (View, int, int, seq<real>) -> (real, real), p: real,
                v: View, currAttr: int, icp: array<real>, ticp: nat, fcFlg: array<int>, fcp: nat,
                ghost icps: seq<real>, ghost flags: seq<int>, ghost score: seq<real>)
    returns (mV: real, mt: int)
    requires ticp <= icp.Length && fcFlg.Length == ticp
    requires ticp >= 2 ==> fcp == Count(fcFlg[..], 1)
    requires ticp == 1 ==> fcFlg[0] == 1
    requires icps == icp[..ticp] && flags == fcFlg[..] && |score| == ticp
    requires forall u {:trigger TentativeScoreOf(eta, caimU, p, v, currAttr, icps, flags, u)} :: 0 <= u < ticp ==>
               score[u] == TentativeScoreOf(eta, caimU, p, v, currAttr, icps, flags, u)
    ensures (mV, mt) == LeaderOf(score, flags, ticp)
  {
    mV := 0.0;
    mt := -1;
    var t := 0;
    while t < ticp
      invariant 0 <= t <= ticp
      invariant (mV, mt) == LeaderOf(score, flags, t)
    {
      if fcFlg[t] == 0 {
        var tv := ScoreCandidate(eta, caimU, p, v, currAttr, icp, ticp, fcFlg, fcp, t);
        assert tv == score[t];
        if tv > mV {
          mV := tv;
          mt := t;
        }
      }
      t := t + 1;
    }
  }

  /** One round of the greedy loop over the state snapshot v: among the
      candidates whose flag is 0, the first with the highest score above 0
      (mt = -1 and mV = 0 when no score is above 0). */
  method BestCandidate(eta: (View, int, int) -> real, caimU: (View, int, int, seq<real>) -> (real, real), p: real,
                       v: View, currAttr: int, icp: array<real>, ticp: nat, fcFlg: array<int>, fcp: nat)
    returns (mV: real, mt: int)
    requires ticp <= icp.Length && fcFlg.Length == ticp
    requires ticp >= 2 ==> fcp == Count(fcFlg[..], 1)
    requires ticp == 1 ==> fcFlg[0] == 1
    ensures -1 <= mt < ticp
    ensures mt == -1 ==> mV == 0.0 && forall t :: 0 <= t < ticp && fcFlg[t] == 0 ==>
              TentativeScoreOf(eta, caimU, p, v, currAttr, icp[..ticp], fcFlg[..], t) <= 0.0
    ensures mt >= 0 ==> fcFlg[mt] == 0 && mV > 0.0
    ensures mt >= 0 ==> mV == TentativeScoreOf(eta, caimU, p, v, currAttr, icp[..ticp], fcFlg[..], mt)
    ensures mt >= 0 ==> forall t :: 0 <= t < ticp && fcFlg[t] == 0 ==>
              TentativeScoreOf(eta, caimU, p, v, currAttr, icp[..ticp], fcFlg[..], t) <= mV
    ensures mt >= 0 ==> forall t :: 0 <= t < mt && fcFlg[t] == 0 ==>
              TentativeScoreOf(eta, caimU, p, v, currAttr, icp[..ticp], fcFlg[..], t) < mV
    ensures (mV, mt) == LeaderOf(Scores(eta, caimU, p, v, currAttr, icp[..ticp], fcFlg[..]), fcFlg[..], ticp)
  {
    ghost var icps := icp[..ticp];
    ghost var flags := fcFlg[..];
    ghost var score := Scores(eta, caimU, p, v, currAttr, icps, flags);
    mV, mt := Leader(eta, caimU, p, v, currAttr, icp, ticp, fcFlg, fcp, icps, flags, score);
    LeaderOfLeads(score, flags, ticp);
  }

  /** The greedy loop of discretization over the state snapshot v: starts
      from the first and the last of the ticp candidates icp and keeps
      adding the best-scoring further candidate while that raises the
      score V. fcp counts the cut-points (2 to start with). */
  method SelectCutpoints(eta: (View, int, int) -> real, caimU: (View, int, int, seq<real>) -> (real, real), p: real,
                         v: View, currAttr: int, icp: array<real>, ticp: nat)
    returns (fcFlg: array<int>, fcp: nat, V: real)
    requires 1 <= ticp <= icp.Length
    ensures fresh(fcFlg)
    ensures GreedyOutcome(eta, caimU, p, v, currAttr, icp[..ticp], fcFlg[..], V)
    ensures fcp == if ticp == 1 then 2 else Count(fcFlg[..], 1)
    ensures (fcFlg[..], V) == GreedyRun(eta, caimU, p, v, currAttr, icp[..ticp], InitialFlags(ticp), 0.0)
  {
    fcFlg := StartFlags(ticp);
    fcp := 2;
    V := 0.0;
    ghost var run := GreedyRun(eta, caimU, p, v, currAttr, icp[..ticp], fcFlg[..], V);
    GreedyRunOutcome(eta, caimU, p, v, currAttr, icp[..ticp], fcFlg[..], V);
    var tau := 1;
    while tau == 1
      invariant tau == 0 || tau == 1
      invariant fcFlg[0] == 1
      invariant fcp == if ticp == 1 then 2 else Count(fcFlg[..], 1)
      invariant GreedyRun(eta, caimU, p, v, currAttr, icp[..ticp], fcFlg[..], V) == run
      invariant tau == 0 ==> run == (fcFlg[..], V)
      decreases Count(fcFlg[..], 0), tau
    {
      var mV, mt := BestCandidate(eta, caimU, p, v, currAttr, icp, ticp, fcFlg, fcp);
      GreedyRunStep(eta, caimU, p, v, currAttr, icp[..ticp], fcFlg[..], V, mV, mt);
      if mV > V && mt >= 0 && mt < ticp {
        CountUpdate(fcFlg[..], mt, 1, 1);
        CountUpdate(fcFlg[..], mt, 1, 0);
        fcFlg[mt] := 1;
        fcp := fcp + 1;
        V := mV;
      } else {
        tau := 0;
      }
    }
  }

  /** The rest of one pass of discretization's cut-point search over the
      state snapshot v: the greedy selection among the ticp candidates icp,
      then the chosen ones collected into a fresh array of fcp entries. */
  method FinalSelection(eta: (View, int, int) -> real, caimU: (View, int, int, seq<real>) -> (real, real), p: real,
                        ghost parse: string -> real, v: View, currAttr: nat, icp: array<real>, ticp: nat)
    returns (fCutpoints: array<real>, fcp: nat, ghost flags: seq<int>, ghost V: real)
    requires 1 <= ticp <= icp.Length
    requires icp[..ticp] == CandidateCutpoints(ValuesOf(parse, v, currAttr))
    ensures fresh(fCutpoints)
    ensures fCutpoints[..] == ChosenCutpoints(eta, caimU, p, parse, v, currAttr)
    ensures LabelsValues(ValuesOf(parse, v, currAttr), fCutpoints[..])
    ensures GreedyOutcome(eta, caimU, p, v, currAttr, icp[..ticp], flags, V)
    ensures (flags, V) == GreedyRun(eta, caimU, p, v, currAttr, icp[..ticp], InitialFlags(ticp), 0.0)
    ensures fCutpoints[..] == FinalCutpoints(icp[..ticp], flags)
    ensures 2 <= fcp == fCutpoints.Length <= ticp + 1
  {
    var fcFlg;
    fcFlg, fcp, V := SelectCutpoints(eta, caimU, p, v, currAttr, icp, ticp);
    flags := fcFlg[..];
    CountBound(flags, 1);
    fCutpoints := CollectFinal(icp, ticp, fcFlg, fcp);
    ChosenOf(eta, caimU, p, parse, v, currAttr, flags, V);
  }

  /** The collection loop after the greedy selection: the fcp cut-points
      the flags of fcFlg choose among the ticp candidates icp. */
  method CollectFinal(icp: array<real>, ticp: nat, fcFlg: array<int>, fcp: nat) returns (fCutpoints: array<real>)
    requires 1 <= ticp <= icp.Length && fcFlg.Length == ticp
    requires fcFlg[0] == 1 && fcFlg[ticp - 1] == 1
    requires fcp == if ticp == 1 then 2 else Count(fcFlg[..], 1)
    ensures fresh(fCutpoints) && fCutpoints.Length == fcp
    ensures fCutpoints[..] == FinalCutpoints(icp[..ticp], fcFlg[..])
  {
    if ticp >= 2 {
      EndsCount(fcFlg[..]);
    }
    fCutpoints := CollectCutpoints(icp, ticp, fcFlg, fcp);
    FinalCutpointsOf(icp[..ticp], fcFlg[..], fCutpoints[..]);
  }

  /** The collection loop of findCatAttrs: the categorical attributes of
      the snapshot v in increasing order, each with its eta against
      numerical attribute numAttr. */
  method CollectEtas(eta: (View, int, int) -> real, v: View, numAttr: int, noCat: nat)
    returns (R: array<real>, tmpcatIndex: array<int>)
    requires noCat == Count(v.types, 0)
    ensures fresh(R) && fresh(tmpcatIndex) && R.Length == tmpcatIndex.Length == noCat
    ensures Zip(R[..], tmpcatIndex[..]) == EtaPairs(eta, v, numAttr)
  {
    ghost var idx := CategoricalIndices(v.types);
    TypeIndicesFacts(v.types, 0);
    tmpcatIndex := new int[noCat];
    R := new real[noCat];
    var k := 0;
    var i := 0;
    while i < |v.types|
      invariant 0 <= i <= |v.types|
      invariant k == Count(v.types[..i], 0) <= noCat
      invariant forall m :: 0 <= m < k ==> tmpcatIndex[m] == idx[m] && R[m] == eta(v, numAttr, idx[m])
    {
      TypeIndicesAt(v.types, 0, i);
      if v.types[i] == 0 && k < noCat {
        R[k] := eta(v, numAttr, i);
        tmpcatIndex[k] := i;
        k := k + 1;
      }
      i := i + 1;
    }
    assert v.types[..|v.types|] == v.types;
  }

  class Discretizer {
    const noOfRecords: nat
    const noOfAttrs: nat
    /** The data set, records by attributes; discretization overwrites the
        cells of each numerical attribute with interval labels. */
    const dataset: array2<string>
    const attrNames: seq<string>
    /** 1 for a numerical attribute, 0 for a categorical one. */
    const attrNType: array<int>
    const noOfCatAttrs: nat
    const noOfNumAttrs: nat
    /** 1 where a cell of the data set is missing. */
    const MV: array2<int>
    /** Average correlation of each numerical attribute with the categorical
        ones. */
    const RA: array<real>
    const NumAttrs: array<int>
    const CatAttrs: array<int>
    const domainsize: array<int>
    /** Attributes by records: the first domainsize[a] entries of row a are
        the domain of attribute a. */
    const domainValues: array2<string>
    /** Working arrays of the attribute being discretized: its distinct
        values and their counts. */
    const fqCount: array<int>
    const d: array<real>
    const pCatAttrs: real
    /** Double.parseDouble, calEta and CAIM_Uncertainty. */
    const Parse: string -> real
    const Eta: (View, int, int) -> real
    const CaimU: (View, int, int, seq<real>) -> (real, real)
    /** The cut-point choice of discretization as a function of the state:
        the greedy one (Greedy). */
    ghost const Choice: (View, nat) -> Cuts
    var lambda: real
    var ds: nat
    var iCutpoints: array<real>
    var fCutpoints: array<real>

    /** Array dimensions, and which arrays are distinct objects. */
    predicate Shaped()
    {
      && dataset.Length0 == noOfRecords && dataset.Length1 == noOfAttrs
      && MV.Length0 == noOfRecords && MV.Length1 == noOfAttrs
      && domainValues.Length0 == noOfAttrs && domainValues.Length1 == noOfRecords
      && attrNType.Length == noOfAttrs && domainsize.Length == noOfAttrs
      && fqCount.Length == noOfRecords && d.Length == noOfRecords
      && RA.Length == noOfNumAttrs && NumAttrs.Length == noOfNumAttrs
      && CatAttrs.Length == noOfCatAttrs
      && attrNType != domainsize && attrNType != fqCount && attrNType != NumAttrs
      && attrNType != CatAttrs && domainsize != fqCount && domainsize != NumAttrs
      && domainsize != CatAttrs && fqCount != NumAttrs && fqCount != CatAttrs
      && NumAttrs != CatAttrs && d != RA && dataset != domainValues
    }

    /** The state every operation keeps: at least one record, types 0 or 1,
        domain sizes that fit their rows, and missing flags that match the
        cells of every attribute still numerical. */
    ghost predicate Valid()
      reads attrNType, domainsize, MV, dataset
    {
      && Shaped() && noOfRecords >= 1
      && (forall a :: 0 <= a < noOfAttrs ==> attrNType[a] == 0 || attrNType[a] == 1)
      && (forall a :: 0 <= a < noOfAttrs ==> 0 <= domainsize[a] <= noOfRecords)
      && (forall i, a :: 0 <= i < noOfRecords && 0 <= a < noOfAttrs && attrNType[a] == 1 ==>
            MV[i, a] == IsMissing(dataset[i, a]))
    }

    /** A step that leaves the arrays of the state alone leaves the state
        as it was. */
    twostate lemma SameState()
      requires old(Valid()) && unchanged(dataset, MV, attrNType, domainsize, domainValues)
      ensures Valid() && Current() == old(Current())
    {
    }

    /** The state the statistics read. */
    function Current(): View
      requires Valid()
      reads dataset, MV, attrNType, domainsize, domainValues
    {
      View(Grid(dataset), Grid(MV), attrNType[..], Domains())
    }

    /** The domain of every attribute: the first domainsize[a] entries of
        its row of domainValues. */
    function Domains(): (doms: seq<seq<string>>)
      requires Shaped() && forall a :: 0 <= a < noOfAttrs ==> 0 <= domainsize[a] <= noOfRecords
      reads domainsize, domainValues
      ensures |doms| == noOfAttrs
    {
      var sizes := domainsize[..];
      seq(noOfAttrs, a requires 0 <= a < noOfAttrs reads domainValues => RowPrefix(domainValues, a, sizes[a]))
    }

    ghost function Column(a: nat): seq<string>
      requires Shaped() && a < noOfAttrs
      reads dataset
    {
      ColumnOf(dataset, a)
    }

    ghost function MVColumn(a: nat): seq<int>
      requires Shaped() && a < noOfAttrs
      reads MV
    {
      ColumnOf(MV, a)
    }

    ghost function DomainRow(a: nat, k: nat): seq<string>
      requires Shaped() && a < noOfAttrs && k <= noOfRecords
      reads domainValues
    {
      RowPrefix(domainValues, a, k)
    }

    /** The distinct non-missing cells of attribute a, in order of first
        appearance. */
    ghost function KeptDomain(a: nat): seq<string>
      requires Shaped() && a < noOfAttrs
      reads dataset, MV
    {
      FirstAppearance(KeptCells(Column(a), MVColumn(a)))
    }

    /** What initialize leaves for the later steps: the given attribute
        types, and the domain of every categorical attribute as collected
        from its cells. */
    ghost predicate Initialized(types: seq<int>)
      reads attrNType, domainsize, domainValues, MV, dataset
    {
      && Valid() && attrNType[..] == types
      && forall a :: 0 <= a < noOfAttrs && attrNType[a] == 0 ==>
           domainsize[a] == |KeptDomain(a)| && DomainRow(a, domainsize[a]) == KeptDomain(a)
    }

    /** NumAttrs lists every numerical attribute, each exactly once. */
    ghost predicate ListsNumerical()
      reads attrNType, NumAttrs
    {
      && NumAttrs.Length == noOfNumAttrs && attrNType.Length == noOfAttrs
      && (forall q :: 0 <= q < noOfNumAttrs ==> 0 <= NumAttrs[q] < noOfAttrs && attrNType[NumAttrs[q]] == 1)
      && (forall q, r :: 0 <= q < r < noOfNumAttrs ==> NumAttrs[q] != NumAttrs[r])
      && (forall c :: 0 <= c < noOfAttrs && attrNType[c] == 1 ==> c in NumAttrs[..])
    }

    /** With the types read from the type row info, NumAttrs lists exactly
        the attributes info marks "1". */
    lemma NumericalListed(info: seq<string>)
      requires ListsNumerical() && |info| == noOfAttrs && attrNType[..] == TypesOf(info)
      ensures NumericalList(info, NumAttrs[..])
    {
      assert forall a :: 0 <= a < |info| ==> (attrNType[a] == 1 <==> info[a] == "1");
    }

    /** NumAttrs holds noOfNumAttrs attributes of the data set. */
    ghost predicate NumAttrsInRange()
      reads NumAttrs
    {
      NumAttrs.Length == noOfNumAttrs && forall q :: 0 <= q < noOfNumAttrs ==> 0 <= NumAttrs[q] < noOfAttrs
    }

    /** The attribute lists initialize derives from the type row info: the
        types (1 where info says "1"), their counts, the numerical and the
        categorical attributes in increasing order, and an average
        correlation of 0 for every numerical attribute. */
    ghost predicate Listed(info: seq<string>)
      reads attrNType, NumAttrs, CatAttrs, RA
    {
      && attrNType[..] == TypesOf(info)
      && noOfNumAttrs == Count(TypesOf(info), 1) && noOfCatAttrs == Count(TypesOf(info), 0)
      && NumAttrs[..] == TypeIndices(TypesOf(info), 1)
      && CatAttrs[..] == CategoricalIndices(TypesOf(info))
      && RA.Length == noOfNumAttrs && forall k :: 0 <= k < RA.Length ==> RA[k] == 0.0
    }

    /** Every cell carries its missing flag. */
    ghost predicate Flagged()
      reads MV, dataset
    {
      && MV.Length0 == dataset.Length0 && MV.Length1 == dataset.Length1
      && forall i, a :: 0 <= i < MV.Length0 && 0 <= a < MV.Length1 ==> MV[i, a] == IsMissing(dataset[i, a])
    }

    /** initialize: reads the attribute types (row 0 of attrInfo, "1" for
        numerical) and names (row 1), flags the missing cells, lists the
        numerical and categorical attributes and collects the domain of
        every categorical attribute. */
    constructor Initialize(datasetG: array2<string>, attrInfo: seq<seq<string>>, percentage: real,
                           parse: string -> real, eta: (View, int, int) -> real,
                           caimU: (View, int, int, seq<real>) -> (real, real))
      requires datasetG.Length0 >= 1
      requires |attrInfo| >= 2 && |attrInfo[0]| >= datasetG.Length1 && |attrInfo[1]| >= datasetG.Length1
      ensures Valid()
      ensures dataset == datasetG && noOfRecords == datasetG.Length0 && noOfAttrs == datasetG.Length1
      ensures pCatAttrs == percentage && Parse == parse && Eta == eta && CaimU == caimU && Greedy()
      ensures attrNames == attrInfo[1][..noOfAttrs]
      ensures Listed(attrInfo[0][..noOfAttrs]) && Flagged()
      ensures forall a :: 0 <= a < noOfAttrs && attrNType[a] == 1 ==> domainsize[a] == 0
      ensures forall a :: 0 <= a < noOfAttrs && attrNType[a] == 0 ==>
                domainsize[a] == |KeptDomain(a)| && DomainRow(a, domainsize[a]) == KeptDomain(a)
      ensures fresh(attrNType) && fresh(MV) && fresh(RA) && fresh(NumAttrs) && fresh(CatAttrs)
      ensures fresh(domainsize) && fresh(domainValues) && fresh(fqCount) && fresh(d)
    {
      var nRec := datasetG.Length0;
      var nAttr := datasetG.Length1;
      var types, nNum, nCat := ReadTypes(attrInfo[0], nAttr);
      var missing := MissingFlags(datasetG);
      var nums := ListAttributes(types[..], 1, nNum);
      var cats := ListAttributes(types[..], 0, nCat);
      pCatAttrs := percentage;
      Choice := Chooser(eta, caimU, percentage, parse);
      dataset := datasetG;
      noOfRecords := nRec;
      noOfAttrs := nAttr;
      attrNType := types;
      attrNames := attrInfo[1][..nAttr];
      var sizes, values, counts, dist, ra, none := Workspace(nAttr, nRec, nNum);
      domainsize := sizes;
      domainValues := values;
      MV := missing;
      fqCount := counts;
      d := dist;
      noOfCatAttrs := nCat;
      noOfNumAttrs := nNum;
      NumAttrs := nums;
      CatAttrs := cats;
      RA := ra;
      Parse := parse;
      Eta := eta;
      CaimU := caimU;
      iCutpoints := none;
      fCutpoints := none;
      new;
      CollectDomains();
    }

    /** The attribute loop of initialize, domain part: domain size 0 for a
        numerical attribute, and for a categorical one its distinct
        non-missing values. */
    method CollectDomains()
      requires Valid()
      modifies domainsize, domainValues
      ensures Valid()
      ensures forall a :: 0 <= a < noOfAttrs && attrNType[a] == 1 ==> domainsize[a] == 0
      ensures forall a :: 0 <= a < noOfAttrs && attrNType[a] == 0 ==>
                domainsize[a] == |KeptDomain(a)| && DomainRow(a, domainsize[a]) == KeptDomain(a)
    {
      ghost var got: seq<seq<string>> := seq(noOfAttrs, _ => []);
      var i := 0;
      while i < noOfAttrs
        invariant 0 <= i <= noOfAttrs
        invariant forall a :: 0 <= a < noOfAttrs ==> 0 <= domainsize[a] <= noOfRecords
        invariant forall a :: 0 <= a < i && attrNType[a] == 1 ==> domainsize[a] == 0
        invariant |got| == noOfAttrs
        invariant forall a :: 0 <= a < i && attrNType[a] == 0 ==>
                    domainsize[a] == |got[a]| && got[a] == old(KeptDomain(a))
        invariant forall a, k :: 0 <= a < i && attrNType[a] == 0 && 0 <= k < domainsize[a] ==>
                    domainValues[a, k] == got[a][k]
      {
        if attrNType[i] == 1 {
          domainsize[i] := 0;
        } else {
          CollectDomain(i);
          got := got[i := DomainRow(i, domainsize[i])];
        }
        i := i + 1;
      }
      forall a | 0 <= a < noOfAttrs && attrNType[a] == 0
        ensures DomainRow(a, domainsize[a]) == KeptDomain(a)
      {
        assert DomainRow(a, domainsize[a]) == got[a];
      }
    }

    /** domainsize[attrPos] = findDomainSize(attrPos). */
    method CollectDomain(attrPos: nat)
      requires Shaped() && attrPos < noOfAttrs
      modifies domainsize, domainValues
      ensures domainsize[attrPos] == |KeptDomain(attrPos)| <= noOfRecords
      ensures DomainRow(attrPos, domainsize[attrPos]) == KeptDomain(attrPos)
      ensures forall a :: 0 <= a < noOfAttrs && a != attrPos ==> domainsize[a] == old(domainsize[a])
      ensures forall a, k :: 0 <= a < noOfAttrs && a != attrPos && 0 <= k < noOfRecords ==>
                domainValues[a, k] == old(domainValues[a, k])
    {
      var size := FindDomainSize(attrPos);
      domainsize[attrPos] := size;
    }

    /** chkDomain: 1 when curVal is among the first domainSize domain values
        of attrPos, 0 otherwise. */
    method ChkDomain(domainSize: nat, attrPos: nat, curVal: string) returns (flag: int)
      requires Shaped() && attrPos < noOfAttrs && domainSize <= noOfRecords
      ensures flag == 0 || flag == 1
      ensures flag == 1 <==> curVal in DomainRow(attrPos, domainSize)
    {
      flag := 0;
      var i := 0;
      while i < domainSize
        invariant 0 <= i <= domainSize
        invariant flag == 0 && curVal !in DomainRow(attrPos, i)
      {
        if curVal == domainValues[attrPos, i] {
          assert DomainRow(attrPos, domainSize)[i] == curVal;
          flag := 1;
          break;
        }
        assert DomainRow(attrPos, i + 1) == DomainRow(attrPos, i) + [domainValues[attrPos, i]];
        i := i + 1;
      }
    }

    /** findDomainSize: writes the distinct non-missing cells of attrPos, in
        order of first appearance, to the start of its domain row and returns
        how many there are. */
    method FindDomainSize(attrPos: nat) returns (attrDomainSize: nat)
      requires Shaped() && attrPos < noOfAttrs
      modifies domainValues
      ensures attrDomainSize == |KeptDomain(attrPos)| <= noOfRecords
      ensures DomainRow(attrPos, attrDomainSize) == KeptDomain(attrPos)
      ensures forall a, k :: 0 <= a < noOfAttrs && 0 <= k < noOfRecords && (a != attrPos || k >= attrDomainSize) ==>
                domainValues[a, k] == old(domainValues[a, k])
    {
      ghost var col := Column(attrPos);
      ghost var mv := MVColumn(attrPos);
      attrDomainSize := 0;
      var i := 0;
      while i < noOfRecords
        invariant 0 <= i <= noOfRecords
        invariant attrDomainSize <= i
        invariant DomainRow(attrPos, attrDomainSize) == FirstAppearance(KeptCells(col[..i], mv[..i]))
        invariant forall a, k :: 0 <= a < noOfAttrs && 0 <= k < noOfRecords && (a != attrPos || k >= attrDomainSize) ==>
                    domainValues[a, k] == old(domainValues[a, k])
      {
        KeptDomainStep(col, mv, i);
        assert col[i] == dataset[i, attrPos] && mv[i] == MV[i, attrPos];
        if MV[i, attrPos] == 0 {
          var x := dataset[i, attrPos];
          var flag := ChkDomain(attrDomainSize, attrPos, x);
          if flag == 0 {
            AppendToRow(domainValues, attrPos, attrDomainSize, x);
            attrDomainSize := attrDomainSize + 1;
          }
        }
        i := i + 1;
      }
      assert col[..noOfRecords] == col && mv[..noOfRecords] == mv;
    }

    /** The parsed values of the non-missing cells of attribute a, in record
        order. */
    ghost function Values(a: nat): seq<real>
      requires Shaped() && a < noOfAttrs
      reads dataset
    {
      PresentValues(Parse, Column(a))
    }

    /** frequencyDistribution: the distinct values of the attribute in order
        of first appearance in d[0..ds), the number of records holding each
        in fqCount, and lambda, their mean count (0 without values). */
    method FrequencyDistribution(currAttr: nat)
      requires Valid() && currAttr < noOfAttrs
      modifies this`ds, this`lambda, d, fqCount
      ensures ds == |FirstAppearance(Values(currAttr))| <= noOfRecords
      ensures d[..ds] == FirstAppearance(Values(currAttr))
      ensures fqCount[..ds] == Counts(Values(currAttr))
      ensures lambda == Lambda(Values(currAttr))
      ensures forall k :: ds <= k < noOfRecords ==> d[k] == old(d[k]) && fqCount[k] == old(fqCount[k])
    {
      lambda := 0.0;
      var distinct, totalValue := Tabulate(dataset, currAttr, Parse, d, fqCount);
      ds := distinct;
      assert fqCount[..ds] == Counts(Values(currAttr));
      if ds > 0 {
        lambda := totalValue as real / ds as real;
      }
    }

    /** findCatAttrs: the categorical attributes ranked by their eta against
        numerical attribute numAttr, cut to the share pCatAttrs of them (at
        least one, at most all). */
    method FindCatAttrs(numAttr: int) returns (catIndex: array<int>)
      requires Valid()
      ensures fresh(catIndex)
      ensures catIndex[..] == CatAttrsOf(Eta, pCatAttrs, Current(), numAttr)
    {
      var v := Current();
      catIndex := RankCatAttrs(Eta, pCatAttrs, v, numAttr);
    }

    /** The first steps of discretization for one attribute: its frequency
        table, sorted by value, and its candidate cut-points in
        iCutpoints[0..ticp); ticp is 0 exactly when it has no present
        value. */
    method Candidates(currAttr: nat) returns (ticp: nat)
      requires Valid() && currAttr < noOfAttrs
      modifies this`ds, this`lambda, this`iCutpoints, d, fqCount
      ensures fresh(iCutpoints) && ticp <= iCutpoints.Length == ds <= noOfRecords
      ensures iCutpoints[..ticp] == CandidateCutpoints(Values(currAttr))
      ensures ticp == 0 <==> Values(currAttr) == []
    {
      FrequencyDistribution(currAttr);
      iCutpoints, ticp := SortedCandidates(d, fqCount, ds, lambda, Values(currAttr));
    }

    /** discretizeX: replaces every present cell of attribute nAttr by the
        label of its value under the first nc cut-points. */
    method DiscretizeX(nAttr: nat, cutpoints: array<real>, nc: nat)
      requires Shaped() && nAttr < noOfAttrs && nc <= cutpoints.Length
      modifies dataset
      ensures Column(nAttr) == RelabelledColumn(Parse, old(Column(nAttr)), MVColumn(nAttr), cutpoints[..nc])
      ensures forall a :: 0 <= a < noOfAttrs && a != nAttr ==> Column(a) == old(Column(a))
      ensures Grid(dataset) == RelabelTable(Parse, old(Grid(dataset)), Grid(MV), nAttr, cutpoints[..nc])
    {
      ghost var cps := cutpoints[..nc];
      var i := 0;
      while i < noOfRecords
        invariant 0 <= i <= noOfRecords
        invariant forall r :: 0 <= r < i && MV[r, nAttr] == 0 ==>
                    dataset[r, nAttr] == Label(Parse(old(dataset[r, nAttr])), cps)
        invariant forall r, a :: 0 <= r < noOfRecords && 0 <= a < noOfAttrs && (r >= i || a != nAttr || MV[r, a] != 0) ==>
                    dataset[r, a] == old(dataset[r, a])
      {
        if MV[i, nAttr] == 0 {
          var nCV := Parse(dataset[i, nAttr]);
          var cat := BinLabel(nCV, cutpoints, nc);
          dataset[i, nAttr] := cat;
        }
        i := i + 1;
      }
      assert Column(nAttr) == RelabelledColumn(Parse, old(Column(nAttr)), MVColumn(nAttr), cps);
      ghost var t := RelabelTable(Parse, old(Grid(dataset)), Grid(MV), nAttr, cps);
      forall i | 0 <= i < noOfRecords
        ensures Grid(dataset)[i] == t[i]
      {
        assert |Grid(dataset)[i]| == |t[i]|;
        forall j | 0 <= j < noOfAttrs
          ensures Grid(dataset)[i][j] == t[i][j]
        {
        }
      }
    }

    /** The label loop of discretization: the domain of attribute a becomes
        "0" .. "k-1". */
    method WriteLabels(a: nat, k: nat)
      requires Shaped() && a < noOfAttrs && k <= noOfRecords
      requires forall b :: 0 <= b < noOfAttrs ==> 0 <= domainsize[b] <= noOfRecords
      requires domainsize[a] == k
      modifies domainValues
      ensures DomainRow(a, k) == Labels(k)
      ensures Domains() == old(Domains())[a := Labels(k)]
      ensures forall b, t :: 0 <= b < noOfAttrs && 0 <= t < noOfRecords && (b != a || t >= k) ==>
                domainValues[b, t] == old(domainValues[b, t])
      ensures forall b :: 0 <= b < noOfAttrs && b != a ==> DomainRow(b, noOfRecords) == old(DomainRow(b, noOfRecords))
    {
      var t := 0;
      while t < k
        invariant 0 <= t <= k
        invariant forall u :: 0 <= u < t ==> domainValues[a, u] == NatToString(u)
        invariant forall b, u :: 0 <= b < noOfAttrs && 0 <= u < noOfRecords && (b != a || u >= t) ==>
                    domainValues[b, u] == old(domainValues[b, u])
      {
        domainValues[a, t] := NatToString(t);
        t := t + 1;
      }
      forall b | 0 <= b < noOfAttrs
        ensures Domains()[b] == old(Domains())[a := Labels(k)][b]
      {
        if b == a {
          assert Domains()[b] == DomainRow(a, k);
        } else {
          assert Domains()[b] == old(Domains())[b];
        }
      }
    }

    /** The facts of attribute a as Current() holds them: its cells, its
        missing flags, and its domain, the first domainsize[a] entries of its
        row of domainValues. */
    lemma ReadOff(a: nat)
      requires Valid() && a < noOfAttrs
      ensures CellColumn(Current().table, a, "") == Column(a)
      ensures CellColumn(Current().missing, a, 1) == MVColumn(a)
      ensures Current().domains[a] == DomainRow(a, domainsize[a]) && |Current().domains[a]| == domainsize[a]
    {
      GridColumn(dataset, a, "");
      GridColumn(MV, a, 1);
    }

    /** The state initialize leaves is the one InitialView builds from the
        rows of the data set and the type row info. */
    lemma InitialState(info: seq<string>)
      requires Valid() && Flagged() && |info| == noOfAttrs && attrNType[..] == TypesOf(info)
      requires forall a :: 0 <= a < noOfAttrs && attrNType[a] == 1 ==> domainsize[a] == 0
      requires forall a :: 0 <= a < noOfAttrs && attrNType[a] == 0 ==> DomainRow(a, domainsize[a]) == KeptDomain(a)
      ensures Current() == InitialView(Grid(dataset), info)
    {
      var v := InitialView(Grid(dataset), info);
      forall i | 0 <= i < MV.Length0
        ensures Grid(MV)[i] == MissingGrid(Grid(dataset))[i]
      {
        assert forall a :: 0 <= a < MV.Length1 ==> Grid(MV)[i][a] == IsMissing(Grid(dataset)[i][a]);
      }
      assert Grid(MV) == v.missing;
      forall a | 0 <= a < noOfAttrs
        ensures Domains()[a] == v.domains[a]
      {
        ReadOff(a);
      }
    }

    /** The state a discretization of the first k of the numerical
        attributes nums reaches from the state InitialView builds from table
        and the type row info: categorical attributes keep their type, cells
        and domain, and when every numerical attribute was done (completed),
        every attribute is categorical and every numerical one discretized
        in its values. */
    lemma RunState(table: seq<seq<string>>, info: seq<string>, nums: seq<int>, k: nat, completed: bool)
      requires Valid() && Greedy() && |info| == noOfAttrs && k <= |nums| && (completed ==> k == |nums|)
      requires TableWidth(table, |info|) && NumericalList(info, nums)
      requires Current() == DiscretizeAllWith(Parse, Choice, InitialView(table, info), nums[..k])
      ensures completed ==> forall a :: 0 <= a < noOfAttrs ==> attrNType[a] == 0
      ensures completed ==>
                forall a :: 0 <= a < noOfAttrs && info[a] == "1" ==>
                  DiscretizedIn(Current(), a, PresentValues(Parse, CellColumn(table, a, "")))
      ensures forall a :: 0 <= a < noOfAttrs && info[a] != "1" ==>
                && attrNType[a] == 0 && Column(a) == CellColumn(table, a, "")
                && domainsize[a] == |KeptDomain(a)| && DomainRow(a, domainsize[a]) == KeptDomain(a)
    {
      var attrs := nums[..k];
      CategoricalState(Choice, table, info, attrs);
      if completed {
        GreedyLabels(Eta, CaimU, pCatAttrs, Parse, Choice);
        CompletedRun(Parse, Choice, table, info, attrs);
      }
    }

    /** In a state reached by discretizing numerical attributes from the
        state InitialView builds, every categorical attribute keeps its type,
        its cells and the domain initialize collected for it. */
    lemma CategoricalState(choose: (View, nat) -> Cuts, table: seq<seq<string>>, info: seq<string>, attrs: seq<int>)
      requires Valid() && |info| == noOfAttrs
      requires forall r :: 0 <= r < |attrs| ==> 0 <= attrs[r] < |info| && info[attrs[r]] == "1"
      requires Current() == DiscretizeAllWith(Parse, choose, InitialView(table, info), attrs)
      ensures forall a :: 0 <= a < noOfAttrs && info[a] != "1" ==>
                && attrNType[a] == 0 && Column(a) == CellColumn(table, a, "")
                && domainsize[a] == |KeptDomain(a)| && DomainRow(a, domainsize[a]) == KeptDomain(a)
    {
      CategoricalKept(Parse, choose, table, info, attrs);
      forall a | 0 <= a < noOfAttrs && info[a] != "1"
        ensures && attrNType[a] == 0 && Column(a) == CellColumn(table, a, "")
                && domainsize[a] == |KeptDomain(a)| && DomainRow(a, domainsize[a]) == KeptDomain(a)
      {
        ReadOff(a);
      }
    }

    /** The discretization call of runDiscretization: every attribute of the
        ranked list NumAttrs in turn. */
    method DiscretizeRanked() returns (outcome: Outcome)
      requires Valid() && Greedy() && ListsNumerical()
      modifies this`ds, this`lambda, this`iCutpoints, this`fCutpoints, d, fqCount, dataset, attrNType, domainsize, domainValues
      ensures Valid() && NumAttrsInRange()
      ensures outcome.EmptyAttribute? ==>
                && outcome.position < noOfNumAttrs
                && var a := NumAttrs[outcome.position];
                   0 <= a < noOfAttrs && old(Current()).types[a] == 1 && ValuesOf(Parse, old(Current()), a) == []
      ensures outcome.Completed? ==>
                forall a :: 0 <= a < noOfAttrs && old(Current()).types[a] == 1 ==> ValuesOf(Parse, old(Current()), a) != []
      ensures NumAttrs[..] == old(NumAttrs[..])
      ensures Current() == DiscretizeAllWith(Parse, Choice, old(Current()), NumAttrs[..DoneCount(outcome, noOfNumAttrs)])
    {
      outcome := Discretization(NumAttrs, noOfNumAttrs);
      if outcome.Completed? {
        forall a | 0 <= a < noOfAttrs && old(Current()).types[a] == 1
          ensures ValuesOf(Parse, old(Current()), a) != []
        {
          assert a in NumAttrs[..];
          var q :| 0 <= q < noOfNumAttrs && NumAttrs[q] == a;
        }
      }
    }

    /** calAvgEta: the average correlation RA[i] of every numerical
        attribute NumAttrs[i] with the categorical attributes. */
    method CalAvgEta()
      requires Valid()
      modifies RA
      ensures RA[..] == AvgEtas(Eta, Current(), NumAttrs[..], CatAttrs[..])
    {
      var v := Current();
      ghost var avgs := AvgEtas(Eta, v, NumAttrs[..], CatAttrs[..]);
      var i := 0;
      while i < noOfNumAttrs
        invariant 0 <= i <= noOfNumAttrs
        invariant forall k :: 0 <= k < i ==> RA[k] == avgs[k]
      {
        var r := MeanEta(Eta, v, NumAttrs[i], CatAttrs, noOfCatAttrs);
        assert CatAttrs[..noOfCatAttrs] == CatAttrs[..];
        RA[i] := r;
        i := i + 1;
      }
    }

    /** calAvgEta followed by rankNAttributes: NumAttrs ends up ranked by
        average correlation, highest first, and still lists every numerical
        attribute exactly once. */
    method RankAttributes()
      requires Valid()
      requires NumAttrs[..] == TypeIndices(attrNType[..], 1) && CatAttrs[..] == CategoricalIndices(attrNType[..])
      modifies RA, NumAttrs
      ensures NumAttrs[..] == RankedByAvgEta(Eta, Current())
      ensures ListsNumerical()
    {
      ghost var v := Current();
      ghost var types := attrNType[..];
      ghost var nums := NumAttrs[..];
      ghost var avgs := AvgEtas(Eta, v, nums, CategoricalIndices(types));
      CalAvgEta();
      assert RA[..] == avgs;
      RankNumerical(types, RA, NumAttrs);
      RankedByAvgEtaOf(Eta, v, nums, avgs);
      assert Current() == v by {
        assert unchanged(dataset, MV, attrNType, domainsize, domainValues);
      }
    }

    /** The cut-points each pass applies are the greedy choice. */
    ghost predicate Greedy()
    {
      IsGreedy(Eta, CaimU, pCatAttrs, Parse, Choice)
    }

    /** The state is the one the passes over attrs, in order, reach from
        v0. */
    ghost predicate Reached(v0: View, attrs: seq<int>)
      requires Valid()
      reads dataset, MV, attrNType, domainsize, domainValues
    {
      && |v0.types| == |v0.domains|
      && (forall r :: 0 <= r < |attrs| ==> 0 <= attrs[r] < |v0.types|)
      && Current() == DiscretizeAllWith(Parse, Choice, v0, attrs)
    }

    /** discretization: the numerical attributes nAttrs[0 .. nA) in turn
        get their cut-points chosen and their cells relabelled, and become
        categorical: the state ends as DiscretizeAll over the attributes
        done. The run stops with EmptyAttribute(j) at the first listed
        attribute without a present value, the attributes before it having
        been discretized. */
    method Discretization(nAttrs: array<int>, nA: nat) returns (outcome: Outcome)
      requires Valid() && Greedy() && nA <= nAttrs.Length
      requires nAttrs != attrNType && nAttrs != domainsize && nAttrs != fqCount
      requires forall q :: 0 <= q < nA ==> 0 <= nAttrs[q] < noOfAttrs && attrNType[nAttrs[q]] == 1
      requires forall q, r :: 0 <= q < r < nA ==> nAttrs[q] != nAttrs[r]
      modifies this`ds, this`lambda, this`iCutpoints, this`fCutpoints, d, fqCount
      modifies dataset, attrNType, domainsize, domainValues
      ensures Valid()
      ensures outcome.EmptyAttribute? ==>
                outcome.position < nA && ValuesOf(Parse, old(Current()), nAttrs[outcome.position]) == []
      ensures forall q :: 0 <= q < DoneCount(outcome, nA) ==> ValuesOf(Parse, old(Current()), nAttrs[q]) != []
      ensures Reached(old(Current()), nAttrs[..DoneCount(outcome, nA)])
    {
      ghost var v0 := Current();
      ghost var attrs := nAttrs[..nA];
      ListedRun(nAttrs, nA);
      var j := 0;
      while j < nA
        invariant 0 <= j <= nA
        invariant Valid() && Reached(v0, attrs[..j])
        invariant forall q :: 0 <= q < j ==> ValuesOf(Parse, v0, nAttrs[q]) != []
      {
        var ok := DiscretizeNext(nAttrs[j], v0, attrs, j);
        if !ok {
          assert attrs[..j] == nAttrs[..DoneCount(EmptyAttribute(j), nA)];
          return EmptyAttribute(j);
        }
        j := j + 1;
      }
      assert attrs[..j] == nAttrs[..DoneCount(Completed, nA)];
      return Completed;
    }

    /** Distinct numerical attributes listed in nAttrs[0 .. nA) make a run
        from the current state. */
    lemma ListedRun(nAttrs: array<int>, nA: nat)
      requires Valid() && nA <= nAttrs.Length
      requires forall q :: 0 <= q < nA ==> 0 <= nAttrs[q] < noOfAttrs && attrNType[nAttrs[q]] == 1
      requires forall q, r :: 0 <= q < r < nA ==> nAttrs[q] != nAttrs[r]
      ensures RunFrom(Current(), nAttrs[..nA])
    {
    }

    /** The body of discretization's attribute loop at position j of the run
        attrs from v0: the pass over currAttr == attrs[j], which extends the
        attributes done by one when it has a present value in v0, and
        otherwise leaves the state as it was. */
    method DiscretizeNext(currAttr: int, ghost v0: View, ghost attrs: seq<int>, ghost j: nat) returns (ok: bool)
      requires Valid() && Greedy() && |v0.types| == noOfAttrs
      requires RunFrom(v0, attrs) && j < |attrs| && attrs[j] == currAttr && Reached(v0, attrs[..j])
      modifies this`ds, this`lambda, this`iCutpoints, this`fCutpoints, d, fqCount
      modifies dataset, attrNType, domainsize, domainValues
      ensures Valid()
      ensures ok <==> ValuesOf(Parse, v0, currAttr) != []
      ensures ok ==> Reached(v0, attrs[..j + 1])
      ensures !ok ==> Reached(v0, attrs[..j])
    {
      NextPass(Parse, Choice, v0, attrs, j);
      ReadOff(currAttr);
      ok := ProcessAttribute(currAttr);
    }

    /** One pass of discretization's attribute loop for numerical attribute
        currAttr: its cut-points are chosen and its present cells relabelled,
        and it becomes categorical. ok is false when it has no present value
        (the source then fails on an index into its empty flag array); the
        table, types and domains are then left as they were. */
    method ProcessAttribute(currAttr: nat) returns (ok: bool)
      requires Valid() && Greedy() && currAttr < noOfAttrs && attrNType[currAttr] == 1
      modifies this`ds, this`lambda, this`iCutpoints, this`fCutpoints, d, fqCount
      modifies dataset, attrNType, domainsize, domainValues
      ensures Valid()
      ensures ok <==> old(Values(currAttr)) != []
      ensures !ok ==> unchanged(dataset, attrNType, domainsize, domainValues)
      ensures ok ==> attrNType[..] == old(attrNType[..])[currAttr := 0]
      ensures ok ==> forall b :: 0 <= b < noOfAttrs && b != currAttr ==> Column(b) == old(Column(b))
      ensures ok ==> Current() == DiscretizeWith(Parse, old(Current()), currAttr, Choice(old(Current()), currAttr))
    {
      var fcp;
      ok, fcp := ChooseCutpoints(currAttr);
      if ok {
        ApplyCutpoints(currAttr, fcp);
      }
    }

    /** The cut-point part of one pass of discretization's attribute loop:
        frequencyDistribution, the sort of the distinct values,
        findInitialCutpoints, then the greedy selection, leaving the chosen
        cut-points in fCutpoints. ok is false when the attribute has no
        present value. */
    method ChooseCutpoints(currAttr: nat) returns (ok: bool, fcp: nat)
      requires Valid() && currAttr < noOfAttrs
      modifies this`ds, this`lambda, this`iCutpoints, this`fCutpoints, d, fqCount
      ensures ok <==> Values(currAttr) != []
      ensures ok ==> fCutpoints[..] == ChosenCutpoints(Eta, CaimU, pCatAttrs, Parse, old(Current()), currAttr)
      ensures ok ==> LabelsValues(Values(currAttr), fCutpoints[..])
      ensures ok ==> 2 <= fcp == fCutpoints.Length <= noOfRecords + 1
    {
      var v := Current();
      var ticp := Candidates(currAttr);
      if ticp == 0 {
        return false, 0;
      }
      ok := true;
      GridColumn(dataset, currAttr, "");
      ghost var flags, V;
      fCutpoints, fcp, flags, V := FinalSelection(Eta, CaimU, pCatAttrs, Parse, v, currAttr, iCutpoints, ticp);
    }

    /** The relabelling part of one pass of discretization's attribute loop:
        discretizeX with the fcp cut-points of fCutpoints, then the attribute
        becomes categorical with the fcp - 1 interval labels as its
        domain. */
    method ApplyCutpoints(currAttr: nat, fcp: nat)
      requires Valid() && currAttr < noOfAttrs && attrNType[currAttr] == 1
      requires 2 <= fcp == fCutpoints.Length <= noOfRecords + 1
      requires LabelsValues(Values(currAttr), fCutpoints[..])
      modifies dataset, attrNType, domainsize, domainValues
      ensures Valid()
      ensures attrNType[..] == old(attrNType[..])[currAttr := 0]
      ensures domainsize[..] == old(domainsize[..])[currAttr := fcp - 1]
      ensures forall b :: 0 <= b < noOfAttrs && b != currAttr ==> Column(b) == old(Column(b))
      ensures Current() == DiscretizeWith(Parse, old(Current()), currAttr, fCutpoints[..])
    {
      ghost var table, types, doms := Grid(dataset), attrNType[..], Domains();
      Relabel(currAttr, fcp);
      MarkCategorical(currAttr, fcp - 1);
      Redefined(View(table, Grid(MV), types, doms), currAttr, fCutpoints[..]);
    }

    /** A state whose table, types and domains are those of v0 with column a
        relabelled with cut-points cps and a categorical with their |cps| - 1
        labels is DiscretizeWith of v0. */
    lemma Redefined(v0: View, a: nat, cps: seq<real>)
      requires Valid() && a < noOfAttrs && |cps| >= 1
      requires a < |v0.types| && a < |v0.domains| && v0.missing == Grid(MV)
      requires Grid(dataset) == RelabelTable(Parse, v0.table, v0.missing, a, cps)
      requires attrNType[..] == v0.types[a := 0]
      requires Domains() == v0.domains[a := Labels(|cps| - 1)]
      ensures Current() == DiscretizeWith(Parse, v0, a, cps)
    {
    }

    /** The end of one pass of discretization's attribute loop: attribute a
        becomes categorical with the k interval labels "0" .. "k-1" as its
        domain. */
    method MarkCategorical(a: nat, k: nat)
      requires Shaped() && a < noOfAttrs && k <= noOfRecords
      requires forall b :: 0 <= b < noOfAttrs ==> 0 <= domainsize[b] <= noOfRecords
      modifies attrNType, domainsize, domainValues
      ensures attrNType[..] == old(attrNType[..])[a := 0]
      ensures domainsize[..] == old(domainsize[..])[a := k]
      ensures Domains() == old(Domains())[a := Labels(k)]
      ensures DomainRow(a, k) == Labels(k)
      ensures forall b :: 0 <= b < noOfAttrs && b != a ==> DomainRow(b, noOfRecords) == old(DomainRow(b, noOfRecords))
    {
      attrNType[a] := 0;
      domainsize[a] := k;
      label sized:
      WriteLabels(a, k);
      assert old@sized(Domains()) == old(Domains())[a := old@sized(Domains())[a]];
    }

    /** discretizeX on attribute currAttr with the final cut-points: when
        the attribute has two or more distinct values, every present cell
        ends up holding one of the fcp - 1 interval labels. */
    method Relabel(currAttr: nat, fcp: nat)
      requires Valid() && currAttr < noOfAttrs && attrNType[currAttr] == 1
      requires 1 <= fcp == fCutpoints.Length
      requires LabelsValues(Values(currAttr), fCutpoints[..])
      modifies dataset
      ensures Column(currAttr) == RelabelledColumn(Parse, old(Column(currAttr)), MVColumn(currAttr), fCutpoints[..])
      ensures Grid(dataset) == RelabelTable(Parse, old(Grid(dataset)), Grid(MV), currAttr, fCutpoints[..])
      ensures LabelledColumn(old(Values(currAttr)), Column(currAttr), MVColumn(currAttr), fcp - 1)
      ensures forall i, b :: 0 <= i < noOfRecords && 0 <= b < noOfAttrs && b != currAttr ==>
                dataset[i, b] == old(dataset[i, b])
      ensures forall b :: 0 <= b < noOfAttrs && b != currAttr ==> Column(b) == old(Column(b))
    {
      ghost var vs := Values(currAttr);
      ghost var col0 := Column(currAttr);
      ghost var mv := MVColumn(currAttr);
      ghost var cps := fCutpoints[..];
      assert vs == PresentValues(Parse, col0);
      assert forall i :: 0 <= i < |mv| ==> mv[i] == IsMissing(col0[i]);
      assert fCutpoints[..fcp] == cps;
      DiscretizeX(currAttr, fCutpoints, fcp);
      ghost var col1 := Column(currAttr);
      ColumnLabels(Parse, col0, mv, col1, vs, cps, fcp - 1);
      assert MVColumn(currAttr) == mv;
      forall i, b | 0 <= i < noOfRecords && 0 <= b < noOfAttrs && b != currAttr
        ensures dataset[i, b] == old(dataset[i, b])
      {
        assert dataset[i, b] == Column(b)[i] && old(dataset[i, b]) == old(Column(b))[i];
      }
    }
  }

  /** The first half of runDiscretization: initialize, calAvgEta, and the
      ranking of the numerical attributes by average correlation (highest
      first). The state is the one InitialView builds from the table and
      the type row, and NumAttrs lists every numerical attribute once. */
  method Prepare(datasetG: array2<string>, attrInfo: seq<seq<string>>, percentage: real,
                 parse: string -> real, eta: (View, int, int) -> real,
                 caimU: (View, int, int, seq<real>) -> (real, real))
    returns (lfd: Discretizer)
    requires datasetG.Length0 >= 1
    requires |attrInfo| >= 2 && |attrInfo[0]| >= datasetG.Length1 && |attrInfo[1]| >= datasetG.Length1
    ensures fresh(lfd) && fresh(lfd.attrNType) && fresh(lfd.domainsize) && fresh(lfd.domainValues)
    ensures fresh(lfd.d) && fresh(lfd.fqCount) && fresh(lfd.MV)
    ensures lfd.dataset == datasetG && lfd.noOfAttrs == datasetG.Length1 && lfd.Parse == parse
    ensures lfd.Eta == eta && lfd.CaimU == caimU && lfd.pCatAttrs == percentage && lfd.Greedy()
    ensures lfd.Initialized(TypesOf(attrInfo[0][..lfd.noOfAttrs]))
    ensures lfd.ListsNumerical()
    ensures lfd.Current() == InitialView(Grid(datasetG), attrInfo[0][..datasetG.Length1])
    ensures lfd.NumAttrs[..] == RankedByAvgEta(eta, lfd.Current())
  {
    lfd := new Discretizer.Initialize(datasetG, attrInfo, percentage, parse, eta, caimU);
    lfd.InitialState(attrInfo[0][..lfd.noOfAttrs]);
    lfd.RankAttributes();
  }

  /** rankNAttributes on the numerical attributes as initialize lists them:
      the result is the exchange sort by average correlation, highest first,
      and holds every numerical attribute exactly once. */
  method RankNumerical(ghost types: seq<int>, ra: array<real>, nAttrs: array<int>)
    requires ra.Length == nAttrs.Length && nAttrs[..] == TypeIndices(types, 1)
    modifies ra, nAttrs
    ensures nAttrs[..] == Seconds(ExchangeSort(Zip(old(ra[..]), old(nAttrs[..])), true))
    ensures forall q :: 0 <= q < nAttrs.Length ==> 0 <= nAttrs[q] < |types| && types[nAttrs[q]] == 1
    ensures forall q, r :: 0 <= q < r < nAttrs.Length ==> nAttrs[q] != nAttrs[r]
    ensures forall c :: 0 <= c < |types| && types[c] == 1 ==> c in nAttrs[..]
  {
    var n := nAttrs.Length;
    ghost var ra0 := ra[..];
    ghost var attrs := nAttrs[..];
    assert ra[..n] == ra0 && nAttrs[..n] == attrs;
    RankNAttributes(ra, nAttrs, n);
    RankedNumerical(types, ra0, attrs);
    assert nAttrs[..] == Seconds(Zip(ra[..n], nAttrs[..n])) by {
      assert nAttrs[..] == nAttrs[..n];
    }
  }

  /** runDiscretization: Prepare, then discretization of the numerical
      attributes in ranked order, from the state initialize builds. A
      completed run leaves every attribute categorical: each numerical one
      with interval labels, each categorical one with its cells and domain
      as initialize found them. */
  method RunDiscretization(datasetG: array2<string>, attrInfo: seq<seq<string>>, percentage: real,
                           parse: string -> real, eta: (View, int, int) -> real,
                           caimU: (View, int, int, seq<real>) -> (real, real))
    returns (lfd: Discretizer, outcome: Outcome)
    requires datasetG.Length0 >= 1
    requires |attrInfo| >= 2 && |attrInfo[0]| >= datasetG.Length1 && |attrInfo[1]| >= datasetG.Length1
    modifies datasetG
    ensures lfd.Valid() && lfd.dataset == datasetG && lfd.noOfAttrs == datasetG.Length1 && lfd.NumAttrsInRange()
    ensures IsGreedy(eta, caimU, percentage, parse, lfd.Choice)
    ensures var table, info := old(Grid(datasetG)), attrInfo[0][..datasetG.Length1];
      && lfd.NumAttrs[..] == RankedByAvgEta(eta, InitialView(table, info))
      && (outcome.EmptyAttribute? ==>
            && outcome.position < lfd.noOfNumAttrs
            && var a := lfd.NumAttrs[outcome.position];
               0 <= a < |info| && info[a] == "1" && PresentValues(parse, CellColumn(table, a, "")) == [])
      && lfd.Current() == DiscretizeAllWith(parse, lfd.Choice, InitialView(table, info),
                                            lfd.NumAttrs[..DoneCount(outcome, lfd.noOfNumAttrs)])
      && (outcome.Completed? ==>
            forall a :: 0 <= a < |info| && info[a] == "1" ==> PresentValues(parse, CellColumn(table, a, "")) != [])
      && (outcome.Completed? ==> forall a :: 0 <= a < lfd.noOfAttrs ==> lfd.attrNType[a] == 0)
      && (outcome.Completed? ==>
            forall a :: 0 <= a < lfd.noOfAttrs && info[a] == "1" ==>
              DiscretizedIn(lfd.Current(), a, PresentValues(parse, CellColumn(table, a, ""))))
      && (forall a :: 0 <= a < lfd.noOfAttrs && info[a] != "1" ==>
            && lfd.attrNType[a] == 0 && lfd.Column(a) == CellColumn(table, a, "")
            && lfd.domainsize[a] == |lfd.KeptDomain(a)| && lfd.DomainRow(a, lfd.domainsize[a]) == lfd.KeptDomain(a))
  {
    ghost var table := Grid(datasetG);
    ghost var info := attrInfo[0][..datasetG.Length1];
    assert TableWidth(table, |info|);
    lfd := Prepare(datasetG, attrInfo, percentage, parse, eta, caimU);
    ghost var v0 := lfd.Current();
    assert v0 == InitialView(table, info);
    forall a | 0 <= a < |info|
      ensures ValuesOf(parse, v0, a) == PresentValues(parse, CellColumn(table, a, ""))
      ensures v0.types[a] == 1 <==> info[a] == "1"
    {
    }
    lfd.NumericalListed(info);
    ghost var nums := lfd.NumAttrs[..];
    outcome := lfd.DiscretizeRanked();
    ghost var k := DoneCount(outcome, lfd.noOfNumAttrs);
    lfd.RunState(table, info, nums, k, outcome.Completed?);
    if outcome.Completed? {
      forall a | 0 <= a < |info| && info[a] == "1"
        ensures PresentValues(parse, CellColumn(table, a, "")) != []
      {
        assert v0.types[a] == 1 && ValuesOf(parse, v0, a) != [];
      }
    }
  }

  /** runLFD: discretizes the table with 20% of the attributes in each
      correlation sample, then returns the text arrayToFile writes. A run
      writes nothing exactly when some numerical attribute has no present
      value; otherwise every attribute of what it writes is categorical. */
  method RunLfd(attrInfo: seq<seq<string>>, data: array2<string>, parse: string -> real,
                eta: (View, int, int) -> real, caimU: (View, int, int, seq<real>) -> (real, real))
    returns (lfd: Discretizer, output: Option<string>)
    requires data.Length0 >= 1
    requires |attrInfo| >= 2 && |attrInfo[0]| >= data.Length1 && |attrInfo[1]| >= data.Length1
    modifies data
    ensures lfd.Valid() && lfd.dataset == data && lfd.noOfAttrs == data.Length1 && lfd.NumAttrsInRange()
    ensures IsGreedy(eta, caimU, 0.2, parse, lfd.Choice)
    ensures output.Some? ==> output.value == FileText(Rows(data, data.Length0, data.Length1))
    ensures output.Some? ==> output.value == FileText(lfd.Current().table)
    ensures var table, info := old(Grid(data)), attrInfo[0][..data.Length1];
      && lfd.NumAttrs[..] == RankedByAvgEta(eta, InitialView(table, info))
      && (output.Some? ==>
            var w := lfd.Current();
            && w == DiscretizeAllWith(parse, lfd.Choice, InitialView(table, info), lfd.NumAttrs[..])
            && (forall a :: 0 <= a < |info| ==> w.types[a] == 0)
            && forall a :: 0 <= a < |info| && info[a] == "1" ==>
                 DiscretizedIn(w, a, PresentValues(parse, CellColumn(table, a, ""))))
    ensures output.None? <==>
              exists a :: 0 <= a < data.Length1 && attrInfo[0][a] == "1"
                && PresentValues(parse, old(ColumnOf(data, a))) == []
  {
    ghost var table := Grid(data);
    ghost var info := attrInfo[0][..data.Length1];
    forall a | 0 <= a < data.Length1
      ensures ColumnOf(data, a) == CellColumn(table, a, "") && info[a] == attrInfo[0][a]
    {
      GridColumn(data, a, "");
    }
    var outcome;
    lfd, outcome := RunDiscretization(data, attrInfo, 0.2, parse, eta, caimU);
    if outcome.EmptyAttribute? {
      ghost var a := lfd.NumAttrs[outcome.position];
      assert 0 <= a < data.Length1 && attrInfo[0][a] == "1" && PresentValues(parse, old(ColumnOf(data, a))) == [];
      return lfd, None;
    }
    assert lfd.NumAttrs[..DoneCount(outcome, lfd.noOfNumAttrs)] == lfd.NumAttrs[..];
    ghost var w := lfd.Current();
    assert forall a :: 0 <= a < |info| ==> w.types[a] == 0;
    label Discretized:
    var text := ArrayToFile(data, lfd.noOfRecords, lfd.noOfAttrs);
    lfd.SameState@Discretized();
    output := Some(text);
    RowsGrid(data);
  }
}
