/** Candidate cut-points of LFD.java: the initial candidates chosen by
    findInitialCutpoints (low-frequency values plus both extremes) and the
    candidates switched on by the 0/1 flag array of the greedy loop in
    discretization. Both are order-preserving selections of positions of a
    sorted array, described here by Selected and Pick. */
module Cutpoints {
  import opened SeqUtil

  /** The positions whose mark is set, in increasing order. */
  function Selected(marks: seq<bool>): (r: seq<nat>)
    ensures |r| <= |marks|
    ensures forall m :: 0 <= m < |r| ==> r[m] < |marks| && marks[r[m]]
  {
    if marks == [] then []
    else Selected(marks[..|marks| - 1]) + (if marks[|marks| - 1] then [|marks| - 1] else [])
  }

  ghost predicate Increasing(idx: seq<nat>)
  {
    forall m, m' :: 0 <= m < m' < |idx| ==> idx[m] < idx[m']
  }

  /** Selected lists every marked position, once, in increasing order. */
  lemma {:induction false} SelectedFacts(marks: seq<bool>)
    ensures Increasing(Selected(marks))
    ensures forall k :: 0 <= k < |marks| && marks[k] ==> k in Selected(marks)
    ensures |Selected(marks)| == Count(marks, true)
  {
    if marks != [] {
      SelectedFacts(marks[..|marks| - 1]);
    }
  }

  /** When the first and the last position are marked, the selection starts
      at the first position and ends at the last. */
  lemma SelectedEnds(marks: seq<bool>)
    requires |marks| >= 1 && marks[0] && marks[|marks| - 1]
    ensures |Selected(marks)| >= 1
    ensures Selected(marks)[0] == 0
    ensures Selected(marks)[|Selected(marks)| - 1] == |marks| - 1
    ensures |marks| >= 2 ==> |Selected(marks)| >= 2
  {
    var idx := Selected(marks);
    SelectedFacts(marks);
    assert 0 in idx;
    assert |marks| - 1 in idx;
    var m0 :| 0 <= m0 < |idx| && idx[m0] == 0;
    var m1 :| 0 <= m1 < |idx| && idx[m1] == |marks| - 1;
    if |marks| >= 2 {
      assert m0 != m1;
    }
  }

  lemma SelectedPrefix(marks: seq<bool>, i: nat)
    requires i < |marks|
    ensures Selected(marks[..i + 1]) == Selected(marks[..i]) + (if marks[i] then [i] else [])
  {
    assert marks[..i + 1][..i] == marks[..i];
  }

  /** The entries of d at the given positions, in the order given. */
  function Pick(d: seq<real>, idx: seq<nat>): (r: seq<real>)
    requires forall m :: 0 <= m < |idx| ==> idx[m] < |d|
    ensures |r| == |idx|
    ensures forall m :: 0 <= m < |idx| ==> r[m] == d[idx[m]]
  {
    seq(|idx|, m requires 0 <= m < |idx| => d[idx[m]])
  }

  /** Picking increasing positions of a strictly ascending sequence gives a
      strictly ascending sequence. */
  lemma PickAscending(d: seq<real>, idx: seq<nat>)
    requires forall m :: 0 <= m < |idx| ==> idx[m] < |d|
    requires StrictlyAscending(d) && Increasing(idx)
    ensures StrictlyAscending(Pick(d, idx))
  {
  }

  // ---------------------------------------------------------------------
  // Initial candidates (findInitialCutpoints)
  // ---------------------------------------------------------------------

  /** Position i of the n sorted distinct values is a candidate when its
      count is below lambda or it is the first or the last position. */
  function KeepMarks(fq: seq<int>, lambda: real): (marks: seq<bool>)
    ensures |marks| == |fq|
  {
    seq(|fq|, i requires 0 <= i < |fq| => (fq[i] as real) < lambda || i == 0 || i == |fq| - 1)
  }

  function InitialCutpoints(d: seq<real>, fq: seq<int>, lambda: real): seq<real>
    requires |d| == |fq|
  {
    Pick(d, Selected(KeepMarks(fq, lambda)))
  }

  /** The kept positions start with the first and end with the last; every
      position in between has a count below lambda. */
  lemma KeptPositions(fq: seq<int>, lambda: real)
    requires |fq| >= 1
    ensures var idx := Selected(KeepMarks(fq, lambda));
      && |idx| >= 1 && idx[0] == 0 && idx[|idx| - 1] == |fq| - 1
      && (|fq| >= 2 ==> |idx| >= 2)
      && Increasing(idx)
      && forall m :: 0 < m < |idx| - 1 ==> (fq[idx[m]] as real) < lambda
  {
    var marks := KeepMarks(fq, lambda);
    var idx := Selected(marks);
    SelectedEnds(marks);
    SelectedFacts(marks);
    forall m | 0 < m < |idx| - 1
      ensures (fq[idx[m]] as real) < lambda
    {
      assert idx[0] < idx[m] < idx[|idx| - 1];
      assert marks[idx[m]];
    }
  }

  /** The initial candidates of n >= 1 sorted distinct values: an
      order-preserving selection that holds the minimum and the maximum,
      whose inner elements all have a count below lambda, no longer than the
      input and strictly ascending when the input is. */
  lemma InitialCutpointsFacts(d: seq<real>, fq: seq<int>, lambda: real)
    requires |d| == |fq| >= 1
    ensures var c := InitialCutpoints(d, fq, lambda);
      && 1 <= |c| <= |d|
      && c[0] == d[0] && c[|c| - 1] == d[|d| - 1]
      && (|d| >= 2 ==> |c| >= 2)
      && (StrictlyAscending(d) ==> StrictlyAscending(c))
  {
    var idx := Selected(KeepMarks(fq, lambda));
    KeptPositions(fq, lambda);
    if StrictlyAscending(d) {
      PickAscending(d, idx);
    }
  }

  /** Writes x into slot k of a, just after the k entries written so far. */
  method Emit(a: array<real>, k: nat, x: real)
    requires k < a.Length
    modifies a
    ensures a[..k + 1] == old(a[..k]) + [x]
    ensures a[k + 1..] == old(a[k + 1..])
  {
    a[k] := x;
  }

  /** findInitialCutpoints: writes the candidates into ipoints[0..ticp) and
      returns ticp. */
  method FindInitialCutpoints(dl: array<real>, fq: array<int>, dsl: nat, ipoints: array<real>, lmbda: real)
    returns (ticp: nat)
    requires dsl <= dl.Length && dsl <= fq.Length && dsl <= ipoints.Length
    requires ipoints != dl
    modifies ipoints
    ensures ticp <= dsl
    ensures ipoints[..ticp] == InitialCutpoints(dl[..dsl], fq[..dsl], lmbda)
    ensures ipoints[ticp..] == old(ipoints[ticp..])
  {
    ghost var d := dl[..dsl];
    ghost var marks := KeepMarks(fq[..dsl], lmbda);
    ghost var sel: seq<nat> := [];
    ticp := 0;
    var i := 0;
    while i < dsl
      invariant 0 <= i <= dsl
      invariant sel == Selected(marks[..i])
      invariant ticp == |sel| <= i
      invariant ipoints[..ticp] == Pick(d, sel)
      invariant ipoints[ticp..] == old(ipoints[ticp..])
    {
      ScanStep(d, marks, i, sel);
      if (fq[i] as real) < lmbda || i == 0 || i == dsl - 1 {
        assert old(ipoints[ticp + 1..]) == old(ipoints[ticp..])[1..];
        Emit(ipoints, ticp, dl[i]);
        sel := sel + [i];
        ticp := ticp + 1;
      }
      i := i + 1;
    }
    assert marks[..dsl] == marks;
  }

  // ---------------------------------------------------------------------
  // Active candidates of the greedy loop
  // ---------------------------------------------------------------------

  /** Candidate k takes part when its flag is 1 or it is the tentatively
      added candidate t (t = -1: none). */
  function FlagMarks(flags: seq<int>, t: int): (marks: seq<bool>)
    ensures |marks| == |flags|
  {
    seq(|flags|, k requires 0 <= k < |flags| => flags[k] == 1 || k == t)
  }

  function ActiveCutpoints(icp: seq<real>, flags: seq<int>, t: int): seq<real>
    requires |icp| == |flags|
  {
    Pick(icp, Selected(FlagMarks(flags, t)))
  }

  /** The number of active candidates is the number of set flags, plus one
      for a tentatively added candidate whose flag is not set. */
  lemma {:induction false} FlagMarksCount(flags: seq<int>, t: int)
    ensures Count(FlagMarks(flags, t), true) ==
            Count(flags, 1) + (if 0 <= t < |flags| && flags[t] != 1 then 1 else 0)
  {
    if flags != [] {
      var n := |flags|;
      assert FlagMarks(flags, t)[..n - 1] == FlagMarks(flags[..n - 1], t);
      FlagMarksCount(flags[..n - 1], t);
    }
  }

  /** The active candidates, with the first and last flags set, are an
      ascending selection from the first candidate to the last. */
  lemma ActiveCutpointsFacts(icp: seq<real>, flags: seq<int>, t: int)
    requires |icp| == |flags| >= 1
    requires flags[0] == 1 && flags[|flags| - 1] == 1
    ensures var c := ActiveCutpoints(icp, flags, t);
      && |c| == Count(flags, 1) + (if 0 <= t < |flags| && flags[t] != 1 then 1 else 0)
      && |c| >= 1 && c[0] == icp[0] && c[|c| - 1] == icp[|icp| - 1]
      && (|icp| >= 2 ==> |c| >= 2)
      && (StrictlyAscending(icp) ==> StrictlyAscending(c))
  {
    var marks := FlagMarks(flags, t);
    SelectedEnds(marks);
    SelectedFacts(marks);
    FlagMarksCount(flags, t);
    if StrictlyAscending(icp) {
      PickAscending(icp, Selected(marks));
    }
  }

  lemma CountPrefix<T>(s: seq<T>, i: nat, x: T)
    requires i <= |s|
    ensures Count(s[..i], x) <= Count(s, x)
  {
    assert s == s[..i] + s[i..];
    CountAppend(s[..i], s[i..], x);
  }

  lemma SelectedLength(marks: seq<bool>)
    ensures |Selected(marks)| == Count(marks, true)
  {
    SelectedFacts(marks);
  }

  /** Selecting from a prefix of the marks gives a prefix of the
      selection. */
  lemma {:induction false} SelectedPrefixOf(marks: seq<bool>, k: nat)
    requires k <= |marks|
    ensures |Selected(marks[..k])| <= |Selected(marks)|
    ensures Selected(marks[..k]) == Selected(marks)[..|Selected(marks[..k])|]
    decreases |marks| - k
  {
    if k < |marks| {
      SelectedPrefixOf(marks, k + 1);
      SelectedPrefix(marks, k);
      assert marks[..k + 1][..k] == marks[..k];
    } else {
      assert marks[..k] == marks;
    }
  }

  lemma SelectedPrefixBound(marks: seq<bool>, k: nat)
    requires k <= |marks|
    ensures |Selected(marks[..k])| <= |Selected(marks)|
  {
    SelectedLength(marks[..k]);
    SelectedLength(marks);
    CountPrefix(marks, k, true);
  }

  lemma PickAppend(d: seq<real>, idx: seq<nat>, k: nat)
    requires k < |d| && forall m :: 0 <= m < |idx| ==> idx[m] < |d|
    ensures Pick(d, idx + [k]) == Pick(d, idx) + [d[k]]
  {
  }

  /** One step of a selecting scan, from the selection of the first k
      marks to that of the first k + 1. */
  lemma ScanStep(d: seq<real>, marks: seq<bool>, k: nat, sel: seq<nat>)
    requires |d| == |marks| && k < |marks| && sel == Selected(marks[..k])
    ensures Selected(marks[..k + 1]) == sel + (if marks[k] then [k] else [])
    ensures |Selected(marks[..k + 1])| <= |Selected(marks)|
    ensures marks[k] ==> Pick(d, sel + [k]) == Pick(d, sel) + [d[k]]
  {
    SelectedPrefix(marks, k);
    SelectedPrefixBound(marks, k + 1);
    if marks[k] {
      PickAppend(d, sel, k);
    }
  }

  /** The tentative cut-point set of the greedy loop: the active candidates
      plus candidate t, in candidate order (nc = fcp + 1 entries). */
  method TentativeCutpoints(icp: array<real>, ticp: nat, fcFlg: array<int>, t: nat, nc: nat)
    returns (tCP: array<real>)
    requires ticp <= icp.Length && fcFlg.Length == ticp && t < ticp && fcFlg[t] == 0
    requires nc == Count(fcFlg[..], 1) + 1
    ensures fresh(tCP) && tCP.Length == nc
    ensures tCP[..] == ActiveCutpoints(icp[..ticp], fcFlg[..], t)
  {
    ghost var d := icp[..ticp];
    ghost var marks := FlagMarks(fcFlg[..], t);
    FlagMarksCount(fcFlg[..], t);
    SelectedLength(marks);
    tCP := new real[nc];
    ghost var sel: seq<nat> := [];
    var y := 0;
    var k := 0;
    while k < ticp
      invariant 0 <= k <= ticp
      invariant sel == Selected(marks[..k])
      invariant y == |sel| <= nc
      invariant tCP[..y] == Pick(d, sel)
    {
      ScanStep(d, marks, k, sel);
      if fcFlg[k] == 1 || k == t {
        Emit(tCP, y, icp[k]);
        sel := sel + [k];
        y := y + 1;
      }
      k := k + 1;
    }
    assert marks[..ticp] == marks;
    assert tCP[..] == tCP[..y];
  }

  /** The final cut-points: the candidates whose flag is set, in candidate
      order, in a zero-initialised array of fcp entries. */
  method CollectCutpoints(icp: array<real>, ticp: nat, fcFlg: array<int>, fcp: nat)
    returns (fCutpoints: array<real>)
    requires ticp <= icp.Length && fcFlg.Length == ticp
    requires Count(fcFlg[..], 1) <= fcp
    ensures fresh(fCutpoints)
    ensures fCutpoints.Length == fcp
    ensures fCutpoints[..Count(fcFlg[..], 1)] == ActiveCutpoints(icp[..ticp], fcFlg[..], -1)
    ensures forall k :: Count(fcFlg[..], 1) <= k < fcp ==> fCutpoints[k] == 0.0
  {
    ghost var d := icp[..ticp];
    ghost var marks := FlagMarks(fcFlg[..], -1);
    FlagMarksCount(fcFlg[..], -1);
    SelectedLength(marks);
    fCutpoints := new real[fcp](_ => 0.0);
    ghost var sel: seq<nat> := [];
    var fc := 0;
    var t := 0;
    while t < ticp
      invariant 0 <= t <= ticp
      invariant sel == Selected(marks[..t])
      invariant fc == |sel| <= fcp
      invariant fCutpoints[..fc] == Pick(d, sel)
      invariant forall k :: fc <= k < fcp ==> fCutpoints[k] == 0.0
    {
      ScanStep(d, marks, t, sel);
      if fcFlg[t] == 1 {
        Emit(fCutpoints, fc, icp[t]);
        sel := sel + [t];
        fc := fc + 1;
      }
      t := t + 1;
    }
    assert marks[..ticp] == marks;
    assert fc == Count(fcFlg[..], 1);
  }
}
