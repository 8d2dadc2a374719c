/** The interval rule of discretizeX in LFD.java. With cut-points
    c0, c1, ..., c(n-1), interval 0 is the closed [c0, c1] and interval j > 0
    is the half-open (cj, c(j+1)]; a value is labelled with the decimal text
    of the first interval that holds it, or with the empty text when none
    does. */
module Binning {
  import opened SeqUtil

  predicate InBin(x: real, cps: seq<real>, j: nat)
    requires j + 1 < |cps|
  {
    if j == 0 then cps[0] <= x <= cps[1] else cps[j] < x <= cps[j + 1]
  }

  /** The first interval from j on that holds x. */
  function FirstBinFrom(x: real, cps: seq<real>, j: nat): (r: Option<nat>)
    ensures r.Some? ==> j <= r.value && r.value + 1 < |cps| && InBin(x, cps, r.value)
    ensures r.Some? ==> forall k :: j <= k < r.value ==> !InBin(x, cps, k)
    ensures r.None? ==> forall k :: j <= k && k + 1 < |cps| ==> !InBin(x, cps, k)
    decreases |cps| - j
  {
    if j + 1 >= |cps| then None
    else if InBin(x, cps, j) then Some(j)
    else FirstBinFrom(x, cps, j + 1)
  }

  function BinOf(x: real, cps: seq<real>): Option<nat>
  {
    FirstBinFrom(x, cps, 0)
  }

  // ---------------------------------------------------------------------
  // Decimal labels (the int-to-String conversion t + "")
  // ---------------------------------------------------------------------

  predicate IsDigit(c: char)
  {
    '0' <= c <= '9'
  }

  function DigitChar(d: nat): (c: char)
    requires d < 10
    ensures IsDigit(c)
  {
    ('0' as int + d) as char
  }

  function DigitValue(c: char): (d: nat)
    requires IsDigit(c)
    ensures d < 10
  {
    c as int - '0' as int
  }

  /** Decimal text of n, without leading zeros. */
  function NatToString(n: nat): (s: string)
    ensures |s| >= 1
    ensures forall i :: 0 <= i < |s| ==> IsDigit(s[i])
  {
    if n < 10 then [DigitChar(n)] else NatToString(n / 10) + [DigitChar(n % 10)]
  }

  /** Value of a text of decimal digits. */
  function ParseNat(s: string): nat
    requires forall i :: 0 <= i < |s| ==> IsDigit(s[i])
  {
    if s == [] then 0 else ParseNat(s[..|s| - 1]) * 10 + DigitValue(s[|s| - 1])
  }

  /** Reading back the decimal text of n gives n. */
  lemma {:induction false} ParseNatToString(n: nat)
    ensures ParseNat(NatToString(n)) == n
  {
    var s := NatToString(n);
    if n >= 10 {
      ParseNatToString(n / 10);
      assert s[..|s| - 1] == NatToString(n / 10);
    }
  }

  /** Distinct interval numbers get distinct labels. */
  lemma NatToStringInjective(m: nat, n: nat)
    ensures NatToString(m) == NatToString(n) ==> m == n
  {
    ParseNatToString(m);
    ParseNatToString(n);
  }

  /** The label discretizeX writes for a value x. */
  function Label(x: real, cps: seq<real>): (s: string)
    ensures s == "" <==> BinOf(x, cps).None?
  {
    match BinOf(x, cps)
    case Some(j) => NatToString(j)
    case None => ""
  }

  // ---------------------------------------------------------------------
  // Properties of the interval rule
  // ---------------------------------------------------------------------

  ghost predicate Ascending(cps: seq<real>)
  {
    forall i :: 0 <= i < |cps| - 1 ==> cps[i] <= cps[i + 1]
  }

  /** Under ascending cut-points, a value that misses intervals j..k-1 and
      is at least c(j) (or above it, for j > 0) lies above c(k). */
  lemma {:induction false} AboveMissedBins(x: real, cps: seq<real>, j: nat, k: nat)
    requires Ascending(cps) && j < k < |cps|
    requires if j == 0 then cps[0] <= x else cps[j] < x
    requires forall b :: j <= b < k ==> !InBin(x, cps, b)
    ensures cps[k] < x
    decreases k - j
  {
    assert !InBin(x, cps, j);
    if j + 1 < k {
      AboveMissedBins(x, cps, j + 1, k);
    }
  }

  /** Every value from the first cut-point to the last falls into an
      interval, so it receives a label 0 .. n-2. */
  lemma BinCoverage(x: real, cps: seq<real>)
    requires |cps| >= 2 && Ascending(cps)
    requires cps[0] <= x <= cps[|cps| - 1]
    ensures BinOf(x, cps).Some? && BinOf(x, cps).value <= |cps| - 2
  {
    if BinOf(x, cps).None? {
      AboveMissedBins(x, cps, 0, |cps| - 1);
    }
  }

  /** With strictly ascending cut-points the intervals are disjoint: an
      interval that holds x is the one BinOf finds. */
  lemma BinUnique(x: real, cps: seq<real>, k: nat)
    requires StrictlyAscending(cps)
    requires k + 1 < |cps| && InBin(x, cps, k)
    ensures BinOf(x, cps) == Some(k)
  {
  }

  /** A value outside [c0, c(n-1)] gets the empty label. */
  lemma BinOutside(x: real, cps: seq<real>)
    requires |cps| >= 2 && Ascending(cps)
    requires x < cps[0] || cps[|cps| - 1] < x
    ensures BinOf(x, cps).None?
  {
    if BinOf(x, cps).Some? {
      var j := BinOf(x, cps).value;
      AscendingBetween(cps, 0, j);
      AscendingBetween(cps, j + 1, |cps| - 1);
    }
  }

  lemma {:induction false} AscendingBetween(cps: seq<real>, i: nat, k: nat)
    requires Ascending(cps) && i <= k < |cps|
    ensures cps[i] <= cps[k]
    decreases k - i
  {
    if i < k {
      AscendingBetween(cps, i + 1, k);
    }
  }

  /** A single distinct value v leaves the cut-points [v, 0.0] (the second
      slot of a two-slot array that only one flag fills): v is labelled
      "0" when it is not positive and gets the empty label otherwise. */
  lemma SingleValueLabel(v: real)
    ensures Label(v, [v, 0.0]) == if v <= 0.0 then "0" else ""
  {
    assert InBin(v, [v, 0.0], 0) <==> v <= 0.0;
  }

  /** The interval search of discretizeX: scans j = 0 .. nc-2 and stops at
      the first interval that holds nCV. */
  method BinLabel(nCV: real, cutpoints: array<real>, nc: nat) returns (cat: string)
    requires nc <= cutpoints.Length
    ensures cat == Label(nCV, cutpoints[..nc])
  {
    ghost var cps := cutpoints[..nc];
    cat := "";
    var j := 0;
    while j + 1 < nc
      invariant 0 <= j && (nc >= 1 ==> j <= nc - 1)
      invariant FirstBinFrom(nCV, cps, j) == BinOf(nCV, cps)
    {
      if j == 0 {
        if nCV >= cutpoints[j] && nCV <= cutpoints[j + 1] {
          cat := NatToString(j);
          break;
        }
      } else {
        if nCV > cutpoints[j] && nCV <= cutpoints[j + 1] {
          cat := NatToString(j);
          break;
        }
      }
      j := j + 1;
    }
  }
}
