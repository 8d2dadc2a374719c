/** The string and list helpers of FileManager.java that do not touch the
    file system: file-name padding, record joining and tokenizing, the
    maximum number of decimal places per column, the missing-value test,
    the line filter on '?' and the cross-validation fold arithmetic. */
module FileManager {
  import opened SeqUtil

  // ---------------------------------------------------------------------
  // File-name padding (changedFileName)
  // ---------------------------------------------------------------------

  /** String.lastIndexOf for one character: -1 when c does not occur. */
  function LastIndexOf(s: string, c: char): (k: int)
    ensures -1 <= k < |s|
    ensures k >= 0 ==> s[k] == c
    ensures forall i :: k < i < |s| ==> s[i] != c
  {
    if s == [] then -1
    else if s[|s| - 1] == c then |s| - 1
    else LastIndexOf(s[..|s| - 1], c)
  }

  lemma LastIndexOfAt(s: string, c: char, k: nat)
    requires k < |s| && s[k] == c
    requires forall i :: k < i < |s| ==> s[i] != c
    ensures LastIndexOf(s, c) == k
  {
  }

  /** The name before its last dot, and the extension after it. */
  function Stem(s: string): string
    requires '.' in s
  {
    s[..LastIndexOf(s, '.')]
  }

  function Extension(s: string): string
    requires '.' in s
  {
    s[LastIndexOf(s, '.') + 1..]
  }

  /** Inserts padding in front of the last dot of a file name. A name without
      a dot makes the source call substring(0, -1), which throws; that is
      None here. */
  function ChangedFileName(filename: string, padding: string): (r: Option<string>)
    ensures r.None? <==> '.' !in filename
    ensures r.Some? ==> |r.value| == |filename| + |padding|
  {
    var dot := LastIndexOf(filename, '.');
    if dot < 0 then None
    else Some(filename[..dot] + padding + "." + filename[dot + 1..])
  }

  /** The padded name keeps the extension and grows the stem by exactly
      the padding. */
  lemma ChangedFileNameParts(filename: string, padding: string)
    requires '.' in filename
    ensures ChangedFileName(filename, padding).Some?
    ensures '.' in ChangedFileName(filename, padding).value
    ensures Stem(ChangedFileName(filename, padding).value) == Stem(filename) + padding
    ensures Extension(ChangedFileName(filename, padding).value) == Extension(filename)
  {
    var dot := LastIndexOf(filename, '.');
    var stem, ext := filename[..dot], filename[dot + 1..];
    var r := ChangedFileName(filename, padding).value;
    assert r == (stem + padding) + "." + ext;
    var k := |stem + padding|;
    assert r[k] == '.';
    forall i | k < i < |r| ensures r[i] != '.' {
      assert r[i] == filename[dot + 1 + (i - k - 1)];
    }
    LastIndexOfAt(r, '.', k);
    assert r[..k] == stem + padding;
    assert r[k + 1..] == ext;
  }

  /** Padding with the empty string gives the name back. */
  lemma ChangedFileNameEmptyPadding(filename: string)
    requires '.' in filename
    ensures ChangedFileName(filename, "") == Some(filename)
  {
    var dot := LastIndexOf(filename, '.');
    assert filename[..dot] + "" + "." + filename[dot + 1..] == filename[..dot] + filename[dot..];
    assert filename[..dot] + filename[dot..] == filename;
  }

  // ---------------------------------------------------------------------
  // Joining a record (ArrayStr) and tokenizing a line (StrArray)
  // ---------------------------------------------------------------------

  /** Every cell followed by ", ", in order: the text ArrayStr builds. */
  function Joined(cells: seq<string>): string
  {
    if cells == [] then "" else Joined(cells[..|cells| - 1]) + cells[|cells| - 1] + ", "
  }

  function TotalLength(cells: seq<string>): nat
  {
    if cells == [] then 0 else TotalLength(cells[..|cells| - 1]) + |cells[|cells| - 1]|
  }

  method ArrayStr(ary: seq<string>) returns (rec: string)
    ensures rec == Joined(ary)
  {
    rec := "";
    var k := 0;
    while k < |ary|
      invariant 0 <= k <= |ary|
      invariant rec == Joined(ary[..k])
    {
      assert ary[..k + 1][..k] == ary[..k];
      rec := rec + ary[k] + ", ";
      k := k + 1;
    }
    assert ary[..|ary|] == ary;
  }

  /** The joined text is as long as all cells together plus two characters
      of separator per cell. */
  lemma {:induction false} JoinedLength(cells: seq<string>)
    ensures |Joined(cells)| == TotalLength(cells) + 2 * |cells|
  {
    if cells != [] {
      JoinedLength(cells[..|cells| - 1]);
    }
  }

  lemma {:induction false} JoinedCons(cells: seq<string>)
    requires cells != []
    ensures Joined(cells) == cells[0] + ", " + Joined(cells[1..])
    decreases |cells|
  {
    var tail := cells[1..];
    if |cells| == 1 {
      assert tail == [];
      assert cells[..0] == [];
    } else {
      var init, last := cells[..|cells| - 1], cells[|cells| - 1];
      JoinedCons(init);
      assert tail[..|tail| - 1] == init[1..];
      assert tail[|tail| - 1] == last;
      assert Joined(tail) == Joined(init[1..]) + last + ", ";
      calc {
        Joined(cells);
        Joined(init) + last + ", ";
        init[0] + ", " + Joined(init[1..]) + last + ", ";
        cells[0] + ", " + Joined(tail);
      }
    }
  }

  /** The delimiters StrArray hands to StringTokenizer: " ,\t\n\r\f". */
  predicate IsDelimiter(c: char)
  {
    c == ' ' || c == ',' || c == '\t' || c == '\n' || c == '\r' || c == '\U{000C}'
  }

  /** Left-to-right tokenizer state: the input still to read, the token being
      built and the tokens finished so far. */
  function Tokenize(s: string, cur: string, acc: seq<string>): seq<string>
    decreases |s|
  {
    if s == [] then (if cur == "" then acc else acc + [cur])
    else if IsDelimiter(s[0]) then Tokenize(s[1..], "", if cur == "" then acc else acc + [cur])
    else Tokenize(s[1..], cur + [s[0]], acc)
  }

  /** The maximal non-empty runs of non-delimiters of s, in order. */
  function Tokens(s: string): seq<string>
  {
    Tokenize(s, "", [])
  }

  method StrArray(str: string) returns (rec: seq<string>)
    ensures rec == Tokens(str)
  {
    var cur := "";
    rec := [];
    var i := 0;
    assert str[0..] == str;
    while i < |str|
      invariant 0 <= i <= |str|
      invariant Tokenize(str[i..], cur, rec) == Tokens(str)
    {
      assert str[i..][1..] == str[i + 1..];
      if IsDelimiter(str[i]) {
        if cur != "" {
          rec := rec + [cur];
        }
        cur := "";
      } else {
        cur := cur + [str[i]];
      }
      i := i + 1;
    }
    if cur != "" {
      rec := rec + [cur];
    }
  }

  ghost predicate DelimiterFree(t: string)
  {
    forall i :: 0 <= i < |t| ==> !IsDelimiter(t[i])
  }

  ghost predicate WellFormedToken(t: string)
  {
    t != "" && DelimiterFree(t)
  }

  lemma {:induction false} TokenizeWellFormed(s: string, cur: string, acc: seq<string>)
    requires forall t :: t in acc ==> WellFormedToken(t)
    requires DelimiterFree(cur)
    ensures forall t :: t in Tokenize(s, cur, acc) ==> WellFormedToken(t)
    decreases |s|
  {
    if s != [] {
      if IsDelimiter(s[0]) {
        TokenizeWellFormed(s[1..], "", if cur == "" then acc else acc + [cur]);
      } else {
        TokenizeWellFormed(s[1..], cur + [s[0]], acc);
      }
    }
  }

  /** No token is empty and none contains a delimiter. */
  lemma TokensWellFormed(s: string)
    ensures forall t :: t in Tokens(s) ==> WellFormedToken(t)
  {
    TokenizeWellFormed(s, "", []);
  }

  function Concat(ts: seq<string>): string
  {
    if ts == [] then "" else Concat(ts[..|ts| - 1]) + ts[|ts| - 1]
  }

  function WithoutDelimiters(s: string): string
  {
    if s == [] then "" else (if IsDelimiter(s[0]) then "" else [s[0]]) + WithoutDelimiters(s[1..])
  }

  lemma {:induction false} TokenizeConcat(s: string, cur: string, acc: seq<string>)
    ensures Concat(Tokenize(s, cur, acc)) == Concat(acc) + cur + WithoutDelimiters(s)
    decreases |s|
  {
    if s == [] {
      if cur != "" {
        assert (acc + [cur])[..|acc + [cur]| - 1] == acc;
      }
    } else if IsDelimiter(s[0]) {
      var acc' := if cur == "" then acc else acc + [cur];
      TokenizeConcat(s[1..], "", acc');
      if cur != "" {
        assert (acc + [cur])[..|acc + [cur]| - 1] == acc;
      }
    } else {
      TokenizeConcat(s[1..], cur + [s[0]], acc);
      assert (cur + [s[0]]) + WithoutDelimiters(s[1..]) == cur + ([s[0]] + WithoutDelimiters(s[1..]));
    }
  }

  /** Tokenizing keeps every non-delimiter character, in order. */
  lemma TokensConcat(s: string)
    ensures Concat(Tokens(s)) == WithoutDelimiters(s)
  {
    TokenizeConcat(s, "", []);
  }

  lemma {:induction false} TokenizeWord(w: string, t: string, cur: string, acc: seq<string>)
    requires DelimiterFree(w)
    ensures Tokenize(w + t, cur, acc) == Tokenize(t, cur + w, acc)
    decreases |w|
  {
    if w == [] {
      assert w + t == t;
      assert cur + w == cur;
    } else {
      assert (w + t)[0] == w[0];
      assert (w + t)[1..] == w[1..] + t;
      TokenizeWord(w[1..], t, cur + [w[0]], acc);
      assert cur + [w[0]] + w[1..] == cur + w;
    }
  }

  lemma {:induction false} TokenizeJoined(cells: seq<string>, acc: seq<string>)
    requires forall c :: c in cells ==> WellFormedToken(c)
    ensures Tokenize(Joined(cells), "", acc) == acc + cells
    decreases |cells|
  {
    if cells == [] {
      assert acc + cells == acc;
    } else {
      var rest := Joined(cells[1..]);
      JoinedCons(cells);
      assert cells[0] in cells;
      assert Joined(cells) == cells[0] + (", " + rest);
      TokenizeWord(cells[0], ", " + rest, "", acc);
      assert "" + cells[0] == cells[0];
      assert (", " + rest)[1..] == " " + rest;
      assert (" " + rest)[1..] == rest;
      TokenizeJoined(cells[1..], acc + [cells[0]]);
      assert acc + [cells[0]] + cells[1..] == acc + cells;
    }
  }

  /** Tokenizing what ArrayStr joined gives the cells back, provided no cell
      is empty or holds a delimiter. */
  lemma TokensOfJoined(cells: seq<string>)
    requires forall c :: c in cells ==> WellFormedToken(c)
    ensures Tokens(Joined(cells)) == cells
  {
    TokenizeJoined(cells, []);
  }

  // ---------------------------------------------------------------------
  // Maximum decimal places per column (attrMaxDecimalPlaces)
  // ---------------------------------------------------------------------

  /** Length of the text after the last dot of a cell. */
  function DecimalPlaces(s: string): nat
    requires '.' in s
  {
    |s| - LastIndexOf(s, '.') - 1
  }

  /** For a numerical column (flag 1) the largest number of characters after
      the last dot over all rows, or 0 when no cell has a dot; 0 for every
      other column. Only numerical columns are read, so only they must exist
      in every row. */
  method AttrMaxDecimalPlaces(attrF: seq<int>, dataF: seq<seq<string>>) returns (fStr: seq<nat>)
    requires forall r, c :: 0 <= r < |dataF| && 0 <= c < |attrF| && attrF[c] == 1 ==> c < |dataF[r]|
    ensures |fStr| == |attrF|
    ensures forall c :: 0 <= c < |attrF| && attrF[c] != 1 ==> fStr[c] == 0
    ensures forall c, r :: 0 <= c < |attrF| && attrF[c] == 1 && 0 <= r < |dataF| && '.' in dataF[r][c] ==>
              DecimalPlaces(dataF[r][c]) <= fStr[c]
    ensures forall c :: 0 <= c < |attrF| && attrF[c] == 1 && fStr[c] != 0 ==>
              exists r :: 0 <= r < |dataF| && '.' in dataF[r][c] && fStr[c] == DecimalPlaces(dataF[r][c])
  {
    fStr := [];
    var c := 0;
    while c < |attrF|
      invariant 0 <= c <= |attrF|
      invariant |fStr| == c
      invariant forall c' :: 0 <= c' < c && attrF[c'] != 1 ==> fStr[c'] == 0
      invariant forall c', r :: 0 <= c' < c && attrF[c'] == 1 && 0 <= r < |dataF| && '.' in dataF[r][c'] ==>
                  DecimalPlaces(dataF[r][c']) <= fStr[c']
      invariant forall c' :: 0 <= c' < c && attrF[c'] == 1 && fStr[c'] != 0 ==>
                  exists r :: 0 <= r < |dataF| && '.' in dataF[r][c'] && fStr[c'] == DecimalPlaces(dataF[r][c'])
    {
      var md: nat := 0;
      if attrF[c] == 1 {
        var r := 0;
        while r < |dataF|
          invariant 0 <= r <= |dataF|
          invariant forall r' :: 0 <= r' < r && '.' in dataF[r'][c] ==> DecimalPlaces(dataF[r'][c]) <= md
          invariant md != 0 ==> exists r' :: 0 <= r' < r && '.' in dataF[r'][c] && md == DecimalPlaces(dataF[r'][c])
        {
          var s := dataF[r][c];
          var indexOfDot := LastIndexOf(s, '.');
          if indexOfDot > -1 {
            var l := |s| - (indexOfDot + 1);
            if l > md {
              md := l;
            }
          }
          r := r + 1;
        }
      }
      fStr := fStr + [md];
      c := c + 1;
    }
  }

  // ---------------------------------------------------------------------
  // Missing-value test of FileManager (isMissing)
  // ---------------------------------------------------------------------

  /** The replacement character U+FFFD read through the wrong encoding: the
      three characters U+00EF U+00BF U+00BD ("ï¿½"). */
  const MojibakePlaceholder: string := "\U{00EF}\U{00BF}\U{00BD}"

  const MissingMarkers: set<string> := {"", "?", MojibakePlaceholder, "NaN", "  NaN"}

  /** 1 for a missing cell, 0 otherwise; exact comparison, no trimming. */
  function IsMissing(oStr: string): (ret: int)
    ensures ret == 0 || ret == 1
    ensures ret == 1 <==> oStr in MissingMarkers
  {
    if oStr == "" || oStr == "?" || oStr == MojibakePlaceholder || oStr == "NaN" || oStr == "  NaN" then 1 else 0
  }

  // ---------------------------------------------------------------------
  // The '?' line filter (divideDataset, removeMissingValuesFromFile)
  // ---------------------------------------------------------------------

  /** The lines that contain a '?' (marked) or do not (not marked), in
      input order. */
  function LinesMarked(lines: seq<string>, marked: bool): seq<string>
  {
    if lines == [] then []
    else
      var last := lines[|lines| - 1];
      LinesMarked(lines[..|lines| - 1], marked) + (if ('?' in last) == marked then [last] else [])
  }

  /** Splits the lines into those without and those with a '?'. */
  method DivideDataset(lines: seq<string>) returns (noMissing: seq<string>, withMissing: seq<string>)
    ensures noMissing == LinesMarked(lines, false)
    ensures withMissing == LinesMarked(lines, true)
  {
    noMissing, withMissing := [], [];
    var i := 0;
    while i < |lines|
      invariant 0 <= i <= |lines|
      invariant noMissing == LinesMarked(lines[..i], false)
      invariant withMissing == LinesMarked(lines[..i], true)
    {
      assert lines[..i + 1][..i] == lines[..i];
      var currLine := lines[i];
      if '?' !in currLine {
        noMissing := noMissing + [currLine];
      } else {
        withMissing := withMissing + [currLine];
      }
      i := i + 1;
    }
    assert lines[..|lines|] == lines;
  }

  /** Keeps only the lines without a '?'. */
  method RemoveMissingValuesFromFile(lines: seq<string>) returns (kept: seq<string>)
    ensures kept == LinesMarked(lines, false)
  {
    kept := [];
    var i := 0;
    while i < |lines|
      invariant 0 <= i <= |lines|
      invariant kept == LinesMarked(lines[..i], false)
    {
      assert lines[..i + 1][..i] == lines[..i];
      if '?' !in lines[i] {
        kept := kept + [lines[i]];
      }
      i := i + 1;
    }
    assert lines[..|lines|] == lines;
  }

  /** Each list holds only lines of its kind: no '?' in the first, a '?'
      in every line of the second. */
  lemma LinesMarkedSides(lines: seq<string>)
    ensures forall l :: l in LinesMarked(lines, false) ==> '?' !in l
    ensures forall l :: l in LinesMarked(lines, true) ==> '?' in l
  {
    forall marked: bool, l | l in LinesMarked(lines, marked)
      ensures ('?' in l) == marked
    {
      LinesMarkedFrom(lines, marked, l);
    }
  }

  lemma {:induction false} LinesMarkedFrom(lines: seq<string>, marked: bool, l: string)
    requires l in LinesMarked(lines, marked)
    ensures l in lines && ('?' in l) == marked
  {
    var init, last := lines[..|lines| - 1], lines[|lines| - 1];
    if l in LinesMarked(init, marked) {
      LinesMarkedFrom(init, marked, l);
    }
  }

  /** The two lists partition the input: every line lands in exactly one,
      so together they hold each line as often as the input does. */
  lemma {:induction false} LinesMarkedPartition(lines: seq<string>)
    ensures |LinesMarked(lines, false)| + |LinesMarked(lines, true)| == |lines|
    ensures multiset(LinesMarked(lines, false)) + multiset(LinesMarked(lines, true)) == multiset(lines)
  {
    if lines != [] {
      var init, last := lines[..|lines| - 1], lines[|lines| - 1];
      LinesMarkedPartition(init);
      assert lines == init + [last];
      if '?' in last {
        assert LinesMarked(lines, false) == LinesMarked(init, false);
        assert LinesMarked(lines, true) == LinesMarked(init, true) + [last];
      } else {
        assert LinesMarked(lines, false) == LinesMarked(init, false) + [last];
        assert LinesMarked(lines, true) == LinesMarked(init, true);
      }
    }
  }

  /** Filtering commutes with concatenation, so each list keeps input order. */
  lemma {:induction false} LinesMarkedAppend(a: seq<string>, b: seq<string>, marked: bool)
    ensures LinesMarked(a + b, marked) == LinesMarked(a, marked) + LinesMarked(b, marked)
    decreases |b|
  {
    if b == [] {
      assert a + b == a;
    } else {
      assert (a + b)[..|a + b| - 1] == a + b[..|b| - 1];
      LinesMarkedAppend(a, b[..|b| - 1], marked);
    }
  }

  // ---------------------------------------------------------------------
  // Cross-validation folds (generateCrossFoldValidationFiles)
  // ---------------------------------------------------------------------

  datatype Fold = Fold(training: seq<string>, testing: seq<string>)

  /** foldNum = totalRecords / num, with Java's division toward zero. */
  function FoldLength(total: nat, num: int): int
    requires num != 0
  {
    if num > 0 then total / num else -(total / -num)
  }

  /** Size of the test block of fold i: foldNum, except the last fold,
      which also takes the remainder. */
  function TestSize(total: nat, num: int, i: nat): int
    requires num != 0
  {
    var foldNum := FoldLength(total, num);
    if i != num - 1 then foldNum else foldNum + (total - foldNum * num)
  }

  function TestStart(total: nat, num: int, i: nat): int
    requires num != 0
  {
    i * FoldLength(total, num)
  }

  function TestEnd(total: nat, num: int, i: nat): int
    requires num != 0
  {
    TestStart(total, num, i) + TestSize(total, num, i)
  }

  lemma MulMonotone(a: int, b: int, c: nat)
    requires a <= b
    ensures a * c <= b * c
  {
  }

  /** Every test block lies inside the records, and the blocks follow one
      another without gap or overlap, the last one ending at the last record. */
  lemma FoldBlocks(total: nat, num: int, i: nat)
    requires num > 0 && i < num
    ensures 0 <= TestStart(total, num, i) <= TestEnd(total, num, i) <= total
    ensures i + 1 < num ==> TestEnd(total, num, i) == TestStart(total, num, i + 1)
    ensures i + 1 == num ==> TestEnd(total, num, i) == total
  {
    var f := total / num;
    assert FoldLength(total, num) == f;
    assert total == f * num + total % num;
    assert 0 <= f;
    MulMonotone(0, i, f);
    assert (i + 1) * f == i * f + f;
    if i + 1 < num {
      MulMonotone(i + 1, num, f);
      assert TestEnd(total, num, i) == (i + 1) * f;
    } else {
      assert i * f + f + (total - f * num) == total;
    }
  }

  function ConcatTesting(folds: seq<Fold>): seq<string>
  {
    if folds == [] then [] else ConcatTesting(folds[..|folds| - 1]) + folds[|folds| - 1].testing
  }

  lemma SliceExtend<T>(s: seq<T>, a: int, b: int)
    requires 0 <= a <= b < |s|
    ensures s[a..b + 1] == s[a..b] + [s[b]]
  {
  }

  lemma SliceThree<T>(s: seq<T>, lo: int, hi: int)
    requires 0 <= lo <= hi <= |s|
    ensures multiset(s[..lo] + s[hi..]) + multiset(s[lo..hi]) == multiset(s)
  {
    assert s == s[..lo] + s[lo..hi] + s[hi..];
  }

  lemma SliceJoin<T>(s: seq<T>, lo: int, hi: int)
    requires 0 <= lo <= hi <= |s|
    ensures s[..lo] + s[lo..hi] == s[..hi]
  {
  }

  lemma ConcatTestingSnoc(folds: seq<Fold>, fold: Fold)
    ensures ConcatTesting(folds + [fold]) == ConcatTesting(folds) + fold.testing
  {
    assert (folds + [fold])[..|folds|] == folds;
  }

  lemma TestStartStep(total: nat, num: int, i: nat)
    requires num != 0
    ensures TestStart(total, num, i + 1) == TestStart(total, num, i) + FoldLength(total, num)
  {
    var f := FoldLength(total, num);
    assert (i + 1) * f == i * f + f;
  }

  /** One fold: the records in [lo, hi) are for testing, all others for
      training, each list in record order. */
  method SplitFold(records: seq<string>, lo: int, hi: int) returns (training: seq<string>, testing: seq<string>)
    requires 0 <= lo <= hi <= |records|
    ensures testing == records[lo..hi]
    ensures training == records[..lo] + records[hi..]
    ensures multiset(training) + multiset(testing) == multiset(records)
  {
    training, testing := [], [];
    var j := 0;
    while j < |records|
      invariant 0 <= j <= |records|
      invariant j <= lo ==> testing == [] && training == records[..j]
      invariant lo <= j <= hi ==> testing == records[lo..j] && training == records[..lo]
      invariant hi <= j ==> testing == records[lo..hi] && training == records[..lo] + records[hi..j]
    {
      if j >= lo && j < hi {
        SliceExtend(records, lo, j);
        testing := testing + [records[j]];
      } else if j < lo {
        SliceExtend(records, 0, j);
        training := training + [records[j]];
      } else {
        SliceExtend(records, hi, j);
        training := training + [records[j]];
      }
      j := j + 1;
    }
    assert records[hi..|records|] == records[hi..];
    SliceThree(records, lo, hi);
  }

  /** Fold i tests on the contiguous block [i*foldNum, i*foldNum + size_i)
      and trains on the records before and after it; together the two lists
      hold every record once. */
  ghost predicate IsFold(records: seq<string>, num: int, i: nat, fold: Fold)
    requires num != 0
  {
    var lo, hi := TestStart(|records|, num, i), TestEnd(|records|, num, i);
    0 <= lo <= hi <= |records| &&
    fold.testing == records[lo..hi] &&
    fold.training == records[..lo] + records[hi..] &&
    multiset(fold.training) + multiset(fold.testing) == multiset(records)
  }

  /** Fold i, given its start position and test-block size as the source
      computes them. */
  method MakeFold(records: seq<string>, num: int, i: nat, start: int, size: int) returns (fold: Fold)
    requires 0 <= i < num
    requires start == TestStart(|records|, num, i)
    requires size == TestSize(|records|, num, i)
    ensures IsFold(records, num, i, fold)
    ensures fold.testing == records[start..start + size]
  {
    FoldBlocks(|records|, num, i);
    var training, testing := SplitFold(records, start, start + size);
    fold := Fold(training, testing);
  }

  /** The num training/testing pairs of cross-validation over records in
      their given order (no folds when num is negative). */
  method GenerateCrossFoldValidation(records: seq<string>, num: int) returns (folds: seq<Fold>)
    requires num != 0
    ensures |folds| == if num > 0 then num else 0
    ensures forall i :: 0 <= i < |folds| ==> IsFold(records, num, i, folds[i])
  {
    var totalRecords := |records|;
    var foldNum := FoldLength(totalRecords, num);
    var lastFoldNum := foldNum + (totalRecords - foldNum * num);
    var currStartPos := 0;
    folds := [];
    var i := 0;
    while i < num
      invariant 0 <= i && (num > 0 ==> i <= num)
      invariant num < 0 ==> i == 0
      invariant |folds| == i
      invariant currStartPos == TestStart(totalRecords, num, i)
      invariant forall k :: 0 <= k < i ==> IsFold(records, num, k, folds[k])
    {
      var size := if i != num - 1 then foldNum else lastFoldNum;
      var fold := MakeFold(records, num, i, currStartPos, size);
      folds := folds + [fold];
      TestStartStep(totalRecords, num, i);
      currStartPos := currStartPos + foldNum;
      i := i + 1;
    }
  }

  /** The test blocks of the first k folds, in fold order, are the records
      before the end of block k - 1. */
  lemma {:induction false} FoldsTilePrefix(records: seq<string>, num: int, folds: seq<Fold>, k: nat)
    requires num > 0 && |folds| == num && 0 < k <= num
    requires forall i :: 0 <= i < k ==>
               && 0 <= TestStart(|records|, num, i) <= TestEnd(|records|, num, i) <= |records|
               && folds[i].testing == records[TestStart(|records|, num, i)..TestEnd(|records|, num, i)]
    ensures 0 <= TestEnd(|records|, num, k - 1) <= |records|
    ensures ConcatTesting(folds[..k]) == records[..TestEnd(|records|, num, k - 1)]
  {
    var total := |records|;
    var lo, hi := TestStart(total, num, k - 1), TestEnd(total, num, k - 1);
    FoldBlocks(total, num, k - 1);
    assert folds[k - 1].testing == records[lo..hi];
    assert folds[..k] == folds[..k - 1] + [folds[k - 1]];
    ConcatTestingSnoc(folds[..k - 1], folds[k - 1]);
    if k == 1 {
      assert folds[..0] == [];
      assert lo == 0;
      assert ConcatTesting(folds[..k - 1]) == records[..lo];
    } else {
      FoldsTilePrefix(records, num, folds, k - 1);
      FoldBlocks(total, num, k - 2);
      assert ConcatTesting(folds[..k - 1]) == records[..lo];
    }
    SliceJoin(records, lo, hi);
  }

  /** Each fold tests on its own block of the records. */
  lemma FoldsTesting(records: seq<string>, num: int, folds: seq<Fold>)
    requires num > 0 && |folds| == num
    requires forall i :: 0 <= i < |folds| ==> IsFold(records, num, i, folds[i])
    ensures forall i :: 0 <= i < num ==>
              && 0 <= TestStart(|records|, num, i) <= TestEnd(|records|, num, i) <= |records|
              && folds[i].testing == records[TestStart(|records|, num, i)..TestEnd(|records|, num, i)]
  {
    forall i | 0 <= i < num
      ensures 0 <= TestStart(|records|, num, i) <= TestEnd(|records|, num, i) <= |records|
      ensures folds[i].testing == records[TestStart(|records|, num, i)..TestEnd(|records|, num, i)]
    {
      assert IsFold(records, num, i, folds[i]);
    }
  }

  /** Every record lies in the test block of exactly one fold: the test blocks of all
      folds, in fold order, are the records. */
  lemma FoldsTile(records: seq<string>, num: int, folds: seq<Fold>)
    requires num > 0 && |folds| == num
    requires forall i :: 0 <= i < |folds| ==> IsFold(records, num, i, folds[i])
    ensures ConcatTesting(folds) == records
  {
    FoldsTesting(records, num, folds);
    FoldsTilePrefix(records, num, folds, num);
    FoldBlocks(|records|, num, num - 1);
    assert folds[..num] == folds;
    assert records[..|records|] == records;
  }
}
