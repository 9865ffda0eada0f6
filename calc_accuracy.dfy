/**
 * The accuracy scorer: every line of the ground truth and of the output log
 * holds a bracketed list of key names; each is read back into a set of
 * tokens, and per-line set intersections and differences are summed into
 * the correct, false-positive, false-negative and total-truth counters.
 * The two files are given as their lists of lines.
 */
module Accuracy {
  import opened Options
  import opened Notes

  // ---------------------------------------------------------------------
  // Python string operations
  // ---------------------------------------------------------------------

  /** `s.find(c)` for one character: its first index, or -1 when absent. */
  function Find(s: string, c: char): (r: int)
    ensures r == -1 <==> c !in s
    ensures r != -1 ==> 0 <= r < |s| && s[r] == c && c !in s[..r]
    decreases |s|
  {
    if |s| == 0 then -1
    else if s[0] == c then 0
    else
      var r := Find(s[1..], c);
      if r == -1 then -1
      else
        assert s[..r + 1] == [s[0]] + s[1..][..r];
        r + 1
  }

  /** A slice bound after negative indices are counted from the end. */
  function Bound(i: int, n: nat): (b: nat)
    ensures b <= n
  {
    var j := if i < 0 then i + n else i;
    if j < 0 then 0 else if j > n then n else j
  }

  /** `s[i:j]`: the bounds count from the end when negative and are clamped; crossed bounds give "". */
  function Slice(s: string, i: int, j: int): (r: string)
    ensures Bound(i, |s|) <= Bound(j, |s|) ==> r == s[Bound(i, |s|)..Bound(j, |s|)]
    ensures Bound(i, |s|) > Bound(j, |s|) ==> r == ""
  {
    var a, b := Bound(i, |s|), Bound(j, |s|);
    if a <= b then s[a..b] else ""
  }

  /**
   * `s.split(sep)` for a non-empty separator: the pieces between the
   * occurrences of sep, found left to right without overlap.
   */
  function Split(s: string, sep: string): (r: seq<string>)
    requires |sep| > 0
    ensures |r| >= 1
    decreases |s|
  {
    if |s| == 0 then [""]
    else if StartsWith(s, sep) then [""] + Split(s[|sep|..], sep)
    else
      var rest := Split(s[1..], sep);
      [[s[0]] + rest[0]] + rest[1..]
  }

  /** `sep.join(ts)`. */
  function Join(ts: seq<string>, sep: string): (r: string)
    decreases |ts|
  {
    if |ts| == 0 then "" else if |ts| == 1 then ts[0] else ts[0] + sep + Join(ts[1..], sep)
  }

  /** Prepending a character to the first piece prepends it to the join. */
  lemma JoinPrepend(c: char, ts: seq<string>, sep: string)
    requires |ts| >= 1
    ensures Join([[c] + ts[0]] + ts[1..], sep) == [c] + Join(ts, sep)
  {
    var r := [[c] + ts[0]] + ts[1..];
    assert r[0] == [c] + ts[0] && r[1..] == ts[1..];
    if |ts| > 1 {
      assert ([c] + ts[0]) + sep + Join(ts[1..], sep) == [c] + (ts[0] + sep + Join(ts[1..], sep));
    }
  }

  /** An empty first piece contributes only the separator to the join. */
  lemma JoinEmptyFirst(ts: seq<string>, sep: string)
    requires |ts| >= 1
    ensures Join([""] + ts, sep) == sep + Join(ts, sep)
  {
    var r := [""] + ts;
    assert r[0] == "" && r[1..] == ts;
  }

  /** Joining the pieces of s with the separator gives s back. */
  lemma {:induction false} JoinSplit(s: string, sep: string)
    requires |sep| > 0
    ensures Join(Split(s, sep), sep) == s
    decreases |s|
  {
    if |s| == 0 {
    } else if StartsWith(s, sep) {
      JoinSplit(s[|sep|..], sep);
      JoinEmptyFirst(Split(s[|sep|..], sep), sep);
      assert s == sep + s[|sep|..];
    } else {
      JoinSplit(s[1..], sep);
      JoinPrepend(s[0], Split(s[1..], sep), sep);
      assert s == [s[0]] + s[1..];
    }
  }

  /** The first piece is a prefix of s, and no piece holds the separator. */
  lemma {:induction false} SplitAvoidsSeparator(s: string, sep: string)
    requires |sep| > 0
    ensures StartsWith(s, Split(s, sep)[0])
    ensures forall i :: 0 <= i < |Split(s, sep)| ==> !Contains(Split(s, sep)[i], sep)
    decreases |s|
  {
    if |s| == 0 {
    } else if StartsWith(s, sep) {
      SplitAvoidsSeparator(s[|sep|..], sep);
      var r := Split(s, sep);
      assert forall i :: 1 <= i < |r| ==> r[i] == Split(s[|sep|..], sep)[i - 1];
    } else {
      var rest := Split(s[1..], sep);
      SplitAvoidsSeparator(s[1..], sep);
      var first := [s[0]] + rest[0];
      assert first[1..] == rest[0];
      assert first == s[..|first|];
      assert !Contains(first, sep);
      var r := Split(s, sep);
      assert forall i :: 1 <= i < |r| ==> r[i] == rest[i];
    }
  }

  /** Text without the separator's first character splits around a following separator. */
  lemma {:induction false} SplitTokenFirst(t: string, rest: string, sep: string)
    requires |sep| > 0 && sep[0] !in t
    ensures Split(t + rest, sep) == [t + Split(rest, sep)[0]] + Split(rest, sep)[1..]
    decreases |t|
  {
    if |t| > 0 {
      var s := t + rest;
      assert s[0] == t[0];
      assert !StartsWith(s, sep);
      assert s[1..] == t[1..] + rest;
      SplitTokenFirst(t[1..], rest, sep);
      var r, tail := Split(rest, sep), Split(s[1..], sep);
      assert tail == [t[1..] + r[0]] + r[1..];
      assert tail[0] == t[1..] + r[0] && tail[1..] == r[1..];
      assert Split(s, sep) == [[s[0]] + tail[0]] + tail[1..];
      assert [t[0]] + (t[1..] + r[0]) == t + r[0];
    } else {
      assert t + rest == rest;
      var r := Split(rest, sep);
      assert r == [r[0]] + r[1..];
      assert t + r[0] == r[0];
    }
  }

  /** Tokens free of the separator's first character split back out of their join. */
  lemma {:induction false} SplitJoin(ts: seq<string>, sep: string)
    requires |sep| > 0 && |ts| >= 1
    requires forall i :: 0 <= i < |ts| ==> sep[0] !in ts[i]
    ensures Split(Join(ts, sep), sep) == ts
    decreases |ts|
  {
    if |ts| == 1 {
      SplitTokenFirst(ts[0], "", sep);
      assert ts[0] + "" == ts[0];
    } else {
      var tail := Join(ts[1..], sep);
      SplitJoin(ts[1..], sep);
      assert StartsWith(sep + tail, sep);
      assert (sep + tail)[|sep|..] == tail;
      assert Split(sep + tail, sep) == [""] + ts[1..];
      assert Join(ts, sep) == ts[0] + (sep + tail);
      SplitTokenFirst(ts[0], sep + tail, sep);
      assert ([""] + ts[1..])[1..] == ts[1..];
      assert ts[0] + "" == ts[0];
      assert [ts[0]] + ts[1..] == ts;
    }
  }

  // ---------------------------------------------------------------------
  // Parsing one line
  // ---------------------------------------------------------------------

  /** The text after the first `[` and before the first `]`, as the slice of lines 13-14 takes it. */
  function Bracketed(line: string): string {
    Slice(line, Find(line, '[') + 1, Find(line, ']'))
  }

  /** Lines 13-14: the set of the `', '`-separated tokens between the brackets. */
  function ParseLine(line: string): set<string> {
    set t | t in Split(Bracketed(line), ", ")
  }

  /** An empty list parses to the set holding the empty token, not to the empty set. */
  lemma ParseEmptyList(rest: string)
    ensures ParseLine("[]" + rest) == {""}
  {
    var line := "[]" + rest;
    assert line[0] == '[' && line[1] == ']';
    assert Find(line, '[') == 0 && Find(line, ']') == 1;
    assert Bracketed(line) == "";
  }

  /**
   * With no brackets at all, both finds give -1 and the slice `[0:-1]`
   * keeps the whole line but its last character.
   */
  lemma ParseWithoutBrackets(line: string)
    requires '[' !in line && ']' !in line && |line| > 0
    ensures Bracketed(line) == line[..|line| - 1]
  {
  }

  /** No character of the joined text is one that no token holds. */
  lemma {:induction false} JoinAvoids(ts: seq<string>, sep: string, c: char)
    requires c !in sep && forall i :: 0 <= i < |ts| ==> c !in ts[i]
    ensures c !in Join(ts, sep)
    decreases |ts|
  {
    if |ts| > 1 {
      JoinAvoids(ts[1..], sep, c);
    }
  }

  /** A list of names free of `,`, `[` and `]`, one per line as `[n1, n2, ...]`. */
  function Rendered(names: seq<string>, rest: string): string {
    "[" + Join(names, ", ") + "]" + rest
  }

  /**
   * A rendered list parses back to the set of its names, whatever follows
   * the closing bracket: duplicates count once, the order is lost.
   */
  lemma ParseRendered(names: seq<string>, rest: string)
    requires |names| >= 1
    requires forall i :: 0 <= i < |names| ==> ',' !in names[i] && '[' !in names[i] && ']' !in names[i]
    ensures ParseLine(Rendered(names, rest)) == set n | n in names
  {
    var body := Join(names, ", ");
    JoinAvoids(names, ", ", '[');
    JoinAvoids(names, ", ", ']');
    var line := Rendered(names, rest);
    assert line[0] == '[';
    assert line[1..1 + |body|] == body && line[1 + |body|] == ']';
    assert line[..1 + |body|] == "[" + body;
    assert Find(line, ']') == 1 + |body|;
    assert Bracketed(line) == body;
    SplitJoin(names, ", ");
  }

  /** Key names as `str(key)` renders them parse back from a rendered line. */
  lemma ParseKeyLabels(names: seq<string>, keys: seq<(Option<Note>, Option<int>)>, rest: string)
    requires |names| == |keys| >= 1
    requires forall i :: 0 <= i < |keys| ==> names[i] == KeyLabel(keys[i].0, keys[i].1)
    ensures ParseLine(Rendered(names, rest)) == set n | n in names
  {
    forall i | 0 <= i < |names|
      ensures ',' !in names[i] && '[' !in names[i] && ']' !in names[i]
    {
      var r := KeyLabel(keys[i].0, keys[i].1);
      assert forall j :: 0 <= j < |r| ==> r[j] != ',' && r[j] != '[' && r[j] != ']';
    }
    ParseRendered(names, rest);
  }

  // ---------------------------------------------------------------------
  // Counting
  // ---------------------------------------------------------------------

  datatype Tally = Tally(correct: nat, falsePositive: nat, falseNegative: nat, totalTruths: nat)

  /** Lines 16-19 for one line pair. */
  function LineTally(truth: set<string>, output: set<string>): Tally {
    Tally(|truth * output|, |output - truth|, |truth - output|, |truth|)
  }

  /** Each truth token is matched or missed, each output token matched or spurious. */
  lemma LineBalance(truth: set<string>, output: set<string>)
    ensures LineTally(truth, output).correct + LineTally(truth, output).falseNegative == |truth|
    ensures LineTally(truth, output).correct + LineTally(truth, output).falsePositive == |output|
  {
    assert truth == (truth * output) + (truth - output);
    assert output == (truth * output) + (output - truth);
  }

  /** The counters after the first n line pairs, truth line i paired with output line i. */
  function Totals(truths: seq<set<string>>, outputs: seq<set<string>>, n: nat): Tally
    requires n <= |truths| && n <= |outputs|
  {
    if n == 0 then Tally(0, 0, 0, 0)
    else
      var sofar, line := Totals(truths, outputs, n - 1), LineTally(truths[n - 1], outputs[n - 1]);
      Tally(sofar.correct + line.correct, sofar.falsePositive + line.falsePositive,
            sofar.falseNegative + line.falseNegative, sofar.totalTruths + line.totalTruths)
  }

  /** The number of distinct tokens in the first n output lines, summed per line. */
  function OutputTokens(outputs: seq<set<string>>, n: nat): nat
    requires n <= |outputs|
  {
    if n == 0 then 0 else OutputTokens(outputs, n - 1) + |outputs[n - 1]|
  }

  /**
   * Every truth token is either matched or missed, and every output token
   * either matched or a false positive: the totals balance.
   */
  lemma {:induction false} TotalsBalance(truths: seq<set<string>>, outputs: seq<set<string>>, n: nat)
    requires n <= |truths| && n <= |outputs|
    ensures Totals(truths, outputs, n).correct + Totals(truths, outputs, n).falseNegative
         == Totals(truths, outputs, n).totalTruths
    ensures Totals(truths, outputs, n).correct + Totals(truths, outputs, n).falsePositive
         == OutputTokens(outputs, n)
  {
    if n > 0 {
      TotalsBalance(truths, outputs, n - 1);
      LineBalance(truths[n - 1], outputs[n - 1]);
    }
  }

  /** Swapping the two files keeps the correct count and swaps the two kinds of error. */
  lemma {:induction false} TotalsSwap(truths: seq<set<string>>, outputs: seq<set<string>>, n: nat)
    requires n <= |truths| && n <= |outputs|
    ensures Totals(outputs, truths, n).correct == Totals(truths, outputs, n).correct
    ensures Totals(outputs, truths, n).falsePositive == Totals(truths, outputs, n).falseNegative
    ensures Totals(outputs, truths, n).falseNegative == Totals(truths, outputs, n).falsePositive
  {
    if n > 0 {
      TotalsSwap(truths, outputs, n - 1);
      LineSwap(truths[n - 1], outputs[n - 1]);
      SwapStep(Totals(truths, outputs, n - 1), Totals(outputs, truths, n - 1),
               LineTally(truths[n - 1], outputs[n - 1]), LineTally(outputs[n - 1], truths[n - 1]));
      TotalsStep(truths, outputs, n);
      TotalsStep(outputs, truths, n);
    }
  }

  /** Adding swapped line counters to swapped running counters keeps them swapped. */
  lemma SwapStep(a: Tally, b: Tally, la: Tally, lb: Tally)
    requires b.correct == a.correct && b.falsePositive == a.falseNegative && b.falseNegative == a.falsePositive
    requires lb.correct == la.correct && lb.falsePositive == la.falseNegative && lb.falseNegative == la.falsePositive
    ensures b.correct + lb.correct == a.correct + la.correct
    ensures b.falsePositive + lb.falsePositive == a.falseNegative + la.falseNegative
    ensures b.falseNegative + lb.falseNegative == a.falsePositive + la.falsePositive
  {
  }

  /** Swapping a line pair keeps the matches and swaps the two kinds of error. */
  lemma LineSwap(truth: set<string>, output: set<string>)
    ensures LineTally(output, truth).correct == LineTally(truth, output).correct
    ensures LineTally(output, truth).falsePositive == LineTally(truth, output).falseNegative
    ensures LineTally(output, truth).falseNegative == LineTally(truth, output).falsePositive
  {
    assert truth * output == output * truth;
  }

  /** The error counters after n line pairs: those after n - 1 plus those of pair n - 1. */
  lemma TotalsStep(truths: seq<set<string>>, outputs: seq<set<string>>, n: nat)
    requires 0 < n <= |truths| && n <= |outputs|
    ensures Totals(truths, outputs, n).correct
         == Totals(truths, outputs, n - 1).correct + LineTally(truths[n - 1], outputs[n - 1]).correct
    ensures Totals(truths, outputs, n).falsePositive
         == Totals(truths, outputs, n - 1).falsePositive + LineTally(truths[n - 1], outputs[n - 1]).falsePositive
    ensures Totals(truths, outputs, n).falseNegative
         == Totals(truths, outputs, n - 1).falseNegative + LineTally(truths[n - 1], outputs[n - 1]).falseNegative
  {
  }

  /** Every line of a file, parsed. */
  function ParseAll(lines: seq<string>): (r: seq<set<string>>)
    ensures |r| == |lines| && forall i :: 0 <= i < |lines| ==> r[i] == ParseLine(lines[i])
  {
    seq(|lines|, i requires 0 <= i < |lines| => ParseLine(lines[i]))
  }

  /** Lines 16-19: line pair i adds to each counter. */
  method CountLine(truths: seq<set<string>>, outputs: seq<set<string>>, i: nat, t: Tally) returns (t': Tally)
    requires i < |truths| && i < |outputs|
    requires t == Totals(truths, outputs, i) && t.correct + t.falseNegative == t.totalTruths
    ensures t' == Totals(truths, outputs, i + 1) && t'.correct + t'.falseNegative == t'.totalTruths
  {
    var truth, output := truths[i], outputs[i];
    LineBalance(truth, output);
    t' := Tally(t.correct + |truth * output|, t.falsePositive + |output - truth|,
                t.falseNegative + |truth - output|, t.totalTruths + |truth|);
  }

  /**
   * The loop of lines 12-19 on the parsed lines. Output line i is read for
   * truth line i, so fewer output lines than truth lines raise an
   * IndexError (None); extra output lines are ignored.
   */
  method Count(truths: seq<set<string>>, outputs: seq<set<string>>) returns (r: Option<Tally>)
    ensures r.None? <==> |outputs| < |truths|
    ensures r.Some? ==> r.value == Totals(truths, outputs, |truths|)
    ensures r.Some? ==> r.value.correct + r.value.falseNegative == r.value.totalTruths
  {
    var n := if |outputs| < |truths| then |outputs| else |truths|;
    var t := CountPairs(truths, outputs, n);
    if n < |truths| {
      // `outputs[n]` raises IndexError.
      return None;
    }
    return Some(t);
  }

  /** The first n iterations of the loop of lines 12-19. */
  method CountPairs(truths: seq<set<string>>, outputs: seq<set<string>>, n: nat) returns (t: Tally)
    requires n <= |truths| && n <= |outputs|
    ensures t == Totals(truths, outputs, n)
    ensures t.correct + t.falseNegative == t.totalTruths
  {
    t := Tally(0, 0, 0, 0);
    var i := 0;
    while i < n
      invariant 0 <= i <= n
      invariant t == Totals(truths, outputs, i)
      invariant t.correct + t.falseNegative == t.totalTruths
    {
      t := CountLine(truths, outputs, i, t);
      i := i + 1;
    }
  }

  /**
   * `main` on the two files' lines: each line is parsed as lines 13-14
   * parse it and the pairs are counted.
   */
  method Score(truthLines: seq<string>, outputLines: seq<string>) returns (r: Option<Tally>)
    ensures r.None? <==> |outputLines| < |truthLines|
    ensures r.Some? ==> r.value == Totals(ParseAll(truthLines), ParseAll(outputLines), |truthLines|)
  {
    r := Count(ParseAll(truthLines), ParseAll(outputLines));
  }

  // ---------------------------------------------------------------------
  // The two ratios
  // ---------------------------------------------------------------------

  /** A ratio of counters; None where Python divides by zero. */
  function Ratio(num: nat, den: nat): (q: Option<real>)
    ensures q.None? <==> den == 0
  {
    if den == 0 then None else Some(num as real / den as real)
  }

  /** Line 24 as written: the value printed as "Precision" is correct / (correct + false negatives). */
  function PrintedPrecision(t: Tally): Option<real> {
    Ratio(t.correct, t.correct + t.falseNegative)
  }

  /** Line 25 as written: the value printed as "Recall" is correct / (correct + false positives). */
  function PrintedRecall(t: Tally): Option<real> {
    Ratio(t.correct, t.correct + t.falsePositive)
  }

  /**
   * What lines 24-25 print, in order, before the script ends or raises.
   * Line 24 raises ZeroDivisionError when correct + false negatives is 0;
   * nothing is printed then and line 25 is never reached. Line 25 raises in
   * its turn, after line 24 printed, when correct + false positives is 0.
   */
  function PrintedRatios(t: Tally): (out: seq<real>)
    ensures |out| <= 2
    ensures |out| == 0 <==> t.correct + t.falseNegative == 0
    ensures |out| == 2 <==> t.correct + t.falseNegative > 0 && t.correct + t.falsePositive > 0
    ensures |out| >= 1 ==> out[0] == t.correct as real / (t.correct + t.falseNegative) as real
    ensures |out| == 2 ==> out[1] == t.correct as real / (t.correct + t.falsePositive) as real
  {
    match PrintedPrecision(t)
    case None => []
    case Some(p) =>
      match PrintedRecall(t)
      case None => [p]
      case Some(r) => [p, r]
  }

  /** Precision: the share of detected keys that were right. */
  function Precision(t: Tally): Option<real> {
    Ratio(t.correct, t.correct + t.falsePositive)
  }

  /** Recall: the share of the true keys that were detected. */
  function Recall(t: Tally): Option<real> {
    Ratio(t.correct, t.correct + t.falseNegative)
  }

  /**
   * Over a whole scoring run, precision is the matched share of the output
   * tokens and recall the matched share of the truth tokens.
   */
  lemma RatiosMeanShares(truths: seq<set<string>>, outputs: seq<set<string>>, n: nat, t: Tally)
    requires n <= |truths| && n <= |outputs| && t == Totals(truths, outputs, n)
    ensures Precision(t) == Ratio(t.correct, OutputTokens(outputs, n))
    ensures Recall(t) == Ratio(t.correct, t.totalTruths)
  {
    TotalsBalance(truths, outputs, n);
    BalancedRatios(t, OutputTokens(outputs, n));
  }

  /** For balanced counters the two ratios are the matched shares of the output and of the truth. */
  lemma BalancedRatios(t: Tally, outputTokens: nat)
    requires t.correct + t.falsePositive == outputTokens
    requires t.correct + t.falseNegative == t.totalTruths
    ensures Precision(t) == Ratio(t.correct, outputTokens)
    ensures Recall(t) == Ratio(t.correct, t.totalTruths)
  {
  }

  /**
   * The printed labels are swapped: one matched key, three false
   * positives and no miss print "Precision" 100% although only a quarter
   * of the output is right.
   */
  lemma PrintedLabelsSwapped()
    ensures PrintedPrecision(Tally(1, 3, 0, 1)) == Some(1.0)
    ensures Precision(Tally(1, 3, 0, 1)) == Some(0.25)
    ensures forall t :: PrintedPrecision(t) == Recall(t) && PrintedRecall(t) == Precision(t)
  {
  }
}
