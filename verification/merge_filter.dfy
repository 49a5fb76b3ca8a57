/**
 * The merge-line filter of extract_webdev_merges.py: which `git log --oneline` lines
 * are kept, and the `git log` argument list that produces them.
 *
 * Both regular expressions of `extract_lines` are compiled with IGNORECASE. The model
 * matches them against the ASCII-lower-cased line, with the pattern lower-cased too.
 */
module MergeFilter {
  import opened Wrappers
  import opened Text

  /** `Merge branch '` lower-cased: the opening of the prefix pattern. */
  const MergeQuote := "merge branch '"

  /** `Merge branch ` lower-cased: the whole pattern used without a prefix. */
  const MergeWord := "merge branch "

  /** The lower-cased literal part `/<prefix>-` of the prefix pattern. */
  function Needle(prefix: string): string {
    Lower("/" + prefix + "-")
  }

  predicate QuoteFreeBetween(s: string, from: int, to: int)
    requires 0 <= from <= to <= |s|
  {
    forall j :: from <= j < to ==> s[j] != '\''
  }

  /** `([^']*)<needle>([^']*)'` matches s from k, with the needle at a and the closing
      quote at b. */
  ghost predicate SegmentMatch(s: string, needle: string, k: int, a: int, b: int) {
    && 0 <= k <= a && a + |needle| <= b < |s|
    && QuoteFreeBetween(s, k, a)
    && s[a..a + |needle|] == needle
    && QuoteFreeBetween(s, a + |needle|, b)
    && s[b] == '\''
  }

  /**
   * The regular expression `merge branch '([^']*)<needle>([^']*)'` matches s with the
   * opening `merge branch '` at i, the needle at a and the closing quote at b.
   */
  ghost predicate QuotedMatchAt(s: string, needle: string, i: int, a: int, b: int) {
    && 0 <= i && i + |MergeQuote| <= |s|
    && s[i..i + |MergeQuote|] == MergeQuote
    && SegmentMatch(s, needle, i + |MergeQuote|, a, b)
  }

  /** `re.search` of the prefix pattern succeeds on the lower-cased line s. */
  ghost predicate QuotedMatch(s: string, needle: string) {
    exists i, a, b :: QuotedMatchAt(s, needle, i, a, b)
  }

  /** The quoted segment that opens at k is closed by a quote and contains the needle. */
  predicate SegmentHas(s: string, needle: string, k: nat)
    requires k <= |s|
  {
    var n := RunWithout(s, k, '\'');
    k + n < |s| && Contains(s[k..k + n], needle)
  }

  /** The segment test finds a match of the segment pattern at k. */
  lemma SegmentHasMatches(s: string, needle: string, k: nat)
    requires k <= |s|
    requires SegmentHas(s, needle, k)
    ensures exists a, b :: SegmentMatch(s, needle, k, a, b)
  {
    var n := RunWithout(s, k, '\'');
    var o :| 0 <= o <= n && OccursAt(s[k..k + n], needle, o);
    assert s[k..k + n][o..o + |needle|] == needle;
    var a, b := k + o, k + n;
    assert s[a..a + |needle|] == needle;
    assert SegmentMatch(s, needle, k, a, b);
  }

  /** A match of the segment pattern at k lies inside the quote-free run, so the segment
      test succeeds (for a needle without quotes). */
  lemma MatchInSegment(s: string, needle: string, k: nat, a: int, b: int)
    requires '\'' !in needle
    requires SegmentMatch(s, needle, k, a, b)
    ensures SegmentHas(s, needle, k)
  {
    forall j | a <= j < a + |needle|
      ensures s[j] != '\''
    {
      assert s[j] == s[a..a + |needle|][j - a];
      assert s[a..a + |needle|][j - a] in needle;
    }
    RunWithoutExact(s, k, b - k, '\'');
    assert s[k..b][a - k..a - k + |needle|] == needle;
    assert OccursAt(s[k..b], needle, a - k);
  }

  /** With `merge branch '` at i, the segment test is the regex match anchored at i. */
  lemma SegmentHasIff(s: string, needle: string, i: nat)
    requires i + |MergeQuote| <= |s|
    requires s[i..i + |MergeQuote|] == MergeQuote
    requires '\'' !in needle
    ensures SegmentHas(s, needle, i + |MergeQuote|) <==> exists a, b :: QuotedMatchAt(s, needle, i, a, b)
  {
    var k := i + |MergeQuote|;
    if SegmentHas(s, needle, k) {
      SegmentHasMatches(s, needle, k);
      var a, b :| SegmentMatch(s, needle, k, a, b);
      assert QuotedMatchAt(s, needle, i, a, b);
    }
    if exists a, b :: QuotedMatchAt(s, needle, i, a, b) {
      var a, b :| QuotedMatchAt(s, needle, i, a, b);
      MatchInSegment(s, needle, k, a, b);
    }
  }

  /** The scan `re.search` performs for the prefix pattern, trying each start from i on. */
  predicate SearchQuoted(s: string, needle: string, i: nat)
    decreases |s| - i
  {
    if i + |MergeQuote| > |s| then false
    else (s[i..i + |MergeQuote|] == MergeQuote && SegmentHas(s, needle, i + |MergeQuote|))
         || SearchQuoted(s, needle, i + 1)
  }

  /** The scan finds a match exactly when the regex matches at some start from i on
      (for a needle with no quote, which a prefix without quotes gives). */
  lemma {:induction false} SearchQuotedIff(s: string, needle: string, i: nat)
    requires '\'' !in needle
    ensures SearchQuoted(s, needle, i) <==> exists i', a, b :: i <= i' && QuotedMatchAt(s, needle, i', a, b)
    decreases |s| - i
  {
    if i + |MergeQuote| <= |s| {
      SearchQuotedIff(s, needle, i + 1);
      if s[i..i + |MergeQuote|] == MergeQuote {
        SegmentHasIff(s, needle, i);
      }
      if exists i', a, b :: i <= i' && QuotedMatchAt(s, needle, i', a, b) {
        var i', a, b :| i <= i' && QuotedMatchAt(s, needle, i', a, b);
        if i' == i {
          SegmentHasIff(s, needle, i);
        }
      }
    }
  }

  /** Whatever the needle, a successful scan has seen `merge branch '`. */
  lemma {:induction false} SearchQuotedHasOpening(s: string, needle: string, i: nat)
    requires SearchQuoted(s, needle, i)
    ensures Contains(s, MergeWord)
    decreases |s| - i
  {
    if s[i..i + |MergeQuote|] == MergeQuote {
      assert s[i..i + |MergeWord|] == MergeQuote[..|MergeWord|] == MergeWord;
      assert OccursAt(s, MergeWord, i);
    } else {
      SearchQuotedHasOpening(s, needle, i + 1);
    }
  }

  /** Whether an optional text is given and non-empty, as Python's truth test of a string
      or None decides it (extract_webdev_merges.py:12, 29). */
  predicate IsSet(o: Option<string>) {
    o.Some? && o.value != ""
  }

  /** Whether `extract_lines` keeps a line. */
  predicate Keeps(line: string, prefix: Option<string>) {
    if IsSet(prefix) then SearchQuoted(Lower(line), Needle(prefix.value), 0)
    else Contains(Lower(line), MergeWord)
  }

  /**
   * With a non-empty prefix that has no quote, a line is kept exactly when, ignoring case,
   * it holds `Merge branch '`, a quote-free stretch containing `/<prefix>-`, and a
   * closing quote.
   */
  lemma KeepsWithPrefix(line: string, p: string)
    requires p != "" && '\'' !in p
    ensures Keeps(line, Some(p)) <==> QuotedMatch(Lower(line), Needle(p))
  {
    var needle := Needle(p);
    assert '\'' !in needle by {
      LowerConcat("/" + p, "-");
      LowerConcat("/", p);
      forall j | 0 <= j < |needle|
        ensures needle[j] != '\''
      {
        assert needle[j] == LowerChar(("/" + p + "-")[j]);
        if 1 <= j <= |p| {
          assert ("/" + p + "-")[j] == p[j - 1];
        }
      }
    }
    SearchQuotedIff(Lower(line), needle, 0);
  }

  /** Without a prefix (absent or empty), a line is kept exactly when it holds
      `merge branch ` in any letter case. */
  lemma KeepsWithoutPrefix(line: string, prefix: Option<string>)
    requires !IsSet(prefix)
    ensures Keeps(line, prefix) <==> exists i :: OccursAt(Lower(line), MergeWord, i)
  {
  }

  /** Every line kept under some prefix is kept without one. */
  lemma KeepsMonotone(line: string, prefix: Option<string>)
    requires Keeps(line, prefix)
    ensures Keeps(line, None)
  {
    if IsSet(prefix) {
      SearchQuotedHasOpening(Lower(line), Needle(prefix.value), 0);
    }
  }

  /** The loop of `extract_lines` over any test: the elements that pass, in input order. */
  function Select<T>(xs: seq<T>, keep: T -> bool): (r: seq<T>)
    ensures |r| <= |xs|
    ensures forall j :: 0 <= j < |r| ==> keep(r[j])
  {
    if |xs| == 0 then []
    else
      var n := |xs| - 1;
      Select(xs[..n], keep) + (if keep(xs[n]) then [xs[n]] else [])
  }

  /** Select only drops elements: its output is a sub-multiset of its input. */
  lemma {:induction false} SelectSubMultiset<T>(xs: seq<T>, keep: T -> bool)
    ensures multiset(Select(xs, keep)) <= multiset(xs)
  {
    if |xs| > 0 {
      var n := |xs| - 1;
      SelectSubMultiset(xs[..n], keep);
      assert xs == xs[..n] + [xs[n]];
    }
  }

  /** Positions of the elements that pass, in increasing order. */
  function Selected<T>(xs: seq<T>, keep: T -> bool): (idx: seq<nat>)
    ensures forall j :: 0 <= j < |idx| ==> idx[j] < |xs|
    ensures forall j, j' :: 0 <= j < j' < |idx| ==> idx[j] < idx[j']
    ensures forall i :: 0 <= i < |xs| ==> (i in idx <==> keep(xs[i]))
  {
    if |xs| == 0 then []
    else
      var n := |xs| - 1;
      Selected(xs[..n], keep) + (if keep(xs[n]) then [n] else [])
  }

  /** Select is an order-preserving subsequence: its j-th element is the input element at
      the j-th passing position. */
  lemma {:induction false} SelectPicks<T>(xs: seq<T>, keep: T -> bool)
    ensures var idx := Selected(xs, keep);
      |Select(xs, keep)| == |idx| &&
      forall j :: 0 <= j < |idx| ==> Select(xs, keep)[j] == xs[idx[j]]
  {
    if |xs| > 0 {
      var n := |xs| - 1;
      var init := xs[..n];
      SelectPicks(init, keep);
      assert Selected(xs, keep) == Selected(init, keep) + (if keep(xs[n]) then [n] else []);
      assert Select(xs, keep) == Select(init, keep) + (if keep(xs[n]) then [xs[n]] else []);
      assert forall i :: 0 <= i < n ==> init[i] == xs[i];
    }
  }

  /** Elements that all pass go through unchanged. */
  lemma {:induction false} SelectAllPass<T>(xs: seq<T>, keep: T -> bool)
    requires forall j :: 0 <= j < |xs| ==> keep(xs[j])
    ensures Select(xs, keep) == xs
  {
    if |xs| > 0 {
      var n := |xs| - 1;
      SelectAllPass(xs[..n], keep);
      assert xs == xs[..n] + [xs[n]];
    }
  }

  /** A narrower test applied to the output of a wider one selects what it selects alone. */
  lemma {:induction false} SelectNarrows<T>(xs: seq<T>, narrow: T -> bool, wide: T -> bool)
    requires forall x :: narrow(x) ==> wide(x)
    ensures Select(xs, narrow) == Select(Select(xs, wide), narrow)
  {
    if |xs| > 0 {
      var n := |xs| - 1;
      var init, last := xs[..n], xs[n];
      SelectNarrows(init, narrow, wide);
      var w := Select(init, wide);
      var tail := if narrow(last) then [last] else [];
      assert Select(xs, narrow) == Select(init, narrow) + tail;
      if wide(last) {
        var w' := w + [last];
        assert Select(xs, wide) == w';
        assert w'[..|w|] == w && w'[|w|] == last;
        assert Select(w', narrow) == Select(w, narrow) + tail;
      } else {
        assert Select(xs, wide) == w;
        assert tail == [];
      }
    }
  }

  /** `extract_lines`: the kept lines, in input order. */
  function ExtractLines(lines: seq<string>, prefix: Option<string>): (r: seq<string>)
    ensures forall j :: 0 <= j < |r| ==> Keeps(r[j], prefix)
    ensures multiset(r) <= multiset(lines)
  {
    SelectSubMultiset(lines, line => Keeps(line, prefix));
    Select(lines, line => Keeps(line, prefix))
  }

  /** `extract_lines` returns an order-preserving subsequence: its j-th line is the input
      line at the j-th position whose line matches, and every matching position is used. */
  lemma ExtractLinesSelects(lines: seq<string>, prefix: Option<string>)
    ensures var idx := Selected(lines, line => Keeps(line, prefix));
      && (forall i :: 0 <= i < |lines| ==> (i in idx <==> Keeps(lines[i], prefix)))
      && (forall j, j' :: 0 <= j < j' < |idx| ==> idx[j] < idx[j'])
      && |ExtractLines(lines, prefix)| == |idx|
      && forall j :: 0 <= j < |idx| ==> ExtractLines(lines, prefix)[j] == lines[idx[j]]
  {
    SelectPicks(lines, line => Keeps(line, prefix));
  }

  /** Filtering the output again with the same prefix changes nothing. */
  lemma ExtractLinesIdempotent(lines: seq<string>, prefix: Option<string>)
    ensures ExtractLines(ExtractLines(lines, prefix), prefix) == ExtractLines(lines, prefix)
  {
    SelectAllPass(ExtractLines(lines, prefix), line => Keeps(line, prefix));
  }

  /** Filtering by a prefix equals filtering, by that prefix, what the prefix-less filter
      kept: the prefix only narrows the selection. */
  lemma ExtractLinesNarrows(lines: seq<string>, prefix: Option<string>)
    ensures ExtractLines(lines, prefix) == ExtractLines(ExtractLines(lines, None), prefix)
  {
    forall line | Keeps(line, prefix)
      ensures Keeps(line, None)
    {
      KeepsMonotone(line, prefix);
    }
    SelectNarrows(lines, line => Keeps(line, prefix), line => Keeps(line, None));
  }

  /** The argument list `get_git_merge_commits` passes to the process call. */
  function GitLogArgs(since: Option<string>, maxCount: int): (cmd: seq<string>)
    ensures 5 <= |cmd| <= 6
    ensures cmd[..4] == ["git", "log", "--merges", "--oneline"]
    ensures StartsWith(cmd[4], "--max-count=") && ParseInt(cmd[4][12..]) == Some(maxCount)
    ensures |cmd| == 6 <==> IsSet(since)
    ensures |cmd| == 6 ==> cmd[5] == since.value + "..HEAD"
  {
    ParseIntRoundTrip(maxCount);
    var count := "--max-count=" + IntToDecimal(maxCount);
    assert count[12..] == IntToDecimal(maxCount);
    var base := ["git", "log", "--merges", "--oneline", count];
    if IsSet(since) then base + [since.value + "..HEAD"] else base
  }
}
