/**
 * The parse loop of release_notes.py: from merge lines to the insertion-ordered registry
 * `base key -> BranchType`, where the first classification of a key wins.
 *
 * The two regular expressions of the loop are modelled as scanners, each proved
 * against a declarative description of what the expression matches.
 */
module Parsing {
  import opened Wrappers
  import opened Seqs
  import opened Text
  import opened BranchTypes

  /** The case-sensitive opening of the branch-name pattern `Merge branch '([^']+)'`. */
  const MergeBranch := "Merge branch '"
  const DevelopRef := "refs/heads/develop"
  const RemoteTracking := "remote-tracking"

  // ---------------------------------------------------------------------------
  // Step 2: the quoted branch name
  // ---------------------------------------------------------------------------

  /** `Merge branch '<b>'` occurs in line with its opening at i; b is non-empty and
      quote-free. */
  predicate BranchAt(line: string, i: int, b: string) {
    && 0 <= i && i + |MergeBranch| + |b| < |line|
    && line[i..i + |MergeBranch|] == MergeBranch
    && |b| > 0
    && (forall j :: 0 <= j < |b| ==> b[j] != '\'')
    && line[i + |MergeBranch|..i + |MergeBranch| + |b|] == b
    && line[i + |MergeBranch| + |b|] == '\''
  }

  /** A branch name found at i is the whole quote-free run after the opening. */
  lemma BranchAtRun(line: string, i: int)
    requires 0 <= i && i + |MergeBranch| <= |line|
    ensures forall b :: BranchAt(line, i, b) ==> RunWithout(line, i + |MergeBranch|, '\'') == |b|
  {
    var k := i + |MergeBranch|;
    forall b | BranchAt(line, i, b)
      ensures RunWithout(line, k, '\'') == |b|
    {
      forall j | k <= j < k + |b|
        ensures line[j] != '\''
      {
        assert line[j] == line[k..k + |b|][j - k];
      }
      RunWithoutExact(line, k, |b|, '\'');
    }
  }

  /** At most one branch name opens at a given position. */
  lemma BranchAtUnique(line: string, i: int, b: string, b': string)
    requires BranchAt(line, i, b) && BranchAt(line, i, b')
    ensures b == b'
  {
    BranchAtRun(line, i);
  }

  /** After an opening, a non-empty quote-free run closed by a quote is a branch name. */
  lemma BranchAtFound(line: string, i: nat, k: nat, n: nat)
    requires i + |MergeBranch| <= |line| && line[i..i + |MergeBranch|] == MergeBranch
    requires k == i + |MergeBranch|
    requires k + n < |line| && n > 0
    requires forall j :: k <= j < k + n ==> line[j] != '\''
    requires line[k + n] == '\''
    ensures BranchAt(line, i, line[k..k + n])
  {
    var b := line[k..k + n];
    assert forall j :: 0 <= j < |b| ==> b[j] == line[k + j];
  }

  /** No branch name opens where the opening text is missing. */
  lemma NoOpeningNoBranch(line: string, i: nat)
    requires i + |MergeBranch| > |line| || line[i..i + |MergeBranch|] != MergeBranch
    ensures forall b :: !BranchAt(line, i, b)
  {
  }

  /** No branch name opens where the quote-free run after the opening is empty or unclosed. */
  lemma NoRunNoBranch(line: string, i: nat, k: nat, n: nat)
    requires k == i + |MergeBranch| <= |line|
    requires n == RunWithout(line, k, '\'')
    requires !(n > 0 && k + n < |line|)
    ensures forall b :: !BranchAt(line, i, b)
  {
    BranchAtRun(line, i);
  }

  /** The scan `re.search` performs: the first opening from `from` on that is followed by
      a non-empty quote-free run and a closing quote. */
  function LeftmostBranch(line: string, from: nat): (r: Option<(nat, string)>)
    ensures r.Some? ==> from <= r.value.0 && BranchAt(line, r.value.0, r.value.1)
    ensures r.Some? ==> forall j, b :: from <= j < r.value.0 ==> !BranchAt(line, j, b)
    ensures r.None? ==> forall j, b :: from <= j ==> !BranchAt(line, j, b)
    decreases |line| - from
  {
    if from + |MergeBranch| > |line| then None
    else if line[from..from + |MergeBranch|] != MergeBranch then
      NoOpeningNoBranch(line, from);
      LeftmostBranch(line, from + 1)
    else
      var k := from + |MergeBranch|;
      var n := RunWithout(line, k, '\'');
      if n > 0 && k + n < |line| then
        BranchAtFound(line, from, k, n);
        Some((from, line[k..k + n]))
      else
        NoRunNoBranch(line, from, k, n);
        LeftmostBranch(line, from + 1)
  }

  /** b is the group of the leftmost match of `Merge branch '([^']+)'` in s. */
  ghost predicate LeftmostBranchIs(s: string, b: string) {
    exists i :: BranchAt(s, i, b) && forall j, b' :: 0 <= j < i ==> !BranchAt(s, j, b')
  }

  /** The branch name captured by the leftmost match of the pattern at release_notes.py:97,
      or None without a match. */
  function BranchName(s: string): Option<string> {
    match LeftmostBranch(s, 0)
    case Some((_, b)) => Some(b)
    case None => None
  }

  /** The branch name found is exactly the group of the leftmost match. */
  lemma BranchNameIff(s: string, b: string)
    ensures BranchName(s) == Some(b) <==> LeftmostBranchIs(s, b)
  {
    var r := LeftmostBranch(s, 0);
    if r.Some? {
      var i := r.value.0;
      assert BranchAt(s, i, r.value.1);
      if LeftmostBranchIs(s, b) {
        var i' :| BranchAt(s, i', b) && forall j, b' :: 0 <= j < i' ==> !BranchAt(s, j, b');
        assert i' == i;
        BranchAtUnique(s, i, b, r.value.1);
      }
    }
  }

  // ---------------------------------------------------------------------------
  // Steps 1-4: the lines that reach the typo guard
  // ---------------------------------------------------------------------------

  /** The substring checks of step 1, on the stripped line. */
  predicate Eligible(s: string) {
    s != "" && !Contains(s, DevelopRef) && !Contains(s, RemoteTracking)
  }

  /** The branch prefix and task key a line yields before the typo guard. */
  datatype Candidate = Candidate(typePrefix: string, taskKey: string)

  /**
   * The stripped line passes step 1, its leftmost quoted branch is `tp/task` with tp free of
   * `/` (the split at the first `/`), and task starts with `<prefix>-`.
   */
  ghost predicate IsCandidate(line: string, prefix: string, tp: string, task: string) {
    var s := Strip(line);
    && Eligible(s)
    && LeftmostBranchIs(s, tp + "/" + task)
    && '/' !in tp
    && StartsWith(task, prefix + "-")
  }

  /** Steps 1-4 of the loop body. */
  function CandidateOf(line: string, prefix: string): (r: Option<Candidate>)
    ensures r.Some? ==> StartsWith(r.value.taskKey, prefix + "-")
  {
    var s := Strip(line);
    if !Eligible(s) then None
    else
      match BranchName(s)
      case None => None
      case Some(b) =>
        if '/' !in b then None
        else
          var parts := SplitOnce(b, '/');
          if StartsWith(parts.1, prefix + "-") then Some(Candidate(parts.0, parts.1)) else None
  }

  /** A line yields (tp, task) exactly when it meets the conditions of steps 1-4 for them. */
  lemma CandidateOfIff(line: string, prefix: string, tp: string, task: string)
    ensures CandidateOf(line, prefix) == Some(Candidate(tp, task)) <==> IsCandidate(line, prefix, tp, task)
  {
    var s := Strip(line);
    var b := tp + "/" + task;
    BranchNameIff(s, b);
    if IsCandidate(line, prefix, tp, task) {
      assert b == tp + ['/'] + task;
      SplitOnceUnique(tp, task, '/');
    }
    if CandidateOf(line, prefix) == Some(Candidate(tp, task)) {
      var found := BranchName(s).value;
      BranchNameIff(s, found);
      assert tp + ['/'] + task == found;
      assert b == found;
    }
  }

  // ---------------------------------------------------------------------------
  // Steps 5-6: the typo guard and the base key
  // ---------------------------------------------------------------------------

  /** The typo guard: the prefix occurs in the lower-cased task key. */
  predicate TypoGuard(task: string, prefix: string) {
    Contains(Lower(task), prefix)
  }

  /**
   * On a task key that starts with `<prefix>-`, the guard fires exactly when the prefix has
   * no upper-case letter: an upper-case prefix never occurs in lower-cased text, and a
   * prefix equal to its own lower-case form always occurs at the start.
   */
  lemma TypoGuardIff(task: string, prefix: string)
    requires StartsWith(task, prefix + "-")
    ensures TypoGuard(task, prefix) <==> NoAsciiUpper(prefix)
    ensures TypoGuard(task, prefix) <==> Lower(prefix) == prefix
  {
    LowerFixesNoUpper(prefix);
    var lt := Lower(task);
    if TypoGuard(task, prefix) {
      ContainedHasNoUpper(lt, prefix);
    }
    if NoAsciiUpper(prefix) {
      assert task[..|prefix|] == prefix;
      LowerSlice(task, 0, |prefix|);
      assert OccursAt(lt, prefix, 0);
    }
  }

  /** k is what `^<prefix>-\d+` matches at the start of task: the prefix, a dash and the
      longest run of at least one ASCII digit. */
  ghost predicate IsBaseKeyOf(k: string, task: string, prefix: string) {
    && StartsWith(task, k)
    && StartsWith(k, prefix + "-")
    && |k| > |prefix| + 1
    && AllDigits(k[|prefix| + 1..])
    && (|task| == |k| || !IsDigit(task[|k|]))
  }

  /** A key of the shape `<prefix>-<digits>`. */
  predicate IsBaseKey(k: string, prefix: string) {
    && StartsWith(k, prefix + "-")
    && |k| > |prefix| + 1
    && AllDigits(k[|prefix| + 1..])
  }

  /** The base key matched at the start of the task key (release_notes.py:118-121), or None
      without a match. */
  function BaseKey(task: string, prefix: string): (r: Option<string>)
    ensures r.Some? ==> IsBaseKeyOf(r.value, task, prefix) && IsBaseKey(r.value, prefix)
  {
    var head := prefix + "-";
    if StartsWith(task, head) && |task| > |head| && IsDigit(task[|head|]) then
      var n := DigitRun(task, |head|);
      var k := task[..|head| + n];
      assert k[..|head|] == head;
      assert forall i :: 0 <= i < n ==> k[|head|..][i] == task[|head| + i];
      Some(k)
    else None
  }

  /** The base key is unique: the regex match is the only key of that shape. */
  lemma BaseKeyIff(task: string, prefix: string, k: string)
    ensures BaseKey(task, prefix) == Some(k) <==> IsBaseKeyOf(k, task, prefix)
  {
    var head := prefix + "-";
    if IsBaseKeyOf(k, task, prefix) {
      assert task[..|head|] == k[..|head|] == head;
      assert task[|head|] == k[|head|] == k[|prefix| + 1..][0];
      var r := BaseKey(task, prefix).value;
      assert |r| == |k|;
      assert r == task[..|r|] == k;
    }
  }

  /** On a task key that starts with `<prefix>-`, the pattern matches exactly when a digit
      follows the dash. */
  lemma BaseKeyExists(task: string, prefix: string)
    requires StartsWith(task, prefix + "-")
    ensures BaseKey(task, prefix).Some? <==> |task| > |prefix| + 1 && IsDigit(task[|prefix| + 1])
  {
  }

  /** A version suffix after the digits is dropped: `WEBDEV-42-v2` has base key `WEBDEV-42`. */
  lemma BaseKeyDropsSuffix()
    ensures BaseKey("WEBDEV-42-v2", "WEBDEV") == Some("WEBDEV-42")
  {
    var task, k, prefix := "WEBDEV-42-v2", "WEBDEV-42", "WEBDEV";
    assert task[..|k|] == k;
    assert k[..|prefix| + 1] == prefix + "-";
    assert k[|prefix| + 1..] == "42";
    BaseKeyIff(task, prefix, k);
  }

  // ---------------------------------------------------------------------------
  // One line of the loop
  // ---------------------------------------------------------------------------

  /** What one line contributes: nothing, or a base key with the kind of its branch prefix. */
  datatype LineResult = Skipped | Recorded(key: string, kind: BranchType)

  /** The loop body for one line. */
  function ParseLine(line: string, prefix: string): (r: LineResult)
    ensures r.Recorded? ==> IsBaseKey(r.key, prefix)
  {
    match CandidateOf(line, prefix)
    case None => Skipped
    case Some(c) =>
      if TypoGuard(c.taskKey, prefix) then Skipped
      else
        match BaseKey(c.taskKey, prefix)
        case None => Skipped
        case Some(k) => Recorded(k, Classify(c.typePrefix))
  }

  /** The declarative reading of the loop body: the line passes steps 1-4 with some
      (tp, task), the guard does not fire, k is the base key of task, and t classifies tp. */
  ghost predicate Records(line: string, prefix: string, k: string, t: BranchType) {
    exists tp, task ::
      && IsCandidate(line, prefix, tp, task)
      && !TypoGuard(task, prefix)
      && IsBaseKeyOf(k, task, prefix)
      && t == Classify(tp)
  }

  /** A line records (k, t) exactly when it meets every condition of the loop body. */
  lemma ParseLineIff(line: string, prefix: string, k: string, t: BranchType)
    ensures ParseLine(line, prefix) == Recorded(k, t) <==> Records(line, prefix, k, t)
  {
    var c := CandidateOf(line, prefix);
    if ParseLine(line, prefix) == Recorded(k, t) {
      CandidateOfIff(line, prefix, c.value.typePrefix, c.value.taskKey);
      BaseKeyIff(c.value.taskKey, prefix, k);
      assert IsCandidate(line, prefix, c.value.typePrefix, c.value.taskKey);
    }
    if Records(line, prefix, k, t) {
      var tp, task :| && IsCandidate(line, prefix, tp, task) && !TypoGuard(task, prefix)
                      && IsBaseKeyOf(k, task, prefix) && t == Classify(tp);
      CandidateOfIff(line, prefix, tp, task);
      BaseKeyIff(task, prefix, k);
    }
  }

  /** With a prefix equal to its own lower-case form (an empty one included), the typo
      guard fires on every candidate and no line records anything. */
  lemma LowerCasePrefixRecordsNothing(line: string, prefix: string)
    requires Lower(prefix) == prefix
    ensures ParseLine(line, prefix) == Skipped
  {
    var c := CandidateOf(line, prefix);
    if c.Some? {
      CandidateOfIff(line, prefix, c.value.typePrefix, c.value.taskKey);
      TypoGuardIff(c.value.taskKey, prefix);
    }
  }

  /** With a prefix holding an upper-case letter the typo guard never fires: a candidate is
      recorded exactly when its task key has a digit right after `<prefix>-`. */
  lemma UpperCasePrefixGuardInert(line: string, prefix: string, tp: string, task: string)
    requires !NoAsciiUpper(prefix)
    requires CandidateOf(line, prefix) == Some(Candidate(tp, task))
    ensures ParseLine(line, prefix).Recorded? <==> |task| > |prefix| + 1 && IsDigit(task[|prefix| + 1])
    ensures ParseLine(line, prefix).Recorded? ==> ParseLine(line, prefix).kind == Classify(tp)
  {
    TypoGuardIff(task, prefix);
    BaseKeyExists(task, prefix);
    var r := ParseLine(line, prefix);
    var bk := BaseKey(task, prefix);
    assert r == if bk.Some? then Recorded(bk.value, Classify(tp)) else Skipped;
  }

  // ---------------------------------------------------------------------------
  // The registry
  // ---------------------------------------------------------------------------

  /** One registry entry: a base key and the kind it was first classified as. */
  datatype Entry = Entry(key: string, kind: BranchType)

  function Keys(reg: seq<Entry>): (ks: seq<string>)
    ensures |ks| == |reg|
    ensures forall i :: 0 <= i < |reg| ==> ks[i] == reg[i].key
  {
    seq(|reg|, i requires 0 <= i < |reg| => reg[i].key)
  }

  predicate UniqueKeys(reg: seq<Entry>) {
    forall i, j :: 0 <= i < j < |reg| ==> reg[i].key != reg[j].key
  }

  /** The kind registered for k: that of the first entry holding k. */
  function Lookup(reg: seq<Entry>, k: string): (r: Option<BranchType>)
    ensures r.None? <==> forall i :: 0 <= i < |reg| ==> reg[i].key != k
    ensures r.Some? ==> exists i :: 0 <= i < |reg| && reg[i] == Entry(k, r.value)
  {
    if |reg| == 0 then None
    else
      var n := |reg| - 1;
      var r := Lookup(reg[..n], k);
      assert forall i :: 0 <= i < n ==> reg[..n][i] == reg[i];
      if r.Some? then r
      else if reg[n].key == k then Some(reg[n].kind)
      else None
  }

  /** Looking up in an extended registry. */
  lemma LookupSnoc(reg: seq<Entry>, e: Entry, k: string)
    ensures Lookup(reg + [e], k) ==
      if Lookup(reg, k).Some? then Lookup(reg, k) else if e.key == k then Some(e.kind) else None
  {
    assert (reg + [e])[..|reg|] == reg;
  }

  /** In a registry with unique keys, the entry found is the one holding the key. */
  lemma LookupUnique(reg: seq<Entry>, i: int)
    requires UniqueKeys(reg)
    requires 0 <= i < |reg|
    ensures Lookup(reg, reg[i].key) == Some(reg[i].kind)
  {
  }

  /** Registering a base key (release_notes.py:124-125): a key already present keeps its
      kind, a new key is added at the end. */
  function Record(reg: seq<Entry>, k: string, t: BranchType): (r: seq<Entry>)
    requires UniqueKeys(reg)
    ensures UniqueKeys(r)
    ensures |reg| <= |r| && r[..|reg|] == reg
    ensures Lookup(r, k) == (if Lookup(reg, k).Some? then Lookup(reg, k) else Some(t))
    ensures forall k' :: k' != k ==> Lookup(r, k') == Lookup(reg, k')
  {
    if k in Keys(reg) then
      assert Lookup(reg, k).Some?;
      reg
    else
      var r := reg + [Entry(k, t)];
      assert Lookup(reg, k).None?;
      LookupSnoc(reg, Entry(k, t), k);
      forall k' | k' != k
        ensures Lookup(r, k') == Lookup(reg, k')
      {
        LookupSnoc(reg, Entry(k, t), k');
      }
      r
  }

  /** The loop over the per-line results: each recorded key in turn, first one wins. */
  function Fold(rs: seq<LineResult>): (r: seq<Entry>)
    ensures UniqueKeys(r)
    ensures forall a :: 0 <= a < |r| ==> Recorded(r[a].key, r[a].kind) in rs
  {
    if |rs| == 0 then []
    else
      var n := |rs| - 1;
      var reg := Fold(rs[..n]);
      assert forall x :: x in rs[..n] ==> x in rs;
      match rs[n]
      case Skipped => reg
      case Recorded(k, t) => Record(reg, k, t)
  }

  predicate IsRecordOf(x: LineResult, k: string) {
    x.Recorded? && x.key == k
  }

  /** Index of the first result that records k, or the number of results when none does. */
  function FirstRecord(rs: seq<LineResult>, k: string): (f: nat)
    ensures f <= |rs|
    ensures f < |rs| ==> IsRecordOf(rs[f], k)
    ensures forall j :: 0 <= j < f ==> !IsRecordOf(rs[j], k)
  {
    if |rs| == 0 then 0
    else
      var n := |rs| - 1;
      var f := FirstRecord(rs[..n], k);
      assert forall j :: 0 <= j < n ==> rs[..n][j] == rs[j];
      if f < n then f
      else if IsRecordOf(rs[n], k) then n
      else |rs|
  }

  /** One more result: the first record of k is an earlier one, or the new one, or none. */
  lemma FirstRecordSnoc(rs: seq<LineResult>, k: string)
    requires |rs| > 0
    ensures var n := |rs| - 1; var f0 := FirstRecord(rs[..n], k);
      FirstRecord(rs, k) == (if f0 < n then f0 else if IsRecordOf(rs[n], k) then n else |rs|)
  {
  }

  /** One more result: the registry so far, with the new key recorded if there is one. */
  lemma FoldSnoc(rs: seq<LineResult>)
    requires |rs| > 0
    ensures var n := |rs| - 1;
      Fold(rs) == (if rs[n].Recorded? then Record(Fold(rs[..n]), rs[n].key, rs[n].kind) else Fold(rs[..n]))
  {
  }

  /** First wins over the results: k is registered exactly when some result records it, with
      the kind of the first such result. */
  lemma {:induction false} FoldFirstWins(rs: seq<LineResult>, k: string)
    ensures var f := FirstRecord(rs, k);
      Lookup(Fold(rs), k) == (if f < |rs| then Some(rs[f].kind) else None)
  {
    if |rs| > 0 {
      var n := |rs| - 1;
      FoldFirstWins(rs[..n], k);
      FirstRecordSnoc(rs, k);
      FoldSnoc(rs);
      var f0 := FirstRecord(rs[..n], k);
      if f0 < n { assert rs[..n][f0] == rs[f0]; }
    }
  }

  /** Registry order is first-seen order over the results. */
  lemma {:induction false} FoldOrder(rs: seq<LineResult>)
    ensures var r := Fold(rs);
      forall a, b :: 0 <= a < b < |r| ==> FirstRecord(rs, r[a].key) < FirstRecord(rs, r[b].key)
  {
    if |rs| > 0 {
      var n := |rs| - 1;
      var reg := Fold(rs[..n]);
      var r := Fold(rs);
      FoldOrder(rs[..n]);
      FoldGrowth(rs, n);
      forall a, b | 0 <= a < b < |r|
        ensures FirstRecord(rs, r[a].key) < FirstRecord(rs, r[b].key)
      {
        assert r[a] == reg[a];
        FoldOldFirst(rs, n, a);
        if b < |reg| {
          assert r[b] == reg[b];
          FoldOldFirst(rs, n, b);
        } else {
          FoldNewFirst(rs, n);
        }
      }
    }
  }

  /** One more result adds at most one entry, at the end, for a key not yet registered. */
  lemma FoldGrowth(rs: seq<LineResult>, n: nat)
    requires n + 1 == |rs|
    ensures |Fold(rs[..n])| <= |Fold(rs)| <= |Fold(rs[..n])| + 1
    ensures Fold(rs)[..|Fold(rs[..n])|] == Fold(rs[..n])
    ensures |Fold(rs)| > |Fold(rs[..n])| ==>
      rs[n].Recorded? && Fold(rs)[|Fold(rs[..n])|].key == rs[n].key && Lookup(Fold(rs[..n]), rs[n].key).None?
  {
    FoldSnoc(rs);
  }

  /** A key registered before the last result was first recorded before it. */
  lemma FoldOldFirst(rs: seq<LineResult>, n: nat, a: nat)
    requires n + 1 == |rs| && a < |Fold(rs[..n])|
    ensures FirstRecord(rs, Fold(rs[..n])[a].key) == FirstRecord(rs[..n], Fold(rs[..n])[a].key) < n
  {
    var k := Fold(rs[..n])[a].key;
    FoldFirstWins(rs[..n], k);
    LookupUnique(Fold(rs[..n]), a);
    FirstRecordSnoc(rs, k);
  }

  /** A key the last result adds was first recorded by it. */
  lemma FoldNewFirst(rs: seq<LineResult>, n: nat)
    requires n + 1 == |rs| && |Fold(rs)| > |Fold(rs[..n])|
    ensures FirstRecord(rs, Fold(rs)[|Fold(rs[..n])|].key) == n
  {
    FoldGrowth(rs, n);
    var k := rs[n].key;
    FoldFirstWins(rs[..n], k);
    FirstRecordSnoc(rs, k);
  }

  /** Results with nothing recorded leave the registry empty. */
  lemma {:induction false} FoldNothingRecorded(rs: seq<LineResult>)
    requires forall j :: 0 <= j < |rs| ==> rs[j] == Skipped
    ensures Fold(rs) == []
  {
    if |rs| > 0 {
      FoldNothingRecorded(rs[..|rs| - 1]);
    }
  }

  /** The result of the loop body for every line. */
  function Results(lines: seq<string>, prefix: string): (rs: seq<LineResult>)
    ensures |rs| == |lines|
    ensures forall i :: 0 <= i < |rs| ==> rs[i] == ParseLine(lines[i], prefix)
    ensures forall i :: 0 <= i < |rs| && rs[i].Recorded? ==> IsBaseKey(rs[i].key, prefix)
  {
    Map(lines, line => ParseLine(line, prefix))
  }

  /** Every entry of the folded registry comes from a recorded result. */
  lemma FoldEntriesRecorded(rs: seq<LineResult>, a: nat)
    requires a < |Fold(rs)|
    ensures exists i :: 0 <= i < |rs| && rs[i] == Recorded(Fold(rs)[a].key, Fold(rs)[a].kind)
  {
    var e := Fold(rs)[a];
    assert Recorded(e.key, e.kind) in rs;
  }

  /** The parse loop (lines 92-125): the registry of base keys, in first-seen order. */
  function Parse(lines: seq<string>, prefix: string): (r: seq<Entry>)
    ensures UniqueKeys(r)
    ensures forall a :: 0 <= a < |r| ==> IsBaseKey(r[a].key, prefix)
  {
    var rs := Results(lines, prefix);
    var r := Fold(rs);
    forall a | 0 <= a < |r|
      ensures IsBaseKey(r[a].key, prefix)
    {
      FoldEntriesRecorded(rs, a);
    }
    r
  }

  /** Index of the first line that records k, or the number of lines when none does. */
  function FirstLine(lines: seq<string>, prefix: string, k: string): nat {
    FirstRecord(Results(lines, prefix), k)
  }

  /** First wins: a key is in the registry exactly when some line records it; its kind is
      the one the first such line gives, and no earlier line records it. */
  lemma ParseFirstWins(lines: seq<string>, prefix: string, k: string)
    ensures var f := FirstLine(lines, prefix, k);
      && f <= |lines|
      && (forall j :: 0 <= j < f ==> !(ParseLine(lines[j], prefix).Recorded? && ParseLine(lines[j], prefix).key == k))
      && (f < |lines| ==> ParseLine(lines[f], prefix).Recorded? && ParseLine(lines[f], prefix).key == k)
      && Lookup(Parse(lines, prefix), k) == (if f < |lines| then Some(ParseLine(lines[f], prefix).kind) else None)
  {
    var rs := Results(lines, prefix);
    FoldFirstWins(rs, k);
  }

  /** Registry order is first-seen order: every entry comes from some line, and entries stand
      in the order of the first lines that record their keys. */
  lemma ParseOrder(lines: seq<string>, prefix: string)
    ensures var r := Parse(lines, prefix);
      && (forall a :: 0 <= a < |r| ==> FirstLine(lines, prefix, r[a].key) < |lines|)
      && (forall a, b :: 0 <= a < b < |r| ==>
            FirstLine(lines, prefix, r[a].key) < FirstLine(lines, prefix, r[b].key))
  {
    var rs := Results(lines, prefix);
    var r := Parse(lines, prefix);
    assert r == Fold(rs);
    FoldOrder(rs);
    FoldKeysRecorded(rs);
    assert forall k :: FirstLine(lines, prefix, k) == FirstRecord(rs, k);
  }

  /** Every key of the folded registry is recorded by some result. */
  lemma FoldKeysRecorded(rs: seq<LineResult>)
    ensures forall a :: 0 <= a < |Fold(rs)| ==> FirstRecord(rs, Fold(rs)[a].key) < |rs|
  {
    var r := Fold(rs);
    forall a | 0 <= a < |r|
      ensures FirstRecord(rs, r[a].key) < |rs|
    {
      FoldFirstWins(rs, r[a].key);
      LookupUnique(r, a);
    }
  }

  /** With a prefix equal to its own lower-case form (an empty one included) the registry
      stays empty. */
  lemma LowerCasePrefixEmptyRegistry(lines: seq<string>, prefix: string)
    requires Lower(prefix) == prefix
    ensures Parse(lines, prefix) == []
  {
    var rs := Results(lines, prefix);
    forall i | 0 <= i < |rs|
      ensures rs[i] == Skipped
    {
      LowerCasePrefixRecordsNothing(lines[i], prefix);
    }
    FoldNothingRecorded(rs);
  }

  // ---------------------------------------------------------------------------
  // The configured prefix
  // ---------------------------------------------------------------------------

  /** An unset prefix makes the typo guard test a missing value for containment in the
      task key, which raises (release_notes.py:114). */
  datatype ParseError = PrefixUnset

  /**
   * The parse loop with the prefix as configured. An unset prefix is interpolated as the
   * text `None`; the first line that reaches the typo guard then raises.
   */
  function ParseConfigured(lines: seq<string>, prefix: Option<string>): (r: Result<seq<Entry>, ParseError>)
    ensures prefix.Some? ==> r == Success(Parse(lines, prefix.value))
    ensures r.Success? ==> UniqueKeys(r.value)
    ensures prefix.None? && r.Success? ==> r.value == []
  {
    match prefix
    case Some(p) => Success(Parse(lines, p))
    case None =>
      if exists i | 0 <= i < |lines| :: CandidateOf(lines[i], "None").Some? then Failure(PrefixUnset)
      else Success([])
  }

  /** With the prefix unset, the parse raises exactly when some line is a candidate for the
      prefix text `None`; with a prefix set it never raises. */
  lemma ParseConfiguredRaises(lines: seq<string>, prefix: Option<string>)
    ensures ParseConfigured(lines, prefix).Failure? <==>
      prefix.None? && exists i, tp, task :: 0 <= i < |lines| && IsCandidate(lines[i], "None", tp, task)
  {
    if ParseConfigured(lines, prefix).Failure? {
      var i :| 0 <= i < |lines| && CandidateOf(lines[i], "None").Some?;
      var c := CandidateOf(lines[i], "None").value;
      CandidateOfIff(lines[i], "None", c.typePrefix, c.taskKey);
    }
    if prefix.None? && exists i, tp, task :: 0 <= i < |lines| && IsCandidate(lines[i], "None", tp, task) {
      var i, tp, task :| 0 <= i < |lines| && IsCandidate(lines[i], "None", tp, task);
      CandidateOfIff(lines[i], "None", tp, task);
    }
  }
}
