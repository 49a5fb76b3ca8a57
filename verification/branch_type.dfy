/**
 * The branch-type classifier of release_notes.py (`BranchType`), the alias lists shown
 * in group headers (`list_to_str`), and the four group headers of `make_group`.
 */
module BranchTypes {
  import opened Wrappers
  import opened Text

  /** The closed set of branch kinds; OTHER takes every unrecognised branch prefix. */
  datatype BranchType = Feature | Mod | Bugfix | Other

  /** The lower-case branch prefixes each kind stands for. */
  function Aliases(t: BranchType): seq<string> {
    match t
    case Feature => ["feature"]
    case Mod => ["mod", "modification", "refactor"]
    case Bugfix => ["bugfix", "bugfixes", "bug", "fix", "hotfix"]
    case Other => []
  }

  /** `classify_branch_type`: the kind whose aliases hold the lower-cased prefix, and OTHER
      when none does. */
  function Classify(pref: string): (t: BranchType)
    ensures forall u :: Lower(pref) in Aliases(u) ==> t == u
    ensures t == Other <==> forall u :: Lower(pref) !in Aliases(u)
  {
    var p := Lower(pref);
    if p in Aliases(Feature) then Feature
    else if p in Aliases(Mod) then Mod
    else if p in Aliases(Bugfix) then Bugfix
    else Other
  }

  /** Every alias classifies as its own kind. */
  lemma ClassifyAlias(t: BranchType, a: string)
    requires a in Aliases(t)
    ensures Classify(a) == t
  {
    AliasesLowerCase(t);
    LowerFixesNoUpper(a);
  }

  lemma AliasesLowerCase(t: BranchType)
    ensures forall a :: a in Aliases(t) ==> NoAsciiUpper(a)
  {
  }

  /** Classification ignores letter case. */
  lemma ClassifyIgnoresCase(pref: string)
    ensures Classify(pref) == Classify(Lower(pref))
  {
    LowerIdempotent(pref);
  }

  /** Each element wrapped in the quote string. */
  function Quoted(ids: seq<string>, quot: string): (r: seq<string>)
    ensures |r| == |ids|
    ensures forall i :: 0 <= i < |ids| ==> r[i] == quot + ids[i] + quot
  {
    seq(|ids|, i requires 0 <= i < |ids| => quot + ids[i] + quot)
  }

  /** `list_to_str`: the elements, each wrapped in the quote when one is given, joined by
      commas. */
  function ListToStr(ids: seq<string>, quot: Option<string>): string {
    Join(if quot.Some? then Quoted(ids, quot.value) else ids, ',')
  }

  /** Splitting a rendered list at commas gives back its (quoted) elements, provided no
      element and no quote contains a comma; the empty list renders as "". */
  lemma ListToStrRoundTrip(ids: seq<string>, quot: Option<string>)
    requires forall i :: 0 <= i < |ids| ==> ',' !in ids[i]
    requires quot.Some? ==> ',' !in quot.value
    ensures |ids| == 0 ==> ListToStr(ids, quot) == ""
    ensures |ids| > 0 ==>
      Split(ListToStr(ids, quot), ',') == (if quot.Some? then Quoted(ids, quot.value) else ids)
  {
    var parts := if quot.Some? then Quoted(ids, quot.value) else ids;
    if quot.Some? {
      forall i | 0 <= i < |parts|
        ensures ',' !in parts[i]
      {
        assert parts[i] == quot.value + ids[i] + quot.value;
      }
    }
    if |ids| > 0 {
      SplitJoin(parts, ',');
    }
  }

  const Backtick := "`"

  /** The alias list shown in a group header, e.g. `feature` in backticks. */
  function AliasList(t: BranchType): string {
    ListToStr(Aliases(t), Some(Backtick))
  }

  /** The alias lists as the headers show them: each alias in backticks, separated by
      commas. */
  lemma AliasListsRendered()
    ensures AliasList(Feature) == "`feature`"
    ensures AliasList(Mod) == "`mod`" + "," + "`modification`" + "," + "`refactor`"
    ensures AliasList(Bugfix) == "`bugfix`" + "," + "`bugfixes`" + "," + "`bug`" + "," + "`fix`" + "," + "`hotfix`"
    ensures AliasList(Other) == ""
  {
    var q := Quoted(Aliases(Feature), Backtick);
    assert q[0] == "`feature`";
    assert q == ["`feature`"];
    ModListRendered();
    BugfixListRendered();
  }

  lemma JoinCons(x: string, xs: seq<string>, sep: char)
    requires |xs| > 0
    ensures Join([x] + xs, sep) == x + [sep] + Join(xs, sep)
  {
    assert ([x] + xs)[1..] == xs;
  }

  lemma JoinThree(a: string, b: string, c: string, sep: char)
    ensures Join([a, b, c], sep) == a + [sep] + b + [sep] + c
  {
    JoinCons(b, [c], sep);
    JoinCons(a, [b, c], sep);
    assert [a] + [b, c] == [a, b, c];
    assert [b] + [c] == [b, c];
  }

  lemma JoinFive(a: string, b: string, c: string, d: string, e: string, sep: char)
    ensures Join([a, b, c, d, e], sep) == a + [sep] + b + [sep] + c + [sep] + d + [sep] + e
  {
    JoinThree(c, d, e, sep);
    JoinCons(b, [c, d, e], sep);
    JoinCons(a, [b, c, d, e], sep);
    assert [b] + [c, d, e] == [b, c, d, e];
    assert [a] + [b, c, d, e] == [a, b, c, d, e];
  }

  lemma ModListRendered()
    ensures AliasList(Mod) == "`mod`" + "," + "`modification`" + "," + "`refactor`"
  {
    ModQuoted();
    JoinThree("`mod`", "`modification`", "`refactor`", ',');
  }

  lemma ModQuoted()
    ensures Quoted(Aliases(Mod), Backtick) == ["`mod`", "`modification`", "`refactor`"]
  {
    var q := Quoted(Aliases(Mod), Backtick);
    assert q[0] == "`mod`";
    assert q[1] == "`modification`";
    assert q[2] == "`refactor`";
  }

  lemma BugfixListRendered()
    ensures AliasList(Bugfix) == "`bugfix`" + "," + "`bugfixes`" + "," + "`bug`" + "," + "`fix`" + "," + "`hotfix`"
  {
    BugfixQuoted();
    JoinFive("`bugfix`", "`bugfixes`", "`bug`", "`fix`", "`hotfix`", ',');
  }

  lemma BugfixQuoted()
    ensures Quoted(Aliases(Bugfix), Backtick) == ["`bugfix`", "`bugfixes`", "`bug`", "`fix`", "`hotfix`"]
  {
    var q := Quoted(Aliases(Bugfix), Backtick);
    assert q[0] == "`bugfix`";
    assert q[1] == "`bugfixes`";
    assert q[2] == "`bug`";
    assert q[3] == "`fix`";
    assert q[4] == "`hotfix`";
  }

  /** The header `make_group` files a kind under. The OTHER header has no closing
      parenthesis, as the script writes it. */
  function GroupLabel(t: BranchType): string {
    match t
    case Feature => "Функциональность (" + AliasList(Feature) + ")"
    case Mod => "Доработки / Модификации (" + AliasList(Mod) + ")"
    case Bugfix => "Багфиксы (" + AliasList(Bugfix) + ")"
    case Other => "Прочее (" + AliasList(Other)
  }

  /** Distinct kinds get distinct headers, so the header-keyed dictionary of `make_group`
      never merges two kinds. */
  lemma GroupLabelInjective(t: BranchType, u: BranchType)
    ensures GroupLabel(t) == GroupLabel(u) <==> t == u
  {
    if GroupLabel(t) == GroupLabel(u) {
      assert GroupLabel(t)[0] == GroupLabel(u)[0];
    }
  }

  /** The OTHER header is `Прочее (` with nothing after it. */
  lemma OtherLabelUnclosed()
    ensures GroupLabel(Other) == "Прочее ("
    ensures ')' !in GroupLabel(Other)
  {
    AliasListsRendered();
  }
}
