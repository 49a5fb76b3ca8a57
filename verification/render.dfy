/**
 * The output loop of release_notes.py (lines 184-215): the fixed header, one section per
 * non-empty group with its keys sorted by issue number, and the footer.
 */
module Rendering {
  import opened Wrappers
  import opened Seqs
  import opened Text
  import opened Sorting
  import opened Parsing
  import opened Grouping

  /** What the tracker returns for one issue: its summary and the text of its status. */
  datatype Issue = Issue(summary: string, status: string)

  const TitlePlaceholder := "[Название не найдено]"
  const StatusPlaceholder := "[Todo]"
  const Footer := "#release #backend #patch"

  /** The sort key of this key could not be computed (release_notes.py:201). */
  datatype RenderError = UnnumberedKey(key: string)

  // ---------------------------------------------------------------------------
  // One bullet
  // ---------------------------------------------------------------------------

  /** The bullet of one key: the stripped summary and status of its issue, or the
      placeholders when the tracker did not return it. */
  function Bullet(key: string, issues: map<string, Issue>): string {
    var title := if key in issues then Strip(issues[key].summary) else TitlePlaceholder;
    var status := if key in issues then issues[key].status else StatusPlaceholder;
    "  + " + title + " (задача " + key + ")[" + status + "]"
  }

  /** A key the tracker did not return gets both placeholders; the status placeholder already
      carries brackets, so it appears doubled. */
  lemma MissingIssueBullet(key: string, issues: map<string, Issue>)
    requires key !in issues
    ensures Bullet(key, issues) == "  + " + TitlePlaceholder + " (задача " + key + ")[[Todo]]"
  {
  }

  /** A returned issue whose summary is only whitespace gets an empty title. */
  lemma BlankSummaryBullet(key: string, issues: map<string, Issue>)
    requires key in issues
    requires forall i :: 0 <= i < |issues[key].summary| ==> IsSpace(issues[key].summary[i])
    ensures Bullet(key, issues) == "  +  (задача " + key + ")[" + issues[key].status + "]"
  {
  }

  // ---------------------------------------------------------------------------
  // The sort key
  // ---------------------------------------------------------------------------

  /** The sort key of release_notes.py:201: the second dash-separated field of the key read
      as a decimal number, or None where that field is missing or not a numeral. */
  function SortId(key: string): Option<nat> {
    var fields := Split(key, '-');
    if |fields| < 2 then None else ParseDecimal(fields[1])
  }

  /** The sort key with 0 standing in where there is none. */
  function NumericId(key: string): int {
    match SortId(key)
    case Some(v) => v
    case None => 0
  }

  /** Every base key of a dash-free prefix has a sort key: the number after the dash. */
  lemma BaseKeySortId(k: string, p: string)
    requires IsBaseKey(k, p)
    requires '-' !in p
    ensures SortId(k) == Some(DecimalValue(k[|p| + 1..]))
  {
    var d := k[|p| + 1..];
    assert k == p + "-" + d;
    assert '-' !in d by {
      assert forall i :: 0 <= i < |d| ==> IsDigit(d[i]);
    }
    assert Join([p, d], '-') == p + ['-'] + Join([d], '-');
    SplitJoin([p, d], '-');
  }

  /** Writing a number after a dash-free prefix and reading the sort key back gives the
      number. */
  lemma SortIdRoundTrip(p: string, n: nat)
    requires '-' !in p
    ensures SortId(p + "-" + NatToDecimal(n)) == Some(n)
  {
    var k := p + "-" + NatToDecimal(n);
    assert k[|p| + 1..] == NatToDecimal(n);
    BaseKeySortId(k, p);
  }

  /** Index of the first key without a sort key, or the number of keys. */
  function FirstUnnumbered(keys: seq<string>): (i: nat)
    ensures i <= |keys|
    ensures forall j :: 0 <= j < i ==> SortId(keys[j]).Some?
    ensures i < |keys| ==> SortId(keys[i]).None?
  {
    if |keys| == 0 then 0
    else if SortId(keys[0]).None? then 0
    else 1 + FirstUnnumbered(keys[1..])
  }

  /** The sort of release_notes.py:201: the sort key is computed for every key in list
      order, and the first key without one aborts the sort. */
  function SortedKeys(keys: seq<string>): Result<seq<string>, RenderError> {
    var i := FirstUnnumbered(keys);
    if i < |keys| then Failure(UnnumberedKey(keys[i])) else Success(SortBy(keys, NumericId))
  }

  /** The keys with sort key v, in order. */
  function KeysNumbered(keys: seq<string>, v: nat): seq<string> {
    WithId(keys, NumericId, v)
  }

  /**
   * The sort fails exactly when some key has no sort key, naming such a key; otherwise it
   * returns a permutation of the keys in ascending order of their numbers, and keys with
   * the same number keep their order.
   */
  lemma SortedKeysSpec(keys: seq<string>)
    ensures SortedKeys(keys).Failure? <==> exists i :: 0 <= i < |keys| && SortId(keys[i]).None?
    ensures SortedKeys(keys).Failure? ==>
      SortedKeys(keys).error.key in keys && SortId(SortedKeys(keys).error.key).None?
    ensures SortedKeys(keys).Success? ==> var ks := SortedKeys(keys).value;
      && multiset(ks) == multiset(keys)
      && (forall i :: 0 <= i < |ks| ==> SortId(ks[i]).Some?)
      && (forall i, j :: 0 <= i < j < |ks| ==> SortId(ks[i]).value <= SortId(ks[j]).value)
      && (forall v: nat :: KeysNumbered(ks, v) == KeysNumbered(keys, v))
  {
    if SortedKeys(keys).Success? {
      var ks := SortBy(keys, NumericId);
      forall i | 0 <= i < |ks|
        ensures SortId(ks[i]).Some?
      {
        assert ks[i] in multiset(keys);
      }
      forall i, j | 0 <= i < j < |ks|
        ensures SortId(ks[i]).value <= SortId(ks[j]).value
      {
        assert NumericId(ks[i]) <= NumericId(ks[j]);
      }
      forall v: nat
        ensures KeysNumbered(ks, v) == KeysNumbered(keys, v)
      {
        SortByStable(keys, NumericId, v);
      }
    }
  }

  /** A list of keys whose numbers come in the order second, third, first sorts to that
      order. */
  lemma SortedKeysOfThree(a: string, b: string, c: string)
    requires SortId(a).Some? && SortId(b).Some? && SortId(c).Some?
    requires SortId(b).value < SortId(c).value < SortId(a).value
    ensures SortedKeys([a, b, c]) == Success([b, c, a])
  {
    var keys := [a, b, c];
    assert keys[1..] == [b, c] && keys[1..][1..] == [c] && keys[1..][1..][1..] == [];
    assert FirstUnnumbered(keys) == 3;
    SortThree(a, b, c, NumericId);
  }

  /** Keys sort by their number, not as text: with any dash-free prefix, `-100` comes after
      `-2` and `-30`. */
  lemma SortedKeysExample(p: string)
    requires '-' !in p
    ensures SortedKeys([p + "-" + NatToDecimal(100), p + "-" + NatToDecimal(2), p + "-" + NatToDecimal(30)])
         == Success([p + "-" + NatToDecimal(2), p + "-" + NatToDecimal(30), p + "-" + NatToDecimal(100)])
  {
    SortIdRoundTrip(p, 100);
    SortIdRoundTrip(p, 2);
    SortIdRoundTrip(p, 30);
    SortedKeysOfThree(p + "-" + NatToDecimal(100), p + "-" + NatToDecimal(2), p + "-" + NatToDecimal(30));
  }

  // ---------------------------------------------------------------------------
  // Sections and the document
  // ---------------------------------------------------------------------------

  function GroupHeading(header: string): string {
    "- **" + header + ":**"
  }

  function Bullets(keys: seq<string>, issues: map<string, Issue>): (r: seq<string>)
    ensures |r| == |keys|
    ensures forall i :: 0 <= i < |keys| ==> r[i] == Bullet(keys[i], issues)
  {
    Map(keys, key => Bullet(key, issues))
  }

  /** The lines of one group: nothing for an empty group, otherwise its heading, a bullet
      per key in sorted order, and a blank line. */
  function Section(g: Group, issues: map<string, Issue>): Result<seq<string>, RenderError> {
    if |g.keys| == 0 then Success([])
    else
      match SortedKeys(g.keys)
      case Failure(e) => Failure(e)
      case Success(ks) => Success([GroupHeading(g.header)] + Bullets(ks, issues) + [""])
  }

  /** The sections of all groups in dictionary order; the first failing sort aborts. */
  function Sections(gs: seq<Group>, issues: map<string, Issue>): Result<seq<string>, RenderError> {
    if |gs| == 0 then Success([])
    else
      match Section(gs[0], issues)
      case Failure(e) => Failure(e)
      case Success(first) =>
        match Sections(gs[1..], issues)
        case Failure(e) => Failure(e)
        case Success(rest) => Success(first + rest)
  }

  /** The eight fixed lines before the sections. */
  function Header(release: string, develop: string, date: string): (r: seq<string>)
    ensures |r| == 8
  {
    [ "### Release Notes", ""
    , "Release Version: " + release
    , "Develop Version: " + develop
    , "Дата релиза: " + date
    , "", "### Основные изменения:", "" ]
  }

  /** The output lines of release_notes.py:184-215: header, sections, footer. */
  function RenderLines(gs: seq<Group>, issues: map<string, Issue>, release: string, develop: string, date: string)
    : (r: Result<seq<string>, RenderError>)
    ensures r.Success? ==> |r.value| >= 9 && r.value[..8] == Header(release, develop, date)
    ensures r.Success? ==> r.value[|r.value| - 1] == Footer
    ensures r.Failure? <==> Sections(gs, issues).Failure?
    ensures r.Success? ==> r.value == Header(release, develop, date) + Sections(gs, issues).value + [Footer]
  {
    match Sections(gs, issues)
    case Failure(e) => Failure(e)
    case Success(body) =>
      var doc := Header(release, develop, date) + body + [Footer];
      assert doc[..8] == Header(release, develop, date);
      Success(doc)
  }

  /** Number of groups with at least one key. */
  function NonEmptyGroups(gs: seq<Group>): nat {
    if |gs| == 0 then 0 else (if |gs[0].keys| > 0 then 1 else 0) + NonEmptyGroups(gs[1..])
  }

  /** Rendering fails exactly when a group holds a key without a sort key, and the failure
      names such a key. */
  lemma {:induction false} SectionsFailIff(gs: seq<Group>, issues: map<string, Issue>)
    ensures Sections(gs, issues).Failure? <==>
      exists m, i :: 0 <= m < |gs| && 0 <= i < |gs[m].keys| && SortId(gs[m].keys[i]).None?
    ensures Sections(gs, issues).Failure? ==>
      SortId(Sections(gs, issues).error.key).None? &&
      exists m :: 0 <= m < |gs| && Sections(gs, issues).error.key in gs[m].keys
  {
    if |gs| > 0 {
      SectionsFailIff(gs[1..], issues);
      SortedKeysSpec(gs[0].keys);
      if Sections(gs, issues).Failure? {
        if Section(gs[0], issues).Failure? {
          assert Sections(gs, issues).error.key in gs[0].keys;
        } else {
          var m :| 0 <= m < |gs[1..]| && Sections(gs, issues).error.key in gs[1..][m].keys;
          assert gs[1..][m] == gs[m + 1];
        }
      }
      if exists m, i :: 0 <= m < |gs| && 0 <= i < |gs[m].keys| && SortId(gs[m].keys[i]).None? {
        var m, i :| 0 <= m < |gs| && 0 <= i < |gs[m].keys| && SortId(gs[m].keys[i]).None?;
        if m > 0 {
          assert gs[1..][m - 1] == gs[m];
        }
      }
    }
  }

  /** One rendered section: a bullet line per key plus heading and blank line, and a
      bullet for every key. */
  lemma SectionContent(g: Group, issues: map<string, Issue>)
    requires Section(g, issues).Success?
    ensures |Section(g, issues).value| == |g.keys| + (if |g.keys| > 0 then 2 else 0)
    ensures forall k :: k in g.keys ==> Bullet(k, issues) in Section(g, issues).value
  {
    if |g.keys| > 0 {
      var ks := SortBy(g.keys, NumericId);
      assert Section(g, issues).value == [GroupHeading(g.header)] + Bullets(ks, issues) + [""];
      assert |ks| == |multiset(ks)| == |g.keys|;
      MapCovers(g.keys, ks, key => Bullet(key, issues));
    }
  }

  // ---------------------------------------------------------------------------
  // The layout of the rendered lines
  // ---------------------------------------------------------------------------

  /** ks is keys sorted by number: a permutation of keys, every key numbered, ascending, and
      keys with the same number in their original order. */
  ghost predicate SortedByNumber(ks: seq<string>, keys: seq<string>) {
    && multiset(ks) == multiset(keys)
    && (forall i :: 0 <= i < |ks| ==> SortId(ks[i]).Some?)
    && (forall i, j :: 0 <= i < j < |ks| ==> SortId(ks[i]).value <= SortId(ks[j]).value)
    && (forall v: nat :: KeysNumbered(ks, v) == KeysNumbered(keys, v))
  }

  /** The lines from position at are the heading of g, a bullet per key of ks, and a blank
      line. */
  predicate SectionWith(lines: seq<string>, at: nat, g: Group, ks: seq<string>, issues: map<string, Issue>) {
    Placed(lines, at, [GroupHeading(g.header)] + Bullets(ks, issues) + [""])
  }

  /** The section of g stands in lines from position at: the heading, a bullet per key of g
      in ascending number order, and a blank line. */
  ghost predicate SectionAt(lines: seq<string>, at: nat, g: Group, issues: map<string, Issue>) {
    exists ks :: SortedByNumber(ks, g.keys) && SectionWith(lines, at, g, ks, issues)
  }

  /** A rendered group: nothing when it is empty, otherwise exactly its heading, its bullets
      sorted by number and a blank line. */
  lemma SectionShape(g: Group, issues: map<string, Issue>)
    requires Section(g, issues).Success?
    ensures |g.keys| == 0 ==> Section(g, issues).value == []
    ensures |g.keys| > 0 ==> |Section(g, issues).value| == |g.keys| + 2
    ensures |g.keys| > 0 ==> SectionAt(Section(g, issues).value, 0, g, issues)
  {
    if |g.keys| > 0 {
      SortedKeysSpec(g.keys);
      var ks := SortedKeys(g.keys).value;
      var v := Section(g, issues).value;
      assert v == [GroupHeading(g.header)] + Bullets(ks, issues) + [""];
      assert SortedByNumber(ks, g.keys);
      assert |ks| == |multiset(ks)| == |g.keys|;
      assert v[0..|ks| + 2] == v;
      assert SectionWith(v, 0, g, ks, issues);
    }
  }

  /** A section inside lines placed in a larger document stands in the document, at the
      sum of the two positions. */
  lemma SectionAtWithin(doc: seq<string>, off: nat, lines: seq<string>, at: nat, pos: nat, g: Group,
                        issues: map<string, Issue>)
    requires Placed(doc, off, lines)
    requires SectionAt(lines, at, g, issues)
    requires pos == off + at
    ensures SectionAt(doc, pos, g, issues)
  {
    var ks :| SortedByNumber(ks, g.keys) && SectionWith(lines, at, g, ks, issues);
    PlacedWithin(doc, off, lines, at, [GroupHeading(g.header)] + Bullets(ks, issues) + [""]);
    assert SectionWith(doc, pos, g, ks, issues);
  }

  /** Lines the sections of the first m groups take: a bullet per key and two more lines
      per non-empty group. */
  function Offset(gs: seq<Group>, m: nat): nat
    requires m <= |gs|
  {
    |Flatten(gs[..m])| + 2 * NonEmptyGroups(gs[..m])
  }

  lemma OffsetCons(gs: seq<Group>, m: nat)
    requires 0 < m <= |gs|
    ensures Offset(gs, m) == |gs[0].keys| + (if |gs[0].keys| > 0 then 2 else 0) + Offset(gs[1..], m - 1)
  {
    assert gs[..m][0] == gs[0];
    assert gs[..m][1..] == gs[1..][..m - 1];
  }

  /** A rendered body is the first group's lines followed by the rest's. */
  lemma SectionsCons(gs: seq<Group>, issues: map<string, Issue>)
    requires |gs| > 0 && Sections(gs, issues).Success?
    ensures Section(gs[0], issues).Success? && Sections(gs[1..], issues).Success?
    ensures Sections(gs, issues).value == Section(gs[0], issues).value + Sections(gs[1..], issues).value
  {
  }

  /** Where the first group's lines end, the rest's offsets begin. */
  lemma OffsetAfterFirst(gs: seq<Group>, issues: map<string, Issue>, m: nat)
    requires Sections(gs, issues).Success?
    requires 0 < m < |gs|
    ensures Section(gs[0], issues).Success?
    ensures Offset(gs, m) == |Section(gs[0], issues).value| + Offset(gs[1..], m - 1)
  {
    SectionsCons(gs, issues);
    SectionContent(gs[0], issues);
    OffsetCons(gs, m);
  }

  /** The first group's lines open the body. */
  lemma SectionPlacedFirst(gs: seq<Group>, issues: map<string, Issue>)
    requires |gs| > 0 && Sections(gs, issues).Success?
    ensures Section(gs[0], issues).Success?
    ensures Placed(Sections(gs, issues).value, Offset(gs, 0), Section(gs[0], issues).value)
  {
    SectionsCons(gs, issues);
    var first := Section(gs[0], issues).value;
    assert gs[..0] == [];
    assert (first + Sections(gs[1..], issues).value)[0..|first|] == first;
  }

  /** A group placed in the body of the groups after the first is placed in the whole body,
      after the first group's lines. */
  lemma SectionPlacedLater(gs: seq<Group>, issues: map<string, Issue>, m: nat)
    requires Sections(gs, issues).Success?
    requires 0 < m < |gs|
    requires Sections(gs[1..], issues).Success? && Section(gs[m], issues).Success?
    requires Placed(Sections(gs[1..], issues).value, Offset(gs[1..], m - 1), Section(gs[m], issues).value)
    ensures Placed(Sections(gs, issues).value, Offset(gs, m), Section(gs[m], issues).value)
  {
    SectionsCons(gs, issues);
    OffsetAfterFirst(gs, issues, m);
    PlacedAfter(Sections(gs, issues).value, Section(gs[0], issues).value, Sections(gs[1..], issues).value,
                Offset(gs[1..], m - 1), Offset(gs, m), Section(gs[m], issues).value);
  }

  /** Rendering group m succeeds when the whole body does, and its lines stand in the body
      right after the lines of the groups before it. */
  lemma {:induction false} SectionPlaced(gs: seq<Group>, issues: map<string, Issue>, m: nat)
    requires Sections(gs, issues).Success?
    requires m < |gs|
    ensures Section(gs[m], issues).Success?
    ensures Placed(Sections(gs, issues).value, Offset(gs, m), Section(gs[m], issues).value)
  {
    if m == 0 {
      SectionPlacedFirst(gs, issues);
    } else {
      SectionsCons(gs, issues);
      assert gs[1..][m - 1] == gs[m];
      SectionPlaced(gs[1..], issues, m - 1);
      SectionPlacedLater(gs, issues, m);
    }
  }

  /** The section of the non-empty group m stands right after the lines of the groups
      before it. */
  lemma SectionsLayoutAt(gs: seq<Group>, issues: map<string, Issue>, m: nat)
    requires Sections(gs, issues).Success?
    requires m < |gs| && |gs[m].keys| > 0
    ensures SectionAt(Sections(gs, issues).value, Offset(gs, m), gs[m], issues)
  {
    assert Section(gs[m], issues).Success? &&
      Placed(Sections(gs, issues).value, Offset(gs, m), Section(gs[m], issues).value) by {
      SectionPlaced(gs, issues, m);
    }
    assert SectionAt(Section(gs[m], issues).value, 0, gs[m], issues) by {
      SectionShape(gs[m], issues);
    }
    SectionAtWithin(Sections(gs, issues).value, Offset(gs, m), Section(gs[m], issues).value, 0, Offset(gs, m),
                    gs[m], issues);
  }

  /** The rendered body is the groups' sections in group order: the section of every
      non-empty group stands right after the lines of the groups before it. */
  lemma SectionsLayout(gs: seq<Group>, issues: map<string, Issue>)
    requires Sections(gs, issues).Success?
    ensures forall m :: 0 <= m < |gs| && |gs[m].keys| > 0 ==>
      SectionAt(Sections(gs, issues).value, Offset(gs, m), gs[m], issues)
  {
    forall m | 0 <= m < |gs| && |gs[m].keys| > 0
      ensures SectionAt(Sections(gs, issues).value, Offset(gs, m), gs[m], issues)
    {
      SectionsLayoutAt(gs, issues, m);
    }
  }

  /** A rendered body has a bullet line per key and two more lines per non-empty group, and
      every key of every group has its bullet in it. */
  lemma {:induction false} SectionsContent(gs: seq<Group>, issues: map<string, Issue>)
    requires Sections(gs, issues).Success?
    ensures |Sections(gs, issues).value| == |Flatten(gs)| + 2 * NonEmptyGroups(gs)
    ensures forall k :: k in Flatten(gs) ==> Bullet(k, issues) in Sections(gs, issues).value
  {
    if |gs| > 0 {
      var first := Section(gs[0], issues).value;
      var rest := Sections(gs[1..], issues).value;
      SectionsContent(gs[1..], issues);
      SectionContent(gs[0], issues);
      assert Sections(gs, issues).value == first + rest;
      assert Flatten(gs) == gs[0].keys + Flatten(gs[1..]);
    }
  }

  /** In the rendered document, the section of a non-empty group stands after the eight
      header lines and the lines of the groups before it. */
  lemma DocumentLayoutAt(gs: seq<Group>, issues: map<string, Issue>, release: string, develop: string,
                         date: string, m: nat)
    requires RenderLines(gs, issues, release, develop, date).Success?
    requires m < |gs| && |gs[m].keys| > 0
    ensures SectionAt(RenderLines(gs, issues, release, develop, date).value, 8 + Offset(gs, m), gs[m], issues)
  {
    var doc := RenderLines(gs, issues, release, develop, date).value;
    var body := Sections(gs, issues).value;
    assert Placed(doc, 8, body) by {
      PlacedMiddle(Header(release, develop, date), body, [Footer]);
    }
    assert SectionAt(body, Offset(gs, m), gs[m], issues) by {
      SectionsLayoutAt(gs, issues, m);
    }
    SectionAtWithin(doc, 8, body, Offset(gs, m), 8 + Offset(gs, m), gs[m], issues);
  }

  /** In the rendered document, the section of every non-empty group stands after the
      eight header lines and the lines of the groups before it. */
  lemma DocumentLayout(gs: seq<Group>, issues: map<string, Issue>, release: string, develop: string, date: string)
    requires RenderLines(gs, issues, release, develop, date).Success?
    ensures forall m :: 0 <= m < |gs| && |gs[m].keys| > 0 ==>
      SectionAt(RenderLines(gs, issues, release, develop, date).value, 8 + Offset(gs, m), gs[m], issues)
  {
    forall m | 0 <= m < |gs| && |gs[m].keys| > 0
      ensures SectionAt(RenderLines(gs, issues, release, develop, date).value, 8 + Offset(gs, m), gs[m], issues)
    {
      DocumentLayoutAt(gs, issues, release, develop, date, m);
    }
  }
}
