/**
 * release_notes.py end to end, without its I/O: parse the merge lines, stop when there is
 * nothing to report, fetch the issues, group, sort and render.
 */
module ReleaseNotes {
  import opened Wrappers
  import opened Text
  import opened BranchTypes
  import opened Parsing
  import opened Grouping
  import opened Rendering

  /** How a run ends. */
  datatype Outcome =
    | UnsetPrefix                 // the typo guard raises on an unset prefix
    | NothingToReport             // no base key was recorded (lines 130-132)
    | TrackerUnavailable          // the issue search raised (lines 153-155)
    | BadIssueNumber(key: string)  // a sort key could not be computed (line 201)
    | Notes(text: string)         // the joined document (line 218)

  /**
   * One run. The tracker's answer is a parameter: the issues it returned by key, or the
   * error it raised.
   */
  function BuildReleaseNotes(merges: seq<string>, prefix: Option<string>,
                             tracker: Result<map<string, Issue>, string>,
                             release: string, develop: string, date: string): (o: Outcome)
    ensures o.UnsetPrefix? <==> ParseConfigured(merges, prefix).Failure?
    ensures o.UnsetPrefix? ==> prefix.None?
    ensures o.NothingToReport? <==> ParseConfigured(merges, prefix) == Success([])
    ensures prefix.None? ==> o.UnsetPrefix? || o.NothingToReport?
    ensures o.TrackerUnavailable? <==>
      ParseConfigured(merges, prefix).Success? && |ParseConfigured(merges, prefix).value| > 0 && tracker.Failure?
    ensures o.BadIssueNumber? <==>
      && ParseConfigured(merges, prefix).Success? && |ParseConfigured(merges, prefix).value| > 0
      && tracker.Success?
      && RenderLines(MakeGroup(ParseConfigured(merges, prefix).value), tracker.value, release, develop, date).Failure?
    ensures o.BadIssueNumber? ==>
      o.key == RenderLines(MakeGroup(ParseConfigured(merges, prefix).value), tracker.value, release, develop, date).error.key
  {
    match ParseConfigured(merges, prefix)
    case Failure(_) => UnsetPrefix
    case Success(reg) =>
      if |reg| == 0 then NothingToReport
      else
        match tracker
        case Failure(_) => TrackerUnavailable
        case Success(issues) =>
          match RenderLines(MakeGroup(reg), issues, release, develop, date)
          case Failure(e) => BadIssueNumber(e.key)
          case Success(doc) => Notes(Join(doc, '\n'))
  }

  lemma {:induction false} InFlatten(gs: seq<Group>, m: nat, k: string)
    requires m < |gs| && k in gs[m].keys
    ensures k in Flatten(gs)
  {
    if m > 0 {
      InFlatten(gs[1..], m - 1, k);
    }
  }

  lemma {:induction false} FromFlatten(gs: seq<Group>, k: string)
    requires k in Flatten(gs)
    ensures exists m, i :: 0 <= m < |gs| && 0 <= i < |gs[m].keys| && gs[m].keys[i] == k
  {
    if k in gs[0].keys {
      var i :| 0 <= i < |gs[0].keys| && gs[0].keys[i] == k;
    } else {
      FromFlatten(gs[1..], k);
      var m, i :| 0 <= m < |gs[1..]| && 0 <= i < |gs[1..][m].keys| && gs[1..][m].keys[i] == k;
      assert gs[m + 1].keys[i] == k;
    }
  }

  lemma {:induction false} AllNonEmpty(gs: seq<Group>)
    requires forall m :: 0 <= m < |gs| ==> |gs[m].keys| > 0
    ensures NonEmptyGroups(gs) == |gs|
  {
    if |gs| > 0 {
      AllNonEmpty(gs[1..]);
    }
  }

  /** Every key the groups hold is a base key of the prefix. */
  lemma GroupedKeysAreBaseKeys(merges: seq<string>, p: string, m: nat, k: string)
    requires m < |MakeGroup(Parse(merges, p))| && k in MakeGroup(Parse(merges, p))[m].keys
    ensures IsBaseKey(k, p)
  {
    var reg := Parse(merges, p);
    MakeGroupPartition(reg);
    InFlatten(MakeGroup(reg), m, k);
    assert k in Keys(reg);
  }

  /** With a prefix free of dashes, every recorded key has a number, so the sort never
      fails. */
  lemma DashFreePrefixNeverCrashes(merges: seq<string>, p: string,
                                   tracker: Result<map<string, Issue>, string>,
                                   release: string, develop: string, date: string)
    requires '-' !in p
    ensures !BuildReleaseNotes(merges, Some(p), tracker, release, develop, date).BadIssueNumber?
  {
    var reg := Parse(merges, p);
    if |reg| > 0 && tracker.Success? {
      var gs := MakeGroup(reg);
      SectionsFailIff(gs, tracker.value);
      forall m, i | 0 <= m < |gs| && 0 <= i < |gs[m].keys|
        ensures SortId(gs[m].keys[i]).Some?
      {
        GroupedKeysAreBaseKeys(merges, p, m, gs[m].keys[i]);
        BaseKeySortId(gs[m].keys[i], p);
      }
    }
  }

  /** Rendering the groups of a registry fails exactly when some recorded key has no
      number, and the failure names such a key. */
  lemma RenderFailsIff(reg: seq<Entry>, issues: map<string, Issue>, release: string, develop: string, date: string)
    requires UniqueKeys(reg)
    ensures RenderLines(MakeGroup(reg), issues, release, develop, date).Failure? <==>
      exists a :: 0 <= a < |reg| && SortId(reg[a].key).None?
    ensures RenderLines(MakeGroup(reg), issues, release, develop, date).Failure? ==>
      && SortId(RenderLines(MakeGroup(reg), issues, release, develop, date).error.key).None?
      && RenderLines(MakeGroup(reg), issues, release, develop, date).error.key in Keys(reg)
  {
    var gs := MakeGroup(reg);
    SectionsFailIff(gs, issues);
    if Sections(gs, issues).Failure? {
      var k := Sections(gs, issues).error.key;
      var m :| 0 <= m < |gs| && k in gs[m].keys;
      InFlatten(gs, m, k);
      MakeGroupKeys(reg, k);
      var a :| 0 <= a < |reg| && Keys(reg)[a] == k;
      assert SortId(reg[a].key).None?;
    }
    if exists a :: 0 <= a < |reg| && SortId(reg[a].key).None? {
      var a :| 0 <= a < |reg| && SortId(reg[a].key).None?;
      assert Keys(reg)[a] == reg[a].key;
      MakeGroupKeys(reg, reg[a].key);
      FromFlatten(gs, reg[a].key);
    }
  }

  /**
   * A run with a prefix and the issues in hand stops on a bad issue number exactly when
   * some recorded key has no number, and then names such a key.
   */
  lemma BadIssueNumberIff(merges: seq<string>, p: string, issues: map<string, Issue>,
                          release: string, develop: string, date: string)
    ensures BuildReleaseNotes(merges, Some(p), Success(issues), release, develop, date).BadIssueNumber? <==>
      exists a :: 0 <= a < |Parse(merges, p)| && SortId(Parse(merges, p)[a].key).None?
    ensures BuildReleaseNotes(merges, Some(p), Success(issues), release, develop, date).BadIssueNumber? ==>
      && SortId(BuildReleaseNotes(merges, Some(p), Success(issues), release, develop, date).key).None?
      && BuildReleaseNotes(merges, Some(p), Success(issues), release, develop, date).key in Keys(Parse(merges, p))
  {
    RenderFailsIff(Parse(merges, p), issues, release, develop, date);
  }

  /**
   * The document of a successful run: the header, one section per kind present (a heading,
   * one bullet per recorded key, a blank line), and the footer; every recorded key has its
   * bullet.
   */
  lemma NotesLayout(merges: seq<string>, p: string, issues: map<string, Issue>,
                    release: string, develop: string, date: string)
    requires BuildReleaseNotes(merges, Some(p), Success(issues), release, develop, date).Notes?
    ensures var reg := Parse(merges, p);
      var doc := RenderLines(MakeGroup(reg), issues, release, develop, date).value;
      && BuildReleaseNotes(merges, Some(p), Success(issues), release, develop, date).text == Join(doc, '\n')
      && doc == Header(release, develop, date) + Sections(MakeGroup(reg), issues).value + [Footer]
      && doc[..8] == Header(release, develop, date)
      && doc[|doc| - 1] == Footer
      && |doc| == 9 + |reg| + 2 * |KindsInOrder(reg)|
      && (forall a :: 0 <= a < |reg| ==> Bullet(reg[a].key, issues) in doc)
  {
    var reg := Parse(merges, p);
    var gs := MakeGroup(reg);
    var body := Sections(gs, issues).value;
    var doc := RenderLines(gs, issues, release, develop, date).value;
    assert doc == Header(release, develop, date) + body + [Footer];
    SectionsContent(gs, issues);
    MakeGroupPartition(reg);
    MakeGroupIsPartition(reg);
    AllNonEmpty(gs);
    GroupByKeepsKeys(reg, GroupLabel);
    assert |Flatten(gs)| == |multiset(Flatten(gs))| == |multiset(Keys(reg))| == |reg|;
    forall a | 0 <= a < |reg|
      ensures Bullet(reg[a].key, issues) in doc
    {
      assert Keys(reg)[a] == reg[a].key;
      assert reg[a].key in multiset(Flatten(gs));
      assert Bullet(reg[a].key, issues) in body;
    }
  }

  /**
   * The sections of a successful run's document, group by group in order of first
   * appearance: each group's heading, its bullets sorted by number and a blank line stand
   * after the header and the lines of the groups before it.
   */
  lemma NotesSections(merges: seq<string>, p: string, issues: map<string, Issue>,
                      release: string, develop: string, date: string)
    requires BuildReleaseNotes(merges, Some(p), Success(issues), release, develop, date).Notes?
    ensures forall m :: 0 <= m < |MakeGroup(Parse(merges, p))| ==>
      SectionAt(RenderLines(MakeGroup(Parse(merges, p)), issues, release, develop, date).value,
                8 + Offset(MakeGroup(Parse(merges, p)), m), MakeGroup(Parse(merges, p))[m], issues)
  {
    var reg := Parse(merges, p);
    var gs := MakeGroup(reg);
    assert RenderLines(gs, issues, release, develop, date).Success?;
    forall m | 0 <= m < |gs|
      ensures SectionAt(RenderLines(gs, issues, release, develop, date).value, 8 + Offset(gs, m), gs[m], issues)
    {
      MakeGroupNonEmpty(reg, m);
      DocumentLayoutAt(gs, issues, release, develop, date, m);
    }
  }
}
