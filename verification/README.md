# Release-notes generator, modelled in Dafny

The repository has two scripts:

- `extract_webdev_merges.py` keeps the merge-commit lines of `git log` whose branch name carries an issue prefix.
- `release_notes.py` turns those lines into a Markdown release-notes document.

`release_notes.py` works in five steps:

1. It finds the branch name in every merge line.
2. It classifies the branch's type prefix (`feature/`, `fix/`, ...).
3. It records each issue's base key (`WEBDEV-42`). The first classification wins.
4. It groups the keys under one header per branch type.
5. It sorts each group by issue number and renders the document, with the issue-tracker data for each key.

This project models both scripts as pure functions over sequences and proves properties about them. The modules follow the scripts' structure:

| module | file | models |
|---|---|---|
| `Wrappers` | wrappers.dfy | `Option` and `Result` for the paths where the scripts skip, return nothing, or raise |
| `Seqs` | seqs.dfy | generic helpers on sequences: mapping a function over a sequence, and a part standing at a position |
| `Text` | text.dfy | the Python string operations the scripts use: ASCII case folding, `strip`, `split`/`join` on one character, and decimal numerals |
| `MergeFilter` | merge_filter.dfy | `extract_lines`, and the `git log` argument list |
| `BranchTypes` | branch_type.dfy | `BranchType`, `classify_branch_type`, `list_to_str`, and the group headers |
| `Parsing` | parse.dfy | the parse loop that builds the registry (`tasks`) of base keys |
| `Grouping` | group.dfy | `make_group` |
| `Sorting` | sort.dfy | the stable sort behind `sorted(..., key=...)` |
| `Rendering` | render.dfy | the output loop: header, sorted sections, bullets and footer |
| `ReleaseNotes` | pipeline.dfy | one run of `release_notes.py` from merge lines to document, with every way the run can end |

The model represents the scripts' inputs this way:
- **Regexes:** each one becomes a hand-written scanner. A lemma proves the scanner equal to a declarative "the pattern matches here" predicate.
- **`re.IGNORECASE`:** matching against the line with its ASCII letters lowered.
- **Registry:** a sequence of `(key, kind)` entries in insertion order, like the dictionary it models.
- **Groups:** a sequence of `(header, keys)` pairs in insertion order, like the `defaultdict` it models.

Some behaviour of the code is easy to misread; the model follows the code as written:

- **Typo guard (release_notes.py:113-115).** The comment at line 113 says the guard skips obvious typos such as `WEBDEB`. The code skips a task key when its lower-cased form contains the prefix at all. The key already starts with `<prefix>-` at that point, so the guard fires exactly when the prefix has no upper-case letter (`Parsing.TypoGuardIff`):
  - With an upper-case prefix such as `WEBDEV`, it never fires (`Parsing.UpperCasePrefixGuardInert`).
  - With a lower-case or empty prefix, it rejects every line, so the registry is empty (`Parsing.LowerCasePrefixEmptyRegistry`).
- **Group order (release_notes.py:166-195).** `make_group` fills a `defaultdict`, and the output loop walks its keys in insertion order. A group therefore appears where its branch type first appears in the registry (`Grouping.KindsInFirstSeenOrder`).
- **Missing issues (release_notes.py:209-212).** The status placeholder `[Todo]` is written inside the bullet's own brackets, so a missing issue renders with `[[Todo]]` (`Rendering.MissingIssueBullet`).
- **Sort keys (release_notes.py:200-201).** The comment at line 200 gives the sort key of `WEBDEV-100` as `100`: the second dash-separated field, read as a number. Every recorded key has such a number when the prefix contains no dash (`ReleaseNotes.DashFreePrefixNeverCrashes`). With a prefix such as `WEB-DEV`, the second dash-separated field is `DEV`, and reading it as a number raises. The model returns `BadIssueNumber` for this case.
- **Unset prefix (release_notes.py:23, 110-114).** If no `--prefix` or `PREFIX` is given, the prefix is `None`. The f-strings then read it as the text `None`. The first line whose task key starts with `None-` reaches the typo guard, which then tests a missing value for containment in a string and raises `TypeError` (`Parsing.ParseConfiguredRaises`). Any other input ends with nothing to report (`Parsing.ParseConfigured`).

## Model

| member | source | states |
|---|---|---|
| `MergeFilter.KeepsWithPrefix` | extract_webdev_merges.py:29-36 | With a non-empty, quote-free prefix, a line is kept exactly when, ignoring case, it contains `Merge branch '`, then a quote-free stretch holding `/<prefix>-`, then a closing quote. |
| `MergeFilter.KeepsWithoutPrefix` | extract_webdev_merges.py:29-36 | With no prefix or an empty one, a line is kept exactly when `merge branch ` occurs in it, ignoring case. |
| `MergeFilter.KeepsMonotone` | extract_webdev_merges.py:29-32 | Every line the prefix pattern keeps is also kept by the plain `Merge branch ` pattern. |
| `MergeFilter.SearchQuotedIff` | extract_webdev_merges.py:30-36 | The scanner for the prefix pattern succeeds from position i exactly when a match of the pattern starts at or after i. |
| `MergeFilter.ExtractLines` | extract_webdev_merges.py:34-38 | Every returned line passes the filter, and no line is returned more often than it occurs in the input. |
| `MergeFilter.ExtractLinesSelects` | extract_webdev_merges.py:34-38 | The result is exactly the passing lines in input order: an index is selected exactly when its line passes, and the selected indices increase. |
| `MergeFilter.ExtractLinesIdempotent` | extract_webdev_merges.py:25-38 | Filtering the filtered lines again changes nothing. |
| `MergeFilter.ExtractLinesNarrows` | extract_webdev_merges.py:25-38 | Filtering by a prefix gives the same lines as keeping every merge line first and then filtering by the prefix. |
| `MergeFilter.GitLogArgs` | extract_webdev_merges.py:11-13 | The command is `git log --merges --oneline`, then `--max-count=` with a numeral that reads back as the maximum, then `<since>..HEAD` exactly when a non-empty `since` is given. |
| `BranchTypes.Classify` | release_notes.py:69-80 | The result is the kind whose alias list holds the lower-cased prefix. It is `Other` exactly when no alias list holds it. |
| `BranchTypes.ClassifyAlias` | release_notes.py:58-80 | Each alias of a kind is classified as that kind. |
| `BranchTypes.ClassifyIgnoresCase` | release_notes.py:69-70 | Classification does not depend on letter case. |
| `BranchTypes.ListToStrRoundTrip` | release_notes.py:53-55 | Splitting the rendered list at commas gives back its elements, quoted when a quote is given, provided no element or quote contains a comma. The empty list renders as the empty text. |
| `BranchTypes.AliasListsRendered` | release_notes.py:83-86 | Each kind's alias list renders as its backtick-quoted aliases joined by commas. `Other` renders as the empty text. |
| `BranchTypes.GroupLabelInjective` | release_notes.py:166-176 | Two kinds have the same group header exactly when they are the same kind, so the header-keyed dictionary never merges two kinds. |
| `BranchTypes.OtherLabelUnclosed` | release_notes.py:175-176 | The `Other` header is `Прочее (` and has no closing parenthesis. |
| `Text.Strip` | release_notes.py:93 | The result is the input with its maximal leading and trailing runs of Python whitespace removed. It is empty exactly when every character is whitespace. |
| `Text.SplitJoin` | release_notes.py:201 | Splitting at a separator undoes joining with it, for elements that do not contain the separator. |
| `Text.ParseIntRoundTrip` | extract_webdev_merges.py:11 | Writing an integer as a decimal numeral and reading it back gives the integer. |
| `Parsing.BranchNameIff` | release_notes.py:97-101 | The branch name found is `b` exactly when the leftmost match of `Merge branch '([^']+)'` captures `b`. |
| `Parsing.CandidateOfIff` | release_notes.py:92-111 | A line gives the branch type prefix `tp` and task key `task` exactly when four things hold: the stripped line is non-empty and names neither `refs/heads/develop` nor `remote-tracking`; its leftmost branch is `tp/task`; `tp` contains no `/`; and `task` starts with `<prefix>-`. |
| `Parsing.TypoGuardIff` | release_notes.py:113-115 | On a task key that starts with `<prefix>-`, the guard fires exactly when the prefix has no upper-case letter. |
| `Parsing.BaseKeyIff` | release_notes.py:117-121 | The base key is `k` exactly when `k` is a leading part of the task key made of the prefix, a dash and the longest run of at least one digit. |
| `Parsing.BaseKeyDropsSuffix` | release_notes.py:117-121 | The base key of `WEBDEV-42-v2` is `WEBDEV-42`. |
| `Parsing.ParseLineIff` | release_notes.py:92-125 | A line records `(k, t)` exactly when it is a candidate, escapes the typo guard, has base key `k`, and its type prefix classifies as `t`. |
| `Parsing.LowerCasePrefixRecordsNothing` | release_notes.py:113-115 | With a prefix that has no upper-case letter, no line records anything. |
| `Parsing.UpperCasePrefixGuardInert` | release_notes.py:110-125 | With an upper-case prefix, a candidate line records a key exactly when a digit follows `<prefix>-`, and the key's kind is the classification of its type prefix. |
| `Parsing.Record` | release_notes.py:124-125 | Recording keeps keys unique and extends the registry. A key already present keeps its kind, a new key gets the given kind, and no other key's lookup changes. |
| `Parsing.Parse` | release_notes.py:92-125 | The registry has unique keys, and every key has the shape `<prefix>-<digits>`. |
| `Parsing.ParseFirstWins` | release_notes.py:92-125 | A key is in the registry exactly when some line records it. Its kind is the one given by the first line that records it. |
| `Parsing.ParseOrder` | release_notes.py:89-125 | Registry entries appear in the order of the first line that records each key. |
| `Parsing.LowerCasePrefixEmptyRegistry` | release_notes.py:113-115 | A prefix with no upper-case letter yields an empty registry. |
| `Parsing.ParseConfigured` | release_notes.py:110-115 | A set prefix parses to that prefix's registry. An unset prefix either raises or yields an empty registry, and every successful parse has unique keys. |
| `Parsing.ParseConfiguredRaises` | release_notes.py:92-115 | The parse raises exactly when the prefix is unset and some line is a candidate for the prefix text `None`: a non-empty, eligible line whose leftmost branch `tp/task` has a slash-free `tp` and a `task` starting with `None-`. |
| `Grouping.GroupByIsPartition` | release_notes.py:166-178 | For any injective header function, grouping equals the reference partition: one group per kind present, in first-seen order, holding that kind's keys in registry order. |
| `Grouping.MakeGroupIsPartition` | release_notes.py:166-178 | `make_group` equals the reference partition under the script's headers. |
| `Grouping.KindsInFirstSeenOrder` | release_notes.py:167-178 | Groups follow the order in which their kinds first appear in the registry. |
| `Grouping.GroupByKeepsKeys` | release_notes.py:168-176 | The groups together hold exactly the registry's keys, as a multiset. |
| `Grouping.MakeGroupPartition` | release_notes.py:166-178 | For a registry with unique keys: every group is non-empty; headers are distinct; a key is in a group exactly when its kind has that group's header; every entry has its group; and each key occurs exactly once across the groups. |
| `Sorting.SortBy` | release_notes.py:201 | The result is in ascending id order and is a permutation of the input. |
| `Sorting.SortByStable` | release_notes.py:201 | For every id, the elements with that id keep their input order. |
| `Rendering.MissingIssueBullet` | release_notes.py:203-212 | A key the tracker did not return renders with the title placeholder `[Название не найдено]` and the status doubled to `[[Todo]]`: `  + <title placeholder> (задача <key>)[[Todo]]`. |
| `Rendering.BlankSummaryBullet` | release_notes.py:205-212 | A returned issue whose summary is only whitespace renders with an empty title. |
| `Rendering.BaseKeySortId` | release_notes.py:200-201 | Every `<prefix>-<digits>` key of a dash-free prefix has as its sort key the value of its digits. |
| `Rendering.SortIdRoundTrip` | release_notes.py:200-201 | The sort key of `<prefix>-<n>` is `n` when the prefix contains no dash. |
| `Rendering.SortedKeysSpec` | release_notes.py:201 | The sort fails exactly when some key has no number, and then it names such a key. Otherwise the result is a permutation in ascending number order, and keys with equal numbers keep their order. |
| `Rendering.SortedKeysExample` | release_notes.py:200-201 | Keys numbered 100, 2 and 30 sort as 2, 30, 100: by number, not as text. |
| `Rendering.SectionsFailIff` | release_notes.py:195-213 | Rendering the groups fails exactly when some group holds a key without a number, and the failure names such a key. |
| `Rendering.SectionShape` | release_notes.py:196-213 | A group with no keys renders nothing. Otherwise it renders exactly its heading, then one bullet per key in ascending number order, then a blank line. The bulleted keys are a permutation of the group's keys, and keys with equal numbers keep their order. |
| `Rendering.SectionContent` | release_notes.py:196-213 | A rendered group has one bullet line per key plus two more lines when it is non-empty. Every key of the group has its bullet. |
| `Rendering.SectionsContent` | release_notes.py:195-213 | The rendered body has one line per key plus two per non-empty group. Every grouped key has its bullet. |
| `Rendering.SectionsLayout` | release_notes.py:195-213 | The body holds the groups' sections in group order: each non-empty group's section starts right after the lines of all groups before it. |
| `Rendering.RenderLines` | release_notes.py:184-215 | A rendered document is exactly the eight header lines, then the rendered sections, then the hashtag footer. It fails exactly when the sections fail. |
| `Rendering.DocumentLayout` | release_notes.py:184-215 | In the document, each non-empty group's section starts after the eight header lines and the lines of all groups before it. |
| `ReleaseNotes.BuildReleaseNotes` | release_notes.py:128-218 | A run raises on an unset prefix exactly when parsing fails. It reports nothing exactly when the registry is empty. An unset prefix never produces a document. It stops at the tracker exactly when the registry is non-empty and the tracker failed. It stops on a bad issue number exactly when the registry is non-empty, the tracker answered and rendering failed, and it names the key rendering failed on. |
| `ReleaseNotes.RenderFailsIff` | release_notes.py:184-213 | Rendering the groups of a registry fails exactly when some recorded key has no number. The failure names such a recorded key. |
| `ReleaseNotes.BadIssueNumberIff` | release_notes.py:117-213 | With a prefix set and the issues in hand, a run stops on a bad issue number exactly when some recorded key has no number. The key it names is such a recorded key. |
| `ReleaseNotes.DashFreePrefixNeverCrashes` | release_notes.py:117-201 | With a prefix free of dashes, the sort never fails on any input. |
| `ReleaseNotes.NotesLayout` | release_notes.py:184-218 | A successful run's text is its lines joined by newlines. The lines are exactly the header, the rendered sections and the footer. That makes one heading, one bullet per recorded key and one blank line for each kind present. Every recorded key has its bullet. |
| `ReleaseNotes.NotesSections` | release_notes.py:184-215 | In a successful run's document, each group's section stands after the header and the lines of the groups before it. Groups come in the order their kinds first appear. Each section is the group's heading, its keys' bullets sorted by number, and a blank line. |

## Left out

- Reading `merges.txt` is not modelled; the merge lines are a parameter. Writing `release_notes.md` and every `print` are not modelled either. A run's result is the document text, or the way the run ended.
- `get_git_merge_commits` is modelled only as the argument list it builds. Running `git`, splitting its output into lines, and its two error exits are process I/O.
- The extractor's `main` is not modelled: argument parsing, reading `--from-file`, and writing the output are I/O.
- `get_config` is not modelled. Command-line flags, environment variables, interactive `input` and the current date are I/O, so release version, develop version and date are parameters. The prefix is a parameter that may be unset.
- The check for the tracker's URL and token, and the tracker client itself, are left out. The query's answer is a parameter: the returned issues by key, or an error. The JQL string and `maxResults` are not modelled. The answer may be any map from keys to issues, or an error, including the error a rejected query raises, so every result holds whatever the query returns.
- `BranchType.all` is not modelled; nothing in the scripts calls it.
- The prefix is inserted into the regexes without escaping. The model treats it as literal text, so a prefix with regex metacharacters is not modelled.
- `re.IGNORECASE` and `str.lower` are modelled for ASCII letters only.
- `\d` is modelled as the ASCII digits only.
- MergeFilter.KeepsWithPrefix: stated only for prefixes without a quote character.
- A prefix containing a quote character is not modelled by `MergeFilter.Keeps`: the model's scan rejects every line for such a prefix, while the Python pattern can still match by backtracking (`Merge branch 'x/a'b-y'` for prefix `a'b`).
- Rendering.SortId: reads ASCII digits only. Python's `int` also accepts surrounding whitespace, a sign, underscores between digits and non-ASCII digits. These differ only for a prefix that contains a dash, where the number field is part of the prefix.
- The Python exception types are not modelled. `TypeError` from an unset prefix becomes `UnsetPrefix`. `IndexError` or `ValueError` from the sort key becomes `BadIssueNumber`.
