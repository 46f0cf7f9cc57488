# gitlab-export, modelled in Dafny

`gitlab-export.py` exports the projects, archived projects, groups and users of
a GitLab instance to four CSV files. For each project or group it writes one
summary of the members: the distinct `identity:role` tokens, sorted and
joined with `;`.

This project models the logic of that script and proves properties of it.
The GitLab client, the CSV encoder and the file system are left out. Each
API listing becomes a finite input sequence of entities. Each file becomes
the sequence of lines written to it: the header, then one row per entity.

The modules are:

- `Attributes` (attributes.dfy): an API attribute is `Missing`, `Null` (None)
  or `Value(v)`. Python's `getattr` tells these three apart, and one of the
  script's outputs depends on the difference.
- `Decimal` (decimal.dfy): `str(n)` of a Python int, with its parse round trip.
- `AccessLevels` (access_levels.dfy): the access-level table and
  `access_level_name`.
- `Strings` (strings.dfy): Python's `str` ordering, `sorted(set(xs))`,
  `";".join` and `str.split`.
- `MemberNormaliser` (members.dfy): `format_members`. It has a pure
  specification (`MemberSummary`) and the loop itself (`FormatMembers`),
  proved equal to that specification.
- `Progress` (progress.dfy): the progress notices, one each time the count
  reaches a multiple of 50, 100 or 200.
- `Exporters` (exporters.dfy):
  - the row each exporter builds, as the `dict` it gives to the CSV writer,
    so a cell holds a `str`, an `int`, a `bool` or None;
  - the file contents as pure functions;
  - the three exporter loops as methods, proved to produce exactly those
    contents and notices. Their loop invariants show the file is written
    incrementally: after `i` entities it holds the header and the first `i`
    rows.
- `Orchestrator` (orchestrator.dfy): `main` as a pure plan. It either exits
  with status 2, or runs the ordered stages. `RunOutcome` applies the plan to
  the server's listings.

A membership with neither a username nor a name is identified by its id.
Line 83 formats `getattr(m, 'id', '')` with an f-string, so:

- a member whose `id` attribute is missing gets `user_id_`;
- a member whose `id` is None gets `user_id_None`;
- a member with an integer id gets `user_id_` followed by `str` of the id.

`IdText` and `Identity` model exactly this.

## Model

| member | source | states |
|---|---|---|
| AccessLevels.AccessLevelName | gitlab-export.py:47-50 | None gives ""; a code in the table gives its role name; any other code passes through as `str` of the code, which parses back to the code; the result is "" exactly for None |
| AccessLevels.KnownRoles | gitlab-export.py:30-36 | codes 10, 20, 30, 40, 50 resolve to Guest, Reporter, Developer, Maintainer, Owner |
| AccessLevels.RoleNameNotDecimal | gitlab-export.py:30-36 | no role name in the table is decimal text, so a name never collides with a passed-through code |
| AccessLevels.AccessLevelNameInjective | gitlab-export.py:47-50 | two levels resolve to the same name if and only if they are equal; the resolver loses nothing |
| Decimal.DecimalString | gitlab-export.py:50 | `str(n)` is well-formed decimal text, with a minus sign exactly for negative n, no leading zero other than "0" itself, and never "-0" |
| Decimal.CanonicalRoundTrip | gitlab-export.py:50 | the converse round trip: every text in the form `str` produces (no leading zero, no "-0") is `str` of the number it denotes, so `DecimalString` is Python's `str` on ints, up to the digit limit noted under "## Left out" |
| Decimal.DecimalRoundTrip | gitlab-export.py:50 | parsing `str(n)` gives n back |
| Decimal.DecimalStringInjective | gitlab-export.py:50 | distinct integers render as distinct text |
| Attributes.Lookup | gitlab-export.py:78 | `getattr(m, "access_level", None)` is Some exactly when the attribute holds a value, and then it is that value |
| Attributes.Flag | gitlab-export.py:143 | `bool(getattr(obj, attr, False))` is True exactly when the attribute is True; missing and None give False |
| MemberNormaliser.OrEmpty | gitlab-export.py:76-77 | `getattr(m, attr, "") or ""` is non-empty exactly when the attribute holds a non-empty string, and then it is that string |
| MemberNormaliser.IdText | gitlab-export.py:83 | the f-string text of `getattr(m, 'id', '')`: "" exactly when the id is missing, "None" exactly when it is None, `str` of the id otherwise |
| MemberNormaliser.Role | gitlab-export.py:78-79 | the role is "" exactly when the membership has no access level (missing or None) |
| MemberNormaliser.Identity | gitlab-export.py:76-83 | the identity is never empty; it is the username if non-empty, else the name if non-empty, else "user_id_" followed by the rendered id |
| MemberNormaliser.Token | gitlab-export.py:85 | every membership contributes a non-empty `ident:role` token |
| MemberNormaliser.Tokens | gitlab-export.py:74-85 | one token per membership |
| MemberNormaliser.MemberSummary | gitlab-export.py:87 | the value `format_members` returns: the distinct tokens, sorted, joined with ';'; its properties are the lemmas `SummaryEmpty` to `DuplicateCollapses` |
| MemberNormaliser.FormatMembers | gitlab-export.py:70-87 | the loop collecting tokens, followed by the sort and join, returns exactly `MemberSummary` of the listing |
| MemberNormaliser.SummaryEmpty | gitlab-export.py:87 | the summary is "" exactly when the listing is empty |
| MemberNormaliser.SummaryTokens | gitlab-export.py:87 | for a non-empty listing (the empty one gives "", by `SummaryEmpty`, which splits to `[""]`) in which no token holds ';', splitting the summary on ';' gives tokens in strictly ascending order whose set equals the set of input tokens: nothing added, nothing lost, no duplicate |
| MemberNormaliser.SummaryDependsOnlyOnTokenSet | gitlab-export.py:87 | two listings with the same set of tokens have the same summary |
| MemberNormaliser.SummaryOrderIndependent | gitlab-export.py:74-87 | the summary is the same under any permutation of the listing |
| MemberNormaliser.DuplicateCollapses | gitlab-export.py:87 | dropping one of two memberships with equal tokens leaves the summary unchanged |
| MemberNormaliser.SingleDeveloperSummary | gitlab-export.py:70-87 | one member "alice" at level 30 gives "alice:Developer" |
| Strings.Below | gitlab-export.py:87 | the order `sorted` puts `str` values in: code point by code point, a proper prefix first; its properties are `BelowTotal`, `BelowTransitive` and `BelowAsymmetric` |
| Strings.BelowTotal | gitlab-export.py:87 | Python's `str` order is total: of two distinct strings one is below the other |
| Strings.BelowTransitive | gitlab-export.py:87 | Python's `str` order is transitive |
| Strings.SortedDistinct | gitlab-export.py:87 | `sorted(set(xs))` is strictly ascending and holds exactly the elements of xs |
| Strings.SortedDistinctDependsOnlyOnElements | gitlab-export.py:87 | `sorted(set(xs))` depends only on the set of elements of xs |
| Strings.Insert | gitlab-export.py:87 | adding a string to a strictly ascending list keeps it strictly ascending and adds exactly that string |
| Strings.SortedListUnique | gitlab-export.py:87 | a strictly ascending list is determined by its set of elements |
| Strings.Join | gitlab-export.py:87 | `";".join(parts)`: the parts with the separator between consecutive ones; stated by `SplitJoin` and `JoinEmpty` |
| Strings.SplitJoin | gitlab-export.py:87 | splitting a join of at least one part on its separator gives the parts back when no part holds the separator (a join of no parts is "", which splits to `[""]`) |
| Strings.JoinEmpty | gitlab-export.py:87 | a join of non-empty parts is "" exactly when there are no parts |
| Exporters.CellText | gitlab-export.py:135-146 | the writer writes a string as itself, None as "", a bool as "True"/"False", and an int as `str` of it, which is canonical and parses back to it |
| Exporters.Get | gitlab-export.py:53-54 | `safe_get` on a text attribute with a default: None exactly when the attribute is None; otherwise a string, the value when present and the default when missing |
| Exporters.GetInt | gitlab-export.py:205 | `safe_get(grp, "parent_id", "")`: None exactly when the attribute is None, an int exactly when it holds one (that int), "" when missing |
| Exporters.ProjectRecord | gitlab-export.py:136-145 | the dict given to the writer for one project; its keys and cells are stated by `ProjectRecordKeys` and `ProjectRecordCells` |
| Exporters.ProjectRecordKeys | gitlab-export.py:110-119 | a project row has exactly the writer's eight fields |
| Exporters.ProjectRecordCells | gitlab-export.py:137-144 | project row cells: the id; each text attribute as its value, "" when missing, None when None; archived as `bool` with default False; the member summary |
| Exporters.GroupRecord | gitlab-export.py:199-207 | the dict given to the writer for one group; its keys and cells are stated by `GroupRecordKeys` and `GroupRecordCells` |
| Exporters.GroupRecordKeys | gitlab-export.py:174-182 | a group row has exactly the writer's seven fields |
| Exporters.GroupRecordCells | gitlab-export.py:200-206 | group row cells, the parent id being the id when set, "" when missing and None when None |
| Exporters.UserRecord | gitlab-export.py:256-267 | the dict given to the writer for one user; its keys and cells are stated by `UserRecordKeys` and `UserRecordCells` |
| Exporters.UserRecordKeys | gitlab-export.py:233-244 | a user row has exactly the writer's ten fields |
| Exporters.UserRecordCells | gitlab-export.py:257-266 | user row cells: the text attributes with default "", and is_admin, external and bot as `bool` with default False |
| Exporters.TextColumnWritten | gitlab-export.py:138-142 | in the file a text column reads as the attribute's value when it has one and "" otherwise, so missing and None are written alike |
| Exporters.FlagColumnWritten | gitlab-export.py:143 | in the file a flag column reads "True" exactly when the attribute is True and "False" otherwise |
| Exporters.ParentIdWritten | gitlab-export.py:205 | in groups.csv the parent id reads as `str` of the id when set, and "" exactly when it is missing or None |
| Exporters.IdsWritten | gitlab-export.py:137 | the id column of every file reads as `str` of the entity's id (also lines 200 and 257) |
| Exporters.ProjectRow | gitlab-export.py:130-145 | the row for one project with the member listing its scope selects; stated by `ProjectRowMembers` and `ProjectRecordCells` |
| Exporters.GroupRow | gitlab-export.py:193-207 | the row for one group with the member listing its scope selects; stated by `GroupRowMembers` and `GroupRecordCells` |
| Exporters.ProjectRowMembers | gitlab-export.py:130-133 | a project row's members cell summarises the inherited listing when the scope is "all" and the direct listing for any other scope |
| Exporters.GroupRowMembers | gitlab-export.py:193-196 | a group row's members cell summarises the inherited listing when the scope is "all" and the direct listing for any other scope |
| Exporters.FileLines | gitlab-export.py:121-146 | an exporter's file (projects, groups and users alike) holds the header first, then one row per listed entity in listing order |
| Exporters.FileLinesStep | gitlab-export.py:126-146 | walking one more entity appends exactly its row |
| Exporters.HeaderOnce | gitlab-export.py:121-146 | in every exported file the header appears exactly once, before all rows |
| Exporters.ExportProjects | gitlab-export.py:90-154 | the project loop keeps its count equal to the entities walked and writes exactly `FileLines` of its listing with the project row of its scope, and reports exactly `ProgressMarks(n, 50)` |
| Exporters.ExportGroups | gitlab-export.py:157-216 | the group loop writes exactly `FileLines` of its listing with the group row of its scope, and reports exactly `ProgressMarks(n, 100)` |
| Exporters.ExportUsers | gitlab-export.py:219-276 | the user loop writes exactly `FileLines` of its listing with the user row, and reports exactly `ProgressMarks(n, 200)` |
| Exporters.DemoProjectExport | gitlab-export.py:135-146 | project 1 "demo", not archived, with direct member alice at level 30, exported with direct scope gives two lines; the row holds id 1, name "demo", archived False and members "alice:Developer" |
| Progress.ProgressMarks | gitlab-export.py:151-152 | the counts reported after n entities; stated by `ProgressMarksSpec` |
| Progress.ProgressMarksSpec | gitlab-export.py:151-152 | after n entities the reported counts are exactly the multiples of the step in 1..n, ascending, n / step of them |
| Progress.CountStep | gitlab-export.py:151-152 | counting one more entity raises the number of notices by one exactly when the new count is a multiple of the step |
| Progress.ProgressStep | gitlab-export.py:151-152 | one more entity appends a notice exactly when the new count is a multiple of the step |
| Progress.NoNoticeBeforeFirstStep | gitlab-export.py:151-152 | fewer entities than the step give no notice |
| Orchestrator.PlanRun | gitlab-export.py:296-343 | the run exits with status 2 exactly when the url or the token is empty; otherwise the stages are the active projects into projects.csv, the archived projects into archived_projects.csv exactly when requested, the groups into groups.csv and the users into users.csv, each member-listing stage with the requested scope |
| Orchestrator.StageOrder | gitlab-export.py:311-343 | files are written in the order projects.csv, archived_projects.csv (only when requested), groups.csv, users.csv |
| Orchestrator.FilesDistinct | gitlab-export.py:311-343 | no two stages write the same file |
| Orchestrator.StagesCarryOptions | gitlab-export.py:311-337 | a projects stage exports archived projects exactly when it writes archived_projects.csv, and every member-listing stage uses the requested scope |
| Orchestrator.Files | gitlab-export.py:311-343 | one file per stage, in stage order |
| Orchestrator.ProjectsListing | gitlab-export.py:123 | the modelled server filter, as a reference definition; its contract only bounds its length, and its meaning is stated by `ListingMembers`, `ListingKeepsOrder` and `ListingOfOne` |
| Orchestrator.ListingMembers | gitlab-export.py:99 | the listing requested with `archived` set holds exactly the server's projects whose flag matches |
| Orchestrator.ListingKeepsOrder | gitlab-export.py:123 | the listing keeps server order: listing two consecutive parts gives the first part's listing followed by the second's |
| Orchestrator.ListingOfOne | gitlab-export.py:99 | a single project is listed exactly when its flag matches the request; with `ListingKeepsOrder` this fixes every listing |
| Orchestrator.ListingsPartition | gitlab-export.py:99 | under the server filter assumed below (## Left out), every project is in exactly one of the active and archived listings |
| Orchestrator.ArchivedSplit | gitlab-export.py:143 | every row exported from the listing with `archived` set has archived cell equal to that flag: False throughout projects.csv, True throughout archived_projects.csv |
| Orchestrator.StageOutput | gitlab-export.py:311-343 | a stage writes the file it names, starting with the header |
| Orchestrator.RunOutcome | gitlab-export.py:296-343 | the whole run exits with status 2 exactly when the url or the token is empty |
| Orchestrator.RunOutputs | gitlab-export.py:311-343 | a run with url and token writes projects.csv from the active listing, archived_projects.csv from the archived listing when requested, then groups.csv and users.csv, each with its exporter's lines and notices |
| Orchestrator.EveryUserExported | gitlab-export.py:339-343 | the last file is users.csv, with one row per listed user after the header |

## Left out

- The python-gitlab client, authentication, pagination, and the re-fetch of
  each listed entity by id (gitlab-export.py:57-67, 128, 191, 253). Each
  listing is modelled as the sequence of entities the re-fetch returns. A
  project or group carries both of its member listings.
- The project listing filtered by `archived` is modelled as a server that
  returns exactly the matching projects, in its own order
  (`ProjectsListing`). The script itself only passes the filter on; the
  docstring at gitlab-export.py:99 states the split it relies on.
  `ListingsPartition` and `ArchivedSplit` are facts under this assumption.
- CSV quoting and encoding, opening files, and `outdir.mkdir`. The header is
  modelled as the list of field names (the `Column` constructors); their
  spelled-out text is not modelled.
- `time.sleep` between entities: a wall-clock effect with nothing to state.
- `utc_stamp`, the output-directory name and the final printing of its path.
- The text of the diagnostic messages. Only the counts reported by the
  progress notices are modelled. The start and completion messages, and how
  notices interleave with file writes, are not.
- Argument parsing: the model takes url, token, the archived switch and the
  scope as plain values. The SSL switch only reaches the client.
- Failures of the client mid-run, which abort the run, are not modelled.
- Decimal.DecimalString: total on all integers. CPython refuses (`ValueError`) to convert an int of more than 4300 digits to text by default; ids and access levels never come near that, so the limit is not modelled.
- MemberNormaliser.SummaryTokens: the round trip requires that no token
  contains ';'. The script does not escape ';', so a username containing it
  would split into extra tokens.
