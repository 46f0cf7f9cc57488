/**
 * The three entity exporters. Each walks the listing of one kind of entity,
 * writes the CSV header once and then one line per entity, and reports
 * progress every so many entities on the diagnostic channel.
 *
 * The API listing is an input sequence of entities (already fetched in
 * detail); the CSV file is the sequence of lines written to it, each line
 * the cells csv.DictWriter would write; the progress notices are the counts
 * they report.
 */
module Exporters {
  import opened Attributes
  import opened Decimal
  import opened MemberNormaliser
  import opened Progress

  /** The two member listings the API offers for a project or a group. */
  datatype Memberships = Memberships(direct: seq<Member>, inherited: seq<Member>)

  datatype Project = Project(
    id: int,
    name: Attr<string>,
    pathWithNamespace: Attr<string>,
    httpUrlToRepo: Attr<string>,
    defaultBranch: Attr<string>,
    visibility: Attr<string>,
    archived: Attr<bool>,
    memberships: Memberships)

  datatype Group = Group(
    id: int,
    name: Attr<string>,
    fullPath: Attr<string>,
    webUrl: Attr<string>,
    visibility: Attr<string>,
    parentId: Attr<int>,
    memberships: Memberships)

  datatype User = User(
    id: int,
    username: Attr<string>,
    name: Attr<string>,
    state: Attr<string>,
    isAdmin: Attr<bool>,
    external: Attr<bool>,
    bot: Attr<bool>,
    email: Attr<string>,
    createdAt: Attr<string>,
    lastSignInAt: Attr<string>)

  /** The columns of the three CSV files; each is written in the header as its snake_case name. */
  datatype Column =
    | ProjectId | ProjectName | ProjectPathWithNamespace | HttpUrlToRepo | DefaultBranch | Visibility
    | Archived | MemberList
    | GroupId | GroupName | GroupFullPath | WebUrl | ParentId
    | UserId | Username | Name | State | IsAdmin | External | Bot | Email | CreatedAt | LastSignInAt

  /** The field names each exporter gives its CSV writer, in order. */
  const ProjectColumns: seq<Column> :=
    [ProjectId, ProjectName, ProjectPathWithNamespace, HttpUrlToRepo, DefaultBranch, Visibility, Archived, MemberList]
  const GroupColumns: seq<Column> :=
    [GroupId, GroupName, GroupFullPath, WebUrl, Visibility, ParentId, MemberList]
  const UserColumns: seq<Column> :=
    [UserId, Username, Name, State, IsAdmin, External, Bot, Email, CreatedAt, LastSignInAt]

  /** A progress notice every this many projects, groups and users. */
  const ProjectsPerNotice: nat := 50
  const GroupsPerNotice: nat := 100
  const UsersPerNotice: nat := 200

  /** A value placed in a row: a string, an integer, a bool or None. */
  datatype Cell = Str(s: string) | Int(n: int) | Bool(b: bool) | NoneCell

  /** A row as the exporters hand it to the CSV writer: field to value. */
  type Record = map<Column, Cell>

  /** A line of an exported file: the header, or one row. */
  datatype CsvLine = HeaderLine(columns: seq<Column>) | Row(record: Record)

  /** The text the CSV writer puts in a cell: None as "", a bool as "True"/"False", an int in decimal. */
  function CellText(c: Cell): (text: string)
    ensures c.Str? ==> text == c.s
    ensures c.NoneCell? ==> text == ""
    ensures c.Bool? ==> text == (if c.b then "True" else "False")
    ensures c.Int? ==> text == DecimalString(c.n) && IsCanonical(text) && DecimalValue(text) == c.n
  {
    match c
    case Str(s) => s
    case Int(n) =>
      DecimalRoundTrip(n);
      DecimalString(n)
    case Bool(b) => if b then "True" else "False"
    case NoneCell => ""
  }

  // ---------------------------------------------------------------------
  // Cells

  /** `getattr(obj, attr, default)`: the default when missing, None when None, else the value. */
  function Get(a: Attr<string>, default: string): (c: Cell)
    ensures c.NoneCell? <==> a.Null?
    ensures c.Str? <==> !a.Null?
    ensures c.Str? ==> c.s == (if a.Value? then a.value else default)
  {
    match a
    case Missing => Str(default)
    case Null => NoneCell
    case Value(v) => Str(v)
  }

  /** `getattr(obj, attr, "")` on an integer attribute. */
  function GetInt(a: Attr<int>): (c: Cell)
    ensures c.NoneCell? <==> a.Null?
    ensures c.Int? <==> a.Value?
    ensures c.Int? ==> c.n == a.value
    ensures a.Missing? ==> c == Str("")
  {
    match a
    case Missing => Str("")
    case Null => NoneCell
    case Value(n) => Int(n)
  }

  /**
   * A string attribute read with default "": its value when present, "" when
   * missing, and None (written as an empty cell) when the attribute is None.
   */
  predicate TextColumn(r: Record, field: Column, a: Attr<string>) {
    field in r &&
    (a.Value? ==> r[field] == Str(a.value)) &&
    (a.Missing? ==> r[field] == Str("")) &&
    (a.Null? ==> r[field] == NoneCell)
  }

  /** `bool(attribute)` with default False: True exactly when the attribute is True (missing and None give False). */
  predicate FlagColumn(r: Record, field: Column, a: Attr<bool>) {
    field in r && r[field] == Bool(a == Value(true))
  }

  /** The set of columns a list of field names holds. */
  function ColumnSet(columns: seq<Column>): set<Column> {
    set c | c in columns
  }

  /**
   * The project row `export_projects` hands to the CSV writer, the member
   * summary already made.
   */
  function ProjectRecord(p: Project, members: string): Record {
    map[
      ProjectId := Int(p.id),
      ProjectName := Get(p.name, ""),
      ProjectPathWithNamespace := Get(p.pathWithNamespace, ""),
      HttpUrlToRepo := Get(p.httpUrlToRepo, ""),
      DefaultBranch := Get(p.defaultBranch, ""),
      Visibility := Get(p.visibility, ""),
      Archived := Bool(Flag(p.archived)),
      MemberList := Str(members)]
  }

  /** A project row fills exactly the writer's fields: no field missing, none extra. */
  lemma ProjectRecordKeys(p: Project, members: string)
    ensures ProjectRecord(p, members).Keys == ColumnSet(ProjectColumns)
  {
  }

  /** The cells of a project row: the id, the text attributes read with default "", the archived flag, the summary. */
  lemma ProjectRecordCells(p: Project, members: string)
    ensures var r := ProjectRecord(p, members);
      r[ProjectId] == Int(p.id) &&
      TextColumn(r, ProjectName, p.name) &&
      TextColumn(r, ProjectPathWithNamespace, p.pathWithNamespace) &&
      TextColumn(r, HttpUrlToRepo, p.httpUrlToRepo) &&
      TextColumn(r, DefaultBranch, p.defaultBranch) &&
      TextColumn(r, Visibility, p.visibility) &&
      FlagColumn(r, Archived, p.archived) &&
      r[MemberList] == Str(members)
  {
  }

  /** The group row `export_groups` hands to the CSV writer. */
  function GroupRecord(g: Group, members: string): Record {
    map[
      GroupId := Int(g.id),
      GroupName := Get(g.name, ""),
      GroupFullPath := Get(g.fullPath, ""),
      WebUrl := Get(g.webUrl, ""),
      Visibility := Get(g.visibility, ""),
      ParentId := GetInt(g.parentId),
      MemberList := Str(members)]
  }

  lemma GroupRecordKeys(g: Group, members: string)
    ensures GroupRecord(g, members).Keys == ColumnSet(GroupColumns)
  {
  }

  /** The cells of a group row; the parent id is the id when set, "" when missing and None when None. */
  lemma GroupRecordCells(g: Group, members: string)
    ensures var r := GroupRecord(g, members);
      r[GroupId] == Int(g.id) &&
      TextColumn(r, GroupName, g.name) &&
      TextColumn(r, GroupFullPath, g.fullPath) &&
      TextColumn(r, WebUrl, g.webUrl) &&
      TextColumn(r, Visibility, g.visibility) &&
      (g.parentId.Value? ==> r[ParentId] == Int(g.parentId.value)) &&
      (g.parentId.Missing? ==> r[ParentId] == Str("")) &&
      (g.parentId.Null? ==> r[ParentId] == NoneCell) &&
      r[MemberList] == Str(members)
  {
  }

  /** The user row `export_users` hands to the CSV writer. */
  function UserRecord(u: User): Record {
    map[
      UserId := Int(u.id),
      Username := Get(u.username, ""),
      Name := Get(u.name, ""),
      State := Get(u.state, ""),
      IsAdmin := Bool(Flag(u.isAdmin)),
      External := Bool(Flag(u.external)),
      Bot := Bool(Flag(u.bot)),
      Email := Get(u.email, ""),
      CreatedAt := Get(u.createdAt, ""),
      LastSignInAt := Get(u.lastSignInAt, "")]
  }

  lemma UserRecordKeys(u: User)
    ensures UserRecord(u).Keys == ColumnSet(UserColumns)
  {
  }

  /** The cells of a user row: the id, the text attributes read with default "", the three flags. */
  lemma UserRecordCells(u: User)
    ensures var r := UserRecord(u);
      r[UserId] == Int(u.id) &&
      TextColumn(r, Username, u.username) &&
      TextColumn(r, Name, u.name) &&
      TextColumn(r, State, u.state) &&
      FlagColumn(r, IsAdmin, u.isAdmin) &&
      FlagColumn(r, External, u.external) &&
      FlagColumn(r, Bot, u.bot) &&
      TextColumn(r, Email, u.email) &&
      TextColumn(r, CreatedAt, u.createdAt) &&
      TextColumn(r, LastSignInAt, u.lastSignInAt)
  {
  }

  /**
   * In the file a text column reads as the attribute's value when it has
   * one and as "" otherwise: a missing attribute and one that is None are
   * written alike.
   */
  lemma TextColumnWritten(r: Record, field: Column, a: Attr<string>)
    requires TextColumn(r, field, a)
    ensures CellText(r[field]) == (if a.Value? then a.value else "")
    ensures a.Missing? || a.Null? ==> CellText(r[field]) == ""
  {
  }

  /** In the file a flag column reads "True" exactly when the attribute is True, and "False" otherwise. */
  lemma FlagColumnWritten(r: Record, field: Column, a: Attr<bool>)
    requires FlagColumn(r, field, a)
    ensures CellText(r[field]) == "True" <==> a == Value(true)
    ensures CellText(r[field]) == "False" <==> a != Value(true)
  {
  }

  /**
   * In groups.csv the parent id reads as `str` of the id when the group has
   * a parent and as "" otherwise: a missing parent id and one that is None
   * give the same cell, and a set one is never blank.
   */
  lemma ParentIdWritten(g: Group, members: string)
    ensures var text := CellText(GroupRecord(g, members)[ParentId]);
      (g.parentId.Value? ==> text == DecimalString(g.parentId.value)) &&
      (text == "" <==> !g.parentId.Value?)
  {
  }

  /** In every file the id column reads as `str` of the entity's id. */
  lemma IdsWritten(p: Project, g: Group, u: User, members: string)
    ensures CellText(ProjectRecord(p, members)[ProjectId]) == DecimalString(p.id)
    ensures CellText(GroupRecord(g, members)[GroupId]) == DecimalString(g.id)
    ensures CellText(UserRecord(u)[UserId]) == DecimalString(u.id)
  {
  }

  // ---------------------------------------------------------------------
  // The lines of each file

  /**
   * The row for one project: its record, with the summary of the member
   * listing the scope selects ("all": the inherited listing, anything else:
   * the direct one).
   */
  function ProjectRow(p: Project, scope: string): Record {
    ProjectRecord(p, MemberSummary(if scope == "all" then p.memberships.inherited else p.memberships.direct))
  }

  /** The row for one group, its members chosen by scope as for a project. */
  function GroupRow(g: Group, scope: string): Record {
    GroupRecord(g, MemberSummary(if scope == "all" then g.memberships.inherited else g.memberships.direct))
  }

  /** Scope "all" lists the inherited members of a project; any other scope the direct ones. */
  lemma ProjectRowMembers(p: Project, scope: string)
    ensures scope == "all" ==> ProjectRow(p, scope)[MemberList] == Str(MemberSummary(p.memberships.inherited))
    ensures scope != "all" ==> ProjectRow(p, scope)[MemberList] == Str(MemberSummary(p.memberships.direct))
  {
  }

  /** Scope "all" lists the inherited members of a group; any other scope the direct ones. */
  lemma GroupRowMembers(g: Group, scope: string)
    ensures scope == "all" ==> GroupRow(g, scope)[MemberList] == Str(MemberSummary(g.memberships.inherited))
    ensures scope != "all" ==> GroupRow(g, scope)[MemberList] == Str(MemberSummary(g.memberships.direct))
  {
  }

  /**
   * What an exporter's file holds after it has walked a listing: the header
   * exactly once, first, then one row per entity in listing order.
   */
  function FileLines<T>(columns: seq<Column>, entities: seq<T>, row: T -> Record): (lines: seq<CsvLine>)
    ensures |lines| == |entities| + 1
    ensures lines[0] == HeaderLine(columns)
    ensures forall k :: 0 <= k < |entities| ==> lines[k + 1] == Row(row(entities[k]))
  {
    if |entities| == 0 then [HeaderLine(columns)]
    else FileLines(columns, entities[..|entities| - 1], row) + [Row(row(entities[|entities| - 1]))]
  }

  /** Walking one more entity appends exactly its row. */
  lemma FileLinesStep<T>(columns: seq<Column>, entities: seq<T>, i: nat, row: T -> Record)
    requires i < |entities|
    ensures FileLines(columns, entities[..i + 1], row) == FileLines(columns, entities[..i], row) + [Row(row(entities[i]))]
  {
    assert entities[..i + 1][..i] == entities[..i];
  }

  /** A file written by an exporter: one header line, first, and rows after it. */
  predicate HeaderOnceFirst(lines: seq<CsvLine>) {
    |lines| > 0 && lines[0].HeaderLine? && forall k :: 1 <= k < |lines| ==> lines[k].Row?
  }

  /** Every exported file has the header exactly once, before every row. */
  lemma HeaderOnce<T>(columns: seq<Column>, entities: seq<T>, row: T -> Record)
    ensures HeaderOnceFirst(FileLines(columns, entities, row))
  {
    var lines := FileLines(columns, entities, row);
    forall k | 1 <= k < |lines| ensures lines[k].Row? {
      assert lines[(k - 1) + 1] == Row(row(entities[k - 1]));
    }
  }

  /** The row function of the project exporter for a member scope. */
  function ProjectRowOf(scope: string): Project -> Record {
    p => ProjectRow(p, scope)
  }

  /** The row function of the group exporter for a member scope. */
  function GroupRowOf(scope: string): Group -> Record {
    g => GroupRow(g, scope)
  }

  /** The row function of the user exporter. */
  function UserRowOf(): User -> Record {
    u => UserRecord(u)
  }

  /** What projects.csv (or archived_projects.csv) holds after exporting a listing. */
  function ProjectLines(projects: seq<Project>, scope: string): seq<CsvLine> {
    FileLines(ProjectColumns, projects, ProjectRowOf(scope))
  }

  /** What groups.csv holds after exporting a listing. */
  function GroupLines(groups: seq<Group>, scope: string): seq<CsvLine> {
    FileLines(GroupColumns, groups, GroupRowOf(scope))
  }

  /** What users.csv holds after exporting a listing. */
  function UserLines(users: seq<User>): seq<CsvLine> {
    FileLines(UserColumns, users, UserRowOf())
  }

  // ---------------------------------------------------------------------
  // The exporters

  /**
   * `export_projects`: writes the header, then walks the listing, writing one
   * line per project with the members of the chosen scope, and reports every
   * 50th project. The notices are the counts reported.
   */
  method ExportProjects(projects: seq<Project>, scope: string) returns (lines: seq<CsvLine>, notices: seq<nat>)
    ensures lines == ProjectLines(projects, scope)
    ensures notices == ProgressMarks(|projects|, ProjectsPerNotice)
  {
    lines := [HeaderLine(ProjectColumns)];
    notices := [];
    var count := 0;
    for i := 0 to |projects|
      invariant count == i
      invariant lines == ProjectLines(projects[..i], scope)
      invariant notices == ProgressMarks(count, ProjectsPerNotice)
    {
      var p := projects[i];
      count := count + 1;
      var listing := if scope == "all" then p.memberships.inherited else p.memberships.direct;
      var summary := FormatMembers(listing);
      FileLinesStep(ProjectColumns, projects, i, ProjectRowOf(scope));
      lines := lines + [Row(ProjectRecord(p, summary))];
      ProgressStep(count - 1, ProjectsPerNotice);
      if count % ProjectsPerNotice == 0 {
        notices := notices + [count];
      }
    }
    assert projects[..|projects|] == projects;
  }

  /** `export_groups`: as for projects, reporting every 100th group. */
  method ExportGroups(groups: seq<Group>, scope: string) returns (lines: seq<CsvLine>, notices: seq<nat>)
    ensures lines == GroupLines(groups, scope)
    ensures notices == ProgressMarks(|groups|, GroupsPerNotice)
  {
    lines := [HeaderLine(GroupColumns)];
    notices := [];
    var count := 0;
    for i := 0 to |groups|
      invariant count == i
      invariant lines == GroupLines(groups[..i], scope)
      invariant notices == ProgressMarks(count, GroupsPerNotice)
    {
      var g := groups[i];
      count := count + 1;
      var listing := if scope == "all" then g.memberships.inherited else g.memberships.direct;
      var summary := FormatMembers(listing);
      FileLinesStep(GroupColumns, groups, i, GroupRowOf(scope));
      lines := lines + [Row(GroupRecord(g, summary))];
      ProgressStep(count - 1, GroupsPerNotice);
      if count % GroupsPerNotice == 0 {
        notices := notices + [count];
      }
    }
    assert groups[..|groups|] == groups;
  }

  /** `export_users`: one line per user (no members), reporting every 200th user. */
  method ExportUsers(users: seq<User>) returns (lines: seq<CsvLine>, notices: seq<nat>)
    ensures lines == UserLines(users)
    ensures notices == ProgressMarks(|users|, UsersPerNotice)
  {
    lines := [HeaderLine(UserColumns)];
    notices := [];
    var count := 0;
    for i := 0 to |users|
      invariant count == i
      invariant lines == UserLines(users[..i])
      invariant notices == ProgressMarks(count, UsersPerNotice)
    {
      var u := users[i];
      count := count + 1;
      FileLinesStep(UserColumns, users, i, UserRowOf());
      lines := lines + [Row(UserRecord(u))];
      ProgressStep(count - 1, UsersPerNotice);
      if count % UsersPerNotice == 0 {
        notices := notices + [count];
      }
    }
    assert users[..|users|] == users;
  }

  /**
   * A project with id 1, name "demo", not archived, whose one direct member
   * is "alice" at access level 30, exported with direct scope: projects.csv
   * holds the header and one row, whose members cell is "alice:Developer".
   */
  lemma DemoProjectExport()
    ensures
      var alice := Member(Value("alice"), Missing, Value(1), Value(30));
      var demo := Project(1, Value("demo"), Missing, Missing, Missing, Missing, Value(false),
                          Memberships([alice], []));
      var lines := ProjectLines([demo], "direct");
      |lines| == 2 && lines[1].record[ProjectId] == Int(1) && lines[1].record[ProjectName] == Str("demo") &&
      lines[1].record[Archived] == Bool(false) && lines[1].record[MemberList] == Str("alice:Developer")
  {
    SingleDeveloperSummary();
  }
}
