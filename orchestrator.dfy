/**
 * The command's entry point as a plan: the argument checks that end the run
 * with exit status 2, and otherwise the ordered list of export stages, each
 * naming the file it writes. `RunOutcome` applies a plan to the server's
 * listings.
 */
module Orchestrator {
  import opened Attributes
  import opened MemberNormaliser
  import opened Exporters
  import opened Progress

  /** One export stage: which exporter runs, into which file, with which options. */
  datatype Stage =
    | ProjectsStage(file: string, archived: bool, scope: string)
    | GroupsStage(file: string, scope: string)
    | UsersStage(file: string)

  /** What the command does: exit early with a status, or run the stages in order. */
  datatype Plan = Exit(code: int) | Run(stages: seq<Stage>)

  const ActiveProjectsFile: string := "projects.csv"
  const ArchivedProjectsFile: string := "archived_projects.csv"
  const GroupsFile: string := "groups.csv"
  const UsersFile: string := "users.csv"

  /**
   * The plan for a run with the given url, token, archived switch and member
   * scope: exit status 2 when the url or the token is empty; otherwise the
   * active projects, the archived projects when asked for, the groups and
   * the users.
   */
  function PlanRun(url: string, token: string, includeArchived: bool, scope: string): (plan: Plan)
    ensures plan.Exit? <==> url == "" || token == ""
    ensures plan.Exit? ==> plan.code == 2
    ensures plan.Run? ==> |plan.stages| == (if includeArchived then 4 else 3)
    ensures plan.Run? ==> plan.stages[0] == ProjectsStage(ActiveProjectsFile, false, scope)
    ensures plan.Run? && includeArchived ==> plan.stages[1] == ProjectsStage(ArchivedProjectsFile, true, scope)
    ensures plan.Run? ==> plan.stages[|plan.stages| - 2] == GroupsStage(GroupsFile, scope)
    ensures plan.Run? ==> plan.stages[|plan.stages| - 1] == UsersStage(UsersFile)
  {
    if url == "" then Exit(2)
    else if token == "" then Exit(2)
    else
      Run([ProjectsStage(ActiveProjectsFile, false, scope)]
          + (if includeArchived then [ProjectsStage(ArchivedProjectsFile, true, scope)] else [])
          + [GroupsStage(GroupsFile, scope), UsersStage(UsersFile)])
  }

  function FileOf(s: Stage): string {
    s.file
  }

  /** The files a list of stages writes, in order. */
  function Files(stages: seq<Stage>): (files: seq<string>)
    ensures |files| == |stages|
    ensures forall i :: 0 <= i < |stages| ==> files[i] == FileOf(stages[i])
  {
    if |stages| == 0 then [] else [FileOf(stages[0])] + Files(stages[1..])
  }

  /**
   * The order of the output files: projects.csv first, archived_projects.csv
   * next exactly when requested, then groups.csv and users.csv last.
   */
  lemma StageOrder(url: string, token: string, includeArchived: bool, scope: string)
    requires url != "" && token != ""
    ensures Files(PlanRun(url, token, includeArchived, scope).stages) ==
      [ActiveProjectsFile] + (if includeArchived then [ArchivedProjectsFile] else []) + [GroupsFile, UsersFile]
  {
    var stages := PlanRun(url, token, includeArchived, scope).stages;
    var expected := [ActiveProjectsFile] + (if includeArchived then [ArchivedProjectsFile] else []) + [GroupsFile, UsersFile];
    assert forall i :: 0 <= i < |stages| ==> Files(stages)[i] == expected[i];
  }

  /** No file is written twice: the stages' files are pairwise distinct. */
  lemma FilesDistinct(url: string, token: string, includeArchived: bool, scope: string)
    requires url != "" && token != ""
    ensures var files := Files(PlanRun(url, token, includeArchived, scope).stages);
      forall i, j :: 0 <= i < j < |files| ==> files[i] != files[j]
  {
    StageOrder(url, token, includeArchived, scope);
  }

  /**
   * Each projects stage exports the archived projects exactly when it writes
   * archived_projects.csv, and every stage that lists members uses the
   * requested scope.
   */
  lemma StagesCarryOptions(url: string, token: string, includeArchived: bool, scope: string)
    requires url != "" && token != ""
    ensures var stages := PlanRun(url, token, includeArchived, scope).stages;
      (forall i :: 0 <= i < |stages| && stages[i].ProjectsStage? ==>
        (stages[i].archived <==> stages[i].file == ArchivedProjectsFile)) &&
      (forall i :: 0 <= i < |stages| && !stages[i].UsersStage? ==> stages[i].scope == scope)
  {
  }

  // ---------------------------------------------------------------------
  // Running a plan against the server

  /** The server's listings, each entity as its detail fetch returns it. */
  datatype Server = Server(projects: seq<Project>, groups: seq<Group>, users: seq<User>)

  /** A file's content together with the progress counts its exporter reported. */
  datatype Output = Output(file: string, lines: seq<CsvLine>, notices: seq<nat>)

  /** What the command does: exits with a status, or writes the outputs in order. */
  datatype Outcome = Exited(code: int) | Wrote(outputs: seq<Output>)

  /**
   * The project listing filtered by the archived flag, as the server answers
   * a listing request with `archived` set: the projects whose flag matches,
   * in server order.
   */
  function ProjectsListing(all: seq<Project>, archived: bool): (listed: seq<Project>)
    ensures |listed| <= |all|
  {
    if |all| == 0 then []
    else
      var rest := ProjectsListing(all[1..], archived);
      if Flag(all[0].archived) == archived then [all[0]] + rest else rest
  }

  /** The listing holds exactly the server's projects whose archived flag matches the request. */
  lemma {:induction false} ListingMembers(all: seq<Project>, archived: bool)
    ensures forall p :: p in ProjectsListing(all, archived) <==> p in all && Flag(p.archived) == archived
  {
    if |all| > 0 {
      ListingMembers(all[1..], archived);
      assert forall p :: p in all <==> p == all[0] || p in all[1..];
    }
  }

  /**
   * The filter keeps server order: filtering a listing made of two parts
   * gives the filtered first part followed by the filtered second part.
   * With `ListingOfOne` this fixes the listing completely.
   */
  lemma {:induction false} ListingKeepsOrder(a: seq<Project>, b: seq<Project>, archived: bool)
    ensures ProjectsListing(a + b, archived) == ProjectsListing(a, archived) + ProjectsListing(b, archived)
  {
    if |a| == 0 {
      assert a + b == b;
    } else {
      var ab := a + b;
      assert ab[0] == a[0];
      assert ab[1..] == a[1..] + b;
      ListingKeepsOrder(a[1..], b, archived);
      var tail := ProjectsListing(a[1..], archived);
      var head := if Flag(a[0].archived) == archived then [a[0]] else [];
      assert ProjectsListing(a, archived) == head + tail;
      assert ProjectsListing(ab, archived) == head + (tail + ProjectsListing(b, archived));
    }
  }

  /** A single project is listed exactly when its archived flag matches the request. */
  lemma ListingOfOne(p: Project, archived: bool)
    ensures ProjectsListing([p], archived) == (if Flag(p.archived) == archived then [p] else [])
  {
    assert [p][1..] == [];
  }

  /**
   * The active and the archived listings split the server's projects: each
   * project is in exactly one of them, so the two files never share a project.
   */
  lemma ListingsPartition(all: seq<Project>)
    ensures forall p :: p in all <==> p in ProjectsListing(all, false) || p in ProjectsListing(all, true)
    ensures forall p :: !(p in ProjectsListing(all, false) && p in ProjectsListing(all, true))
  {
    ListingMembers(all, false);
    ListingMembers(all, true);
  }

  /** The output a stage produces from the server's listings. */
  function StageOutput(server: Server, stage: Stage): (out: Output)
    ensures out.file == stage.file
    ensures |out.lines| > 0 && out.lines[0].HeaderLine?
  {
    match stage
    case ProjectsStage(file, archived, scope) =>
      var listed := ProjectsListing(server.projects, archived);
      Output(file, ProjectLines(listed, scope), ProgressMarks(|listed|, ProjectsPerNotice))
    case GroupsStage(file, scope) =>
      Output(file, GroupLines(server.groups, scope), ProgressMarks(|server.groups|, GroupsPerNotice))
    case UsersStage(file) =>
      Output(file, UserLines(server.users), ProgressMarks(|server.users|, UsersPerNotice))
  }

  /** The whole run: the planned exit, or each planned stage's output in plan order. */
  function RunOutcome(server: Server, url: string, token: string, includeArchived: bool, scope: string): (o: Outcome)
    ensures o.Exited? <==> url == "" || token == ""
    ensures o.Exited? ==> o.code == 2
  {
    match PlanRun(url, token, includeArchived, scope)
    case Exit(code) => Exited(code)
    case Run(stages) => Wrote(seq(|stages|, i requires 0 <= i < |stages| => StageOutput(server, stages[i])))
  }

  /**
   * The archived split holds in the files: exporting the projects listed
   * with `archived` set gives rows whose archived cell is exactly that flag,
   * so projects.csv holds only False and archived_projects.csv only True.
   */
  lemma ArchivedSplit(all: seq<Project>, archived: bool, scope: string)
    ensures var lines := ProjectLines(ProjectsListing(all, archived), scope);
      forall k :: 1 <= k < |lines| ==> lines[k].Row? && Archived in lines[k].record && lines[k].record[Archived] == Bool(archived)
  {
    var listed := ProjectsListing(all, archived);
    var lines := ProjectLines(listed, scope);
    ListingMembers(all, archived);
    forall k | 1 <= k < |lines| ensures lines[k].Row? && Archived in lines[k].record && lines[k].record[Archived] == Bool(archived) {
      var p := listed[k - 1];
      assert p in listed;
      assert lines[(k - 1) + 1] == Row(ProjectRow(p, scope));
      ProjectRecordCells(p, MemberSummary(if scope == "all" then p.memberships.inherited else p.memberships.direct));
    }
  }

  /**
   * What a run writes, file by file: projects.csv holds the active listing
   * and archived_projects.csv (when asked for) the archived one, each
   * exported with the requested scope; then groups.csv and users.csv; each
   * with the notices its exporter reports.
   */
  lemma RunOutputs(server: Server, url: string, token: string, includeArchived: bool, scope: string)
    requires url != "" && token != ""
    ensures var o := RunOutcome(server, url, token, includeArchived, scope);
      var active := ProjectsListing(server.projects, false);
      var archived := ProjectsListing(server.projects, true);
      o.Wrote? && |o.outputs| == (if includeArchived then 4 else 3) &&
      o.outputs[0] == Output(ActiveProjectsFile, ProjectLines(active, scope), ProgressMarks(|active|, ProjectsPerNotice)) &&
      (includeArchived ==>
        o.outputs[1] == Output(ArchivedProjectsFile, ProjectLines(archived, scope), ProgressMarks(|archived|, ProjectsPerNotice))) &&
      o.outputs[|o.outputs| - 2] == Output(GroupsFile, GroupLines(server.groups, scope), ProgressMarks(|server.groups|, GroupsPerNotice)) &&
      o.outputs[|o.outputs| - 1] == Output(UsersFile, UserLines(server.users), ProgressMarks(|server.users|, UsersPerNotice))
  {
    var stages := PlanRun(url, token, includeArchived, scope).stages;
    var o := RunOutcome(server, url, token, includeArchived, scope);
    assert o.outputs[0] == StageOutput(server, stages[0]);
    assert o.outputs[|o.outputs| - 2] == StageOutput(server, stages[|stages| - 2]);
    assert o.outputs[|o.outputs| - 1] == StageOutput(server, stages[|stages| - 1]);
    if includeArchived {
      assert o.outputs[1] == StageOutput(server, stages[1]);
    }
  }

  /** users.csv has one row per user the server lists, after the header. */
  lemma EveryUserExported(server: Server, url: string, token: string, includeArchived: bool, scope: string)
    requires url != "" && token != ""
    ensures var o := RunOutcome(server, url, token, includeArchived, scope);
      |o.outputs| > 0 && o.outputs[|o.outputs| - 1] == Output(UsersFile, UserLines(server.users),
        ProgressMarks(|server.users|, UsersPerNotice)) &&
      |o.outputs[|o.outputs| - 1].lines| == |server.users| + 1
  {
    RunOutputs(server, url, token, includeArchived, scope);
  }
}
