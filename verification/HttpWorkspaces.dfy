/** HTTP workspaces as trees and as tables, src-tauri/src/services/http_workspace_store.rs. */
module HttpWorkspaces {
  import opened Bytes
  import opened HttpTables

  // ----- Trees -----

  datatype HttpKeyValueEntry = HttpKeyValueEntry(key: string, value: string, enabled: bool)

  datatype HttpEnvironmentDraft = HttpEnvironmentDraft(id: string, name: string, variables: seq<HttpKeyValueEntry>)

  datatype HttpRequestDraft = HttpRequestDraft(
    id: string, name: string, httpMethod: string, url: string, body: string,
    headers: seq<HttpKeyValueEntry>, params: seq<HttpKeyValueEntry>, tempVariables: seq<HttpKeyValueEntry>)

  datatype HttpProjectDraft = HttpProjectDraft(
    id: string, name: string, requests: seq<HttpRequestDraft>, variables: seq<HttpKeyValueEntry>)

  datatype HttpWorkspaceDraft = HttpWorkspaceDraft(
    id: string, name: string, activeEnvironmentId: Option<string>, environments: seq<HttpEnvironmentDraft>,
    projects: seq<HttpProjectDraft>, requests: seq<HttpRequestDraft>, variables: seq<HttpKeyValueEntry>)

  // ----- Tables -----

  datatype WorkspaceColumns = WorkspaceColumns(
    activeEnvironmentId: Option<string>, environments: seq<HttpEnvironmentDraft>, variables: seq<HttpKeyValueEntry>)

  /** Requests belong to a workspace and perhaps to one of its projects. */
  datatype Scope = Scope(workspaceId: string, projectId: Option<string>)

  datatype RequestColumns = RequestColumns(httpMethod: string, url: string, draft: HttpRequestDraft)

  type WorkspaceRow = Row<(), WorkspaceColumns>
  type ProjectRow = Row<string, seq<HttpKeyValueEntry>>
  type RequestRow = Row<Scope, RequestColumns>

  datatype Tables = Tables(workspaces: seq<WorkspaceRow>, projects: seq<ProjectRow>, requests: seq<RequestRow>) {
    function Then(t: Tables): Tables {
      Tables(workspaces + t.workspaces, projects + t.projects, requests + t.requests)
    }
  }

  const NO_ROWS := Tables([], [], [])

  function WorkspaceRowOf(w: HttpWorkspaceDraft, index: nat): WorkspaceRow {
    Row(w.id, (), w.name, index, WorkspaceColumns(w.activeEnvironmentId, w.environments, w.variables))
  }

  function ProjectRowOf(workspaceId: string, p: HttpProjectDraft, index: nat): ProjectRow {
    Row(p.id, workspaceId, p.name, index, p.variables)
  }

  function RequestRowOf(scope: Scope, r: HttpRequestDraft, index: nat): RequestRow {
    Row(r.id, scope, r.name, index, RequestColumns(r.httpMethod, r.url, r))
  }

  function ProjectRows(workspaceId: string, projects: seq<HttpProjectDraft>): (r: seq<ProjectRow>)
    ensures |r| == |projects|
    ensures forall i :: 0 <= i < |r| ==> r[i] == ProjectRowOf(workspaceId, projects[i], i)
  {
    seq(|projects|, i requires 0 <= i < |projects| => ProjectRowOf(workspaceId, projects[i], i))
  }

  function RequestRows(scope: Scope, requests: seq<HttpRequestDraft>): (r: seq<RequestRow>)
    ensures |r| == |requests|
    ensures forall i :: 0 <= i < |r| ==> r[i] == RequestRowOf(scope, requests[i], i)
  {
    seq(|requests|, i requires 0 <= i < |requests| => RequestRowOf(scope, requests[i], i))
  }

  /** The requests of projects, in order. */
  function ProjectRequestRows(workspaceId: string, projects: seq<HttpProjectDraft>): seq<RequestRow> {
    if projects == [] then []
    else
      var last := projects[|projects| - 1];
      ProjectRequestRows(workspaceId, projects[..|projects| - 1])
      + RequestRows(Scope(workspaceId, Some(last.id)), last.requests)
  }

  function RowsOf(w: HttpWorkspaceDraft, index: nat): Tables {
    Tables([WorkspaceRowOf(w, index)], ProjectRows(w.id, w.projects),
           RequestRows(Scope(w.id, None), w.requests) + ProjectRequestRows(w.id, w.projects))
  }

  /** All rows of some workspaces in the order of their insertion. */
  function Flatten(ws: seq<HttpWorkspaceDraft>): Tables {
    if ws == [] then NO_ROWS else Flatten(ws[..|ws| - 1]).Then(RowsOf(ws[|ws| - 1], |ws| - 1))
  }

  /** No id is used twice in one table. */
  ghost predicate NoClash(ws: seq<HttpWorkspaceDraft>) {
    var t := Flatten(ws);
    Distinct(t.workspaces) && Distinct(t.projects) && Distinct(t.requests)
  }

  lemma FlattenMore(ws: seq<HttpWorkspaceDraft>, i: nat)
    requires i < |ws|
    ensures Flatten(ws[..i + 1]) == Flatten(ws[..i]).Then(RowsOf(ws[i], i))
  {
    hide RowsOf, Tables.Then;
    assert ws[..i + 1][..i] == ws[..i];
  }

  predicate StartsWith(all: Tables, t: Tables) {
    t.workspaces <= all.workspaces && t.projects <= all.projects && t.requests <= all.requests
  }

  lemma {:induction false} FlattenStarts(ws: seq<HttpWorkspaceDraft>, i: nat)
    requires i <= |ws|
    ensures StartsWith(Flatten(ws), Flatten(ws[..i]))
    decreases |ws| - i
  {
    hide Flatten, RowsOf;
    if i < |ws| {
      FlattenStarts(ws, i + 1);
      FlattenMore(ws, i);
    } else {
      assert ws[..i] == ws;
    }
  }

  // ----- Loading -----

  function Drafts(rows: seq<RequestRow>): (r: seq<HttpRequestDraft>)
    ensures |r| == |rows|
    ensures forall i :: 0 <= i < |r| ==> r[i] == rows[i].content.draft
  {
    seq(|rows|, i requires 0 <= i < |rows| => rows[i].content.draft)
  }

  function ProjectOf(t: Tables, row: ProjectRow, workspaceId: string): HttpProjectDraft {
    HttpProjectDraft(row.id, row.name, Drafts(Select(t.requests, Scope(workspaceId, Some(row.id)))), row.content)
  }

  function ProjectsOf(t: Tables, rows: seq<ProjectRow>, workspaceId: string): (r: seq<HttpProjectDraft>)
    ensures |r| == |rows|
    ensures forall i :: 0 <= i < |r| ==> r[i] == ProjectOf(t, rows[i], workspaceId)
  {
    seq(|rows|, i requires 0 <= i < |rows| => ProjectOf(t, rows[i], workspaceId))
  }

  function WorkspaceOf(t: Tables, row: WorkspaceRow): HttpWorkspaceDraft {
    HttpWorkspaceDraft(
      row.id, row.name, row.content.activeEnvironmentId, row.content.environments,
      ProjectsOf(t, Select(t.projects, row.id), row.id), Drafts(Select(t.requests, Scope(row.id, None))),
      row.content.variables)
  }

  function Load(t: Tables): (r: seq<HttpWorkspaceDraft>)
    ensures |r| == |Select(t.workspaces, ())|
    ensures forall i :: 0 <= i < |r| ==> r[i] == WorkspaceOf(t, Select(t.workspaces, ())[i])
  {
    var rows := Select(t.workspaces, ());
    seq(|rows|, i requires 0 <= i < |rows| => WorkspaceOf(t, rows[i]))
  }

  // ----- What was stored is loaded -----

  lemma RequestRowsAreRanked(scope: Scope, requests: seq<HttpRequestDraft>)
    ensures Ranked(RequestRows(scope, requests))
    ensures Drafts(RequestRows(scope, requests)) == requests
  {
  }

  lemma {:induction false} ProjectRequestRowsElsewhere(workspaceId: string, projects: seq<HttpProjectDraft>, scope: Scope)
    requires scope.workspaceId != workspaceId || forall i :: 0 <= i < |projects| ==> scope.projectId != Some(projects[i].id)
    ensures Where(ProjectRequestRows(workspaceId, projects), scope) == []
  {
    hide Where;
    if projects == [] {
      NothingWhere(scope);
    } else {
      var last := projects[|projects| - 1];
      var before := projects[..|projects| - 1];
      var rows := RequestRows(Scope(workspaceId, Some(last.id)), last.requests);
      ProjectRequestRowsElsewhere(workspaceId, before, scope);
      WhereNone(rows, scope);
      WhereConcat(ProjectRequestRows(workspaceId, before), rows, scope);
    }
  }

  lemma NothingWhere(scope: Scope)
    ensures Where<Scope, RequestColumns>([], scope) == []
  {
  }

  lemma {:induction false} ProjectRequestRowsHere(workspaceId: string, projects: seq<HttpProjectDraft>, k: nat)
    requires k < |projects| && Distinct(ProjectRows(workspaceId, projects))
    ensures Where(ProjectRequestRows(workspaceId, projects), Scope(workspaceId, Some(projects[k].id)))
            == RequestRows(Scope(workspaceId, Some(projects[k].id)), projects[k].requests)
  {
    hide Where;
    var n := |projects| - 1;
    var before, scope := projects[..n], Scope(workspaceId, Some(projects[k].id));
    var rows := RequestRows(Scope(workspaceId, Some(projects[n].id)), projects[n].requests);
    WhereConcat(ProjectRequestRows(workspaceId, before), rows, scope);
    assert forall i :: 0 <= i < n ==> ProjectRows(workspaceId, projects)[i].id == before[i].id;
    assert ProjectRows(workspaceId, projects)[n].id == projects[n].id;
    if k == n {
      ProjectRequestRowsElsewhere(workspaceId, before, scope);
      WhereAll(rows, scope);
    } else {
      assert before[k] == projects[k];
      assert forall i :: 0 <= i < n ==> ProjectRows(workspaceId, before)[i] == ProjectRows(workspaceId, projects)[i];
      ProjectRequestRowsHere(workspaceId, before, k);
      assert ProjectRows(workspaceId, projects)[k].id != ProjectRows(workspaceId, projects)[n].id;
      WhereNone(rows, scope);
    }
  }

  lemma {:induction false} WorkspaceRowsAt(ws: seq<HttpWorkspaceDraft>)
    ensures |Flatten(ws).workspaces| == |ws|
    ensures forall i :: 0 <= i < |ws| ==> Flatten(ws).workspaces[i] == WorkspaceRowOf(ws[i], i)
  {
    hide ProjectRows, RequestRows, ProjectRequestRows;
    if ws != [] {
      WorkspaceRowsAt(ws[..|ws| - 1]);
    }
  }

  /** What a single workspace puts into the tables lies in its own scopes. */
  lemma OwnScopes(w: HttpWorkspaceDraft, index: nat, scope: Scope)
    ensures scope.workspaceId != w.id ==>
              && Where(RowsOf(w, index).projects, scope.workspaceId) == []
              && Where(RowsOf(w, index).requests, scope) == []
    ensures Where(RowsOf(w, index).projects, w.id) == ProjectRows(w.id, w.projects)
    ensures scope == Scope(w.id, None) ==> Where(RowsOf(w, index).requests, scope) == RequestRows(scope, w.requests)
  {
    hide Where;
    var own := RequestRows(Scope(w.id, None), w.requests);
    WhereAll(ProjectRows(w.id, w.projects), w.id);
    WhereConcat(own, ProjectRequestRows(w.id, w.projects), scope);
    if scope.workspaceId != w.id {
      WhereNone(ProjectRows(w.id, w.projects), scope.workspaceId);
      WhereNone(own, scope);
      ProjectRequestRowsElsewhere(w.id, w.projects, scope);
    } else if scope.projectId.None? {
      WhereAll(own, scope);
      ProjectRequestRowsElsewhere(w.id, w.projects, scope);
    }
  }

  lemma ProjectScope(w: HttpWorkspaceDraft, index: nat, k: nat)
    requires k < |w.projects| && Distinct(ProjectRows(w.id, w.projects))
    ensures var scope := Scope(w.id, Some(w.projects[k].id));
            Where(RowsOf(w, index).requests, scope) == RequestRows(scope, w.projects[k].requests)
  {
    hide Where, Distinct;
    var scope := Scope(w.id, Some(w.projects[k].id));
    var own := RequestRows(Scope(w.id, None), w.requests);
    WhereConcat(own, ProjectRequestRows(w.id, w.projects), scope);
    WhereNone(own, scope);
    ProjectRequestRowsHere(w.id, w.projects, k);
  }

  lemma {:induction false} ScopesElsewhere(ws: seq<HttpWorkspaceDraft>, scope: Scope)
    requires forall i :: 0 <= i < |ws| ==> ws[i].id != scope.workspaceId
    ensures Where(Flatten(ws).projects, scope.workspaceId) == [] && Where(Flatten(ws).requests, scope) == []
  {
    hide RowsOf, Where;
    if ws == [] {
      WhereNone(Flatten(ws).projects, scope.workspaceId);
      WhereNone(Flatten(ws).requests, scope);
    } else {
      var n := |ws| - 1;
      var rows := RowsOf(ws[n], n);
      ScopesElsewhere(ws[..n], scope);
      OwnScopes(ws[n], n, scope);
      WhereConcat(Flatten(ws[..n]).projects, rows.projects, scope.workspaceId);
      WhereConcat(Flatten(ws[..n]).requests, rows.requests, scope);
    }
  }

  /** With distinct workspace ids, a scope chooses from one workspace only. */
  lemma {:induction false} ScopesHere(ws: seq<HttpWorkspaceDraft>, i: nat, scope: Scope)
    requires i < |ws| && scope.workspaceId == ws[i].id && Distinct(Flatten(ws).workspaces)
    ensures Where(Flatten(ws).projects, scope.workspaceId) == Where(RowsOf(ws[i], i).projects, scope.workspaceId)
    ensures Where(Flatten(ws).requests, scope) == Where(RowsOf(ws[i], i).requests, scope)
  {
    hide RowsOf, Where;
    var n := |ws| - 1;
    var before, rows := Flatten(ws[..n]), RowsOf(ws[n], n);
    WhereConcat(before.projects, rows.projects, scope.workspaceId);
    WhereConcat(before.requests, rows.requests, scope);
    DistinctIds(ws, i);
    if i == n {
      ScopesElsewhere(ws[..n], scope);
    } else {
      assert ws[..n][i] == ws[i];
      ScopesHere(ws[..n], i, scope);
      OwnScopes(ws[n], n, scope);
    }
  }

  lemma DistinctIds(ws: seq<HttpWorkspaceDraft>, i: nat)
    requires i < |ws| && Distinct(Flatten(ws).workspaces)
    ensures Distinct(Flatten(ws[..|ws| - 1]).workspaces)
    ensures forall j :: 0 <= j < |ws| && j != i ==> ws[j].id != ws[i].id
  {
    hide Flatten;
    WorkspaceRowsAt(ws);
    FlattenStarts(ws, |ws| - 1);
    DistinctPrefix(Flatten(ws[..|ws| - 1]).workspaces, Flatten(ws).workspaces);
  }

  lemma {:induction false} DistinctProjects(ws: seq<HttpWorkspaceDraft>, i: nat)
    requires i < |ws| && Distinct(Flatten(ws).projects)
    ensures Distinct(ProjectRows(ws[i].id, ws[i].projects))
    decreases |ws|
  {
    hide Distinct;
    var n := |ws| - 1;
    var before, rows := Flatten(ws[..n]).projects, ProjectRows(ws[n].id, ws[n].projects);
    assert Flatten(ws).projects == before + rows;
    if i == n {
      DistinctSuffix(before, rows);
    } else {
      DistinctPrefix(before, Flatten(ws).projects);
      DistinctProjects(ws[..n], i);
    }
  }

  lemma DistinctSuffix<S, T>(a: seq<Row<S, T>>, b: seq<Row<S, T>>)
    requires Distinct(a + b)
    ensures Distinct(b)
  {
    forall i, j | 0 <= i < j < |b|
      ensures b[i].id != b[j].id
    {
      assert (a + b)[|a| + i] == b[i] && (a + b)[|a| + j] == b[j];
    }
  }

  /** Loading what was saved gives the same trees in the same order. */
  lemma LoadOfFlatten(ws: seq<HttpWorkspaceDraft>)
    requires NoClash(ws)
    ensures Load(Flatten(ws)) == ws
  {
    hide Flatten, Select, WorkspaceOf, Distinct;
    var t := Flatten(ws);
    WorkspacesInOrder(ws);
    forall i | 0 <= i < |ws|
      ensures WorkspaceOf(t, t.workspaces[i]) == ws[i]
    {
      WorkspaceLoads(ws, i);
    }
  }

  lemma WorkspacesInOrder(ws: seq<HttpWorkspaceDraft>)
    ensures Select(Flatten(ws).workspaces, ()) == Flatten(ws).workspaces
    ensures |Flatten(ws).workspaces| == |ws|
  {
    hide Flatten, Where, OrderBy;
    WorkspaceRowsAt(ws);
    WhereAll(Flatten(ws).workspaces, ());
    RankedIsOrdered(Flatten(ws).workspaces);
  }

  lemma WorkspaceLoads(ws: seq<HttpWorkspaceDraft>, i: nat)
    requires i < |ws| && NoClash(ws)
    ensures |Flatten(ws).workspaces| == |ws| && WorkspaceOf(Flatten(ws), Flatten(ws).workspaces[i]) == ws[i]
  {
    hide Flatten, OrderBy, Where, Distinct, RowsOf;
    var t, w := Flatten(ws), ws[i];
    WorkspaceRowsAt(ws);
    var scope := Scope(w.id, None);
    ScopesHere(ws, i, scope);
    OwnScopes(w, i, scope);
    RequestRowsAreRanked(scope, w.requests);
    RankedIsOrdered(RequestRows(scope, w.requests));
    RankedIsOrdered(ProjectRows(w.id, w.projects));
    DistinctProjects(ws, i);
    forall k | 0 <= k < |w.projects|
      ensures ProjectOf(t, ProjectRows(w.id, w.projects)[k], w.id) == w.projects[k]
    {
      var inner := Scope(w.id, Some(w.projects[k].id));
      ScopesHere(ws, i, inner);
      ProjectScope(w, i, k);
      RequestRowsAreRanked(inner, w.projects[k].requests);
      RankedIsOrdered(RequestRows(inner, w.projects[k].requests));
    }
  }

  // ----- Seeded content -----

  const DEFAULT_WORKSPACE_ID := "ws-default"
  const DEFAULT_PROJECT_ID := "project-default"
  const DEFAULT_PROJECT_NAME := "\U{9ED8}\U{8BA4}\U{9879}\U{76EE}"
  const DEFAULT_WORKSPACE_NAME := "\U{9ED8}\U{8BA4}\U{5DE5}\U{4F5C}\U{533A}"

  /** Id, name and address of the requests that older versions put in. */
  const SEEDED_REQUESTS: seq<(string, string, string)> := [
    ("req-workspace-status", "\U{5DE5}\U{4F5C}\U{533A}\U{72B6}\U{6001}", "https://api.example.local/status"),
    ("req-health", "\U{670D}\U{52A1}\U{5065}\U{5EB7}\U{68C0}\U{67E5}", "https://api.example.local/health"),
    ("req-login", "\U{767B}\U{5F55}\U{63A5}\U{53E3}", "https://api.example.local/auth/login")]

  predicate IsSeeded(row: RequestRow) {
    row.scope.workspaceId == DEFAULT_WORKSPACE_ID && (row.id, row.name, row.content.url) in SEEDED_REQUESTS
  }

  predicate HasRequests(requests: seq<RequestRow>, projectId: string) {
    exists i :: 0 <= i < |requests| && requests[i].scope.projectId == Some(projectId)
  }

  predicate IsEmptyDefault(row: ProjectRow, requests: seq<RequestRow>) {
    && row.scope == DEFAULT_WORKSPACE_ID && row.id == DEFAULT_PROJECT_ID && row.name == DEFAULT_PROJECT_NAME
    && !HasRequests(requests, row.id)
  }

  function Kept(requests: seq<RequestRow>): seq<RequestRow> {
    Keep(requests, (row: RequestRow) => !IsSeeded(row))
  }

  function KeptProjects(projects: seq<ProjectRow>, requests: seq<RequestRow>): seq<ProjectRow> {
    Keep(projects, (row: ProjectRow) => !IsEmptyDefault(row, requests))
  }

  /** The tables without seeded content. */
  function Clean(t: Tables): Tables {
    Tables(t.workspaces, KeptProjects(t.projects, Kept(t.requests)), Kept(t.requests))
  }

  lemma CleanTwice(t: Tables)
    ensures Clean(Clean(t)) == Clean(t)
  {
    hide IsSeeded, IsEmptyDefault;
    KeepTwice(t.requests, (row: RequestRow) => !IsSeeded(row));
    var requests := Kept(t.requests);
    KeepTwice(t.projects, (row: ProjectRow) => !IsEmptyDefault(row, requests));
  }

  predicate IsSeededDraft(workspaceId: string, r: HttpRequestDraft) {
    workspaceId == DEFAULT_WORKSPACE_ID && (r.id, r.name, r.url) in SEEDED_REQUESTS
  }

  function PruneRequests(workspaceId: string, requests: seq<HttpRequestDraft>): seq<HttpRequestDraft> {
    if requests == [] then []
    else
      var last := requests[|requests| - 1];
      PruneRequests(workspaceId, requests[..|requests| - 1]) + if IsSeededDraft(workspaceId, last) then [] else [last]
  }

  /** A project loses its seeded requests, and goes if it is the default one and left empty. */
  function PruneProject(workspaceId: string, p: HttpProjectDraft): seq<HttpProjectDraft> {
    var rest := PruneRequests(workspaceId, p.requests);
    if workspaceId == DEFAULT_WORKSPACE_ID && p.id == DEFAULT_PROJECT_ID && p.name == DEFAULT_PROJECT_NAME && rest == []
    then []
    else [p.(requests := rest)]
  }

  function PruneProjects(workspaceId: string, projects: seq<HttpProjectDraft>): seq<HttpProjectDraft> {
    if projects == [] then []
    else PruneProjects(workspaceId, projects[..|projects| - 1]) + PruneProject(workspaceId, projects[|projects| - 1])
  }

  function PruneWorkspace(w: HttpWorkspaceDraft): HttpWorkspaceDraft {
    w.(requests := PruneRequests(w.id, w.requests), projects := PruneProjects(w.id, w.projects))
  }

  function Prune(ws: seq<HttpWorkspaceDraft>): (r: seq<HttpWorkspaceDraft>)
    ensures |r| == |ws|
    ensures forall i :: 0 <= i < |r| ==> r[i] == PruneWorkspace(ws[i])
  {
    seq(|ws|, i requires 0 <= i < |ws| => PruneWorkspace(ws[i]))
  }

  lemma SeededRow(scope: Scope, r: HttpRequestDraft, index: nat)
    ensures IsSeeded(RequestRowOf(scope, r, index)) <==> IsSeededDraft(scope.workspaceId, r)
  {
  }

  lemma {:induction false} KeptRequestRows(scope: Scope, requests: seq<HttpRequestDraft>)
    ensures Ranked(Kept(RequestRows(scope, requests)))
    ensures Drafts(Kept(RequestRows(scope, requests))) == PruneRequests(scope.workspaceId, requests)
  {
    hide Keep, Ranked, IsSeeded, IsSeededDraft;
    var rows, keep := RequestRows(scope, requests), (row: RequestRow) => !IsSeeded(row);
    RequestRowsAreRanked(scope, requests);
    KeepRanked(rows, keep);
    if requests == [] {
      assert Kept([]) == [] by {
        NothingKept();
      }
    } else {
      var n := |requests| - 1;
      var before, last := RequestRows(scope, requests[..n]), RequestRowOf(scope, requests[n], n);
      KeptRequestRows(scope, requests[..n]);
      SeededRow(scope, requests[n], n);
      assert rows == before + [last];
      KeepConcat(before, [last], keep);
      KeepOne(last, keep);
      var kept := if keep(last) then [last] else [];
      assert Drafts(Kept(before) + kept) == Drafts(Kept(before)) + Drafts(kept);
    }
  }

  lemma NothingKept()
    ensures Kept([]) == []
    ensures forall requests :: KeptProjects([], requests) == []
  {
  }

  lemma KeepOne<S, T>(row: Row<S, T>, keep: Row<S, T> -> bool)
    ensures Keep([row], keep) == if keep(row) then [row] else []
  {
  }

  /** A scope chooses the same rows before and after deleting, less the deleted ones. */
  lemma KeptInScope(ws: seq<HttpWorkspaceDraft>, i: nat, scope: Scope, requests: seq<HttpRequestDraft>)
    requires i < |ws| && scope.workspaceId == ws[i].id && Distinct(Flatten(ws).workspaces)
    requires Where(RowsOf(ws[i], i).requests, scope) == RequestRows(scope, requests)
    ensures Where(Kept(Flatten(ws).requests), scope) == Kept(RequestRows(scope, requests))
    ensures Drafts(Select(Kept(Flatten(ws).requests), scope)) == PruneRequests(scope.workspaceId, requests)
  {
    hide Flatten, RowsOf, Where, Keep, OrderBy, Distinct, IsSeeded, Ranked;
    ScopesHere(ws, i, scope);
    KeepWhere(Flatten(ws).requests, (row: RequestRow) => !IsSeeded(row), scope);
    KeptRequestRows(scope, requests);
    RankedIsOrdered(Kept(RequestRows(scope, requests)));
  }

  // ----- A request's project is in the tables -----

  ghost predicate HasProject(projects: seq<ProjectRow>, workspaceId: string, id: string) {
    exists i :: 0 <= i < |projects| && projects[i].scope == workspaceId && projects[i].id == id
  }

  lemma HasProjectMore(a: seq<ProjectRow>, b: seq<ProjectRow>, workspaceId: string, id: string)
    requires HasProject(a, workspaceId, id) || HasProject(b, workspaceId, id)
    ensures HasProject(a + b, workspaceId, id)
  {
    if HasProject(a, workspaceId, id) {
      var i :| 0 <= i < |a| && a[i].scope == workspaceId && a[i].id == id;
      assert (a + b)[i] == a[i];
    } else {
      var i :| 0 <= i < |b| && b[i].scope == workspaceId && b[i].id == id;
      assert (a + b)[|a| + i] == b[i];
    }
  }

  lemma {:induction false} OwnRequestsHaveProjects(workspaceId: string, projects: seq<HttpProjectDraft>, row: RequestRow)
    requires row in ProjectRequestRows(workspaceId, projects)
    ensures row.scope.workspaceId == workspaceId && row.scope.projectId.Some?
    ensures HasProject(ProjectRows(workspaceId, projects), workspaceId, row.scope.projectId.value)
  {
    var n := |projects| - 1;
    var rows := RequestRows(Scope(workspaceId, Some(projects[n].id)), projects[n].requests);
    if row in rows {
      assert ProjectRows(workspaceId, projects)[n].id == projects[n].id;
    } else {
      OwnRequestsHaveProjects(workspaceId, projects[..n], row);
      assert ProjectRows(workspaceId, projects)
             == ProjectRows(workspaceId, projects[..n]) + [ProjectRowOf(workspaceId, projects[n], n)];
      HasProjectMore(ProjectRows(workspaceId, projects[..n]), [ProjectRowOf(workspaceId, projects[n], n)],
                     workspaceId, row.scope.projectId.value);
    }
  }

  lemma {:induction false} RequestsHaveProjects(ws: seq<HttpWorkspaceDraft>, row: RequestRow)
    requires row in Flatten(ws).requests && row.scope.projectId.Some?
    ensures HasProject(Flatten(ws).projects, row.scope.workspaceId, row.scope.projectId.value)
    decreases |ws|
  {
    hide ProjectRequestRows, HasProject;
    var n := |ws| - 1;
    var before, w := Flatten(ws[..n]), ws[n];
    if row in before.requests {
      RequestsHaveProjects(ws[..n], row);
    } else {
      assert row in ProjectRequestRows(w.id, w.projects);
      OwnRequestsHaveProjects(w.id, w.projects, row);
    }
    HasProjectMore(before.projects, ProjectRows(w.id, w.projects), row.scope.workspaceId, row.scope.projectId.value);
  }

  /** With distinct project ids, a project has requests exactly when its own scope does. */
  lemma RequestsAreOwn(ws: seq<HttpWorkspaceDraft>, requests: seq<RequestRow>, workspaceId: string, id: string)
    requires NoClash(ws) && HasProject(Flatten(ws).projects, workspaceId, id)
    requires forall row :: row in requests ==> row in Flatten(ws).requests
    ensures HasRequests(requests, id) <==> Where(requests, Scope(workspaceId, Some(id))) != []
  {
    hide Flatten, Where;
    var scope := Scope(workspaceId, Some(id));
    if HasRequests(requests, id) {
      var i :| 0 <= i < |requests| && requests[i].scope.projectId == Some(id);
      RequestsHaveProjects(ws, requests[i]);
      assert requests[i].scope == scope;
      WhereFinds(requests, scope, i);
    } else {
      WhereNone(requests, scope);
    }
  }

  lemma {:induction false} WhereFinds(requests: seq<RequestRow>, scope: Scope, i: nat)
    requires i < |requests| && requests[i].scope == scope
    ensures Where(requests, scope) != []
  {
    if i > 0 {
      WhereFinds(requests[1..], scope, i - 1);
    }
  }

  lemma ProjectIsThere(ws: seq<HttpWorkspaceDraft>, i: nat, k: nat)
    requires i < |ws| && k < |ws[i].projects|
    ensures HasProject(Flatten(ws).projects, ws[i].id, ws[i].projects[k].id)
  {
    hide Flatten, RowsOf;
    FlattenMore(ws, i);
    FlattenStarts(ws, i + 1);
    OneProject(Flatten(ws[..i]).projects, RowsOf(ws[i], i).projects, Flatten(ws).projects, ws[i], i, k);
  }

  lemma OneProject(before: seq<ProjectRow>, rows: seq<ProjectRow>, all: seq<ProjectRow>, w: HttpWorkspaceDraft, i: nat,
                   k: nat)
    requires rows == RowsOf(w, i).projects && before + rows <= all && k < |w.projects|
    ensures HasProject(all, w.id, w.projects[k].id)
  {
    assert all[|before| + k] == (before + rows)[|before| + k] == rows[k];
  }

  lemma KeptRequestsAreThere(rows: seq<RequestRow>)
    ensures forall row :: row in Kept(rows) ==> row in rows
  {
    hide IsSeeded;
    forall row | row in Kept(rows)
      ensures row in rows
    {
      KeepMembers(rows, (r: RequestRow) => !IsSeeded(r), row);
    }
  }

  /** A project row goes exactly when its tree does. */
  lemma ProjectPruned(ws: seq<HttpWorkspaceDraft>, i: nat, k: nat)
    requires i < |ws| && k < |ws[i].projects| && NoClash(ws)
    ensures var w, kept := ws[i], Kept(Flatten(ws).requests);
            var row := ProjectRowOf(w.id, w.projects[k], k);
            PruneProject(w.id, w.projects[k])
            == if IsEmptyDefault(row, kept) then [] else [ProjectOf(Clean(Flatten(ws)), row, w.id)]
  {
    hide Flatten, RowsOf, Where, OrderBy, Distinct, HasRequests, Kept, HasProject;
    var w := ws[i];
    var p := w.projects[k];
    var scope := Scope(w.id, Some(p.id));
    DistinctProjects(ws, i);
    ProjectScope(w, i, k);
    KeptInScope(ws, i, scope, p.requests);
    ProjectIsThere(ws, i, k);
    KeptRequestsAreThere(Flatten(ws).requests);
    RequestsAreOwn(ws, Kept(Flatten(ws).requests), w.id, p.id);
    KeptRequestRows(scope, p.requests);
    RankedIsOrdered(Kept(RequestRows(scope, p.requests)));
  }

  lemma {:induction false} ProjectsPruned(ws: seq<HttpWorkspaceDraft>, i: nat, k: nat)
    requires i < |ws| && k <= |ws[i].projects| && NoClash(ws)
    ensures var w, t := ws[i], Clean(Flatten(ws));
            var rows := KeptProjects(ProjectRows(w.id, w.projects)[..k], t.requests);
            ProjectsOf(t, rows, w.id) == PruneProjects(w.id, w.projects[..k])
  {
    hide NoClash, Clean, IsEmptyDefault, ProjectOf, PruneProject, Keep;
    var w, t := ws[i], Clean(Flatten(ws));
    var all := ProjectRows(w.id, w.projects);
    var keep := (row: ProjectRow) => !IsEmptyDefault(row, t.requests);
    if k == 0 {
      assert all[..0] == [] && w.projects[..0] == [];
      NothingKept();
    } else {
      var before := all[..k - 1];
      ProjectsPruned(ws, i, k - 1);
      assert all[..k] == before + [all[k - 1]];
      KeepConcat(before, [all[k - 1]], keep);
      KeepOne(all[k - 1], keep);
      ProjectPruned(ws, i, k - 1);
      CleanRequests(Flatten(ws));
      assert w.projects[..k][..k - 1] == w.projects[..k - 1] && w.projects[..k][k - 1] == w.projects[k - 1];
      var kept := Keep(before, keep);
      var last := if keep(all[k - 1]) then [all[k - 1]] else [];
      ProjectsOfConcat(t, kept, last, w.id);
    }
  }

  lemma ProjectsOfConcat(t: Tables, a: seq<ProjectRow>, b: seq<ProjectRow>, workspaceId: string)
    ensures ProjectsOf(t, a + b, workspaceId) == ProjectsOf(t, a, workspaceId) + ProjectsOf(t, b, workspaceId)
  {
  }

  lemma CleanRequests(t: Tables)
    ensures Clean(t).requests == Kept(t.requests)
    ensures Clean(t).workspaces == t.workspaces
    ensures Clean(t).projects == KeptProjects(t.projects, Kept(t.requests))
  {
  }

  lemma WorkspacePruned(ws: seq<HttpWorkspaceDraft>, i: nat)
    requires i < |ws| && NoClash(ws)
    ensures |Flatten(ws).workspaces| == |ws|
    ensures WorkspaceOf(Clean(Flatten(ws)), Flatten(ws).workspaces[i]) == PruneWorkspace(ws[i])
  {
    hide Flatten, OrderBy, Where, Distinct, RowsOf, Kept, Keep, IsEmptyDefault, Clean;
    var t, w := Flatten(ws), ws[i];
    WorkspaceRowsAt(ws);
    CleanRequests(t);
    var scope := Scope(w.id, None);
    OwnScopes(w, i, scope);
    KeptInScope(ws, i, scope, w.requests);
    var rows := ProjectRows(w.id, w.projects);
    var keep := (row: ProjectRow) => !IsEmptyDefault(row, Kept(t.requests));
    ScopesHere(ws, i, scope);
    KeepWhere(t.projects, keep, w.id);
    KeepRanked(rows, keep);
    RankedIsOrdered(Keep(rows, keep));
    ProjectsPruned(ws, i, |w.projects|);
    assert rows[..|rows|] == rows && w.projects[..|w.projects|] == w.projects;
  }

  /** Listing what was saved gives the saved trees without the seeded content. */
  lemma LoadOfClean(ws: seq<HttpWorkspaceDraft>)
    requires NoClash(ws)
    ensures Load(Clean(Flatten(ws))) == Prune(ws)
  {
    hide Flatten, Select, WorkspaceOf, NoClash, Clean, PruneWorkspace;
    var t := Clean(Flatten(ws));
    CleanRequests(Flatten(ws));
    WorkspacesInOrder(ws);
    forall i | 0 <= i < |ws|
      ensures WorkspaceOf(t, t.workspaces[i]) == PruneWorkspace(ws[i])
    {
      WorkspacePruned(ws, i);
    }
  }

  lemma {:induction false} PruneRequestsTwice(workspaceId: string, requests: seq<HttpRequestDraft>)
    ensures PruneRequests(workspaceId, PruneRequests(workspaceId, requests)) == PruneRequests(workspaceId, requests)
  {
    hide IsSeededDraft;
    if requests != [] {
      var before, last := PruneRequests(workspaceId, requests[..|requests| - 1]), requests[|requests| - 1];
      PruneRequestsTwice(workspaceId, requests[..|requests| - 1]);
      assert (before + [last])[..|before|] == before;
      assert before + [] == before;
    }
  }

  lemma {:induction false} PruneProjectsTwice(workspaceId: string, projects: seq<HttpProjectDraft>)
    ensures PruneProjects(workspaceId, PruneProjects(workspaceId, projects)) == PruneProjects(workspaceId, projects)
  {
    hide PruneRequests;
    if projects != [] {
      var before, last := PruneProjects(workspaceId, projects[..|projects| - 1]), projects[|projects| - 1];
      PruneProjectsTwice(workspaceId, projects[..|projects| - 1]);
      PruneRequestsTwice(workspaceId, last.requests);
      var p := PruneProject(workspaceId, last);
      if p != [] {
        assert (before + p)[..|before|] == before;
      } else {
        assert before + [] == before;
      }
    }
  }

  lemma PruneTwice(ws: seq<HttpWorkspaceDraft>)
    ensures Prune(Prune(ws)) == Prune(ws)
  {
    hide PruneRequests, PruneProjects;
    forall i | 0 <= i < |ws|
      ensures PruneWorkspace(PruneWorkspace(ws[i])) == PruneWorkspace(ws[i])
    {
      PruneRequestsTwice(ws[i].id, ws[i].requests);
      PruneProjectsTwice(ws[i].id, ws[i].projects);
    }
  }

  /** What older versions seeded, by id, name and address. */
  lemma SeededContent(workspaceId: string, r: HttpRequestDraft)
    ensures IsSeededDraft(workspaceId, r)
            <==> workspaceId == "ws-default"
                 && ((r.id == "req-workspace-status" && r.name == "工作区状态" && r.url == "https://api.example.local/status")
                     || (r.id == "req-health" && r.name == "服务健康检查" && r.url == "https://api.example.local/health")
                     || (r.id == "req-login" && r.name == "登录接口" && r.url == "https://api.example.local/auth/login"))
  {
  }

  lemma DefaultProject(workspaceId: string, p: HttpProjectDraft)
    ensures PruneProject(workspaceId, p) == []
            <==> workspaceId == "ws-default" && p.id == "project-default" && p.name == "默认项目"
                 && forall i :: 0 <= i < |p.requests| ==> IsSeededDraft(workspaceId, p.requests[i])
    ensures PruneProject(workspaceId, p) != [] ==>
              PruneProject(workspaceId, p) == [p.(requests := PruneRequests(workspaceId, p.requests))]
  {
    hide IsSeededDraft;
    AllPruned(workspaceId, p.requests);
  }

  lemma {:induction false} AllPruned(workspaceId: string, requests: seq<HttpRequestDraft>)
    ensures PruneRequests(workspaceId, requests) == []
            <==> forall i :: 0 <= i < |requests| ==> IsSeededDraft(workspaceId, requests[i])
  {
    hide IsSeededDraft;
    if requests != [] {
      AllPruned(workspaceId, requests[..|requests| - 1]);
    }
  }

  /** Pruning keeps the other requests in their order. */
  lemma {:induction false} PruneKeepsTheRest(workspaceId: string, requests: seq<HttpRequestDraft>, r: HttpRequestDraft)
    ensures PruneRequests(workspaceId, requests + [r])
            == if IsSeededDraft(workspaceId, r) then PruneRequests(workspaceId, requests)
               else PruneRequests(workspaceId, requests) + [r]
  {
    hide IsSeededDraft;
    assert (requests + [r])[..|requests|] == requests;
  }
}
