/** The store of HTTP workspaces, src-tauri/src/services/http_workspace_store.rs. Any statement
    may fail. */
module HttpWorkspaceStore {
  import opened Bytes
  import opened HttpTables
  import opened HttpWorkspaces

  /** A clash of keys, a missing parent, a failing statement, or a failure to read after all
      changes were made. */
  datatype StoreError = Clash | MissingParent | Storage | ReadFailed

  const DEFAULT_WORKSPACES: seq<HttpWorkspaceDraft> := [
    HttpWorkspaceDraft(DEFAULT_WORKSPACE_ID, DEFAULT_WORKSPACE_NAME, None, [], [], [], [])]

  // ----- Inserting -----

  /** A row that is next among all rows, and repeats a key, makes them clash. */
  lemma RepeatedKey<S, T>(rows: seq<Row<S, T>>, row: Row<S, T>, all: seq<Row<S, T>>)
    requires rows + [row] <= all && row.id in Ids(rows)
    ensures !Distinct(all)
  {
    var k :| 0 <= k < |rows| && rows[k].id == row.id;
    assert all[k] == (rows + [row])[k] && all[|rows|] == (rows + [row])[|rows|];
  }

  lemma NextRow<S, T>(before: seq<Row<S, T>>, rows: seq<Row<S, T>>, k: nat, all: seq<Row<S, T>>)
    requires k < |rows| && before + rows <= all
    ensures before + rows[..k] + [rows[k]] <= all
    ensures before + rows[..k] + [rows[k]] == before + rows[..k + 1]
  {
  }

  lemma IdIsThere<S, T>(rows: seq<Row<S, T>>, k: nat)
    requires k < |rows|
    ensures rows[k].id in Ids(rows)
  {
  }

  class HttpWorkspaceStore {
    /** No statement fails. */
    const reliable: bool
    var tables: Tables

    /** The trees that were saved last. */
    ghost var saved: seq<HttpWorkspaceDraft>

    constructor (reliable: bool)
      ensures Valid() && tables == NO_ROWS && saved == [] && this.reliable == reliable
    {
      this.reliable := reliable;
      tables, saved := NO_ROWS, [];
    }

    /** The trees saved last decide what a listing shows, even after a clean-up that broke off. */
    ghost predicate Valid()
      reads this
    {
      NoClash(saved) && Clean(tables) == Clean(Flatten(saved)) && tables.workspaces == Flatten(saved).workspaces
    }

    /** Inserts requests below a workspace or project that is already there; `all` is what the
        request table is meant to hold in the end. */
    method InsertRequests(scope: Scope, requests: seq<HttpRequestDraft>, ghost all: seq<RequestRow>)
      returns (r: Option<StoreError>)
      requires scope.workspaceId in Ids(tables.workspaces)
      requires scope.projectId.Some? ==> scope.projectId.value in Ids(tables.projects)
      requires tables.requests + RequestRows(scope, requests) <= all && Distinct(tables.requests)
      modifies this`tables
      ensures tables.workspaces == old(tables.workspaces) && tables.projects == old(tables.projects)
      ensures r.None? ==> tables.requests == old(tables.requests) + RequestRows(scope, requests) && Distinct(tables.requests)
      ensures r.Some? ==> (r.value == Storage && !reliable) || (r.value == Clash && !Distinct(all))
    {
      hide Distinct, Ids;
      ghost var before, rows := tables.requests, RequestRows(scope, requests);
      assert before + rows[..0] == before;
      for i := 0 to |requests|
        invariant tables.workspaces == old(tables.workspaces) && tables.projects == old(tables.projects)
        invariant tables.requests == before + rows[..i] && Distinct(tables.requests)
      {
        var works: bool :| reliable ==> works;
        if !works {
          return Some(Storage);
        }
        var row := RequestRowOf(scope, requests[i], i);
        NextRow(before, rows, i, all);
        if row.id in Ids(tables.requests) {
          RepeatedKey(tables.requests, row, all);
          return Some(Clash);
        }
        if row.scope.workspaceId !in Ids(tables.workspaces)
           || (row.scope.projectId.Some? && row.scope.projectId.value !in Ids(tables.projects)) {
          return Some(MissingParent);
        }
        DistinctMore(tables.requests, row);
        tables := tables.(requests := tables.requests + [row]);
      }
      assert rows[..|rows|] == rows;
      r := None;
    }

    /** Inserts the projects of a workspace, each with its requests. */
    method InsertProjects(workspaceId: string, projects: seq<HttpProjectDraft>, ghost all: Tables)
      returns (r: Option<StoreError>)
      requires workspaceId in Ids(tables.workspaces)
      requires tables.projects + ProjectRows(workspaceId, projects) <= all.projects && Distinct(tables.projects)
      requires tables.requests + ProjectRequestRows(workspaceId, projects) <= all.requests && Distinct(tables.requests)
      modifies this`tables
      ensures tables.workspaces == old(tables.workspaces)
      ensures r.None? ==>
                && tables.projects == old(tables.projects) + ProjectRows(workspaceId, projects)
                && tables.requests == old(tables.requests) + ProjectRequestRows(workspaceId, projects)
                && Distinct(tables.projects) && Distinct(tables.requests)
      ensures r.Some? ==> || (r.value == Storage && !reliable)
                          || (r.value == Clash && !(Distinct(all.projects) && Distinct(all.requests)))
    {
      hide Distinct, Ids, ProjectRequestRows;
      ghost var before := tables;
      ghost var rows := ProjectRows(workspaceId, projects);
      NoProjects(workspaceId, projects, before);
      for i := 0 to |projects|
        invariant tables.workspaces == before.workspaces
        invariant tables.projects == before.projects + rows[..i] && Distinct(tables.projects)
        invariant tables.requests == before.requests + ProjectRequestRows(workspaceId, projects[..i])
        invariant Distinct(tables.requests)
      {
        var works: bool :| reliable ==> works;
        if !works {
          return Some(Storage);
        }
        var project := projects[i];
        var row := ProjectRowOf(workspaceId, project, i);
        NextRow(before.projects, rows, i, all.projects);
        if row.id in Ids(tables.projects) {
          RepeatedKey(tables.projects, row, all.projects);
          return Some(Clash);
        }
        if workspaceId !in Ids(tables.workspaces) {
          return Some(MissingParent);
        }
        DistinctMore(tables.projects, row);
        tables := tables.(projects := tables.projects + [row]);
        IdIsThere(tables.projects, |tables.projects| - 1);
        ProjectRequestsNext(workspaceId, projects, i, before.requests, all.requests);
        var failed := InsertRequests(Scope(workspaceId, Some(project.id)), project.requests, all.requests);
        if failed.Some? {
          return failed;
        }
      }
      assert rows[..|rows|] == rows && projects[..|projects|] == projects;
      r := None;
    }

    /** Replaces all workspaces in one transaction. */
    method ReplaceWorkspaces(workspaces: seq<HttpWorkspaceDraft>) returns (r: Option<StoreError>)
      modifies this`tables
      ensures r.None? ==> NoClash(workspaces) && tables == Flatten(workspaces)
      ensures r.Some? ==> tables == old(tables)
      ensures r.Some? ==> (r.value == Storage && !reliable) || (r.value == Clash && !NoClash(workspaces))
    {
      hide Distinct, Ids, Flatten, RowsOf;
      var saved := tables;
      var works: bool :| reliable ==> works;
      if !works {
        return Some(Storage);
      }
      tables := NO_ROWS;
      ghost var all := Flatten(workspaces);
      NoWorkspaces(workspaces);
      for i := 0 to |workspaces|
        invariant tables == Flatten(workspaces[..i])
        invariant Distinct(tables.workspaces) && Distinct(tables.projects) && Distinct(tables.requests)
      {
        works :| reliable ==> works;
        if !works {
          tables := saved;
          return Some(Storage);
        }
        var w := workspaces[i];
        var row := WorkspaceRowOf(w, i);
        ghost var before := tables;
        WorkspaceNext(workspaces, i);
        if row.id in Ids(tables.workspaces) {
          RepeatedKey(tables.workspaces, row, all.workspaces);
          tables := saved;
          return Some(Clash);
        }
        DistinctMore(tables.workspaces, row);
        tables := tables.(workspaces := tables.workspaces + [row]);
        IdIsThere(tables.workspaces, |tables.workspaces| - 1);
        var failed := InsertRequests(Scope(w.id, None), w.requests, all.requests);
        if failed.None? {
          failed := InsertProjects(w.id, w.projects, all);
        }
        if failed.Some? {
          tables := saved;
          return failed;
        }
        WorkspaceInserted(workspaces, i, before, tables);
      }
      assert workspaces[..|workspaces|] == workspaces;
      works :| reliable ==> works;
      if !works {
        tables := saved;
        return Some(Storage);
      }
      r := None;
    }

    /** Reads all requests of a scope in order. */
    method LoadRequests(scope: Scope) returns (r: Option<seq<HttpRequestDraft>>)
      ensures r.Some? ==> r.value == Drafts(Select(tables.requests, scope))
      ensures reliable ==> r.Some?
    {
      hide Select;
      var works: bool :| reliable ==> works;
      if !works {
        return None;
      }
      var rows := Select(tables.requests, scope);
      var requests: seq<HttpRequestDraft> := [];
      for i := 0 to |rows|
        invariant requests == Drafts(rows)[..i]
      {
        requests := requests + [rows[i].content.draft];
      }
      r := Some(requests);
    }

    method LoadProjects(workspaceId: string) returns (r: Option<seq<HttpProjectDraft>>)
      ensures r.Some? ==> r.value == ProjectsOf(tables, Select(tables.projects, workspaceId), workspaceId)
      ensures reliable ==> r.Some?
    {
      hide Select;
      var works: bool :| reliable ==> works;
      if !works {
        return None;
      }
      var rows := Select(tables.projects, workspaceId);
      var projects: seq<HttpProjectDraft> := [];
      for i := 0 to |rows|
        invariant projects == ProjectsOf(tables, rows, workspaceId)[..i]
      {
        var requests := LoadRequests(Scope(workspaceId, Some(rows[i].id)));
        if requests.None? {
          return None;
        }
        projects := projects + [HttpProjectDraft(rows[i].id, rows[i].name, requests.value, rows[i].content)];
      }
      r := Some(projects);
    }

    method LoadWorkspaces() returns (r: Option<seq<HttpWorkspaceDraft>>)
      ensures r.Some? ==> r.value == Load(tables)
      ensures reliable ==> r.Some?
    {
      hide Select;
      var works: bool :| reliable ==> works;
      if !works {
        return None;
      }
      var rows := Select(tables.workspaces, ());
      var workspaces: seq<HttpWorkspaceDraft> := [];
      for i := 0 to |rows|
        invariant workspaces == Load(tables)[..i]
      {
        var row := rows[i];
        var projects := LoadProjects(row.id);
        if projects.None? {
          return None;
        }
        var requests := LoadRequests(Scope(row.id, None));
        if requests.None? {
          return None;
        }
        workspaces := workspaces + [HttpWorkspaceDraft(
          row.id, row.name, row.content.activeEnvironmentId, row.content.environments, projects.value, requests.value,
          row.content.variables)];
      }
      r := Some(workspaces);
    }

    /** Deletes seeded content one statement at a time; a failure leaves some of it in place. */
    method RemoveSeededDefaultContent() returns (ok: bool)
      modifies this`tables
      ensures Clean(tables) == Clean(old(tables)) && tables.workspaces == old(tables.workspaces)
      ensures ok ==> tables == Clean(old(tables))
      ensures reliable ==> ok
    {
      hide Clean, Kept, KeptProjects, DeleteSeed, MatchesSeed;
      ghost var was := tables;
      NothingDeleted(was);
      for k := 0 to |SEEDED_REQUESTS|
        invariant PartlyClean(was, tables, k)
      {
        var works: bool :| reliable ==> works;
        if !works {
          PartlyCleanIsClean(was, tables, k);
          return false;
        }
        DeletedOne(was, tables, k);
        tables := tables.(requests := DeleteSeed(tables.requests, SEEDED_REQUESTS[k]));
      }
      PartlyCleanIsClean(was, tables, |SEEDED_REQUESTS|);
      var works: bool :| reliable ==> works;
      if !works {
        return false;
      }
      CleanTwice(was);
      tables := tables.(projects := KeptProjects(tables.projects, tables.requests));
      ok := true;
    }

    // ----- The whole store -----

    method SaveAll(workspaces: seq<HttpWorkspaceDraft>) returns (r: Result<seq<HttpWorkspaceDraft>, StoreError>)
      requires Valid()
      modifies this
      ensures Valid()
      ensures r.Ok? ==> r.value == workspaces
      ensures r.Ok? || r.error == ReadFailed ==> tables == Flatten(workspaces) && saved == workspaces
      ensures r.Err? && r.error != ReadFailed ==>
                tables == old(tables) && saved == old(saved) && (r.error == Storage || r.error == Clash)
      ensures r.Err? && r.error == Clash ==> !NoClash(workspaces)
      ensures !NoClash(workspaces) ==> r.Err? && r.error != ReadFailed
      ensures r.Err? ==> !reliable || (r.error == Clash && !NoClash(workspaces))
    {
      hide Flatten, NoClash, Clean, Load;
      var failed := ReplaceWorkspaces(workspaces);
      if failed.Some? {
        return Err(failed.value);
      }
      saved := workspaces;
      LoadOfFlatten(workspaces);
      var loaded := LoadWorkspaces();
      r := if loaded.None? then Err(ReadFailed) else Ok(loaded.value);
    }

    /** Lists the workspaces, seeding an empty database and removing what older versions seeded. */
    method List() returns (r: Result<seq<HttpWorkspaceDraft>, StoreError>)
      requires Valid()
      modifies this
      ensures Valid() && OrDefault(saved) == OrDefault(old(saved))
      ensures r.Ok? ==> saved == OrDefault(old(saved)) && r.value == Prune(saved) && tables == Clean(Flatten(saved))
      ensures r.Err? ==> !reliable && (r.error == Storage || r.error == ReadFailed)
    {
      hide Flatten, NoClash, Clean, Load, Prune;
      var works: bool :| reliable ==> works;
      if !works {
        return Err(Storage);
      }
      WorkspacesCounted(saved);
      DefaultsDoNotClash();
      if |tables.workspaces| == 0 {
        var failed := ReplaceWorkspaces(DEFAULT_WORKSPACES);
        if failed.Some? {
          return Err(Storage);
        }
        saved := DEFAULT_WORKSPACES;
      }
      CleanTwice(Flatten(saved));
      CleanRequests(Flatten(saved));
      var ok := RemoveSeededDefaultContent();
      if !ok {
        return Err(Storage);
      }
      LoadOfClean(saved);
      var loaded := LoadWorkspaces();
      r := if loaded.None? then Err(ReadFailed) else Ok(loaded.value);
    }

    /** Any run: a successful listing shows the last trees that got saved. */
    method Run(steps: seq<Step>) returns (answers: seq<Answer>)
      requires Valid()
      modifies this
      ensures Valid() && |answers| == |steps|
      ensures AllRight(old(saved), steps, answers)
      ensures reliable ==> OnlyClashesFail(steps, answers)
    {
      hide NoClash, Clean, Prune, LastSaved, OrDefault, AllRight, OnlyClashesFail, Right;
      ghost var first := saved;
      answers := [];
      NothingAnswered(first, steps);
      for k := 0 to |steps|
        invariant Valid() && |answers| == k
        invariant OrDefault(saved) == OrDefault(LastSaved(first, steps[..k], answers))
        invariant AllRight(first, steps[..k], answers)
        invariant reliable ==> OnlyClashesFail(steps[..k], answers)
      {
        ghost var before := OrDefault(saved);
        var answer;
        match steps[k] {
          case Save(workspaces) => answer := SaveAll(workspaces);
          case ListAll => answer := List();
        }
        LastSavedMore(first, steps, k, answers, answer);
        RightAnswer(first, steps, k, answers, answer);
        AllRightMore(first, steps, k, answers, answer);
        OnlyClashesMore(steps, k, answers, answer);
        answers := answers + [answer];
      }
      assert steps[..|steps|] == steps;
    }
  }

  /** Nothing failed but saving trees that repeat an id. */
  ghost predicate OnlyClashesFail(steps: seq<Step>, answers: seq<Answer>) {
    |steps| == |answers|
    && forall i :: 0 <= i < |steps| && answers[i].Err? ==>
         steps[i].Save? && answers[i].error == Clash && !NoClash(steps[i].workspaces)
  }

  lemma OnlyClashesMore(steps: seq<Step>, k: nat, answers: seq<Answer>, answer: Answer)
    requires |answers| == k < |steps|
    ensures OnlyClashesFail(steps[..k], answers)
            && (answer.Err? ==> steps[k].Save? && answer.error == Clash && !NoClash(steps[k].workspaces))
            ==> OnlyClashesFail(steps[..k + 1], answers + [answer])
  {
    hide NoClash;
  }

  lemma RightAnswer(first: seq<HttpWorkspaceDraft>, steps: seq<Step>, k: nat, answers: seq<Answer>, answer: Answer)
    requires |answers| == k < |steps|
    requires answer.Ok? && steps[k].Save? ==> answer.value == steps[k].workspaces
    requires answer.Ok? && steps[k].ListAll? ==> answer.value == Prune(OrDefault(LastSaved(first, steps[..k], answers)))
    ensures Right(first, steps[..k], answers, steps[k], answer)
  {
  }

  /** What a successful answer must be, after the steps before it. */
  predicate Right(first: seq<HttpWorkspaceDraft>, steps: seq<Step>, answers: seq<Answer>, step: Step, answer: Answer)
    requires |steps| == |answers|
  {
    answer.Ok? ==>
      answer.value == match step
                      case Save(workspaces) => workspaces
                      case ListAll => Prune(OrDefault(LastSaved(first, steps, answers)))
  }

  predicate AllRight(first: seq<HttpWorkspaceDraft>, steps: seq<Step>, answers: seq<Answer>) {
    |steps| == |answers|
    && forall i :: 0 <= i < |steps| ==> Right(first, steps[..i], answers[..i], steps[i], answers[i])
  }

  lemma NothingAnswered(first: seq<HttpWorkspaceDraft>, steps: seq<Step>)
    ensures steps[..0] == [] && LastSaved(first, [], []) == first && AllRight(first, [], []) && OnlyClashesFail([], [])
  {
  }

  lemma AllRightMore(first: seq<HttpWorkspaceDraft>, steps: seq<Step>, k: nat, answers: seq<Answer>, answer: Answer)
    requires |answers| == k < |steps| && AllRight(first, steps[..k], answers)
    requires Right(first, steps[..k], answers, steps[k], answer)
    ensures AllRight(first, steps[..k + 1], answers + [answer])
  {
    hide Right;
    var now, given := steps[..k + 1], answers + [answer];
    forall i | 0 <= i <= k
      ensures Right(first, now[..i], given[..i], now[i], given[i])
    {
      assert now[..i] == steps[..k][..i] == steps[..i] && given[..i] == answers[..i];
      if i == k {
        assert answers[..k] == answers;
      } else {
        assert steps[..k][i] == now[i] && given[i] == answers[i];
      }
    }
  }

  datatype Step = Save(workspaces: seq<HttpWorkspaceDraft>) | ListAll

  type Answer = Result<seq<HttpWorkspaceDraft>, StoreError>

  /** A save takes effect unless it fails before its end. */
  function LastSaved(first: seq<HttpWorkspaceDraft>, steps: seq<Step>, answers: seq<Answer>): seq<HttpWorkspaceDraft>
    requires |steps| == |answers|
  {
    if steps == [] then first
    else
      var n := |steps| - 1;
      if steps[n].Save? && (answers[n].Ok? || answers[n].error == ReadFailed) then steps[n].workspaces
      else LastSaved(first, steps[..n], answers[..n])
  }

  lemma LastSavedMore(first: seq<HttpWorkspaceDraft>, steps: seq<Step>, k: nat, answers: seq<Answer>, answer: Answer)
    requires |answers| == k < |steps|
    ensures LastSaved(first, steps[..k + 1], answers + [answer])
            == if steps[k].Save? && (answer.Ok? || answer.error == ReadFailed) then steps[k].workspaces
               else LastSaved(first, steps[..k], answers)
  {
    assert steps[..k + 1][..k] == steps[..k] && (answers + [answer])[..k] == answers;
  }

  /** What a listing shows of the trees saved last: an empty store is seeded. */
  function OrDefault(saved: seq<HttpWorkspaceDraft>): seq<HttpWorkspaceDraft> {
    if saved == [] then DEFAULT_WORKSPACES else saved
  }

  /** An empty store shows one empty workspace. */
  lemma EmptyStoreShows()
    ensures Prune(OrDefault([])) == [HttpWorkspaceDraft("ws-default", "默认工作区", None, [], [], [], [])]
  {
    var w := HttpWorkspaceDraft("ws-default", "默认工作区", None, [], [], [], []);
    assert DEFAULT_WORKSPACES == [w];
    assert PruneWorkspace(w) == w;
  }

  lemma WorkspacesCounted(saved: seq<HttpWorkspaceDraft>)
    ensures |Flatten(saved).workspaces| == |saved|
  {
  }

  lemma DefaultsDoNotClash()
    ensures NoClash(DEFAULT_WORKSPACES)
  {
  }

  /** Listing again shows the same. */
  lemma ListingIsStable(saved: seq<HttpWorkspaceDraft>)
    requires NoClash(saved)
    ensures Clean(Clean(Flatten(saved))) == Clean(Flatten(saved))
    ensures Load(Clean(Flatten(saved))) == Prune(saved)
    ensures Prune(Prune(saved)) == Prune(saved)
  {
    hide Flatten, Clean, Load, Prune, NoClash;
    CleanTwice(Flatten(saved));
    LoadOfClean(saved);
    PruneTwice(saved);
  }

  // ----- Deleting seeded requests one by one -----

  predicate MatchesSeed(row: RequestRow, seed: (string, string, string)) {
    row.scope.workspaceId == DEFAULT_WORKSPACE_ID && (row.id, row.name, row.content.url) == seed
  }

  function DeleteSeed(requests: seq<RequestRow>, seed: (string, string, string)): seq<RequestRow> {
    Keep(requests, (row: RequestRow) => !MatchesSeed(row, seed))
  }

  ghost predicate PartlyClean(was: Tables, t: Tables, k: nat)
    requires k <= |SEEDED_REQUESTS|
  {
    && t.workspaces == was.workspaces && t.projects == was.projects
    && Kept(t.requests) == Kept(was.requests)
    && forall row, j :: row in t.requests && 0 <= j < k ==> !MatchesSeed(row, SEEDED_REQUESTS[j])
  }

  lemma NothingDeleted(was: Tables)
    ensures PartlyClean(was, was, 0)
  {
  }

  lemma {:induction false} KeepLess<S, T>(rows: seq<Row<S, T>>, some: Row<S, T> -> bool, fewer: Row<S, T> -> bool)
    requires forall row :: row in rows && fewer(row) ==> some(row)
    ensures Keep(Keep(rows, some), fewer) == Keep(rows, fewer)
  {
    if rows != [] {
      KeepLess(rows[1..], some, fewer);
      var first := if some(rows[0]) then [rows[0]] else [];
      KeepConcat(first, Keep(rows[1..], some), fewer);
      KeepOne(rows[0], fewer);
      assert rows[0] in rows;
    }
  }

  lemma DeletedOne(was: Tables, t: Tables, k: nat)
    requires k < |SEEDED_REQUESTS| && PartlyClean(was, t, k)
    ensures PartlyClean(was, t.(requests := DeleteSeed(t.requests, SEEDED_REQUESTS[k])), k + 1)
  {
    hide SEEDED_REQUESTS;
    var seed := SEEDED_REQUESTS[k];
    var some := (row: RequestRow) => !MatchesSeed(row, seed);
    KeepLess(t.requests, some, (row: RequestRow) => !IsSeeded(row));
    forall row, j | row in DeleteSeed(t.requests, seed) && 0 <= j < k + 1
      ensures !MatchesSeed(row, SEEDED_REQUESTS[j])
    {
      KeepMembers(t.requests, some, row);
    }
  }

  lemma SeededMatches(row: RequestRow)
    ensures IsSeeded(row) <==> exists j :: 0 <= j < |SEEDED_REQUESTS| && MatchesSeed(row, SEEDED_REQUESTS[j])
  {
  }

  lemma PartlyCleanIsClean(was: Tables, t: Tables, k: nat)
    requires k <= |SEEDED_REQUESTS| && PartlyClean(was, t, k)
    ensures Clean(t) == Clean(was) && t.workspaces == was.workspaces
    ensures k == |SEEDED_REQUESTS| ==> Clean(t) == t.(projects := KeptProjects(t.projects, t.requests))
  {
    hide SEEDED_REQUESTS, Keep;
    if k == |SEEDED_REQUESTS| {
      forall row | row in t.requests
        ensures !IsSeeded(row)
      {
        SeededMatches(row);
      }
      KeepAll(t.requests, (row: RequestRow) => !IsSeeded(row));
    }
  }

  lemma NoProjects(workspaceId: string, projects: seq<HttpProjectDraft>, t: Tables)
    ensures t.projects + ProjectRows(workspaceId, projects)[..0] == t.projects
    ensures t.requests + ProjectRequestRows(workspaceId, projects[..0]) == t.requests
  {
  }

  lemma {:induction false} ProjectRequestsStart(workspaceId: string, projects: seq<HttpProjectDraft>, i: nat)
    requires i <= |projects|
    ensures ProjectRequestRows(workspaceId, projects[..i]) <= ProjectRequestRows(workspaceId, projects)
    decreases |projects| - i
  {
    hide RequestRows;
    if i < |projects| {
      assert projects[..i + 1][..i] == projects[..i];
      ProjectRequestsStart(workspaceId, projects, i + 1);
    } else {
      assert projects[..i] == projects;
    }
  }

  lemma ProjectRequestsNext(workspaceId: string, projects: seq<HttpProjectDraft>, i: nat, before: seq<RequestRow>,
                            all: seq<RequestRow>)
    requires i < |projects| && before + ProjectRequestRows(workspaceId, projects) <= all
    ensures var rows := RequestRows(Scope(workspaceId, Some(projects[i].id)), projects[i].requests);
            && before + ProjectRequestRows(workspaceId, projects[..i]) + rows <= all
            && before + ProjectRequestRows(workspaceId, projects[..i]) + rows
               == before + ProjectRequestRows(workspaceId, projects[..i + 1])
  {
    hide RequestRows;
    assert projects[..i + 1][..i] == projects[..i];
    ProjectRequestsStart(workspaceId, projects, i + 1);
    var rows := RequestRows(Scope(workspaceId, Some(projects[i].id)), projects[i].requests);
    assert before + ProjectRequestRows(workspaceId, projects[..i]) + rows
           == before + (ProjectRequestRows(workspaceId, projects[..i]) + rows);
  }

  lemma NoWorkspaces(ws: seq<HttpWorkspaceDraft>)
    ensures NO_ROWS == Flatten(ws[..0])
    ensures Distinct(NO_ROWS.workspaces) && Distinct(NO_ROWS.projects) && Distinct(NO_ROWS.requests)
  {
  }

  lemma WorkspaceNext(ws: seq<HttpWorkspaceDraft>, i: nat)
    requires i < |ws|
    ensures var all, before, w := Flatten(ws), Flatten(ws[..i]), ws[i];
            && before.workspaces + [WorkspaceRowOf(w, i)] <= all.workspaces
            && before.projects + ProjectRows(w.id, w.projects) <= all.projects
            && before.requests + RequestRows(Scope(w.id, None), w.requests) <= all.requests
            && before.requests + RequestRows(Scope(w.id, None), w.requests) + ProjectRequestRows(w.id, w.projects)
               <= all.requests
  {
    hide Flatten, ProjectRows, RequestRows, ProjectRequestRows;
    FlattenMore(ws, i);
    FlattenStarts(ws, i + 1);
    var before, own := Flatten(ws[..i]).requests, RequestRows(Scope(ws[i].id, None), ws[i].requests);
    ThreeOf(before, own, ProjectRequestRows(ws[i].id, ws[i].projects), Flatten(ws).requests);
  }

  lemma ThreeOf<A>(a: seq<A>, b: seq<A>, c: seq<A>, all: seq<A>)
    requires a + (b + c) <= all
    ensures a + b <= all && a + b + c <= all
  {
  }

  lemma WorkspaceInserted(ws: seq<HttpWorkspaceDraft>, i: nat, before: Tables, t: Tables)
    requires i < |ws| && before == Flatten(ws[..i])
    requires t.workspaces == before.workspaces + [WorkspaceRowOf(ws[i], i)]
    requires t.projects == before.projects + ProjectRows(ws[i].id, ws[i].projects)
    requires t.requests == before.requests + RequestRows(Scope(ws[i].id, None), ws[i].requests)
                           + ProjectRequestRows(ws[i].id, ws[i].projects)
    ensures t == Flatten(ws[..i + 1])
  {
    hide Flatten, ProjectRows, RequestRows, ProjectRequestRows;
    FlattenMore(ws, i);
    var own := RequestRows(Scope(ws[i].id, None), ws[i].requests);
    assert before.requests + (own + ProjectRequestRows(ws[i].id, ws[i].projects)) == t.requests;
  }
}
