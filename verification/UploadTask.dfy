/** Batches of uploads and the run of a plan, src-tauri/src/commands/file_transfer.rs. */
module UploadTask {
  import opened Bytes
  import opened RemotePath
  import opened UploadPlan

  // ----- Scanning a batch -----

  datatype UploadItem =
    | DirectoryItem(node: LocalNode, remotePath: string)
    | FileItem(node: LocalNode, remotePath: string)
    | BatchItem

  /** What one item contributes; a file item that is no regular file is a failure, unless it is a link. */
  function ItemTally(item: UploadItem): Tally {
    match item
    case DirectoryItem(node, remotePath) => ItemsAt(node, NormalizeRemotePath(remotePath))
    case FileItem(LocalFile(size), remotePath) =>
      Tally(multiset{}, multiset{PlannedUploadFile(size, NormalizeRemotePath(remotePath))}, 0, 0, size)
    case FileItem(LocalLink, _) => SKIPPED_ITEM
    case _ => FAILED_ITEM
  }

  function BatchTally(items: seq<UploadItem>): Tally {
    if items == [] then NO_ITEMS else BatchTally(items[..|items| - 1]).Plus(ItemTally(items[|items| - 1]))
  }

  lemma BatchTallyMore(items: seq<UploadItem>, i: nat)
    requires i < |items|
    ensures BatchTally(items[..i + 1]) == BatchTally(items[..i]).Plus(ItemTally(items[i]))
  {
    hide ItemTally;
    assert items[..i + 1][..i] == items[..i];
  }

  predicate Scannable(item: UploadItem) {
    match item
    case DirectoryItem(node, _) => node.LocalDirectory? && node.listing.Listed?
    case FileItem(_, _) => true
    case BatchItem => false
  }

  /** Scans the items one after the other into one plan. */
  method ScanUploadBatch(items: seq<UploadItem>, cancellable: bool) returns (r: Result<DirectoryUploadPlan, UploadError>)
    ensures r == Err(Cancelled) ==> cancellable
    ensures r.Ok? ==> PlanTally(r.value) == BatchTally(items) && AllNormalPaths(r.value)
    ensures r.Ok? ==> forall i :: 0 <= i < |items| ==> Scannable(items[i])
    ensures r.Err? && r.error != Cancelled ==> exists i :: 0 <= i < |items| && !Scannable(items[i])
  {
    hide *;
    var combined := EMPTY_PLAN;
    EmptyBatch(items);
    for i := 0 to |items|
      invariant PlanTally(combined) == BatchTally(items[..i]) && AllNormalPaths(combined)
      invariant forall k :: 0 <= k < i ==> Scannable(items[k])
    {
      var ready: bool :| cancellable || ready;
      if !ready {
        return Err(Cancelled);
      }
      BatchTallyMore(items, i);
      ScannableItem(items[i]);
      var plan := EMPTY_PLAN;
      match items[i] {
        case DirectoryItem(node, remotePath) =>
          var scanned := ScanUploadDirectory(node, remotePath, cancellable);
          if scanned.Err? {
            return Err(scanned.error);
          }
          plan := scanned.value;
          PlacedAreNormal(remotePath, plan);
        case FileItem(node, remotePath) =>
          match node {
            case LocalLink => plan := plan.(skippedItems := 1);
            case LocalFile(size) =>
              plan := plan.(files := [PlannedUploadFile(size, NormalizeRemotePath(remotePath))], totalBytes := size);
            case _ => plan := plan.(failedItems := 1);
          }
          FileItemTally(node, remotePath, plan);
        case BatchItem =>
          return Err(NestedBatch);
      }
      DirectoryItemTally(items[i]);
      TallyOfConcat(combined, plan);
      NormalConcat(combined, plan);
      combined := combined.Then(plan);
    }
    assert items[..|items|] == items;
    r := Ok(combined);
  }

  lemma EmptyBatch(items: seq<UploadItem>)
    ensures PlanTally(EMPTY_PLAN) == BatchTally(items[..0]) && AllNormalPaths(EMPTY_PLAN)
  {
  }

  lemma ScannableItem(item: UploadItem)
    ensures item.BatchItem? ==> !Scannable(item)
    ensures item.FileItem? ==> Scannable(item)
    ensures item.DirectoryItem? ==> Scannable(item) == (item.node.LocalDirectory? && item.node.listing.Listed?)
  {
  }

  lemma DirectoryItemTally(item: UploadItem)
    ensures item.DirectoryItem? ==> ItemTally(item) == ItemsAt(item.node, NormalizeRemotePath(item.remotePath))
  {
  }

  lemma FileItemTally(node: LocalNode, remotePath: string, plan: DirectoryUploadPlan)
    requires match node {
      case LocalLink => plan == EMPTY_PLAN.(skippedItems := 1)
      case LocalFile(size) =>
        plan == EMPTY_PLAN.(files := [PlannedUploadFile(size, NormalizeRemotePath(remotePath))], totalBytes := size)
      case _ => plan == EMPTY_PLAN.(failedItems := 1)
    }
    ensures PlanTally(plan) == ItemTally(FileItem(node, remotePath)) && AllNormalPaths(plan)
  {
    hide IsNormalPath, NormalizeRemotePath;
    NormalizedIsNormal(remotePath);
  }

  // ----- Planned directories -----

  predicate AllNamed(directories: seq<string>) {
    forall i :: 0 <= i < |directories| ==> directories[i] != ""
  }

  // ----- What running a plan does -----

  /** How making a directory or sending a file turns out. */
  datatype Outcome = Done(bytes: nat) | Declined | Failed | Stopped

  /** What became of one planned item: it was tried, or not even tried. */
  datatype Mark = Tried(outcome: Outcome) | Withheld

  predicate Clear(path: string, directories: seq<string>, results: seq<Outcome>)
    requires |results| == |directories|
  {
    forall j :: 0 <= j < |directories| && RemotePathIsWithin(path, directories[j]) ==> results[j].Done?
  }

  function DirectoryMark(directories: seq<string>, results: seq<Outcome>, i: nat): Mark
    requires i < |directories| == |results|
  {
    if Clear(directories[i], directories[..i], results[..i]) then Tried(results[i]) else Withheld
  }

  function FileMark(path: string, directories: seq<string>, results: seq<Outcome>, sent: Outcome): Mark
    requires |directories| == |results|
  {
    if Clear(path, directories, results) then Tried(sent) else Withheld
  }

  function DirectoryMarks(directories: seq<string>, results: seq<Outcome>): (marks: seq<Mark>)
    requires |directories| == |results|
    ensures |marks| == |directories|
    ensures forall i :: 0 <= i < |marks| ==> marks[i] == DirectoryMark(directories, results, i)
  {
    seq(|directories|, i requires 0 <= i < |directories| => DirectoryMark(directories, results, i))
  }

  function FileMarks(files: seq<PlannedUploadFile>, directories: seq<string>, results: seq<Outcome>,
                     sent: seq<Outcome>): (marks: seq<Mark>)
    requires |directories| == |results| && |sent| == |files|
    ensures |marks| == |files|
    ensures forall i :: 0 <= i < |marks| ==> marks[i] == FileMark(files[i].remotePath, directories, results, sent[i])
  {
    seq(|files|, i requires 0 <= i < |files| => FileMark(files[i].remotePath, directories, results, sent[i]))
  }

  predicate Succeeded(m: Mark) {
    m.Tried? && m.outcome.Done?
  }

  /** A path below one that is not clear is not clear either, so that a withheld directory need not be blocked. */
  lemma ClearAbove(path: string, middle: string, directories: seq<string>, results: seq<Outcome>)
    requires |results| == |directories| && AllNamed(directories)
    requires middle != "" && RemotePathIsWithin(path, middle) && Clear(path, directories, results)
    ensures Clear(middle, directories, results)
  {
  }

  /** A file is sent exactly when each planned directory that contains it has itself been ensured. */
  lemma FilesFollowDirectories(path: string, directories: seq<string>, results: seq<Outcome>, sent: Outcome)
    requires |results| == |directories| && AllNamed(directories)
    ensures FileMark(path, directories, results, sent).Tried?
            <==> forall j :: 0 <= j < |directories| && RemotePathIsWithin(path, directories[j])
                             ==> Succeeded(DirectoryMark(directories, results, j))
  {
  }

  /** The same holds of a directory and those planned before it. */
  lemma DirectoriesFollowDirectories(directories: seq<string>, results: seq<Outcome>, i: nat)
    requires i < |directories| == |results| && AllNamed(directories)
    ensures DirectoryMark(directories, results, i).Tried?
            <==> forall j :: 0 <= j < i && RemotePathIsWithin(directories[i], directories[j])
                             ==> Succeeded(DirectoryMark(directories, results, j))
  {
  }

  // ----- Whole plans -----

  /** A planned path is in normal form and as absolute as its root. */
  predicate IsPlannedPath(absolute: bool, path: string) {
    AreComponents(ComponentsOf(path)) && path == Render(absolute, ComponentsOf(path))
  }

  lemma ChildIsPlannedPath(absolute: bool, directory: string, name: string)
    requires IsPlannedPath(absolute, directory)
    ensures IsPlannedPath(absolute, JoinRemotePath(directory, name))
  {
    hide Render, ComponentsOf, JoinRemotePath, Walk, NamePieces, IsComponent;
    var w := Walk(ComponentsOf(directory), NamePieces(name));
    JoinWalks(absolute, ComponentsOf(directory), name);
    NamePiecesWalk(ComponentsOf(directory), name);
    RenderedIsNormal(absolute, w);
  }

  lemma NormalizedIsNormal(remotePath: string)
    ensures IsNormalPath(NormalizeRemotePath(remotePath))
  {
    RootIsPlannedPath(remotePath);
  }

  lemma RootIsPlannedPath(remoteRoot: string)
    ensures IsPlannedPath(IsAbsolute(NormalizeRemotePath(remoteRoot)), NormalizeRemotePath(remoteRoot))
  {
    hide ComponentsOf, IsAbsolute, IsComponent, Render;
    NormalizedHasComponents(remoteRoot);
    RenderedIsNormal(IsAbsolute(remoteRoot), ComponentsOf(remoteRoot));
  }

  predicate AllPlannedPaths(absolute: bool, plan: DirectoryUploadPlan) {
    && (forall j :: 0 <= j < |plan.directories| ==> IsPlannedPath(absolute, plan.directories[j]))
    && (forall i :: 0 <= i < |plan.files| ==> IsPlannedPath(absolute, plan.files[i].remotePath))
  }

  /** A batch may mix absolute and relative paths. */
  predicate IsNormalPath(path: string) {
    IsPlannedPath(IsAbsolute(path), path)
  }

  predicate AllNormalPaths(plan: DirectoryUploadPlan) {
    && (forall j :: 0 <= j < |plan.directories| ==> IsNormalPath(plan.directories[j]))
    && (forall i :: 0 <= i < |plan.files| ==> IsNormalPath(plan.files[i].remotePath))
  }

  lemma PlannedIsNormal(absolute: bool, path: string)
    requires IsPlannedPath(absolute, path)
    ensures IsNormalPath(path) && IsAbsolute(path) == absolute
  {
    hide ComponentsOf, IsComponent;
    RenderedIsNormal(absolute, ComponentsOf(path));
  }

  lemma NormalConcat(a: DirectoryUploadPlan, b: DirectoryUploadPlan)
    requires AllNormalPaths(a) && AllNormalPaths(b)
    ensures AllNormalPaths(a.Then(b))
  {
    hide IsNormalPath;
  }

  lemma {:induction false} PlacedDirectoryIsPlannedPath(root: string, plan: DirectoryUploadPlan, absolute: bool, j: nat)
    requires Placed(root, plan) && IsPlannedPath(absolute, root) && j < |plan.directories|
    ensures IsPlannedPath(absolute, plan.directories[j])
    decreases j
  {
    hide IsPlannedPath, JoinRemotePath;
    if plan.directories[j] != root {
      var k, name: string :| 0 <= k < j && plan.directories[j] == JoinRemotePath(plan.directories[..j][k], name);
      PlacedDirectoryIsPlannedPath(root, plan, absolute, k);
      ChildIsPlannedPath(absolute, plan.directories[k], name);
    }
  }

  lemma PlacedArePlannedPaths(root: string, plan: DirectoryUploadPlan, absolute: bool)
    requires Placed(root, plan) && IsPlannedPath(absolute, root)
    ensures AllPlannedPaths(absolute, plan)
  {
    hide IsPlannedPath, JoinRemotePath;
    forall j | 0 <= j < |plan.directories|
      ensures IsPlannedPath(absolute, plan.directories[j])
    {
      PlacedDirectoryIsPlannedPath(root, plan, absolute, j);
    }
    forall i | 0 <= i < |plan.files|
      ensures IsPlannedPath(absolute, plan.files[i].remotePath)
    {
      var k, name: string :| 0 <= k < |plan.directories|
                             && plan.files[i].remotePath == JoinRemotePath(plan.directories[k], name);
      ChildIsPlannedPath(absolute, plan.directories[k], name);
    }
  }

  /** The directory is an ancestor of the path, or the path itself. */
  predicate IsAncestor(directory: string, path: string) {
    ComponentsOf(directory) <= ComponentsOf(path)
  }

  lemma AbsoluteIsNotDot(cs: seq<string>)
    ensures Render(true, cs) != "."
  {
    assert Render(true, cs)[0] == '/';
  }

  /** An ancestor as the string test has it: "/" is above every path, "." above none but itself. */
  predicate Covers(directory: string, path: string) {
    && IsAncestor(directory, path) && (directory == "." ==> path == ".")
    && (directory == "/" || IsAbsolute(directory) == IsAbsolute(path))
  }

  lemma WithinMeansCovered(path: string, directory: string)
    requires IsNormalPath(path) && IsNormalPath(directory)
    ensures RemotePathIsWithin(path, directory) <==> Covers(directory, path)
  {
    hide RemotePathIsWithin, ComponentsOf, IsComponent, Joined;
    var absolute, p, d := IsAbsolute(directory), ComponentsOf(path), ComponentsOf(directory);
    if IsAbsolute(path) == absolute {
      WithinMeansPrefix(absolute, p, d);
      if absolute {
        AbsoluteIsNotDot(d);
      } else {
        NothingInDot(p);
        if p != [] {
          JoinedIsNotDot(p);
        }
        if d != [] {
          JoinedIsNotDot(d);
        }
      }
    } else {
      RootCoversAll(path, directory);
    }
  }

  lemma RootCoversAll(path: string, directory: string)
    requires IsNormalPath(path) && IsNormalPath(directory) && IsAbsolute(path) != IsAbsolute(directory)
    ensures RemotePathIsWithin(path, directory) <==> directory == "/"
    ensures directory == "/" ==> ComponentsOf(directory) == [] && path != "/"
  {
    hide ComponentsOf, IsComponent;
    RenderedIsNormal(true, []);
    NormalIsNotEmpty(path);
    NormalIsNotEmpty(directory);
  }

  lemma NormalIsNotEmpty(path: string)
    requires IsNormalPath(path)
    ensures path != ""
  {
    hide ComponentsOf;
    var cs := ComponentsOf(path);
    if cs != [] {
      assert IsComponent(cs[0]);
    }
  }

  lemma NormalAreNamed(plan: DirectoryUploadPlan)
    requires AllNormalPaths(plan)
    ensures AllNamed(plan.directories)
  {
    hide IsNormalPath;
    forall j | 0 <= j < |plan.directories|
      ensures plan.directories[j] != ""
    {
      NormalIsNotEmpty(plan.directories[j]);
    }
  }

  /** Upload safety, end to end: under any outcomes, a planned file is sent exactly when every
      planned directory above it was itself ensured. */
  lemma FilesFollowAncestors(plan: DirectoryUploadPlan, results: seq<Outcome>, i: nat, sent: Outcome)
    requires AllNormalPaths(plan) && |results| == |plan.directories| && i < |plan.files|
    ensures FileMark(plan.files[i].remotePath, plan.directories, results, sent).Tried?
            <==> forall j :: 0 <= j < |plan.directories| && Covers(plan.directories[j], plan.files[i].remotePath)
                             ==> Succeeded(DirectoryMark(plan.directories, results, j))
  {
    hide RemotePathIsWithin, Covers, IsNormalPath, FileMark, DirectoryMark;
    var path := plan.files[i].remotePath;
    NormalAreNamed(plan);
    FilesFollowDirectories(path, plan.directories, results, sent);
    forall j | 0 <= j < |plan.directories|
      ensures RemotePathIsWithin(path, plan.directories[j]) <==> Covers(plan.directories[j], path)
    {
      WithinMeansCovered(path, plan.directories[j]);
    }
  }

  /** The same for a directory and those planned before it. */
  lemma DirectoriesFollowAncestors(plan: DirectoryUploadPlan, results: seq<Outcome>, i: nat)
    requires AllNormalPaths(plan) && |results| == |plan.directories| && i < |plan.directories|
    ensures DirectoryMark(plan.directories, results, i).Tried?
            <==> forall j :: 0 <= j < i && Covers(plan.directories[j], plan.directories[i])
                             ==> Succeeded(DirectoryMark(plan.directories, results, j))
  {
    hide RemotePathIsWithin, Covers, IsNormalPath, DirectoryMark;
    NormalAreNamed(plan);
    DirectoriesFollowDirectories(plan.directories, results, i);
    forall j | 0 <= j < i
      ensures RemotePathIsWithin(plan.directories[i], plan.directories[j])
              <==> Covers(plan.directories[j], plan.directories[i])
    {
      WithinMeansCovered(plan.directories[i], plan.directories[j]);
    }
  }

  lemma PlacedAreNormal(remoteRoot: string, plan: DirectoryUploadPlan)
    requires Placed(NormalizeRemotePath(remoteRoot), plan)
    ensures AllPlannedPaths(IsAbsolute(NormalizeRemotePath(remoteRoot)), plan) && AllNormalPaths(plan)
  {
    hide NormalizeRemotePath, IsPlannedPath, IsNormalPath, Placed, IsAbsolute;
    var absolute := IsAbsolute(NormalizeRemotePath(remoteRoot));
    RootIsPlannedPath(remoteRoot);
    PlacedArePlannedPaths(NormalizeRemotePath(remoteRoot), plan, absolute);
    forall j | 0 <= j < |plan.directories|
      ensures IsNormalPath(plan.directories[j])
    {
      PlannedIsNormal(absolute, plan.directories[j]);
    }
    forall i | 0 <= i < |plan.files|
      ensures IsNormalPath(plan.files[i].remotePath)
    {
      PlannedIsNormal(absolute, plan.files[i].remotePath);
    }
  }

  lemma SameRootCovers(absolute: bool, directory: string, path: string)
    requires IsPlannedPath(absolute, directory) && IsPlannedPath(absolute, path)
    ensures Covers(directory, path) <==> IsAncestor(directory, path) && (directory == "." ==> path == ".")
    ensures absolute ==> directory != "."
  {
    hide ComponentsOf, IsComponent, IsAncestor, Joined;
    PlannedIsNormal(absolute, directory);
    PlannedIsNormal(absolute, path);
    if absolute {
      AbsoluteIsNotDot(ComponentsOf(directory));
    }
  }

  /** What a scan of one directory below an absolute root plans has no exception: a file is sent
      exactly when every planned directory whose components begin its own was ensured. */
  lemma ScannedFilesFollowAncestors(remoteRoot: string, plan: DirectoryUploadPlan, results: seq<Outcome>, i: nat,
                                    sent: Outcome)
    requires Placed(NormalizeRemotePath(remoteRoot), plan) && IsAbsolute(NormalizeRemotePath(remoteRoot))
    requires |results| == |plan.directories| && i < |plan.files|
    ensures FileMark(plan.files[i].remotePath, plan.directories, results, sent).Tried?
            <==> forall j :: 0 <= j < |plan.directories| && IsAncestor(plan.directories[j], plan.files[i].remotePath)
                             ==> Succeeded(DirectoryMark(plan.directories, results, j))
  {
    hide Covers, IsAncestor, FileMark, DirectoryMark, NormalizeRemotePath, Placed, IsPlannedPath, AllNormalPaths;
    PlacedAreNormal(remoteRoot, plan);
    FilesFollowAncestors(plan, results, i, sent);
    forall j | 0 <= j < |plan.directories|
      ensures Covers(plan.directories[j], plan.files[i].remotePath)
              <==> IsAncestor(plan.directories[j], plan.files[i].remotePath)
    {
      SameRootCovers(true, plan.directories[j], plan.files[i].remotePath);
    }
  }

  lemma ScannedDirectoriesFollowAncestors(remoteRoot: string, plan: DirectoryUploadPlan, results: seq<Outcome>, i: nat)
    requires Placed(NormalizeRemotePath(remoteRoot), plan) && IsAbsolute(NormalizeRemotePath(remoteRoot))
    requires |results| == |plan.directories| && i < |plan.directories|
    ensures DirectoryMark(plan.directories, results, i).Tried?
            <==> forall j :: 0 <= j < i && IsAncestor(plan.directories[j], plan.directories[i])
                             ==> Succeeded(DirectoryMark(plan.directories, results, j))
  {
    hide Covers, IsAncestor, DirectoryMark, NormalizeRemotePath, Placed, IsPlannedPath, AllNormalPaths;
    PlacedAreNormal(remoteRoot, plan);
    DirectoriesFollowAncestors(plan, results, i);
    forall j | 0 <= j < i
      ensures Covers(plan.directories[j], plan.directories[i])
              <==> IsAncestor(plan.directories[j], plan.directories[i])
    {
      SameRootCovers(true, plan.directories[j], plan.directories[i]);
    }
  }

  /** Some outcomes let a path be tried although a directory failed. */
  ghost predicate CanBeTriedWithout(path: string, directories: seq<string>, j: nat)
    requires j < |directories|
  {
    exists results: seq<Outcome> ::
      && |results| == |directories|
      && FileMark(path, directories, results, Failed).Tried? && !Succeeded(DirectoryMark(directories, results, j))
  }

  /** That is so exactly when the path does not count as within the directory. */
  lemma TriedWithoutMeansNotWithin(path: string, directories: seq<string>, j: nat)
    requires j < |directories| && AllNamed(directories)
    ensures CanBeTriedWithout(path, directories, j) <==> !RemotePathIsWithin(path, directories[j])
  {
    hide RemotePathIsWithin;
    if CanBeTriedWithout(path, directories, j) {
      var results: seq<Outcome> :|
        && |results| == |directories|
        && FileMark(path, directories, results, Failed).Tried? && !Succeeded(DirectoryMark(directories, results, j));
      FilesFollowDirectories(path, directories, results, Failed);
    }
    if !RemotePathIsWithin(path, directories[j]) {
      var results := seq(|directories|, k requires 0 <= k < |directories| =>
        if directories[k] == directories[j] then Failed else Done(0));
      assert Clear(path, directories, results);
      assert FileMark(path, directories, results, Failed).Tried?
             && !Succeeded(DirectoryMark(directories, results, j));
    }
  }

  /** Whatever root was scanned, a planned file can be tried below a failed ancestor exactly when
      that is the relative root. */
  lemma OnlyTheRelativeRootFails(remoteRoot: string, plan: DirectoryUploadPlan, i: nat, j: nat)
    requires Placed(NormalizeRemotePath(remoteRoot), plan) && i < |plan.files| && j < |plan.directories|
    requires IsAncestor(plan.directories[j], plan.files[i].remotePath)
    ensures CanBeTriedWithout(plan.files[i].remotePath, plan.directories, j)
            <==> plan.directories[j] == "." && plan.files[i].remotePath != "."
  {
    hide RemotePathIsWithin, IsAncestor, IsPlannedPath, IsNormalPath, NormalizeRemotePath, Placed, CanBeTriedWithout, Covers,
      IsAbsolute;
    PlacedAreNormal(remoteRoot, plan);
    NormalAreNamed(plan);
    TriedWithoutMeansNotWithin(plan.files[i].remotePath, plan.directories, j);
    WithinMeansCovered(plan.files[i].remotePath, plan.directories[j]);
    SameRootCovers(IsAbsolute(NormalizeRemotePath(remoteRoot)), plan.directories[j], plan.files[i].remotePath);
  }

  /** An entry can be tried although the directory it was found in failed, exactly when its name
      leads out of that directory or the directory is the relative root. */
  lemma EntryWithoutItsDirectory(absolute: bool, cs: seq<string>, name: string, directories: seq<string>, j: nat)
    requires AreComponents(cs) && j < |directories| && AllNamed(directories) && directories[j] == Render(absolute, cs)
    ensures CanBeTriedWithout(JoinRemotePath(directories[j], name), directories, j)
            <==> !StaysBelow(cs, name) || (!absolute && cs == [] && Climb(0, [], NamePieces(name)).1 != [])
  {
    hide RemotePathIsWithin, JoinRemotePath, Render, Climb, NamePieces, StaysBelow, CanBeTriedWithout, IsComponent;
    TriedWithoutMeansNotWithin(JoinRemotePath(directories[j], name), directories, j);
    ChildIsWithin(absolute, cs, name);
  }

  /** A file named `..\\x` found in /a is sent to /x although /a failed. */
  lemma BackslashIsTried()
    ensures JoinRemotePath("/a", "..\\x") == "/x"
    ensures UsableName("..\\x")
    ensures FileMark("/x", ["/a"], [Failed], Done(0)) == Tried(Done(0))
    ensures DirectoryMark(["/a"], [Failed], 0) == Tried(Failed)
  {
    BackslashLeadsOut();
  }

  // ----- Counters -----

  datatype Progress = Progress(completed: nat, skipped: nat, failed: nat) {
    function After(m: Mark): Progress {
      match m
      case Withheld => this.(skipped := skipped + 1)
      case Tried(Done(_)) => this.(completed := completed + 1)
      case Tried(Declined) => this.(skipped := skipped + 1)
      case Tried(Failed) => this.(failed := failed + 1)
      case Tried(Stopped) => this
    }

    function AfterAll(marks: seq<Mark>): Progress {
      if marks == [] then this else AfterAll(marks[..|marks| - 1]).After(marks[|marks| - 1])
    }

    function Items(): nat {
      completed + skipped + failed
    }
  }

  /** The bytes of the files that arrived. */
  function SentBytes(marks: seq<Mark>): nat {
    if marks == [] then 0
    else SentBytes(marks[..|marks| - 1]) + if Succeeded(marks[|marks| - 1]) then marks[|marks| - 1].outcome.bytes else 0
  }

  lemma SentMore(marks: seq<Mark>, m: Mark)
    ensures SentBytes(marks + [m]) == SentBytes(marks) + if Succeeded(m) then m.outcome.bytes else 0
  {
  }

  predicate Finished(marks: seq<Mark>) {
    forall i :: 0 <= i < |marks| ==> marks[i] != Tried(Stopped)
  }

  lemma {:induction false} EachMarkCounts(p: Progress, marks: seq<Mark>)
    requires Finished(marks)
    ensures p.AfterAll(marks).Items() == p.Items() + |marks|
  {
    if marks != [] {
      assert marks[|marks| - 1] != Tried(Stopped);
      EachMarkCounts(p, marks[..|marks| - 1]);
    }
  }

  /** How many items arrived, failed, or were left out. */
  function Arrived(marks: seq<Mark>): nat {
    if marks == [] then 0
    else (if marks[0].Tried? && marks[0].outcome.Done? then 1 else 0) + Arrived(marks[1..])
  }

  function FailedOnes(marks: seq<Mark>): nat {
    multiset(marks)[Tried(Failed)]
  }

  function LeftOut(marks: seq<Mark>): nat {
    multiset(marks)[Withheld] + multiset(marks)[Tried(Declined)]
  }

  lemma {:induction false} CountsMore(marks: seq<Mark>, m: Mark)
    ensures Arrived(marks + [m]) == Arrived(marks) + if m.Tried? && m.outcome.Done? then 1 else 0
    ensures FailedOnes(marks + [m]) == FailedOnes(marks) + if m == Tried(Failed) then 1 else 0
    ensures LeftOut(marks + [m]) == LeftOut(marks) + if m == Withheld || m == Tried(Declined) then 1 else 0
  {
    if marks == [] {
      assert [] + [m] == [m] && [m][1..] == [];
    } else {
      assert (marks + [m])[1..] == marks[1..] + [m];
      CountsMore(marks[1..], m);
    }
    assert multiset(marks + [m]) == multiset(marks) + multiset{m};
  }

  /** The counters say how many items of each kind there were. */
  lemma {:induction false} CountersAreCounts(p: Progress, marks: seq<Mark>)
    ensures var q := p.AfterAll(marks);
            && q.completed == p.completed + Arrived(marks)
            && q.failed == p.failed + FailedOnes(marks)
            && q.skipped == p.skipped + LeftOut(marks)
  {
    hide Arrived, FailedOnes, LeftOut;
    if marks == [] {
      NothingCounted();
    } else {
      var n := |marks| - 1;
      CountersAreCounts(p, marks[..n]);
      CountsMore(marks[..n], marks[n]);
      assert marks[..n] + [marks[n]] == marks;
    }
  }

  lemma NothingCounted()
    ensures Arrived([]) == 0 && FailedOnes([]) == 0 && LeftOut([]) == 0
  {
  }

  /** The whole record of a run that nobody stops. */
  function Marks(plan: DirectoryUploadPlan, results: seq<Outcome>, sent: seq<Outcome>): seq<Mark>
    requires |results| == |plan.directories| && |sent| == |plan.files|
  {
    DirectoryMarks(plan.directories, results) + FileMarks(plan.files, plan.directories, results, sent)
  }

  /** Which paths the blocked directories close off. */
  ghost predicate Closes(blocked: seq<string>, directories: seq<string>, results: seq<Outcome>)
    requires |results| == |directories|
  {
    forall path: string :: IsBlocked(path, blocked) <==> !Clear(path, directories, results)
  }

  predicate IsBlocked(path: string, blocked: seq<string>) {
    exists b :: 0 <= b < |blocked| && RemotePathIsWithin(path, blocked[b])
  }

  lemma ClearMore(path: string, directories: seq<string>, results: seq<Outcome>, i: nat)
    requires i < |directories| == |results|
    ensures Clear(path, directories[..i + 1], results[..i + 1])
            <==> Clear(path, directories[..i], results[..i])
                 && (RemotePathIsWithin(path, directories[i]) ==> results[i].Done?)
  {
  }

  lemma BlockedMore(path: string, blocked: seq<string>, d: string)
    ensures IsBlocked(path, blocked + [d]) <==> IsBlocked(path, blocked) || RemotePathIsWithin(path, d)
  {
    hide RemotePathIsWithin;
    var more := blocked + [d];
    assert more[|blocked|] == d;
    if IsBlocked(path, blocked) {
      var b :| 0 <= b < |blocked| && RemotePathIsWithin(path, blocked[b]);
      assert more[b] == blocked[b];
    }
  }

  /** Blocking just the directories that were tried in vain closes off all that lies below any failed one. */
  lemma ClosesMore(blocked: seq<string>, directories: seq<string>, results: seq<Outcome>, i: nat)
    requires i < |directories| == |results| && AllNamed(directories)
    requires Closes(blocked, directories[..i], results[..i])
    ensures var m := DirectoryMark(directories, results, i);
            Closes(if m.Withheld? || Succeeded(m) then blocked else blocked + [directories[i]],
                   directories[..i + 1], results[..i + 1])
  {
    hide RemotePathIsWithin, Clear, IsBlocked;
    var m := DirectoryMark(directories, results, i);
    var now := if m.Withheld? || Succeeded(m) then blocked else blocked + [directories[i]];
    forall path: string
      ensures IsBlocked(path, now) <==> !Clear(path, directories[..i + 1], results[..i + 1])
    {
      ClearMore(path, directories, results, i);
      BlockedMore(path, blocked, directories[i]);
      assert IsBlocked(path, blocked) <==> !Clear(path, directories[..i], results[..i]);
      if m.Withheld? && RemotePathIsWithin(path, directories[i]) && Clear(path, directories[..i], results[..i]) {
        NamedPrefix(directories, i);
        ClearAbove(path, directories[i], directories[..i], results[..i]);
      }
    }
  }

  lemma NamedPrefix(directories: seq<string>, i: nat)
    requires i < |directories| && AllNamed(directories)
    ensures AllNamed(directories[..i]) && directories[i] != ""
  {
  }

  /** The counters that a transfer task shows. */
  class TransferTask {
    var total: nat
    var progress: Progress

    constructor ()
      ensures total == 0 && progress == Progress(0, 0, 0)
    {
      total, progress := 0, Progress(0, 0, 0);
    }

    /** Runs a plan against the outcomes that the remote side would give: `results` for its
        directories and `sent` for its files. The record says which of them were tried. */
    method UploadPlanTask(plan: DirectoryUploadPlan, results: seq<Outcome>, sent: seq<Outcome>, cancellable: bool)
      returns (r: Result<nat, UploadError>, ghost marks: seq<Mark>)
      requires |results| == |plan.directories| && |sent| == |plan.files| && AllNamed(plan.directories)
      modifies this
      ensures total == plan.TotalItems()
      ensures progress == old(progress).(skipped := old(progress).skipped + plan.skippedItems,
                                         failed := old(progress).failed + plan.failedItems).AfterAll(marks)
      ensures progress.completed == old(progress).completed + Arrived(marks)
      ensures progress.failed == old(progress).failed + plan.failedItems + FailedOnes(marks)
      ensures progress.skipped == old(progress).skipped + plan.skippedItems + LeftOut(marks)
      ensures marks <= Marks(plan, results, sent)
      ensures r.Ok? ==> marks == Marks(plan, results, sent) && Finished(marks)
      ensures r.Ok? ==> progress.Items() == old(progress).Items() + total
                        && r.value == SentBytes(marks[|plan.directories|..])
      ensures r.Err? ==> r.error == Cancelled && (cancellable || !Finished(Marks(plan, results, sent)))
    {
      hide Marks, IsBlocked, Clear, Closes, AllNamed, Finished, SentBytes, Recorded, Arrived, FailedOnes, LeftOut, Progress.AfterAll;
      total := |plan.directories| + |plan.files| + plan.skippedItems + plan.failedItems;
      progress := progress.(skipped := progress.skipped + plan.skippedItems,
                            failed := progress.failed + plan.failedItems);
      ghost var begun := progress;
      ghost var all := Marks(plan, results, sent);
      marks := [];
      var blocked: seq<string> := [];
      NothingYet(begun, plan.directories, results, all);
      for i := 0 to |plan.directories|
        invariant total == plan.TotalItems()
        invariant |marks| == i && Recorded(begun, progress, marks, all)
        invariant Closes(blocked, plan.directories[..i], results[..i])
      {
        var ready: bool :| cancellable || ready;
        if !ready {
          RecordIsPrefix(begun, progress, marks, all);
          return Err(Cancelled), marks;
        }
        var d := plan.directories[i];
        ghost var m := DirectoryMark(plan.directories, results, i);
        DirectoryMarked(plan, results, sent, i);
        BlockedIsNotClear(d, blocked, plan.directories[..i], results[..i]);
        ClosesMore(blocked, plan.directories, results, i);
        RecordMore(begun, progress, marks, all);
        if IsBlocked(d, blocked) {
          progress := progress.(skipped := progress.skipped + 1);
        } else {
          match results[i]
          case Done(_) => progress := progress.(completed := progress.completed + 1);
          case Declined =>
            progress := progress.(skipped := progress.skipped + 1);
            blocked := blocked + [d];
          case Failed =>
            progress := progress.(failed := progress.failed + 1);
            blocked := blocked + [d];
          case Stopped =>
            StoppedThere(all, |marks|);
            RecordIsPrefix(begun, progress, marks, all);
            return Err(Cancelled), marks;
        }
        marks := marks + [m];
      }
      assert plan.directories[..|plan.directories|] == plan.directories && results[..|results|] == results;
      var transferred := 0;
      ghost var n := |plan.directories|;
      NothingSent(marks);
      for i := 0 to |plan.files|
        invariant total == plan.TotalItems()
        invariant |marks| == n + i && Recorded(begun, progress, marks, all)
        invariant transferred == SentBytes(marks[n..])
      {
        var ready: bool :| cancellable || ready;
        if !ready {
          RecordIsPrefix(begun, progress, marks, all);
          return Err(Cancelled), marks;
        }
        var path := plan.files[i].remotePath;
        ghost var m := FileMark(path, plan.directories, results, sent[i]);
        FileMarked(plan, results, sent, i);
        BlockedIsNotClear(path, blocked, plan.directories, results);
        RecordMore(begun, progress, marks, all);
        SentMore(marks[n..], m);
        assert (marks + [m])[n..] == marks[n..] + [m];
        if IsBlocked(path, blocked) {
          progress := progress.(skipped := progress.skipped + 1);
        } else {
          match sent[i]
          case Done(bytes) =>
            transferred := transferred + bytes;
            progress := progress.(completed := progress.completed + 1);
          case Declined => progress := progress.(skipped := progress.skipped + 1);
          case Failed => progress := progress.(failed := progress.failed + 1);
          case Stopped =>
            StoppedThere(all, |marks|);
            RecordIsPrefix(begun, progress, marks, all);
            return Err(Cancelled), marks;
        }
        marks := marks + [m];
      }
      RecordComplete(plan, results, sent, begun, progress, marks);
      RecordIsPrefix(begun, progress, marks, all);
      r := Ok(transferred);
    }
  }

  /** The record so far: it counts to the progress, and nobody has stopped the run. */
  ghost predicate Recorded(begun: Progress, progress: Progress, marks: seq<Mark>, all: seq<Mark>) {
    |marks| <= |all| && marks == all[..|marks|] && Finished(marks) && progress == begun.AfterAll(marks)
  }

  lemma StoppedThere(all: seq<Mark>, k: nat)
    requires k < |all| && all[k] == Tried(Stopped)
    ensures !Finished(all)
  {
  }

  lemma RecordIsPrefix(begun: Progress, progress: Progress, marks: seq<Mark>, all: seq<Mark>)
    requires Recorded(begun, progress, marks, all)
    ensures marks <= all && progress == begun.AfterAll(marks)
    ensures progress.completed == begun.completed + Arrived(marks) && progress.failed == begun.failed + FailedOnes(marks)
            && progress.skipped == begun.skipped + LeftOut(marks)
  {
    CountersAreCounts(begun, marks);
  }

  lemma RecordMore(begun: Progress, progress: Progress, marks: seq<Mark>, all: seq<Mark>)
    requires Recorded(begun, progress, marks, all) && |marks| < |all|
    ensures var m := all[|marks|];
            m != Tried(Stopped) ==> Recorded(begun, progress.After(m), marks + [m], all)
  {
  }

  lemma RecordComplete(plan: DirectoryUploadPlan, results: seq<Outcome>, sent: seq<Outcome>, begun: Progress,
                       progress: Progress, marks: seq<Mark>)
    requires |results| == |plan.directories| && |sent| == |plan.files|
    requires |marks| == |plan.directories| + |plan.files|
    requires Recorded(begun, progress, marks, Marks(plan, results, sent))
    ensures marks == Marks(plan, results, sent) && Finished(marks) && progress == begun.AfterAll(marks)
    ensures progress.Items() == begun.Items() + |marks|
  {
    EachMarkCounts(begun, marks);
  }

  lemma DirectoryMarked(plan: DirectoryUploadPlan, results: seq<Outcome>, sent: seq<Outcome>, i: nat)
    requires |results| == |plan.directories| && |sent| == |plan.files| && i < |plan.directories|
    ensures |Marks(plan, results, sent)| > i
    ensures Marks(plan, results, sent)[i] == DirectoryMark(plan.directories, results, i)
  {
  }

  lemma FileMarked(plan: DirectoryUploadPlan, results: seq<Outcome>, sent: seq<Outcome>, i: nat)
    requires |results| == |plan.directories| && |sent| == |plan.files| && i < |plan.files|
    ensures |Marks(plan, results, sent)| > |plan.directories| + i
    ensures Marks(plan, results, sent)[|plan.directories| + i]
            == FileMark(plan.files[i].remotePath, plan.directories, results, sent[i])
  {
  }

  lemma BlockedIsNotClear(path: string, blocked: seq<string>, directories: seq<string>, results: seq<Outcome>)
    requires |results| == |directories| && Closes(blocked, directories, results)
    ensures IsBlocked(path, blocked) <==> !Clear(path, directories, results)
  {
  }

  lemma NothingYet(begun: Progress, directories: seq<string>, results: seq<Outcome>, all: seq<Mark>)
    requires |results| == |directories|
    ensures Closes([], directories[..0], results[..0])
    ensures Recorded(begun, begun, [], all)
  {
  }

  lemma NothingSent(marks: seq<Mark>)
    ensures SentBytes(marks[|marks|..]) == 0
  {
  }
}
