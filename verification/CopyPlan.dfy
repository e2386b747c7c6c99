/** The breadth-first scan of a source directory, src-tauri/src/commands/wsl_files.rs. */
module CopyPlan {
  import opened Bytes
  import opened FileTree

  datatype PlannedCopyFile = PlannedCopyFile(source: Path, target: Path)

  datatype Plan = Plan(directories: seq<Path>, files: seq<PlannedCopyFile>, skippedItems: nat, totalBytes: nat)

  datatype ScanError = Unreadable | Cancelled

  datatype PendingDirectory = PendingDirectory(source: Path, target: Path)

  // ----- Counting -----

  datatype Tally = Tally(directories: nat, files: nat, skipped: nat, bytes: nat, broken: nat) {
    function Plus(t: Tally): Tally {
      Tally(directories + t.directories, files + t.files, skipped + t.skipped, bytes + t.bytes, broken + t.broken)
    }
  }

  const NOTHING := Tally(0, 0, 0, 0, 0)

  /** Everything in a tree, by kind. */
  function Count(node: Node): Tally {
    match node
    case FileNode(content) => Tally(0, 1, 0, |content|, 0)
    case DirNode(entries) => Tally(1, 0, 0, 0, 0).Plus(CountEntries(entries))
    case Link(_) => Tally(0, 0, 1, 0, 0)
    case Special => Tally(0, 0, 1, 0, 0)
    case Broken => Tally(0, 0, 0, 0, 1)
  }

  function CountEntries(entries: seq<Entry>): Tally {
    if entries == [] then NOTHING else Count(entries[0].node).Plus(CountEntries(entries[1..]))
  }

  function EntriesAt(root: Node, s: Path): seq<Entry> {
    var node := Lookup(root, s);
    if node.Some? && node.value.DirNode? then node.value.entries else []
  }

  function CountPending(root: Node, pending: seq<PendingDirectory>): Tally {
    if pending == [] then NOTHING
    else CountEntries(EntriesAt(root, pending[0].source)).Plus(CountPending(root, pending[1..]))
  }

  lemma {:induction false} CountOneMorePending(root: Node, pending: seq<PendingDirectory>, p: PendingDirectory)
    ensures CountPending(root, pending + [p])
            == CountPending(root, pending).Plus(CountEntries(EntriesAt(root, p.source)))
  {
    if pending != [] {
      assert (pending + [p])[1..] == pending[1..] + [p];
      CountOneMorePending(root, pending[1..], p);
    }
  }

  function PlanCount(plan: Plan): Tally {
    Tally(|plan.directories|, |plan.files|, plan.skippedItems, plan.totalBytes, 0)
  }

  // ----- What is planned -----

  predicate PlanSound(root: Node, target: Path, plan: Plan) {
    && (forall i :: 0 <= i < |plan.directories| ==>
          && target <= plan.directories[i]
          && CopiedAt(root, plan.directories[i][|target|..]) == Some(FsDir))
    && (forall i :: 0 <= i < |plan.files| ==>
          && plan.files[i].target == target + plan.files[i].source
          && CopiedAt(root, plan.files[i].source).Some? && CopiedAt(root, plan.files[i].source).value.FsFile?)
  }

  predicate Planned(root: Node, target: Path, plan: Plan, q: Path) {
    match CopiedAt(root, q)
    case None => true
    case Some(FsDir) => target + q in plan.directories
    case Some(FsFile(_)) => PlannedCopyFile(q, target + q) in plan.files
  }

  /** Each directory comes after its parent. */
  predicate ParentsFirst(target: Path, directories: seq<Path>) {
    forall i :: 0 <= i < |directories| ==>
      directories[i] == target || (directories[i] != [] && Parent(directories[i]) in directories[..i])
  }

  function Parent(p: Path): Path
    requires p != []
  {
    p[..|p| - 1]
  }

  /** Every copied node is planned, lies below a directory that is still to be listed, or
      below an entry that is still to be looked at. */
  predicate Covered(root: Node, target: Path, plan: Plan, pending: seq<PendingDirectory>,
                    s: Path, j: nat, q: Path)
  {
    || CopiedAt(root, q).None?
    || Planned(root, target, plan, q)
    || (exists i :: 0 <= i < |pending| && pending[i].source < q)
    || InRest(root, s, j, q)
  }

  predicate InRest(root: Node, s: Path, j: nat, q: Path) {
    s < q && exists k :: j <= k < |EntriesAt(root, s)| && EntriesAt(root, s)[k].name == q[|s|]
  }

  ghost predicate AllCovered(root: Node, target: Path, plan: Plan, pending: seq<PendingDirectory>, s: Path, j: nat) {
    forall q :: Covered(root, target, plan, pending, s, j, q)
  }

  predicate PendingGood(root: Node, target: Path, directories: seq<Path>, pending: seq<PendingDirectory>) {
    forall i :: 0 <= i < |pending| ==>
      && pending[i].target == target + pending[i].source
      && pending[i].target in directories
      && Lookup(root, pending[i].source).Some?
      && Lookup(root, pending[i].source).value.DirNode?
      && WellNamed(Lookup(root, pending[i].source).value)
  }

  lemma StartCovered(root: Node, target: Path)
    requires root.DirNode?
    ensures AllCovered(root, target, Plan([target], [], 0, 0), [PendingDirectory([], target)], [], |EntriesAt(root, [])|)
  {
    forall q
      ensures Covered(root, target, Plan([target], [], 0, 0), [PendingDirectory([], target)], [], |EntriesAt(root, [])|, q)
    {
      if q == [] {
        assert target + [] == target;
      } else {
        assert [PendingDirectory([], target)][0].source < q;
      }
    }
  }

  /** Taking the next directory off the queue: its entries take its place. */
  lemma PopCovered(root: Node, target: Path, plan: Plan, pending: seq<PendingDirectory>, s: Path)
    requires pending != []
    requires AllCovered(root, target, plan, pending, s, |EntriesAt(root, s)|)
    ensures AllCovered(root, target, plan, pending[1..], pending[0].source, 0)
  {
    var s' := pending[0].source;
    forall q
      ensures Covered(root, target, plan, pending[1..], s', 0, q)
    {
      assert Covered(root, target, plan, pending, s, |EntriesAt(root, s)|, q);
      if CopiedAt(root, q).Some? && !Planned(root, target, plan, q) {
        var i :| 0 <= i < |pending| && pending[i].source < q;
        if i > 0 {
          assert pending[1..][i - 1].source < q;
        } else {
          BelowAnEntry(root, s', q);
        }
      }
    }
  }

  lemma BelowAnEntry(root: Node, s: Path, q: Path)
    requires s < q && Lookup(root, q).Some?
    ensures InRest(root, s, 0, q)
  {
    assert q == s + q[|s|..];
    LookupConcat(root, s, q[|s|..]);
    var mid := Lookup(root, s).value;
    assert Lookup(mid, q[|s|..]).Some? && q[|s|..][0] == q[|s|];
    var child := FindEntry(mid.entries, q[|s|]);
    assert child.Some?;
    var k :| 0 <= k < |mid.entries| && mid.entries[k] == Entry(q[|s|], child.value);
    assert EntriesAt(root, s)[k].name == q[|s|];
  }

  /** One entry looked at: what was below it is now planned or waiting. */
  lemma EntryCovered(root: Node, target: Path, plan: Plan, pending: seq<PendingDirectory>, s: Path, j: nat,
                     plan': Plan, pending': seq<PendingDirectory>)
    requires WellNamed(root) && Lookup(root, s).Some? && WellNamed(Lookup(root, s).value)
    requires j < |EntriesAt(root, s)|
    requires AllCovered(root, target, plan, pending, s, j)
    requires plan.directories <= plan'.directories && plan.files <= plan'.files && pending <= pending'
    requires var e := EntriesAt(root, s)[j];
             && (e.node.FileNode? ==> PlannedCopyFile(s + [e.name], target + (s + [e.name])) in plan'.files)
             && (e.node.DirNode? ==> && target + (s + [e.name]) in plan'.directories
                                     && |pending'| > 0 && pending'[|pending'| - 1].source == s + [e.name])
    ensures AllCovered(root, target, plan', pending', s, j + 1)
  {
    var next := j + 1;
    forall q
      ensures Covered(root, target, plan', pending', s, next, q)
    {
      assert Covered(root, target, plan, pending, s, j, q);
      if CopiedAt(root, q).None? {
      } else if Planned(root, target, plan, q) {
        assert Planned(root, target, plan', q);
      } else if exists i :: 0 <= i < |pending| && pending[i].source < q {
        var i :| 0 <= i < |pending| && pending[i].source < q;
        assert pending'[i].source < q;
      } else {
        EntryCoversBelow(root, target, s, j, plan', pending', q);
      }
    }
  }

  lemma EntryCoversBelow(root: Node, target: Path, s: Path, j: nat, plan': Plan, pending': seq<PendingDirectory>, q: Path)
    requires WellNamed(root) && Lookup(root, s).Some? && WellNamed(Lookup(root, s).value)
    requires j < |EntriesAt(root, s)|
    requires var e := EntriesAt(root, s)[j];
             && (e.node.FileNode? ==> PlannedCopyFile(s + [e.name], target + (s + [e.name])) in plan'.files)
             && (e.node.DirNode? ==> && target + (s + [e.name]) in plan'.directories
                                     && |pending'| > 0 && pending'[|pending'| - 1].source == s + [e.name])
    requires CopiedAt(root, q).Some? && InRest(root, s, j, q)
    ensures Covered(root, target, plan', pending', s, j + 1, q)
  {
    var e := EntriesAt(root, s)[j];
    var k :| j <= k < |EntriesAt(root, s)| && EntriesAt(root, s)[k].name == q[|s|];
    if k > j {
      assert InRest(root, s, j + 1, q);
    } else {
      var c := s + [e.name];
      LookupChild(root, s, Lookup(root, s).value, j);
      assert q == c + q[|c|..];
      LookupConcat(root, c, q[|c|..]);
      if q == c {
        assert Planned(root, target, plan', q);
      } else {
        assert e.node.DirNode?;
        assert pending'[|pending'| - 1].source < q;
      }
    }
  }

  /** Each planned file lies in a planned directory. */
  predicate FilesPlaced(plan: Plan) {
    forall i :: 0 <= i < |plan.files| ==>
      plan.files[i].target != [] && Parent(plan.files[i].target) in plan.directories
  }

  // ----- The scan -----

  /** What the scan keeps between two entries: `j` entries of the directory at `s` are done. */
  ghost predicate ScanInvariant(root: Node, target: Path, plan: Plan, pending: seq<PendingDirectory>, s: Path, j: nat) {
    && Lookup(root, s).Some? && Lookup(root, s).value.DirNode? && WellNamed(Lookup(root, s).value)
    && j <= |EntriesAt(root, s)|
    && PlanSound(root, target, plan)
    && ParentsFirst(target, plan.directories)
    && PendingGood(root, target, plan.directories, pending)
    && target + s in plan.directories
    && FilesPlaced(plan)
    && AllCovered(root, target, plan, pending, s, j)
    && PlanCount(plan).Plus(CountPending(root, pending)).Plus(CountEntries(EntriesAt(root, s)[j..])) == Count(root)
  }

  /** What is promised of a finished plan. */
  ghost predicate CompletePlan(root: Node, target: Path, plan: Plan) {
    && PlanSound(root, target, plan)
    && (forall q :: Planned(root, target, plan, q))
    && ParentsFirst(target, plan.directories)
    && (root.DirNode? ==> FilesPlaced(plan))
    && PlanCount(plan) == Count(root)
  }

  lemma ScanStarts(root: Node, target: Path)
    requires root.DirNode? && WellNamed(root)
    ensures ScanInvariant(root, target, Plan([target], [], 0, 0), [PendingDirectory([], target)], [],
                          |EntriesAt(root, [])|)
  {
    StartCovered(root, target);
    var pending := [PendingDirectory([], target)];
    assert pending[1..] == [];
    assert target + [] == target && target[|target|..] == [];
    assert EntriesAt(root, [])[|EntriesAt(root, [])|..] == [];
  }

  lemma ScanPops(root: Node, target: Path, plan: Plan, pending: seq<PendingDirectory>, s: Path)
    requires WellNamed(root) && pending != []
    requires ScanInvariant(root, target, plan, pending, s, |EntriesAt(root, s)|)
    ensures ScanInvariant(root, target, plan, pending[1..], pending[0].source, 0)
    ensures pending[0].target == target + pending[0].source
    ensures Remaining(root, pending[1..]) + EntriesSize(EntriesAt(root, pending[0].source)) < Remaining(root, pending)
  {
    hide AllCovered, PlanSound, ParentsFirst, FilesPlaced, CountEntries, PlanCount;
    PopCovered(root, target, plan, pending, s);
    PopCount(root, plan, pending, s);
    PopPending(root, target, plan.directories, pending);
  }

  lemma PopPending(root: Node, target: Path, directories: seq<Path>, pending: seq<PendingDirectory>)
    requires PendingGood(root, target, directories, pending) && pending != []
    ensures PendingGood(root, target, directories, pending[1..])
  {
  }

  lemma PopCount(root: Node, plan: Plan, pending: seq<PendingDirectory>, s: Path)
    requires pending != []
    ensures PlanCount(plan).Plus(CountPending(root, pending[1..])).Plus(CountEntries(EntriesAt(root, pending[0].source)[0..]))
            == PlanCount(plan).Plus(CountPending(root, pending)).Plus(CountEntries(EntriesAt(root, s)[|EntriesAt(root, s)|..]))
  {
    hide Count, PlanCount, EntriesAt;
    assert EntriesAt(root, s)[|EntriesAt(root, s)|..] == [];
    assert EntriesAt(root, pending[0].source)[0..] == EntriesAt(root, pending[0].source);
  }

  lemma ScanEnds(root: Node, target: Path, plan: Plan, s: Path)
    requires ScanInvariant(root, target, plan, [], s, |EntriesAt(root, s)|)
    ensures CompletePlan(root, target, plan)
  {
    assert EntriesAt(root, s)[|EntriesAt(root, s)|..] == [];
    forall q
      ensures Planned(root, target, plan, q)
    {
      assert Covered(root, target, plan, [], s, |EntriesAt(root, s)|, q);
    }
  }

  function AddFile(plan: Plan, source: Path, target: Path, size: nat): Plan {
    plan.(files := plan.files + [PlannedCopyFile(source, target)], totalBytes := plan.totalBytes + size)
  }

  function AddDirectory(plan: Plan, target: Path): Plan {
    plan.(directories := plan.directories + [target])
  }

  function AddSkipped(plan: Plan): Plan {
    plan.(skippedItems := plan.skippedItems + 1)
  }

  /** The plan after one entry. */
  function PlanEntry(plan: Plan, e: Entry, s: Path, targetDirectory: Path): Plan {
    match e.node
    case FileNode(content) => AddFile(plan, s + [e.name], targetDirectory + [e.name], |content|)
    case DirNode(_) => AddDirectory(plan, targetDirectory + [e.name])
    case Broken => plan
    case _ => AddSkipped(plan)
  }

  function PendEntry(pending: seq<PendingDirectory>, e: Entry, s: Path, targetDirectory: Path): seq<PendingDirectory> {
    if e.node.DirNode? then pending + [PendingDirectory(s + [e.name], targetDirectory + [e.name])] else pending
  }

  lemma CountStep(root: Node, plan: Plan, pending: seq<PendingDirectory>, s: Path, target: Path, j: nat)
    requires WellNamed(root) && Lookup(root, s).Some? && WellNamed(Lookup(root, s).value)
    requires j < |EntriesAt(root, s)| && !EntriesAt(root, s)[j].node.Broken?
    ensures var e := EntriesAt(root, s)[j];
            PlanCount(PlanEntry(plan, e, s, target + s)).Plus(CountPending(root, PendEntry(pending, e, s, target + s)))
              .Plus(CountEntries(EntriesAt(root, s)[j + 1..]))
            == PlanCount(plan).Plus(CountPending(root, pending)).Plus(CountEntries(EntriesAt(root, s)[j..]))
  {
    hide Lookup, WellNamed, Count, CountEntries, CountPending, PlanCount, PlanEntry, PendEntry;
    var entries := EntriesAt(root, s);
    LookupChild(root, s, Lookup(root, s).value, j);
    CountFirst(entries, j);
    CountNode(root, plan, pending, entries[j], s, target + s);
  }

  lemma CountFirst(entries: seq<Entry>, j: nat)
    requires j < |entries|
    ensures CountEntries(entries[j..]) == Count(entries[j].node).Plus(CountEntries(entries[j + 1..]))
  {
    hide Count;
    assert entries[j..][0] == entries[j] && entries[j..][1..] == entries[j + 1..];
  }

  lemma CountNode(root: Node, plan: Plan, pending: seq<PendingDirectory>, e: Entry, s: Path, target: Path)
    requires Lookup(root, s + [e.name]) == Some(e.node) && !e.node.Broken?
    ensures PlanCount(PlanEntry(plan, e, s, target)).Plus(CountPending(root, PendEntry(pending, e, s, target)))
            == PlanCount(plan).Plus(CountPending(root, pending)).Plus(Count(e.node))
  {
    hide CountEntries, CountPending, Lookup;
    if e.node.DirNode? {
      CountOneMorePending(root, pending, PendingDirectory(s + [e.name], target + [e.name]));
    }
  }

  lemma SoundStep(root: Node, target: Path, plan: Plan, s: Path, j: nat)
    requires WellNamed(root) && Lookup(root, s).Some? && WellNamed(Lookup(root, s).value)
    requires j < |EntriesAt(root, s)| && PlanSound(root, target, plan)
    ensures PlanSound(root, target, PlanEntry(plan, EntriesAt(root, s)[j], s, target + s))
  {
    hide PlanSound, Lookup, WellNamed;
    var e := EntriesAt(root, s)[j];
    var source := s + [e.name];
    LookupChild(root, s, Lookup(root, s).value, j);
    assert target + s + [e.name] == target + source;
    assert (target + source)[|target|..] == source;
    assert CopiedAt(root, source) == Copied(e.node);
    SoundMore(root, target, plan, source);
  }

  lemma SoundMore(root: Node, target: Path, plan: Plan, source: Path)
    requires PlanSound(root, target, plan)
    ensures CopiedAt(root, source) == Some(FsDir) && (target + source)[|target|..] == source ==>
              PlanSound(root, target, AddDirectory(plan, target + source))
    ensures CopiedAt(root, source).Some? && CopiedAt(root, source).value.FsFile? ==>
              forall size :: PlanSound(root, target, AddFile(plan, source, target + source, size))
    ensures PlanSound(root, target, AddSkipped(plan))
  {
    hide CopiedAt;
  }

  lemma OrderStep(target: Path, directories: seq<Path>, d: Path)
    requires ParentsFirst(target, directories) && d != [] && Parent(d) in directories
    ensures ParentsFirst(target, directories + [d])
  {
    var ds := directories + [d];
    forall i | 0 <= i < |ds|
      ensures ds[i] == target || (ds[i] != [] && Parent(ds[i]) in ds[..i])
    {
      if i < |directories| {
        assert ds[..i] == directories[..i];
      } else {
        assert ds[..i] == directories;
      }
    }
  }

  lemma FilesStep(plan: Plan, e: Entry, s: Path, targetDirectory: Path)
    requires FilesPlaced(plan) && targetDirectory in plan.directories
    ensures FilesPlaced(PlanEntry(plan, e, s, targetDirectory))
  {
  }

  lemma PendingStep(root: Node, target: Path, plan: Plan, pending: seq<PendingDirectory>, s: Path, j: nat)
    requires WellNamed(root) && Lookup(root, s).Some? && WellNamed(Lookup(root, s).value)
    requires j < |EntriesAt(root, s)| && PendingGood(root, target, plan.directories, pending)
    ensures var e := EntriesAt(root, s)[j];
            PendingGood(root, target, PlanEntry(plan, e, s, target + s).directories, PendEntry(pending, e, s, target + s))
  {
    var e := EntriesAt(root, s)[j];
    LookupChild(root, s, Lookup(root, s).value, j);
    assert target + s + [e.name] == target + (s + [e.name]);
  }

  /** One entry keeps the invariant. */
  lemma ScanStep(root: Node, target: Path, plan: Plan, pending: seq<PendingDirectory>, s: Path, j: nat)
    requires WellNamed(root) && ScanInvariant(root, target, plan, pending, s, j)
    requires j < |EntriesAt(root, s)| && !EntriesAt(root, s)[j].node.Broken?
    ensures var e := EntriesAt(root, s)[j];
            ScanInvariant(root, target, PlanEntry(plan, e, s, target + s), PendEntry(pending, e, s, target + s), s, j + 1)
  {
    hide AllCovered, Covered, PlanSound, PendingGood, ParentsFirst, FilesPlaced, CountPending, CountEntries, PlanCount;
    var e := EntriesAt(root, s)[j];
    var plan', pending' := PlanEntry(plan, e, s, target + s), PendEntry(pending, e, s, target + s);
    assert target + s + [e.name] == target + (s + [e.name]);
    assert Parent(target + s + [e.name]) == target + s;
    if e.node.DirNode? {
      OrderStep(target, plan.directories, target + s + [e.name]);
    }
    FilesStep(plan, e, s, target + s);
    EntryCovered(root, target, plan, pending, s, j, plan', pending');
    CountStep(root, plan, pending, s, target, j);
    SoundStep(root, target, plan, s, j);
    PendingStep(root, target, plan, pending, s, j);
  }

  lemma BrokenCounts(node: Node)
    ensures node.Broken? ==> Count(node).broken == 1
  {
  }

  lemma BrokenEntryCounts(entries: seq<Entry>, j: nat)
    requires j < |entries| && entries[j].node.Broken?
    ensures CountEntries(entries[j..]).broken > 0
  {
    hide Count;
    BrokenCounts(entries[j].node);
    assert entries[j..][0] == entries[j];
  }

  lemma BrokenFound(root: Node, target: Path, plan: Plan, pending: seq<PendingDirectory>, s: Path, j: nat)
    requires ScanInvariant(root, target, plan, pending, s, j)
    requires j < |EntriesAt(root, s)| && EntriesAt(root, s)[j].node.Broken?
    ensures Count(root).broken > 0
  {
    BrokenEntryCounts(EntriesAt(root, s), j);
  }

  lemma NoneBroken(root: Node, target: Path, plan: Plan)
    requires CompletePlan(root, target, plan)
    ensures Count(root).broken == 0
  {
  }

  lemma SingleFile(root: Node, target: Path)
    requires root.FileNode?
    ensures CompletePlan(root, target, Plan([], [PlannedCopyFile([], target)], 0, |root.content|))
  {
    assert target + [] == target;
    forall q
      ensures Planned(root, target, Plan([], [PlannedCopyFile([], target)], 0, |root.content|), q)
    {
      if q == [] {
        assert target + q == target;
      }
    }
  }

  // ----- Termination -----

  /** The nodes of a tree. */
  function Size(node: Node): nat {
    if node.DirNode? then 1 + EntriesSize(node.entries) else 1
  }

  function EntriesSize(entries: seq<Entry>): nat {
    if entries == [] then 0 else Size(entries[0].node) + EntriesSize(entries[1..])
  }

  /** The nodes still to be seen: the queued directories and everything below them. */
  function Remaining(root: Node, pending: seq<PendingDirectory>): nat {
    if pending == [] then 0
    else 1 + EntriesSize(EntriesAt(root, pending[0].source)) + Remaining(root, pending[1..])
  }

  lemma {:induction false} RemainingOneMore(root: Node, pending: seq<PendingDirectory>, p: PendingDirectory)
    ensures Remaining(root, pending + [p]) == Remaining(root, pending) + 1 + EntriesSize(EntriesAt(root, p.source))
  {
    if pending != [] {
      assert (pending + [p])[1..] == pending[1..] + [p];
      RemainingOneMore(root, pending[1..], p);
    }
  }

  lemma SizeStep(root: Node, pending: seq<PendingDirectory>, s: Path, target: Path, j: nat)
    requires Lookup(root, s).Some? && WellNamed(Lookup(root, s).value) && j < |EntriesAt(root, s)|
    ensures var e := EntriesAt(root, s)[j];
            Remaining(root, PendEntry(pending, e, s, target)) + EntriesSize(EntriesAt(root, s)[j + 1..])
            <= Remaining(root, pending) + EntriesSize(EntriesAt(root, s)[j..])
  {
    var e := EntriesAt(root, s)[j];
    assert EntriesAt(root, s)[j..][0] == e && EntriesAt(root, s)[j..][1..] == EntriesAt(root, s)[j + 1..];
    LookupChild(root, s, Lookup(root, s).value, j);
    if e.node.DirNode? {
      RemainingOneMore(root, pending, PendingDirectory(s + [e.name], target + [e.name]));
      assert EntriesAt(root, s + [e.name]) == e.node.entries;
    }
  }

  lemma ScanListing(root: Node, target: Path, plan: Plan, pending: seq<PendingDirectory>, s: Path, j: nat)
    requires ScanInvariant(root, target, plan, pending, s, j)
    ensures Lookup(root, s).Some? && WellNamed(Lookup(root, s).value)
  {
  }

  /** Scans a source breadth first. If it can be cancelled, that may stop it before
      any directory. */
  method ScanCopyPlan(source: Node, target: Path, cancellable: bool) returns (r: Result<Plan, ScanError>)
    requires WellNamed(source)
    ensures r.Ok? ==> CompletePlan(Followed(source), target, r.value)
    ensures r.Ok? ==> IsSource(source) && Count(Followed(source)).broken == 0
    ensures r == Err(Cancelled) ==> cancellable
    ensures r == Err(Unreadable) ==> !IsSource(source) || Count(Followed(source)).broken > 0
  {
    hide ScanInvariant, CompletePlan, CountPending, PlanEntry, PendEntry, Lookup, EntriesAt;
    var root := Followed(source);
    if source.FileNode? {
      var plan := Plan([], [PlannedCopyFile([], target)], 0, |source.content|);
      SingleFile(source, target);
      return Ok(plan);
    }
    if !root.DirNode? {
      return Err(Unreadable);
    }
    var plan, pending := Plan([target], [], 0, 0), [PendingDirectory([], target)];
    ghost var s: Path := [];
    ScanStarts(root, target);
    while pending != []
      invariant ScanInvariant(root, target, plan, pending, s, |EntriesAt(root, s)|)
      decreases Remaining(root, pending)
    {
      ghost var before := pending;
      ScanPops(root, target, plan, pending, s);
      var next := pending[0];
      pending := pending[1..];
      s := next.source;
      var ready: bool :| cancellable || ready;
      if !ready {
        return Err(Cancelled);
      }
      var entries := EntriesAt(root, next.source);
      for j := 0 to |entries|
        invariant entries == EntriesAt(root, s) && next.source == s && next.target == target + s
        invariant ScanInvariant(root, target, plan, pending, s, j)
        invariant Remaining(root, pending) + EntriesSize(entries[j..]) < Remaining(root, before)
      {
        var e := entries[j];
        ScanListing(root, target, plan, pending, s, j);
        if e.node.Broken? {
          BrokenFound(root, target, plan, pending, s, j);
          return Err(Unreadable);
        }
        ScanStep(root, target, plan, pending, s, j);
        SizeStep(root, pending, s, next.target, j);
        plan, pending := PlanEntry(plan, e, next.source, next.target), PendEntry(pending, e, next.source, next.target);
      }
    }
    ScanEnds(root, target, plan, s);
    NoneBroken(root, target, plan);
    r := Ok(plan);
  }
}
