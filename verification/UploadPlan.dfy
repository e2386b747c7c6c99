/** Scanning local directories for an upload, src-tauri/src/commands/file_transfer.rs. */
module UploadPlan {
  import opened Bytes
  import opened RemotePath

  // ----- The local side -----

  datatype LocalNode =
    | LocalFile(size: nat)
    | LocalDirectory(listing: Listing)
    | LocalLink
    | LocalOther
    | LocalUnreadable

  /** A listing may be refused, or break off after some entries. */
  datatype Listing = Listed(entries: seq<LocalEntry>, complete: bool) | Refused

  datatype LocalEntry = LocalEntry(name: string, node: LocalNode)

  datatype PlannedUploadFile = PlannedUploadFile(size: nat, remotePath: string)

  datatype DirectoryUploadPlan = DirectoryUploadPlan(
    directories: seq<string>,
    files: seq<PlannedUploadFile>,
    skippedItems: nat,
    failedItems: nat,
    totalBytes: nat)
  {
    function TotalItems(): nat {
      |directories| + |files| + skippedItems + failedItems
    }

    function Then(next: DirectoryUploadPlan): DirectoryUploadPlan {
      DirectoryUploadPlan(directories + next.directories, files + next.files, skippedItems + next.skippedItems,
                          failedItems + next.failedItems, totalBytes + next.totalBytes)
    }
  }

  const EMPTY_PLAN := DirectoryUploadPlan([], [], 0, 0, 0)

  datatype UploadError = Cancelled | RootUnreadable | NestedBatch

  // ----- What there is to upload -----

  /** The items of a plan in any order, with the bytes of the files. */
  datatype Tally = Tally(directories: multiset<string>, files: multiset<PlannedUploadFile>, skipped: nat, failed: nat,
                         bytes: nat)
  {
    function Plus(t: Tally): Tally {
      Tally(directories + t.directories, files + t.files, skipped + t.skipped, failed + t.failed, bytes + t.bytes)
    }
  }

  const NO_ITEMS := Tally(multiset{}, multiset{}, 0, 0, 0)

  const SKIPPED_ITEM := Tally(multiset{}, multiset{}, 1, 0, 0)

  const FAILED_ITEM := Tally(multiset{}, multiset{}, 0, 1, 0)

  lemma PlusRegroups(a: Tally, b: Tally, c: Tally)
    ensures a.Plus(b).Plus(c) == a.Plus(b.Plus(c))
    ensures a.Plus(b).Plus(c) == a.Plus(c).Plus(b)
    ensures a.Plus(NO_ITEMS) == a && NO_ITEMS.Plus(a) == a
  {
  }

  predicate UsableName(name: string) {
    name != "" && '\U{FFFD}' !in name
  }

  /** Everything below a node placed at a remote path: each item a scan can reach, once. */
  function ItemsAt(node: LocalNode, path: string): Tally {
    match node
    case LocalFile(size) => Tally(multiset{}, multiset{PlannedUploadFile(size, path)}, 0, 0, size)
    case LocalDirectory(listing) => Tally(multiset{path}, multiset{}, 0, 0, 0).Plus(ItemsListed(listing, path))
    case LocalLink => SKIPPED_ITEM
    case LocalOther => SKIPPED_ITEM
    case LocalUnreadable => FAILED_ITEM
  }

  /** A listing that is refused or breaks off is one more failure. */
  function ItemsListed(listing: Listing, path: string): Tally {
    match listing
    case Refused => FAILED_ITEM
    case Listed(entries, complete) => ItemsIn(entries, path).Plus(BreakOff(complete))
  }

  function BreakOff(complete: bool): Tally {
    if complete then NO_ITEMS else FAILED_ITEM
  }

  function ItemsIn(entries: seq<LocalEntry>, path: string): Tally {
    if entries == [] then NO_ITEMS
    else ItemsOf(entries[0], path).Plus(ItemsIn(entries[1..], path))
  }

  function ItemsOf(e: LocalEntry, path: string): Tally {
    if UsableName(e.name) then ItemsAt(e.node, JoinRemotePath(path, e.name)) else SKIPPED_ITEM
  }

  lemma ItemsFirst(entries: seq<LocalEntry>, j: nat, path: string)
    requires j < |entries|
    ensures ItemsIn(entries[j..], path) == ItemsOf(entries[j], path).Plus(ItemsIn(entries[j + 1..], path))
  {
  }

  function PlanTally(plan: DirectoryUploadPlan): Tally {
    Tally(multiset(plan.directories), multiset(plan.files), plan.skippedItems, plan.failedItems, plan.totalBytes)
  }

  lemma TallyOfConcat(a: DirectoryUploadPlan, b: DirectoryUploadPlan)
    ensures PlanTally(a.Then(b)) == PlanTally(a).Plus(PlanTally(b))
  {
  }

  datatype PendingDirectory = PendingDirectory(listing: Listing, remotePath: string)

  function ItemsPending(pending: seq<PendingDirectory>): Tally {
    if pending == [] then NO_ITEMS
    else ItemsListed(pending[0].listing, pending[0].remotePath).Plus(ItemsPending(pending[1..]))
  }

  lemma {:induction false} OneMorePending(pending: seq<PendingDirectory>, p: PendingDirectory)
    ensures ItemsPending(pending + [p]) == ItemsPending(pending).Plus(ItemsListed(p.listing, p.remotePath))
  {
    hide ItemsListed;
    PlusRegroups(ItemsListed(p.listing, p.remotePath), NO_ITEMS, NO_ITEMS);
    if pending != [] {
      assert (pending + [p])[1..] == pending[1..] + [p];
      OneMorePending(pending[1..], p);
      PlusRegroups(ItemsListed(pending[0].listing, pending[0].remotePath), ItemsPending(pending[1..]),
                   ItemsListed(p.listing, p.remotePath));
    }
  }

  // ----- Sizes, for termination -----

  function NodeSize(node: LocalNode): nat {
    match node
    case LocalDirectory(listing) => 1 + ListingSize(listing)
    case _ => 1
  }

  function ListingSize(listing: Listing): nat {
    match listing
    case Refused => 0
    case Listed(entries, _) => EntriesSize(entries)
  }

  function EntriesSize(entries: seq<LocalEntry>): nat {
    if entries == [] then 0 else NodeSize(entries[0].node) + EntriesSize(entries[1..])
  }

  function PendingSize(pending: seq<PendingDirectory>): nat {
    if pending == [] then 0 else 1 + ListingSize(pending[0].listing) + PendingSize(pending[1..])
  }

  lemma {:induction false} SizeOneMorePending(pending: seq<PendingDirectory>, p: PendingDirectory)
    ensures PendingSize(pending + [p]) == PendingSize(pending) + 1 + ListingSize(p.listing)
  {
    if pending != [] {
      assert (pending + [p])[1..] == pending[1..] + [p];
      SizeOneMorePending(pending[1..], p);
    }
  }

  // ----- Placement -----

  /** Every planned directory but the root, and every planned file, is an entry joined to a
      directory planned before it. */
  ghost predicate Placed(root: string, plan: DirectoryUploadPlan) {
    && (forall i :: 0 <= i < |plan.directories| ==>
          plan.directories[i] == root || IsChild(plan.directories[..i], plan.directories[i]))
    && (forall i :: 0 <= i < |plan.files| ==> IsChild(plan.directories, plan.files[i].remotePath))
  }

  ghost predicate IsChild(directories: seq<string>, path: string) {
    exists k, name: string :: 0 <= k < |directories| && path == JoinRemotePath(directories[k], name)
  }

  lemma ChildKnows(directories: seq<string>, parent: string, name: string)
    requires parent in directories
    ensures IsChild(directories, JoinRemotePath(parent, name))
  {
  }

  lemma ChildStays(directories: seq<string>, more: seq<string>, path: string)
    requires IsChild(directories, path)
    ensures IsChild(directories + more, path)
  {
    var k, name: string :| 0 <= k < |directories| && path == JoinRemotePath(directories[k], name);
    assert (directories + more)[k] == directories[k];
  }

  lemma PlaceDirectory(root: string, plan: DirectoryUploadPlan, parent: string, name: string)
    requires Placed(root, plan) && parent in plan.directories
    ensures Placed(root, plan.(directories := plan.directories + [JoinRemotePath(parent, name)]))
  {
    hide JoinRemotePath;
    var path := JoinRemotePath(parent, name);
    ChildKnows(plan.directories, parent, name);
    var ds := plan.directories + [path];
    forall i | 0 <= i < |ds|
      ensures ds[i] == root || IsChild(ds[..i], ds[i])
    {
      if i < |plan.directories| {
        assert ds[..i] == plan.directories[..i];
      } else {
        assert ds[..i] == plan.directories;
      }
    }
    forall i | 0 <= i < |plan.files|
      ensures IsChild(ds, plan.files[i].remotePath)
    {
      ChildStays(plan.directories, [path], plan.files[i].remotePath);
    }
  }

  lemma PlaceFile(root: string, plan: DirectoryUploadPlan, parent: string, name: string, size: nat)
    requires Placed(root, plan) && parent in plan.directories
    ensures Placed(root, plan.(files := plan.files + [PlannedUploadFile(size, JoinRemotePath(parent, name))],
                               totalBytes := plan.totalBytes + size))
  {
  }

  // ----- The scan -----

  /** The plan after one entry. */
  function PlanEntry(plan: DirectoryUploadPlan, e: LocalEntry, remoteDirectory: string): DirectoryUploadPlan {
    if e.name == "" || '\U{FFFD}' in e.name then plan.(skippedItems := plan.skippedItems + 1)
    else
      match e.node
      case LocalFile(size) =>
        plan.(files := plan.files + [PlannedUploadFile(size, JoinRemotePath(remoteDirectory, e.name))],
              totalBytes := plan.totalBytes + size)
      case LocalDirectory(_) =>
        plan.(directories := plan.directories + [JoinRemotePath(remoteDirectory, e.name)])
      case LocalUnreadable => plan.(failedItems := plan.failedItems + 1)
      case _ => plan.(skippedItems := plan.skippedItems + 1)
  }

  function PendEntry(pending: seq<PendingDirectory>, e: LocalEntry, remoteDirectory: string): seq<PendingDirectory> {
    if e.name != "" && '\U{FFFD}' !in e.name && e.node.LocalDirectory?
    then pending + [PendingDirectory(e.node.listing, JoinRemotePath(remoteDirectory, e.name))]
    else pending
  }

  predicate PendingPlanned(plan: DirectoryUploadPlan, pending: seq<PendingDirectory>) {
    forall i :: 0 <= i < |pending| ==> pending[i].remotePath in plan.directories
  }

  lemma DirectoryStep(plan: DirectoryUploadPlan, pending: seq<PendingDirectory>, listing: Listing, child: string)
    ensures PlanTally(plan.(directories := plan.directories + [child]))
              .Plus(ItemsPending(pending + [PendingDirectory(listing, child)]))
            == PlanTally(plan).Plus(ItemsPending(pending)).Plus(ItemsAt(LocalDirectory(listing), child))
  {
    hide ItemsPending, ItemsListed;
    OneMorePending(pending, PendingDirectory(listing, child));
    var here, below := Tally(multiset{child}, multiset{}, 0, 0, 0), ItemsListed(listing, child);
    var waiting := ItemsPending(pending);
    assert PlanTally(plan.(directories := plan.directories + [child])) == PlanTally(plan).Plus(here);
    PlusSwaps(PlanTally(plan), here, waiting, below);
  }

  lemma PlainStep(plan: DirectoryUploadPlan, e: LocalEntry, path: string)
    requires UsableName(e.name) ==> !e.node.LocalDirectory?
    ensures PlanTally(PlanEntry(plan, e, path)) == PlanTally(plan).Plus(ItemsOf(e, path))
  {
    hide JoinRemotePath, ItemsListed, ItemsIn, PlanTally, Tally.Plus;
    TroubleStep(plan);
    if UsableName(e.name) && e.node.LocalFile? {
      FileStep(plan, PlannedUploadFile(e.node.size, JoinRemotePath(path, e.name)));
    }
  }

  lemma TroubleStep(plan: DirectoryUploadPlan)
    ensures PlanTally(plan.(skippedItems := plan.skippedItems + 1)) == PlanTally(plan).Plus(SKIPPED_ITEM)
    ensures PlanTally(plan.(failedItems := plan.failedItems + 1)) == PlanTally(plan).Plus(FAILED_ITEM)
  {
  }

  lemma FileStep(plan: DirectoryUploadPlan, f: PlannedUploadFile)
    ensures PlanTally(plan.(files := plan.files + [f], totalBytes := plan.totalBytes + f.size))
            == PlanTally(plan).Plus(Tally(multiset{}, multiset{f}, 0, 0, f.size))
  {
  }

  lemma PlusSwaps(a: Tally, b: Tally, c: Tally, d: Tally)
    ensures a.Plus(b).Plus(c.Plus(d)) == a.Plus(c).Plus(b.Plus(d))
  {
  }

  lemma ItemsStep(plan: DirectoryUploadPlan, pending: seq<PendingDirectory>, e: LocalEntry, path: string)
    ensures PlanTally(PlanEntry(plan, e, path)).Plus(ItemsPending(PendEntry(pending, e, path)))
            == PlanTally(plan).Plus(ItemsPending(pending)).Plus(ItemsOf(e, path))
  {
    hide JoinRemotePath, ItemsPending, ItemsListed, PlanTally, Tally.Plus;
    if UsableName(e.name) && e.node.LocalDirectory? {
      var child := JoinRemotePath(path, e.name);
      DirectoryStep(plan, pending, e.node.listing, child);
    } else {
      PlainStep(plan, e, path);
      PlusRegroups(PlanTally(plan), ItemsPending(pending), ItemsOf(e, path));
    }
  }

  lemma SizeStep(pending: seq<PendingDirectory>, entries: seq<LocalEntry>, j: nat, remoteDirectory: string)
    requires j < |entries|
    ensures PendingSize(PendEntry(pending, entries[j], remoteDirectory)) + EntriesSize(entries[j + 1..])
            <= PendingSize(pending) + EntriesSize(entries[j..])
  {
    hide JoinRemotePath, PendingSize;
    var e := entries[j];
    assert entries[j..][0] == e && entries[j..][1..] == entries[j + 1..];
    if e.node.LocalDirectory? {
      SizeOneMorePending(pending, PendingDirectory(e.node.listing, JoinRemotePath(remoteDirectory, e.name)));
    }
  }

  lemma PlaceStep(root: string, plan: DirectoryUploadPlan, pending: seq<PendingDirectory>, e: LocalEntry,
                  remoteDirectory: string)
    requires Placed(root, plan) && PendingPlanned(plan, pending) && remoteDirectory in plan.directories
    ensures Placed(root, PlanEntry(plan, e, remoteDirectory))
    ensures PendingPlanned(PlanEntry(plan, e, remoteDirectory), PendEntry(pending, e, remoteDirectory))
    ensures remoteDirectory in PlanEntry(plan, e, remoteDirectory).directories
  {
    hide JoinRemotePath;
    if e.node.LocalDirectory? {
      PlaceDirectory(root, plan, remoteDirectory, e.name);
    } else if e.node.LocalFile? {
      PlaceFile(root, plan, remoteDirectory, e.name, e.node.size);
    }
  }

  lemma EntryKeepsRoot(plan: DirectoryUploadPlan, e: LocalEntry, remoteDirectory: string)
    requires plan.directories != []
    ensures var plan' := PlanEntry(plan, e, remoteDirectory);
            plan'.directories != [] && plan'.directories[0] == plan.directories[0]
  {
  }

  /** What a scan keeps: planned, pending and still unread items make up all of them. */
  ghost predicate Scanning(root: string, all: Tally, plan: DirectoryUploadPlan, pending: seq<PendingDirectory>,
                           unread: Tally)
  {
    && PlanTally(plan).Plus(ItemsPending(pending)).Plus(unread) == all
    && plan.directories != [] && plan.directories[0] == root
    && Placed(root, plan) && PendingPlanned(plan, pending)
  }

  lemma StartScan(node: LocalNode, root: string)
    requires node.LocalDirectory?
    ensures Scanning(root, ItemsAt(node, root), DirectoryUploadPlan([root], [], 0, 0, 0),
                     [PendingDirectory(node.listing, root)], NO_ITEMS)
  {
    hide ItemsListed;
    var pending := [PendingDirectory(node.listing, root)];
    var below := ItemsListed(node.listing, root);
    PlusRegroups(below, NO_ITEMS, NO_ITEMS);
    assert ItemsPending(pending) == below;
    assert PlanTally(DirectoryUploadPlan([root], [], 0, 0, 0)) == Tally(multiset{root}, multiset{}, 0, 0, 0);
    PlusRegroups(ItemsAt(node, root), NO_ITEMS, NO_ITEMS);
  }

  lemma PopScan(root: string, all: Tally, plan: DirectoryUploadPlan, pending: seq<PendingDirectory>)
    requires pending != [] && Scanning(root, all, plan, pending, NO_ITEMS)
    ensures Scanning(root, all, plan, pending[1..], ItemsListed(pending[0].listing, pending[0].remotePath))
    ensures pending[0].remotePath in plan.directories
    ensures PendingSize(pending) == 1 + ListingSize(pending[0].listing) + PendingSize(pending[1..])
  {
    hide Placed, PlanTally, ItemsListed;
    PlusRegroups(PlanTally(plan), ItemsListed(pending[0].listing, pending[0].remotePath), ItemsPending(pending[1..]));
    PlusRegroups(PlanTally(plan).Plus(ItemsPending(pending)), NO_ITEMS, NO_ITEMS);
  }

  lemma FailScan(root: string, all: Tally, plan: DirectoryUploadPlan, pending: seq<PendingDirectory>)
    requires Scanning(root, all, plan, pending, FAILED_ITEM)
    ensures Scanning(root, all, plan.(failedItems := plan.failedItems + 1), pending, NO_ITEMS)
  {
  }

  lemma EntryScan(root: string, all: Tally, plan: DirectoryUploadPlan, pending: seq<PendingDirectory>,
                  entries: seq<LocalEntry>, j: nat, path: string, breakOff: Tally)
    requires j < |entries| && path in plan.directories
    requires Scanning(root, all, plan, pending, ItemsIn(entries[j..], path).Plus(breakOff))
    ensures Scanning(root, all, PlanEntry(plan, entries[j], path), PendEntry(pending, entries[j], path),
                     ItemsIn(entries[j + 1..], path).Plus(breakOff))
    ensures path in PlanEntry(plan, entries[j], path).directories
  {
    hide ItemsPending, ItemsIn, ItemsOf, Placed, PlanTally, PendingPlanned, PlanEntry, PendEntry;
    var e := entries[j];
    ItemsFirst(entries, j, path);
    ItemsStep(plan, pending, e, path);
    PlaceStep(root, plan, pending, e, path);
    EntryKeepsRoot(plan, e, path);
    var done, here, later := PlanTally(plan).Plus(ItemsPending(pending)), ItemsOf(e, path), ItemsIn(entries[j + 1..], path);
    assert done.Plus(here).Plus(later.Plus(breakOff)) == done.Plus(here.Plus(later).Plus(breakOff));
  }

  /** Scans a local directory breadth first, going on past what cannot be read. */
  method ScanUploadDirectory(node: LocalNode, remoteRoot: string, cancellable: bool)
    returns (r: Result<DirectoryUploadPlan, UploadError>)
    ensures r.Ok? ==>
              && node.LocalDirectory? && node.listing.Listed?
              && PlanTally(r.value) == ItemsAt(node, NormalizeRemotePath(remoteRoot))
              && Placed(NormalizeRemotePath(remoteRoot), r.value)
    ensures r.Err? ==> (r.error == Cancelled && cancellable)
                       || (r.error == RootUnreadable && !(node.LocalDirectory? && node.listing.Listed?))
  {
    hide *;
    var root := NormalizeRemotePath(remoteRoot);
    var ready: bool :| cancellable || ready;
    if !ready {
      return Err(Cancelled);
    }
    if !node.LocalDirectory? || node.listing.Refused? {
      return Err(RootUnreadable);
    }
    ghost var all := ItemsAt(node, root);
    var pending := [PendingDirectory(node.listing, root)];
    var plan := DirectoryUploadPlan([root], [], 0, 0, 0);
    StartScan(node, root);
    while pending != []
      invariant Scanning(root, all, plan, pending, NO_ITEMS)
      decreases PendingSize(pending)
    {
      ready :| cancellable || ready;
      if !ready {
        return Err(Cancelled);
      }
      ghost var before := pending;
      var next := pending[0];
      PopScan(root, all, plan, pending);
      pending := pending[1..];
      if next.listing.Refused? {
        RefusedItems(next.listing, next.remotePath);
        FailScan(root, all, plan, pending);
        plan := plan.(failedItems := plan.failedItems + 1);
        continue;
      }
      var entries := next.listing.entries;
      ListedItems(next.listing, next.remotePath);
      ghost var breakOff := BreakOff(next.listing.complete);
      for j := 0 to |entries|
        invariant Scanning(root, all, plan, pending, ItemsIn(entries[j..], next.remotePath).Plus(breakOff))
        invariant next.remotePath in plan.directories
        invariant PendingSize(pending) + EntriesSize(entries[j..]) < PendingSize(before)
      {
        var e := entries[j];
        EntryScan(root, all, plan, pending, entries, j, next.remotePath, breakOff);
        SizeStep(pending, entries, j, next.remotePath);
        plan, pending := PlanEntry(plan, e, next.remotePath), PendEntry(pending, e, next.remotePath);
      }
      EndOfListing(entries, next.remotePath, next.listing.complete);
      if !next.listing.complete {
        FailScan(root, all, plan, pending);
        plan := plan.(failedItems := plan.failedItems + 1);
      }
    }
    EndScan(root, all, plan);
    r := Ok(plan);
  }

  lemma RefusedItems(listing: Listing, path: string)
    requires listing.Refused?
    ensures ItemsListed(listing, path) == FAILED_ITEM
  {
  }

  lemma ListedItems(listing: Listing, path: string)
    requires listing.Listed?
    ensures listing.entries[0..] == listing.entries
    ensures ItemsListed(listing, path) == ItemsIn(listing.entries, path).Plus(BreakOff(listing.complete))
    ensures ListingSize(listing) == EntriesSize(listing.entries)
  {
  }

  lemma EndOfListing(entries: seq<LocalEntry>, path: string, complete: bool)
    ensures ItemsIn(entries[|entries|..], path).Plus(BreakOff(complete)) == if complete then NO_ITEMS else FAILED_ITEM
  {
    var none := entries[|entries|..];
    assert none == [];
    assert ItemsIn(none, path) == NO_ITEMS;
    PlusRegroups(BreakOff(complete), NO_ITEMS, NO_ITEMS);
  }

  lemma EndScan(root: string, all: Tally, plan: DirectoryUploadPlan)
    requires Scanning(root, all, plan, [], NO_ITEMS)
    ensures PlanTally(plan) == all && Placed(root, plan)
  {
    hide Placed;
    PlusRegroups(PlanTally(plan), NO_ITEMS, NO_ITEMS);
  }
}
