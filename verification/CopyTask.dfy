/** Running a copy plan and replacing an existing target by a staged copy,
    src-tauri/src/commands/wsl_files.rs. Any file operation may fail. */
module CopyTask {
  import opened Bytes
  import opened FileTree
  import opened CopyPlan

  // ----- Names beside a path -----

  function TemporaryName(name: string): string {
    "." + name + ".portiva.part"
  }

  /** The file that a copy is written to before it gets its name. */
  function Temporary(p: Path): Path
    requires p != []
  {
    Parent(p) + [TemporaryName(p[|p| - 1])]
  }

  /** No temporary name is taken, in the target directory or by a copied node. */
  predicate TemporariesFresh(root: Node, fs: Fs, target: Path, plan: Plan)
  {
    forall i :: 0 <= i < |plan.files| ==>
      && plan.files[i].target != []
      && Temporary(plan.files[i].target) !in fs
      && (target <= Temporary(plan.files[i].target) ==>
            CopiedAt(root, Temporary(plan.files[i].target)[|target|..]).None?)
  }

  predicate Fresh(fs: Fs, p: Path) {
    forall k :: k in fs ==> !(p <= k)
  }

  // ----- What copying may change -----

  /** Copying to `target` writes there, creates missing parents, and uses the temporary file
      beside it. */
  predicate MayChange(target: Path, p: Path) {
    target <= p || p < target || (target != [] && p == Temporary(target))
  }

  ghost predicate OnlyChanges(before: Fs, after: Fs, target: Path) {
    forall p: Path :: SameAt(before, after, p) || MayChange(target, p)
  }

  /** Nothing else is there than before, but for missing directories above the target. */
  ghost predicate SameBeside(before: Fs, after: Fs, target: Path) {
    forall p: Path :: !(target <= p) ==>
      SameAt(before, after, p) || (p < target && p !in before && p in after && after[p] == FsDir)
  }

  /** A file stands where a directory above the path must be. */
  predicate FileAbove(fs: Fs, path: Path) {
    exists n :: 0 <= n < |path| && path[..n] in fs && fs[path[..n]].FsFile?
  }

  /** Nothing lies below the target without the target. */
  predicate Rooted(fs: Fs, target: Path) {
    forall p :: p in fs && target <= p ==> target in fs
  }

  lemma ChangesNothing(fs: Fs, target: Path)
    ensures OnlyChanges(fs, fs, target) && SameBeside(fs, fs, target)
  {
  }

  lemma ChangesOne(before: Fs, fs: Fs, target: Path, p: Path, e: FsEntry)
    requires OnlyChanges(before, fs, target) && MayChange(target, p)
    ensures OnlyChanges(before, fs[p := e], target)
    ensures OnlyChanges(before, fs - {p}, target)
  {
  }

  /** What lies apart from the target, and is not the temporary file, is not touched. */
  lemma ChangesElsewhere(before: Fs, after: Fs, target: Path, c: Path)
    requires OnlyChanges(before, after, target) && Apart(c, target)
    requires target != [] ==> !(c <= Temporary(target))
    ensures At(after, c) == At(before, c)
  {
    forall q: Path
      ensures SameAt(before, after, c + q)
    {
      assert SameAt(before, after, c + q) || MayChange(target, c + q);
      ApartNever(c, target, c + q);
    }
  }

  // ----- What has been copied -----

  /** Everything at the target is a copied node of the source. */
  ghost predicate PartOfCopy(root: Node, fs: Fs, target: Path) {
    forall q: Path :: target + q in fs ==> CopiedAt(root, q) == Some(fs[target + q])
  }

  ghost predicate NoTemporaries(fs: Fs, plan: Plan) {
    forall i :: 0 <= i < |plan.files| ==> plan.files[i].target != [] && Temporary(plan.files[i].target) !in fs
  }

  predicate DirectoriesDone(fs: Fs, plan: Plan, n: nat) {
    n <= |plan.directories| && forall i :: 0 <= i < n ==> plan.directories[i] in fs
  }

  predicate FilesDone(fs: Fs, plan: Plan, n: nat) {
    n <= |plan.files| && forall i :: 0 <= i < n ==> plan.files[i].target in fs
  }

  /** The state between two items of the plan. */
  ghost predicate CopyInvariant(root: Node, before: Fs, fs: Fs, target: Path, plan: Plan, directories: nat, files: nat) {
    && SameBeside(before, fs, target) && Rooted(fs, target)
    && PartOfCopy(root, fs, target)
    && NoTemporaries(fs, plan)
    && DirectoriesDone(fs, plan, directories)
    && FilesDone(fs, plan, files)
  }

  lemma CopyStarts(root: Node, fs: Fs, target: Path, plan: Plan)
    requires Fresh(fs, target) && TemporariesFresh(root, fs, target, plan)
    ensures CopyInvariant(root, fs, fs, target, plan, 0, 0)
  {
  }

  lemma ParentIsDirectory(root: Node, a: Path, b: Path)
    requires a < b && Lookup(root, b).Some?
    ensures CopiedAt(root, a) == Some(FsDir)
  {
    assert b == a + b[|a|..];
    LookupConcat(root, a, b[|a|..]);
  }

  /** A directory on the way to, or at, a planned directory or the parent of a planned file. */
  predicate OnTheWay(root: Node, target: Path, p: Path) {
    p < target || (target <= p && CopiedAt(root, p[|target|..]) == Some(FsDir))
  }

  lemma WayToDirectory(root: Node, target: Path, d: Path, n: nat)
    requires target <= d && CopiedAt(root, d[|target|..]) == Some(FsDir) && n <= |d|
    ensures OnTheWay(root, target, d[..n])
  {
    var p := d[..n];
    if n < |target| {
      assert p < target;
    } else {
      var a, b := p[|target|..], d[|target|..];
      assert a == b[..n - |target|];
      if n < |d| {
        ParentIsDirectory(root, a, b);
      } else {
        assert p == d;
      }
    }
  }

  lemma WayToFile(root: Node, target: Path, source: Path, n: nat)
    requires CopiedAt(root, source).Some? && n < |target + source|
    ensures OnTheWay(root, target, (target + source)[..n])
  {
    var p := (target + source)[..n];
    if n < |target| {
      assert p < target;
    } else {
      assert p[|target|..] == source[..n - |target|];
      ParentIsDirectory(root, source[..n - |target|], source);
    }
  }

  lemma MakeDirectoryKeeps(root: Node, start: Fs, before: Fs, fs: Fs, target: Path, plan: Plan,
                           directories: nat, files: nat, p: Path)
    requires CopyInvariant(root, before, fs, target, plan, directories, files)
    requires TemporariesFresh(root, start, target, plan) && PlanSound(root, target, plan)
    requires OnTheWay(root, target, p) && p !in fs && (p != [] ==> Parent(p) in fs)
    ensures CopyInvariant(root, before, fs[p := FsDir], target, plan, directories, files)
  {
    StaysRooted(fs, target, p, FsDir);
  }

  lemma FileInTheWay(root: Node, before: Fs, fs: Fs, target: Path, plan: Plan, directories: nat, files: nat, p: Path)
    requires CopyInvariant(root, before, fs, target, plan, directories, files)
    requires OnTheWay(root, target, p) && p in fs && fs[p].FsFile?
    ensures FileAbove(before, target)
  {
    if target <= p {
      CopiedIsDirectory(root, fs, target, p);
    } else {
      assert SameAt(before, fs, p) && p == target[..|p|];
    }
  }

  lemma CopiedIsDirectory(root: Node, fs: Fs, target: Path, p: Path)
    requires PartOfCopy(root, fs, target) && p in fs
    requires target <= p && CopiedAt(root, p[|target|..]) == Some(FsDir)
    ensures fs[p] == FsDir
  {
    assert p == target + p[|target|..];
  }

  /** A planned file is a file of the source, and no directory is in its place. */
  lemma FileCanBeCopied(root: Node, before: Fs, fs: Fs, target: Path, plan: Plan, directories: nat, i: nat)
    requires CopyInvariant(root, before, fs, target, plan, directories, i)
    requires i < |plan.files| && PlanSound(root, target, plan)
    ensures Lookup(root, plan.files[i].source).Some? && Lookup(root, plan.files[i].source).value.FileNode?
    ensures plan.files[i].target in fs ==> fs[plan.files[i].target].FsFile?
  {
    assert plan.files[i].target == target + plan.files[i].source;
  }

  lemma StaysRooted(fs: Fs, target: Path, p: Path, e: FsEntry)
    requires Rooted(fs, target) && (p != [] ==> Parent(p) in fs)
    ensures Rooted(fs[p := e], target)
  {
    if p != target && target <= p {
      assert target <= Parent(p);
    }
  }

  lemma FinishFileKeeps(root: Node, start: Fs, before: Fs, fs: Fs, target: Path, plan: Plan,
                        directories: nat, i: nat, content: seq<byte>)
    requires CopyInvariant(root, before, fs, target, plan, directories, i) && i < |plan.files|
    requires TemporariesFresh(root, start, target, plan) && PlanSound(root, target, plan)
    requires CopiedAt(root, plan.files[i].source) == Some(FsFile(content))
    requires plan.files[i].target != [] && Parent(plan.files[i].target) in fs
    ensures CopyInvariant(root, before, fs[plan.files[i].target := FsFile(content)], target, plan, directories, i + 1)
  {
    var f := plan.files[i];
    assert target <= f.target && f.target[|target|..] == f.source;
    StaysRooted(fs, target, f.target, FsFile(content));
    forall q: Path | target + q == f.target
      ensures q == f.source
    {
      assert (target + q)[|target|..] == q;
    }
    forall k | 0 <= k < |plan.files|
      ensures Temporary(plan.files[k].target) != f.target
    {
    }
  }

  /** Once every item is done, the target is exactly the copy. */
  lemma CopyEnds(root: Node, before: Fs, fs: Fs, target: Path, plan: Plan)
    requires CopyInvariant(root, before, fs, target, plan, |plan.directories|, |plan.files|)
    requires CompletePlan(root, target, plan)
    ensures At(fs, target) == CopyOf(root)
  {
    forall q: Path
      ensures target + q in fs <==> CopiedAt(root, q).Some?
    {
      assert Planned(root, target, plan, q);
      if CopiedAt(root, q).Some? {
        if CopiedAt(root, q).value.FsDir? {
          var i :| 0 <= i < |plan.directories| && plan.directories[i] == target + q;
        } else {
          var i :| 0 <= i < |plan.files| && plan.files[i] == PlannedCopyFile(q, target + q);
        }
      }
    }
  }

  // ----- Histories -----

  /** Every state since `from` differs from `before` only where copying to `target` may write. */
  ghost predicate CopiedSince(history: seq<Fs>, from: nat, before: Fs, target: Path) {
    from <= |history| && forall i :: from <= i < |history| ==> OnlyChanges(before, history[i], target)
  }

  lemma CopiedOneMore(history: seq<Fs>, from: nat, before: Fs, target: Path, fs: Fs)
    requires CopiedSince(history, from, before, target) && OnlyChanges(before, fs, target)
    ensures CopiedSince(history + [fs], from, before, target)
  {
  }

  // ----- The machine -----

  datatype TaskError =
    | StagedBusy
    | ScanFailed
    | CopyFailed
    | PreserveFailed
    | OriginalRestored
    | RestoreFailed
    | BackupRemains

  datatype Resolution = Proceed | Skip | ReplaceExisting

  /** The target file system and the item counters of one transfer. */
  class CopyJob {
    const source: Node
    const root: Node
    /** No call to the file system fails. */
    const reliable: bool
    /** Somebody may cancel the transfer. */
    const cancellable: bool
    var fs: Fs
    var totalItems: nat
    var completedItems: nat
    var skippedItems: nat
    ghost var history: seq<Fs>
    /** How many deletions failed. */
    ghost var stuck: nat

    constructor (source: Node, fs: Fs, reliable: bool, cancellable: bool)
      ensures this.reliable == reliable && this.cancellable == cancellable
      ensures stuck == 0
      ensures this.source == source && root == Followed(source) && this.fs == fs && history == [fs]
      ensures totalItems == completedItems == skippedItems == 0
    {
      this.source, root, this.fs, history := source, Followed(source), fs, [fs];
      this.reliable, this.cancellable := reliable, cancellable;
      totalItems, completedItems, skippedItems, stuck := 0, 0, 0, 0;
    }

    /** One change of the file system, which may fail and then has no effect. */
    method Change(next: Fs) returns (ok: bool)
      modifies `fs, `history
      ensures ok ==> fs == next && history == old(history) + [next]
      ensures !ok ==> fs == old(fs) && history == old(history)
      ensures reliable ==> ok
    {
      ok :| reliable ==> ok;
      if ok {
        fs := next;
        history := history + [next];
      }
    }

    /** `wait_for_transfer_ready`: the transfer may have been cancelled. */
    method WaitForTransferReady() returns (ok: bool)
      ensures ok || cancellable
    {
      ok :| ok || cancellable;
    }

    /** Creates the missing directories on the way to `path`, and `path` itself. */
    method CreateDirAll(path: Path, ghost before: Fs, target: Path, ghost plan: Plan, ghost directories: nat,
                        ghost files: nat, ghost from: nat)
      returns (ok: bool)
      requires CopyInvariant(root, before, fs, target, plan, directories, files)
      requires TemporariesFresh(root, before, target, plan) && PlanSound(root, target, plan)
      requires forall n :: 0 <= n <= |path| ==> OnTheWay(root, target, path[..n])
      requires CopiedSince(history, from, before, target)
      modifies `fs, `history
      ensures CopyInvariant(root, before, fs, target, plan, directories, files)
      ensures CopiedSince(history, from, before, target)
      ensures ok ==> path in fs
      ensures !ok ==> !reliable || FileAbove(before, target)
      ensures old(history) <= history
    {
      hide CopyInvariant, TemporariesFresh, PlanSound, OnTheWay, CopiedSince;
      ok := true;
      for n := 0 to |path| + 1
        invariant CopyInvariant(root, before, fs, target, plan, directories, files)
        invariant CopiedSince(history, from, before, target)
        invariant n > 0 ==> path[..n - 1] in fs
        invariant old(history) <= history
      {
        var p := path[..n];
        if p in fs {
          if fs[p].FsFile? {
            FileInTheWay(root, before, fs, target, plan, directories, files, p);
            return false;
          }
        } else {
          assert n > 0 ==> Parent(p) == path[..n - 1];
          MakeDirectoryKeeps(root, before, before, fs, target, plan, directories, files, p);
          ghost var was := history;
          ok := Change(fs[p := FsDir]);
          if !ok {
            return;
          }
          InvariantChanges(root, before, fs, target, plan, directories, files);
          CopiedOneMore(was, from, before, target, fs);
        }
      }
      assert path[..|path|] == path;
    }

    /** Copies one file through its temporary file, chunk by chunk. */
    method CopyFileWithProgress(ghost i: nat, source: Path, fileTarget: Path, ghost before: Fs, target: Path,
                                ghost plan: Plan, ghost directories: nat, ghost from: nat)
      returns (ok: bool)
      requires CopyInvariant(root, before, fs, target, plan, directories, i)
      requires TemporariesFresh(root, before, target, plan) && PlanSound(root, target, plan)
      requires i < |plan.files| && plan.files[i] == PlannedCopyFile(source, fileTarget)
      requires CopiedSince(history, from, before, target)
      requires fileTarget != [] && Parent(fileTarget) in fs
      modifies `fs, `history, `stuck
      ensures ok ==> CopyInvariant(root, before, fs, target, plan, directories, i + 1) && stuck == old(stuck)
      ensures stuck == old(stuck) ==> SameBeside(before, fs, target) && Rooted(fs, target)
      ensures stuck >= old(stuck)
      ensures !ok ==> !reliable || cancellable
      ensures OnlyChanges(before, fs, target)
      ensures CopiedSince(history, from, before, target) && old(history) <= history
    {
      FileCanBeCopied(root, before, fs, target, plan, directories, i);
      hide CopyInvariant, TemporariesFresh, CopiedSince, OnlyChanges, Temporary, SameBeside, Rooted, Lookup, MayChange,
        Parent;
      InvariantChanges(root, before, fs, target, plan, directories, i);
      TemporaryMayChange(root, before, fs, target, plan, directories, i);
      var node := Lookup(root, source);
      var canOpen: bool :| reliable ==> canOpen;
      if node.None? || !node.value.FileNode? || !canOpen {
        return false;
      }
      var content := node.value.content;
      var temporary := Temporary(fileTarget);
      ghost var start := fs;
      ok := WriteTemporary(temporary, content, before, target, from);
      if !ok {
        return;
      }
      assert start[temporary := FsFile(content)] - {temporary} == start;
      FinishFileKeeps(root, before, before, start, target, plan, directories, i, content);
      InvariantChanges(root, before, start[fileTarget := FsFile(content)], target, plan, directories, i + 1);
      assert fileTarget in fs ==> fs[fileTarget].FsFile?;
      ghost var was := history;
      ok := Change((fs - {temporary})[fileTarget := FsFile(content)]);
      if !ok {
        RemoveTemporary(temporary, start, before, target, from);
        return;
      }
      CopiedOneMore(was, from, before, target, fs);
    }

    /** Writes a content to a temporary file, chunk by chunk. If it fails, nothing stays of the file
        unless that cannot be deleted. */
    method WriteTemporary(temporary: Path, content: seq<byte>, ghost before: Fs, target: Path, ghost from: nat)
      returns (ok: bool)
      requires OnlyChanges(before, fs, target) && MayChange(target, temporary)
      requires CopiedSince(history, from, before, target) && temporary !in fs
      modifies `fs, `history, `stuck
      ensures OnlyChanges(before, fs, target) && CopiedSince(history, from, before, target)
      ensures old(history) <= history && stuck >= old(stuck)
      ensures ok ==> fs == old(fs)[temporary := FsFile(content)] && stuck == old(stuck)
      ensures !ok && stuck == old(stuck) ==> fs == old(fs)
      ensures !ok ==> !reliable || cancellable
    {
      hide OnlyChanges, CopiedSince, MayChange;
      ghost var start := fs;
      ok := Create(temporary, [], before, target, from);
      if !ok {
        return;
      }
      var done := 0;
      while done < |content|
        invariant done <= |content|
        invariant temporary in fs && fs == start[temporary := FsFile(content[..done])]
        invariant OnlyChanges(before, fs, target) && CopiedSince(history, from, before, target)
        invariant old(history) <= history && stuck == old(stuck)
      {
        var ready := WaitForTransferReady();
        var readFails: bool :| reliable ==> !readFails;
        if !ready || readFails {
          RemoveTemporary(temporary, start, before, target, from);
          return false;
        }
        var count :| 1 <= count <= |content| - done;
        ok := Create(temporary, content[..done + count], before, target, from);
        if !ok {
          RemoveTemporary(temporary, start, before, target, from);
          return;
        }
        done := done + count;
      }
      assert content[..|content|] == content;
    }

    /** Writes the temporary file anew. */
    method Create(temporary: Path, content: seq<byte>, ghost before: Fs, target: Path, ghost from: nat)
      returns (ok: bool)
      requires OnlyChanges(before, fs, target) && MayChange(target, temporary)
      requires CopiedSince(history, from, before, target)
      modifies `fs, `history
      ensures OnlyChanges(before, fs, target) && CopiedSince(history, from, before, target)
      ensures old(history) <= history
      ensures fs == if ok then old(fs)[temporary := FsFile(content)] else old(fs)
      ensures reliable ==> ok
    {
      hide OnlyChanges, CopiedSince, MayChange;
      ChangesOne(before, fs, target, temporary, FsFile(content));
      ok := Change(fs[temporary := FsFile(content)]);
      if ok {
        CopiedOneMore(old(history), from, before, target, fs);
      }
    }

    /** Removes the temporary file; only a failure leaves it behind. */
    method RemoveTemporary(temporary: Path, ghost start: Fs, ghost before: Fs, target: Path, ghost from: nat)
      requires temporary !in start && temporary in fs && fs == start[temporary := fs[temporary]]
      requires OnlyChanges(before, fs, target) && MayChange(target, temporary)
      requires CopiedSince(history, from, before, target)
      modifies `fs, `history, `stuck
      ensures OnlyChanges(before, fs, target) && CopiedSince(history, from, before, target)
      ensures old(history) <= history
      ensures (stuck == old(stuck) && fs == start) || (stuck == old(stuck) + 1 && fs == old(fs))
    {
      hide OnlyChanges, CopiedSince, MayChange;
      ChangesOne(before, fs, target, temporary, FsDir);
      assert fs - {temporary} == start;
      var ok := Change(fs - {temporary});
      if ok {
        CopiedOneMore(old(history), from, before, target, fs);
      } else {
        stuck := stuck + 1;
      }
    }

    /** Runs a plan on a fresh target. If it succeeds the target is the source without links
        and special files, and every planned item is counted as completed. */
    method ExecuteCopyPlan(target: Path, plan: Plan, ghost from: nat) returns (ok: bool)
      requires CompletePlan(root, target, plan)
      requires target != [] && Fresh(fs, target) && TemporariesFresh(root, fs, target, plan)
      requires from == |history|
      modifies `fs, `history, `stuck, `completedItems
      ensures ok ==> At(fs, target) == CopyOf(root) && stuck == old(stuck)
      ensures stuck == old(stuck) ==> SameBeside(old(fs), fs, target) && Rooted(fs, target)
      ensures stuck >= old(stuck)
      ensures ok ==> completedItems == old(completedItems) + |plan.directories| + |plan.files|
      ensures !ok ==> !reliable || cancellable || FileAbove(old(fs), target)
      ensures OnlyChanges(old(fs), fs, target)
      ensures CopiedSince(history, from, old(fs), target) && old(history) <= history
    {
      hide CopyInvariant, TemporariesFresh, CopiedSince, OnlyChanges, OnTheWay, Planned, ParentsFirst, CopyOf,
        SameBeside, Rooted;
      ghost var before := fs;
      CopyStarts(root, fs, target, plan);
      ChangesNothing(fs, target);
      InvariantChanges(root, before, fs, target, plan, 0, 0);
      NothingSince(history, before, target);
      for i := 0 to |plan.directories|
        invariant CopyInvariant(root, before, fs, target, plan, i, 0)
        invariant CopiedSince(history, from, before, target) && OnlyChanges(before, fs, target)
        invariant SameBeside(before, fs, target) && Rooted(fs, target)
        invariant old(history) <= history
        invariant completedItems == old(completedItems) + i && stuck == old(stuck)
      {
        var ready := WaitForTransferReady();
        if !ready {
          return false;
        }
        forall n | 0 <= n <= |plan.directories[i]|
          ensures OnTheWay(root, target, plan.directories[i][..n])
        {
          WayToDirectory(root, target, plan.directories[i], n);
        }
        ok := CreateDirAll(plan.directories[i], before, target, plan, i, 0, from);
        InvariantChanges(root, before, fs, target, plan, i, 0);
        if !ok {
          return;
        }
        OneMoreDirectory(root, before, fs, target, plan, i, 0);
        completedItems := completedItems + 1;
      }
      for i := 0 to |plan.files|
        invariant CopyInvariant(root, before, fs, target, plan, |plan.directories|, i)
        invariant CopiedSince(history, from, before, target) && OnlyChanges(before, fs, target)
        invariant SameBeside(before, fs, target) && Rooted(fs, target)
        invariant old(history) <= history
        invariant completedItems == old(completedItems) + |plan.directories| + i && stuck == old(stuck)
      {
        var ready := WaitForTransferReady();
        if !ready {
          return false;
        }
        var f := plan.files[i];
        assert f.target == target + f.source && f.target != [];
        forall n | 0 <= n <= |Parent(f.target)|
          ensures OnTheWay(root, target, Parent(f.target)[..n])
        {
          WayToFile(root, target, f.source, n);
          assert Parent(f.target)[..n] == f.target[..n];
        }
        ok := CreateDirAll(Parent(f.target), before, target, plan, |plan.directories|, i, from);
        InvariantChanges(root, before, fs, target, plan, |plan.directories|, i);
        if !ok {
          return;
        }
        ok := CopyFileWithProgress(i, f.source, f.target, before, target, plan, |plan.directories|, from);
        if !ok {
          return;
        }
        completedItems := completedItems + 1;
      }
      CopyEnds(root, before, fs, target, plan);
      ok := true;
    }

    /** Removes a tree, one path at a time and in any order. A failure leaves what is left. */
    method RemovePath(path: Path) returns (ok: bool, ghost lost: set<Path>)
      modifies `fs, `history, `stuck
      ensures stuck == old(stuck) + if ok then 0 else 1
      ensures reliable ==> ok
      ensures (forall p :: p in lost ==> path <= p) && fs == old(fs) - lost
      ensures old(history) <= history && LessSince(history, |old(history)|, old(fs), path)
      ensures ok ==> fs == old(fs) - Below(old(fs), path)
    {
      hide LessSince;
      ghost var before := fs;
      NothingRemoved(history, fs, path);
      lost := {};
      var left := Below(fs, path);
      while left != {}
        invariant left == Below(before, path) - lost && (forall p :: p in lost ==> path <= p)
        invariant fs == before - lost && stuck == old(stuck)
        invariant old(history) <= history && LessSince(history, |old(history)|, before, path)
        decreases left
      {
        var p :| p in left;
        ghost var h := history;
        ok := Change(fs - {p});
        if !ok {
          stuck := stuck + 1;
          return;
        }
        assert before - lost - {p} == before - (lost + {p});
        left, lost := left - {p}, lost + {p};
        OneMoreRemoved(h, |old(history)|, before, path, lost);
      }
      assert before - lost == before - Below(before, path);
      ok := true;
    }

    /** Removes a tree beside the target. The target, and any tree apart from it, stays. */
    method RemoveBeside(path: Path, target: Path, backup: Path, ghost from: nat, ghost before: Tree, ghost after: Tree)
      returns (ok: bool)
      requires Apart(target, path)
      requires SafeSince(history, from, target, backup, before, after)
      requires At(fs, target) == after || At(fs, target) == before || (Apart(backup, path) && At(fs, backup) == before)
      modifies `fs, `history, `stuck
      ensures stuck == old(stuck) + if ok then 0 else 1
      ensures reliable ==> ok
      ensures At(fs, target) == old(At(fs, target))
      ensures Apart(backup, path) ==> At(fs, backup) == old(At(fs, backup))
      ensures SafeSince(history, from, target, backup, before, after)
      ensures ok ==> fs == old(fs) - Below(old(fs), path)
    {
      hide At, SafeSince, LessSince;
      ghost var lost;
      ok, lost := RemovePath(path);
      DroppingKeeps(old(fs), lost, path, target);
      if Apart(backup, path) {
        DroppingKeeps(old(fs), lost, path, backup);
      }
      RemovingIsSafe(old(history), history, from, old(fs), path, target, backup, before, after);
    }

    /** Moves the target aside, moves the staged copy in its place, and drops the old target;
        if the staged copy cannot be moved, moves the old target back. */
    method ReplaceTargetWithStaged(staged: Path, target: Path, backup: Path, ghost from: nat)
      returns (r: Result<(), TaskError>)
      requires Apart(staged, target) && Apart(staged, backup) && Apart(target, backup)
      requires SafeSince(history, from, target, backup, At(fs, target), At(fs, staged))
      requires Fresh(fs, backup)
      modifies `fs, `history, `stuck
      ensures stuck == old(stuck) + if r == Err(BackupRemains) then 1 else 0
      ensures reliable ==> r.Ok?
      ensures r.Ok? ==> SameOutside(old(fs) - Below(old(fs), staged), fs, target)
      ensures r.Err? && (r.error == PreserveFailed || r.error == OriginalRestored) ==> fs == old(fs)
      ensures r.Err? && r.error == RestoreFailed ==> fs == Renamed(old(fs), target, backup)
      ensures SafeSince(history, from, target, backup, old(At(fs, target)), old(At(fs, staged)))
      ensures r.Ok? ==> At(fs, target) == old(At(fs, staged))
      ensures r.Err? ==>
                match r.error
                case PreserveFailed => At(fs, target) == old(At(fs, target))
                case OriginalRestored => At(fs, target) == old(At(fs, target))
                case RestoreFailed => At(fs, backup) == old(At(fs, target)) && At(fs, target) == imap[]
                case BackupRemains => At(fs, target) == old(At(fs, staged))
                case _ => false
    {
      hide At, SafeSince, Renamed, Fresh, SameOutside, Below;
      ghost var before, after := At(fs, target), At(fs, staged);
      ghost var h := history;
      RenamedMoves(fs, target, backup);
      RenamedKeeps(fs, target, backup, staged);
      var ok := Change(Renamed(fs, target, backup));
      if !ok {
        return Err(PreserveFailed);
      }
      SafeOneMore(h, from, target, backup, before, after, fs);
      h := history;
      RenamedMoves(fs, staged, target);
      RenamedKeeps(fs, staged, target, backup);
      ok := Change(Renamed(fs, staged, target));
      if !ok {
        RenamedMoves(fs, backup, target);
        ok := Change(Renamed(fs, backup, target));
        if !ok {
          return Err(RestoreFailed);
        }
        SafeOneMore(h, from, target, backup, before, after, fs);
        RenamedBack(old(fs), target, backup);
        return Err(OriginalRestored);
      }
      SafeOneMore(h, from, target, backup, before, after, fs);
      ok := RemoveBeside(backup, target, backup, from, before, after);
      Exchanged(old(fs), staged, target, backup);
      r := if ok then Ok(()) else Err(BackupRemains);
    }

    /** Replaces the target, and drops the staged copy if that fails. */
    method ReplaceOrDiscard(staged: Path, target: Path, backup: Path, ghost from: nat) returns (r: Result<(), TaskError>)
      requires Apart(staged, target) && Apart(staged, backup) && Apart(target, backup)
      requires SafeSince(history, from, target, backup, At(fs, target), At(fs, staged))
      requires Fresh(fs, backup) && Rooted(fs, staged)
      modifies `fs, `history, `stuck
      ensures SafeSince(history, from, target, backup, old(At(fs, target)), old(At(fs, staged)))
      ensures r.Ok? ==> At(fs, target) == old(At(fs, staged)) && SameOutside(old(fs) - Below(old(fs), staged), fs, target)
      ensures r.Err? ==>
                match r.error
                case RestoreFailed => At(fs, backup) == old(At(fs, target))
                case BackupRemains => At(fs, target) == old(At(fs, staged))
                case _ => At(fs, target) == old(At(fs, target))
      ensures stuck >= old(stuck)
      ensures reliable ==> r.Ok?
      ensures r.Err? ==> r.error != StagedBusy && (r.error == BackupRemains ==> stuck > old(stuck))
      ensures r.Err? && stuck == old(stuck) ==>
                var kept := old(fs) - Below(old(fs), staged);
                fs == if r.error == RestoreFailed then Renamed(kept, target, backup) else kept
    {
      hide At, SafeSince, Fresh, Rooted, SameOutside, Below, Renamed;
      ghost var copied, before, after := fs, At(fs, target), At(fs, staged);
      RootedBelow(copied, staged);
      RenamedWithout(copied, target, backup, staged);
      r := ReplaceTargetWithStaged(staged, target, backup, from);
      if r.Err? && staged in fs {
        var _ := RemoveBeside(staged, target, backup, from, before, after);
      }
    }

    /** Scans the source, announces what there is, and copies it. */
    method ScanAndCopy(copyTarget: Path) returns (scanned: bool, ok: bool)
      requires root == Followed(source) && WellNamed(source) && copyTarget != []
      requires totalItems == 0 && completedItems == 0 && skippedItems == 0
      requires Fresh(fs, copyTarget) && TemporaryNamesFree(root, fs, copyTarget)
      modifies this
      ensures !scanned ==> !ok && fs == old(fs) && history == old(history)
      ensures !scanned ==> cancellable || !IsSource(source) || Count(root).broken > 0
      ensures scanned && !ok ==> !reliable || cancellable || FileAbove(old(fs), copyTarget)
      ensures ok ==>
                && At(fs, copyTarget) == CopyOf(root)
                && completedItems == Count(root).directories + Count(root).files
                && skippedItems == Count(root).skipped
                && totalItems == Count(root).directories + Count(root).files + Count(root).skipped
      ensures ok ==> stuck == old(stuck)
      ensures stuck == old(stuck) ==> SameBeside(old(fs), fs, copyTarget) && Rooted(fs, copyTarget)
      ensures stuck >= old(stuck)
      ensures OnlyChanges(old(fs), fs, copyTarget)
      ensures CopiedSince(history, |old(history)|, old(fs), copyTarget) && old(history) <= history
    {
      FreshIsRooted(fs, copyTarget);
      hide SameBeside, Rooted;
      hide At, CopyOf, CopiedSince, OnlyChanges, CompletePlan, TemporariesFresh, TemporaryNamesFree, Fresh, WellNamed, Count,
        CountEntries;
      ChangesNothing(fs, copyTarget);
      NothingSince(history, fs, copyTarget);
      var found := ScanCopyPlan(source, copyTarget, cancellable);
      if found.Err? {
        assert found.error == Cancelled || found.error == Unreadable;
        return false, false;
      }
      var plan := found.value;
      TemporariesAreFree(root, fs, copyTarget, plan);
      var items := |plan.directories| + |plan.files| + plan.skippedItems;
      totalItems := if items < 1 then 1 else items;
      AtLeastOneItem(root, copyTarget, plan);
      PlanIsCounted(root, copyTarget, plan);
      skippedItems := skippedItems + plan.skippedItems;
      scanned := true;
      ok := ExecuteCopyPlan(copyTarget, plan, |history|);
    }

    /** One whole transfer task. `staged` and `backup` are names beside the target. */
    method CopyWslTask(resolution: Resolution, target: Path, staged: Path, backup: Path)
      returns (r: Result<(), TaskError>)
      requires root == Followed(source) && WellNamed(source)
      requires totalItems == 0 && completedItems == 0 && skippedItems == 0
      requires NamesGood(target, staged, backup) && Closed(fs)
      requires resolution == Proceed ==> target !in fs && TemporaryNamesFree(root, fs, target)
      requires resolution == ReplaceExisting ==> target in fs && backup !in fs && TemporaryNamesFree(root, fs, staged)
      modifies this
      ensures r.Ok? && resolution == Skip ==> totalItems == 1 && completedItems == 0 && skippedItems == 1
      ensures r.Ok? && resolution != Skip ==>
                && completedItems == Count(root).directories + Count(root).files
                && skippedItems == Count(root).skipped
                && totalItems == Count(root).directories + Count(root).files + Count(root).skipped
      ensures r.Ok? && resolution == Skip ==> fs == old(fs)
      ensures r.Ok? && resolution != Skip ==> At(fs, target) == CopyOf(root)
      ensures resolution == ReplaceExisting ==>
                SafeSince(history, |old(history)|, target, backup, old(At(fs, target)), CopyOf(root))
      ensures r.Err? && resolution == ReplaceExisting ==>
                match r.error
                case RestoreFailed => At(fs, backup) == old(At(fs, target))
                case BackupRemains => At(fs, target) == CopyOf(root)
                case _ => At(fs, target) == old(At(fs, target))
      ensures r.Ok? && resolution == Proceed ==> SameBeside(old(fs), fs, target)
      ensures r.Ok? && resolution == ReplaceExisting ==> SameOutside(old(fs) - Below(old(fs), staged), fs, target)
      ensures r.Err? && stuck == old(stuck) && resolution == Proceed ==>
                SameBeside(old(fs), fs, target) && At(fs, target) == imap[]
      ensures r.Err? && stuck == old(stuck) && resolution == ReplaceExisting ==>
                var kept := old(fs) - Below(old(fs), staged);
                fs == if r.error == RestoreFailed then Renamed(kept, target, backup) else kept
      ensures r.Err? && (r.error == StagedBusy || r.error == BackupRemains) ==> stuck > old(stuck)
      ensures r.Err? ==> || !reliable || cancellable || !IsSource(source) || Count(root).broken > 0
                         || FileAbove(old(fs), if resolution == ReplaceExisting then staged else target)
    {
      hide At, CopyOf, SafeSince, CopiedSince, OnlyChanges, CompletePlan, TemporariesFresh, TemporaryNamesFree, Fresh,
        Closed, Below, WellNamed, Count, CountEntries, SameBeside, SameOutside, Rooted, Renamed, Parent, FileAbove;
      ghost var before, after := At(fs, target), CopyOf(root);
      ghost var from := |history|;
      NothingUnsafe(history, target, backup, before, after);
      if resolution == Skip {
        totalItems, skippedItems := 1, 1;
        return Ok(());
      }
      var copyTarget := if resolution == ReplaceExisting then staged else target;
      if resolution == ReplaceExisting && staged in fs {
        TemporaryNamesStayFree(root, fs, staged);
        var removed := RemoveBeside(staged, target, backup, from, before, after);
        if !removed {
          return Err(StagedBusy);
        }
        RemovedIsFresh(old(fs), staged);
      } else {
        AbsentIsFresh(fs, copyTarget);
        NothingToRemove(fs, copyTarget);
      }
      ghost var start, h := fs, history;
      FreshIsRooted(start, copyTarget);
      var targetWasCreated := copyTarget !in fs;
      var scanned, ok := ScanAndCopy(copyTarget);
      if !scanned {
        return Err(ScanFailed);
      }
      if resolution == ReplaceExisting {
        ChangesElsewhere(start, fs, staged, target);
        CopyingIsSafe(h, history, from, start, staged, target, backup, before, after);
        NoNewParents(old(fs), start, fs, target, staged, backup);
      }
      CleanedUp(start, fs, copyTarget);
      if !ok {
        if targetWasCreated && copyTarget in fs {
          if resolution == ReplaceExisting {
            var _ := RemoveBeside(staged, target, backup, from, before, after);
          } else {
            var _, _ := RemovePath(copyTarget);
          }
        }
        return Err(CopyFailed);
      }
      if resolution == ReplaceExisting {
        r := ReplaceOrDiscard(staged, target, backup, from);
        return;
      }
      r := Ok(());
    }
  }

  // ----- Removing step by step -----

  predicate IsLess(fs: Fs, before: Fs, path: Path) {
    && (forall p :: p in fs ==> p in before && fs[p] == before[p])
    && (forall p :: p in before && !(path <= p) ==> p in fs)
  }

  /** Every state since `from` lacks some of the tree at `path` and nothing else. */
  ghost predicate LessSince(history: seq<Fs>, from: nat, before: Fs, path: Path) {
    from <= |history| && forall i :: from <= i < |history| ==> IsLess(history[i], before, path)
  }

  lemma NothingRemoved(history: seq<Fs>, fs: Fs, path: Path)
    ensures LessSince(history, |history|, fs, path)
  {
  }

  lemma OneMoreRemoved(history: seq<Fs>, from: nat, before: Fs, path: Path, lost: set<Path>)
    requires LessSince(history, from, before, path) && forall p :: p in lost ==> path <= p
    ensures LessSince(history + [before - lost], from, before, path)
  {
    assert IsLess(before - lost, before, path);
  }

  lemma RemovingIsSafe(h: seq<Fs>, history: seq<Fs>, from: nat, fs: Fs, path: Path, target: Path, backup: Path,
                       before: Tree, after: Tree)
    requires h <= history && SafeSince(h, from, target, backup, before, after)
    requires LessSince(history, |h|, fs, path) && Apart(target, path)
    requires At(fs, target) == after || At(fs, target) == before || (Apart(backup, path) && At(fs, backup) == before)
    ensures SafeSince(history, from, target, backup, before, after)
  {
    hide At;
    forall i | from <= i < |history|
      ensures Safe(history[i], target, backup, before, after)
    {
      if i < |h| {
        assert history[i] == h[i];
      } else {
        assert IsLess(history[i], fs, path);
        var lost := fs.Keys - history[i].Keys;
        assert history[i] == fs - lost;
        DroppingKeeps(fs, lost, path, target);
        if Apart(backup, path) {
          DroppingKeeps(fs, lost, path, backup);
        }
      }
    }
  }

  // ----- What is left -----

  /** Moved away and back. */
  lemma RenamedBack(fs: Fs, a: Path, b: Path)
    requires Apart(a, b) && Fresh(fs, b)
    ensures Renamed(Renamed(fs, a, b), b, a) == fs
  {
    hide Renamed, At;
    var there := Renamed(fs, a, b);
    RenamedElsewhere(fs, a, b);
    RenamedElsewhere(there, b, a);
    RenamedMoves(fs, a, b);
    RenamedMoves(there, b, a);
    var back := Renamed(there, b, a);
    forall k: Path | !(a <= k)
      ensures SameAt(back, fs, k)
    {
      if !(b <= k) {
        assert SameAt(fs, there, k) && SameAt(there, back, k);
      }
    }
    SameEverywhere(back, fs, a);
  }

  /** The three steps of a replacement leave nothing of the staged copy and of the backup. */
  lemma Exchanged(fs: Fs, staged: Path, target: Path, backup: Path)
    requires Apart(staged, target) && Apart(staged, backup) && Apart(target, backup) && Fresh(fs, backup)
    ensures var moved := Renamed(Renamed(fs, target, backup), staged, target);
            SameOutside(fs - Below(fs, staged), moved - Below(moved, backup), target)
  {
    hide Renamed;
    var aside := Renamed(fs, target, backup);
    RenamedElsewhere(fs, target, backup);
    RenamedElsewhere(aside, staged, target);
    var moved := Renamed(aside, staged, target);
    forall k: Path | !(target <= k)
      ensures SameAt(fs - Below(fs, staged), moved - Below(moved, backup), k)
    {
      if !(backup <= k) {
        assert SameAt(fs, aside, k);
        if !(staged <= k) {
          assert SameAt(aside, moved, k);
        }
      }
    }
  }

  lemma FreshIsRooted(fs: Fs, p: Path)
    requires Fresh(fs, p)
    ensures SameBeside(fs, fs, p) && Rooted(fs, p) && At(fs, p) == imap[]
  {
  }

  lemma NothingToRemove(fs: Fs, p: Path)
    requires Fresh(fs, p)
    ensures fs - Below(fs, p) == fs
  {
  }

  /** A staged copy needs no new parent, since it is beside the target, and does not touch the backup. */
  lemma NoNewParents(before: Fs, start: Fs, after: Fs, target: Path, staged: Path, backup: Path)
    requires NamesGood(target, staged, backup) && Closed(before) && target in before && backup !in before
    requires start == before - Below(before, staged)
    ensures SameBeside(start, after, staged) ==> SameOutside(start, after, staged) && Fresh(after, backup)
  {
    hide SameAt;
    AbsentIsFresh(before, backup);
    forall p: Path | p < staged
      ensures p in start
    {
      PrefixIsTake(p, target);
    }
    if SameBeside(start, after, staged) {
      forall k | k in after
        ensures !(backup <= k)
      {
        if backup <= k {
          ApartNever(backup, staged, k);
          assert SameAt(start, after, k);
          SameIn(start, after, k);
        }
      }
    }
  }

  lemma SameIn(a: Fs, b: Fs, k: Path)
    requires SameAt(a, b, k)
    ensures k in a <==> k in b
  {
  }

  lemma RootedBelow(fs: Fs, p: Path)
    ensures Rooted(fs, p) && p !in fs ==> fs - Below(fs, p) == fs
  {
  }

  /** Removing the copy gives back what was there before it. */
  lemma CleanedUp(start: Fs, fs: Fs, p: Path)
    requires Fresh(start, p)
    ensures SameOutside(start, fs, p) ==> fs - Below(fs, p) == start
    ensures SameBeside(start, fs, p) ==> SameBeside(start, fs - Below(fs, p), p)
    ensures At(fs - Below(fs, p), p) == imap[]
    ensures Rooted(fs, p) && p !in fs ==> fs - Below(fs, p) == fs
  {
    RootedBelow(fs, p);
    hide At;
    RemovedIsFresh(fs, p);
    FreshIsRooted(fs - Below(fs, p), p);
    FreshIsRooted(start, p);
    if SameOutside(start, fs, p) {
      forall k: Path | !(p <= k)
        ensures SameAt(start, fs - Below(fs, p), k)
      {
        assert SameAt(start, fs, k);
      }
      SameEverywhere(start, fs - Below(fs, p), p);
    }
  }

  /** The staged copy stays what it is while the target is moved aside. */
  lemma RenamedWithout(fs: Fs, target: Path, backup: Path, staged: Path)
    requires Apart(staged, target) && Apart(staged, backup) && Apart(target, backup)
    ensures var moved := Renamed(fs, target, backup);
            && moved - Below(moved, staged) == Renamed(fs - Below(fs, staged), target, backup)
            && (staged in moved <==> staged in fs)
            && (Rooted(fs, staged) && staged !in fs ==> moved - Below(moved, staged) == moved)
  {
    hide Renamed, At;
    var moved, kept := Renamed(fs, target, backup), fs - Below(fs, staged);
    var moved', left := Renamed(kept, target, backup), moved - Below(moved, staged);
    RenamedMoves(fs, target, backup);
    RenamedMoves(kept, target, backup);
    DroppingKeeps(fs, Below(fs, staged), staged, target);
    DroppingKeeps(moved, Below(moved, staged), staged, backup);
    RenamedElsewhere(fs, target, backup);
    RenamedElsewhere(kept, target, backup);
    assert SameAt(fs, moved, staged);
    forall k: Path | !(backup <= k)
      ensures SameAt(left, moved', k)
    {
      if !(target <= k) {
        assert SameAt(fs, moved, k) && SameAt(kept, moved', k);
      }
    }
    SameEverywhere(left, moved', backup);
    forall k | k in moved
      ensures staged <= k ==> k in fs
    {
      if staged <= k {
        ApartNever(staged, target, k);
        ApartNever(staged, backup, k);
        assert SameAt(fs, moved, k);
      }
    }
  }

  // ----- Names -----

  predicate NamesGood(target: Path, staged: Path, backup: Path) {
    && target != [] && staged != [] && Parent(staged) == Parent(target)
    && Apart(staged, target) && Apart(staged, backup) && Apart(target, backup)
    && !(target <= Temporary(staged))
  }

  /** Whatever exists lies in directories that exist. */
  predicate Closed(fs: Fs) {
    forall k, n :: k in fs && 0 <= n <= |k| ==> k[..n] in fs
  }

  /** No file of the source would use a temporary name that is taken. */
  ghost predicate TemporaryNamesFree(root: Node, fs: Fs, target: Path) {
    forall q: Path :: target + q != [] && CopiedAt(root, q).Some? && CopiedAt(root, q).value.FsFile? ==>
      && Temporary(target + q) !in fs
      && (target <= Temporary(target + q) ==> CopiedAt(root, Temporary(target + q)[|target|..]).None?)
  }

  lemma TemporariesAreFree(root: Node, fs: Fs, target: Path, plan: Plan)
    requires CompletePlan(root, target, plan) && TemporaryNamesFree(root, fs, target) && target != []
    ensures TemporariesFresh(root, fs, target, plan)
  {
  }

  lemma TemporaryNamesStayFree(root: Node, fs: Fs, staged: Path)
    requires TemporaryNamesFree(root, fs, staged)
    ensures TemporaryNamesFree(root, fs - Below(fs, staged), staged)
  {
  }

  lemma RemovedIsFresh(fs: Fs, p: Path)
    ensures Fresh(fs - Below(fs, p), p)
    ensures FileAbove(fs - Below(fs, p), p) ==> FileAbove(fs, p)
  {
  }

  lemma PrefixIsTake(p: Path, k: Path)
    requires p <= k
    ensures k[..|p|] == p
  {
  }

  lemma AbsentIsFresh(fs: Fs, p: Path)
    requires Closed(fs) && p !in fs
    ensures Fresh(fs, p)
  {
    forall k | k in fs
      ensures !(p <= k)
    {
      if p <= k {
        PrefixIsTake(p, k);
      }
    }
  }

  lemma PlanIsCounted(root: Node, target: Path, plan: Plan)
    requires CompletePlan(root, target, plan)
    ensures |plan.directories| == Count(root).directories && |plan.files| == Count(root).files
    ensures plan.skippedItems == Count(root).skipped
  {
  }

  /** `max(1)` never applies: a plan has at least one item. */
  lemma AtLeastOneItem(root: Node, target: Path, plan: Plan)
    requires CompletePlan(root, target, plan) && !root.Broken?
    ensures |plan.directories| + |plan.files| + plan.skippedItems >= 1
  {
  }

  // ----- Never losing the tree that is replaced -----

  /** The whole old tree is at the target or at its backup, or the whole new one is there. */
  ghost predicate Safe(fs: Fs, target: Path, backup: Path, before: Tree, after: Tree) {
    At(fs, target) == before || At(fs, backup) == before || At(fs, target) == after
  }

  ghost predicate SafeSince(history: seq<Fs>, from: nat, target: Path, backup: Path, before: Tree, after: Tree) {
    from <= |history| && forall i :: from <= i < |history| ==> Safe(history[i], target, backup, before, after)
  }

  lemma SafeOneMore(history: seq<Fs>, from: nat, target: Path, backup: Path, before: Tree, after: Tree, fs: Fs)
    requires SafeSince(history, from, target, backup, before, after) && Safe(fs, target, backup, before, after)
    ensures SafeSince(history + [fs], from, target, backup, before, after)
  {
  }

  lemma InvariantChanges(root: Node, before: Fs, fs: Fs, target: Path, plan: Plan, directories: nat, files: nat)
    requires CopyInvariant(root, before, fs, target, plan, directories, files)
    ensures OnlyChanges(before, fs, target) && SameBeside(before, fs, target) && Rooted(fs, target)
  {
  }

  lemma NothingSince(history: seq<Fs>, before: Fs, target: Path)
    ensures CopiedSince(history, |history|, before, target)
  {
  }

  lemma TemporaryMayChange(root: Node, before: Fs, fs: Fs, target: Path, plan: Plan, directories: nat, i: nat)
    requires CopyInvariant(root, before, fs, target, plan, directories, i) && i < |plan.files|
    requires PlanSound(root, target, plan)
    ensures plan.files[i].target != []
    ensures MayChange(target, Temporary(plan.files[i].target))
    ensures Temporary(plan.files[i].target) !in fs
  {
  }

  lemma OneMoreDirectory(root: Node, before: Fs, fs: Fs, target: Path, plan: Plan, i: nat, files: nat)
    requires CopyInvariant(root, before, fs, target, plan, i, files)
    requires i < |plan.directories| && plan.directories[i] in fs
    ensures CopyInvariant(root, before, fs, target, plan, i + 1, files)
  {
  }

  lemma NothingUnsafe(history: seq<Fs>, target: Path, backup: Path, before: Tree, after: Tree)
    ensures SafeSince(history, |history|, target, backup, before, after)
  {
  }

  /** Copying to the staged path leaves the target alone at every moment. */
  lemma CopyingIsSafe(h: seq<Fs>, history: seq<Fs>, from: nat, start: Fs, staged: Path, target: Path, backup: Path,
                      before: Tree, after: Tree)
    requires h <= history && SafeSince(h, from, target, backup, before, after)
    requires CopiedSince(history, |h|, start, staged) && At(start, target) == before
    requires NamesGood(target, staged, backup)
    ensures SafeSince(history, from, target, backup, before, after)
  {
    forall i | from <= i < |history|
      ensures Safe(history[i], target, backup, before, after)
    {
      if i < |h| {
        assert history[i] == h[i];
      } else {
        ChangesElsewhere(start, history[i], staged, target);
      }
    }
  }
}
