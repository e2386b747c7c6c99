/** Merging of terminal snapshot events, src/app/usePortivaWorkspace.ts.

    Events are first merged per terminal into one pending snapshot and later folded, once,
    into the snapshot that a pane shows. The simple form it must agree with folds every
    event into the pane's snapshot as it arrives. */
module TerminalCoalescing {
  import opened Bytes
  import opened TerminalOutputBuffer

  datatype Status = Attached | Detached | Closed

  datatype Snapshot = Snapshot(
    terminalId: string,
    status: Status,
    bufferedBytes: nat,
    bufferPreview: Text,
    historyTruncated: Option<bool>,
    renderPolicy: string,
    outputChunk: Option<Text>,
    droppedOutputCharacters: Option<nat>)
  {
    function Chunk(): Text {
      if outputChunk.Some? then outputChunk.value else []
    }

    function Dropped(): nat {
      if droppedOutputCharacters.Some? then droppedOutputCharacters.value else 0
    }

    predicate Truncated() {
      historyTruncated == Some(true)
    }
  }

  const TERMINAL_PREVIEW_MAX_CHARS: nat := 256 * 1024

  function TruncateTerminalPreview(value: Text): (r: Text)
    ensures |r| == if |value| <= 262144 then |value| else 262144
    ensures r == value[|value| - |r|..]
  {
    if |value| <= TERMINAL_PREVIEW_MAX_CHARS then value
    else value[|value| - TERMINAL_PREVIEW_MAX_CHARS..]
  }

  /** The preview a pane shows after a snapshot with this preview and this chunk. */
  function NextPreview(before: Text, preview: Text, chunk: Text): Text {
    if preview != [] then TruncateTerminalPreview(preview)
    else if chunk == [] then before
    else TruncateTerminalPreview(before + chunk)
  }

  function PreviewOf(s: Option<Snapshot>): Text {
    if s.Some? then s.value.bufferPreview else []
  }

  /** Folds one snapshot into what a pane shows (mergeTerminalSnapshot). */
  function MergeTerminalSnapshot(previous: Option<Snapshot>, incoming: Snapshot): Snapshot {
    incoming.(
      bufferPreview := NextPreview(PreviewOf(previous), incoming.bufferPreview, incoming.Chunk()),
      historyTruncated := Some((previous.Some? && previous.value.Truncated()) || incoming.Truncated()))
  }

  /** JavaScript's `count || undefined`. */
  function NonZero(count: nat): Option<nat> {
    if count == 0 then None else Some(count)
  }

  /** The pending chunk and the number of units its bound drops. */
  function NextChunk(chunk: Text, more: Text): BoundedTerminalOutput {
    AppendBounded(chunk, more, MAXIMUM_PENDING_TERMINAL_OUTPUT_CHARACTERS)
  }

  /** The pending preview: a new one replaces it, output extends an existing one. */
  function NextPendingPreview(before: Text, preview: Text, chunk: Text): Text {
    if preview != [] || before == [] then preview
    else TruncateTerminalPreview(before + chunk)
  }

  /** Merges one event into the pending snapshot of its terminal (mergePendingSnapshot). */
  function MergePendingSnapshot(previous: Option<Snapshot>, incoming: Snapshot): Snapshot {
    if previous.None? then
      var bounded := NextChunk([], incoming.Chunk());
      incoming.(droppedOutputCharacters := NonZero(incoming.Dropped() + bounded.droppedCharacters),
                outputChunk := Some(bounded.value))
    else
      var prev := previous.value;
      var bounded := NextChunk(prev.Chunk(), incoming.Chunk());
      incoming.(
        bufferPreview := NextPendingPreview(prev.bufferPreview, incoming.bufferPreview, incoming.Chunk()),
        droppedOutputCharacters := NonZero(prev.Dropped() + incoming.Dropped() + bounded.droppedCharacters),
        historyTruncated := Some(prev.Truncated() || incoming.Truncated()),
        outputChunk := Some(bounded.value))
  }

  // ----- The two ways of applying a run of events -----

  function Latest<T>(s: seq<T>): T
    requires s != []
  {
    s[|s| - 1]
  }

  function Earlier<T>(s: seq<T>): seq<T>
    requires s != []
  {
    s[..|s| - 1]
  }

  /** The fast path: everything merged into one pending snapshot. */
  function Coalesce(events: seq<Snapshot>): Snapshot
    requires events != []
  {
    MergePendingSnapshot(if |events| == 1 then None else Some(Coalesce(Earlier(events))), Latest(events))
  }

  /** The simple form: each event folded into the pane as it arrives. */
  function ApplyEach(previous: Option<Snapshot>, events: seq<Snapshot>): Option<Snapshot> {
    if events == [] then previous
    else Some(MergeTerminalSnapshot(ApplyEach(previous, Earlier(events)), Latest(events)))
  }

  /** The part of a snapshot that a pane's state keeps and shows. */
  datatype Shown = Shown(
    terminalId: string,
    status: Status,
    bufferedBytes: nat,
    preview: Text,
    truncated: bool,
    renderPolicy: string)

  function Show(s: Snapshot): Shown {
    Shown(s.terminalId, s.status, s.bufferedBytes, s.bufferPreview, s.Truncated(), s.renderPolicy)
  }

  function ShowPane(s: Option<Snapshot>): Option<Shown> {
    if s.None? then None else Some(Show(s.value))
  }

  // ----- Truncation laws -----

  lemma DropDrop(s: Text, i: nat, j: nat)
    requires i + j <= |s|
    ensures s[i..][j..] == s[i + j..]
  {
  }

  lemma TruncateAbsorbs(x: Text, y: Text)
    ensures TruncateTerminalPreview(TruncateTerminalPreview(x) + y) == TruncateTerminalPreview(x + y)
  {
    if |x| > TERMINAL_PREVIEW_MAX_CHARS {
      var k := |x| - TERMINAL_PREVIEW_MAX_CHARS;
      assert TruncateTerminalPreview(x) + y == (x + y)[k..];
      DropDrop(x + y, k, |y|);
    }
  }

  /** A long enough tail of the output determines the preview, whatever came before it. */
  lemma LongTailDecides(x: Text, y: Text, start: nat)
    requires start + TERMINAL_PREVIEW_MAX_CHARS <= |y|
    ensures TruncateTerminalPreview(x + y[start..]) == TruncateTerminalPreview(x + y)
  {
    LongTailIsShown(x, y);
    LongTailIsShown(x, y[start..]);
    DropDrop(y, start, |y| - start - TERMINAL_PREVIEW_MAX_CHARS);
  }

  lemma LongTailIsShown(x: Text, y: Text)
    requires TERMINAL_PREVIEW_MAX_CHARS <= |y|
    ensures TruncateTerminalPreview(x + y) == y[|y| - TERMINAL_PREVIEW_MAX_CHARS..]
  {
    var k := |x + y| - TERMINAL_PREVIEW_MAX_CHARS;
    assert (x + y)[k..] == y[k - |x|..];
  }

  /** The preview bound still fits once the pending bound has lost a unit to a split pair. */
  lemma OverfullChunkIsLong(chunk: Text, more: Text)
    requires |chunk| + |more| > MAXIMUM_PENDING_TERMINAL_OUTPUT_CHARACTERS
    ensures NextChunk(chunk, more).droppedCharacters + TERMINAL_PREVIEW_MAX_CHARS <= |chunk| + |more|
  {
  }

  /** Bounding the pending chunk is invisible in the preview. */
  lemma BoundedChunkSamePreview(before: Text, chunk: Text, more: Text)
    ensures NextPreview(before, [], NextChunk(chunk, more).value) == NextPreview(before, [], chunk + more)
  {
    if |chunk| + |more| > MAXIMUM_PENDING_TERMINAL_OUTPUT_CHARACTERS {
      OverfullChunkIsLong(chunk, more);
      LongTailDecides(before, chunk + more, NextChunk(chunk, more).droppedCharacters);
    }
  }

  lemma ChunksOneByOne(before: Text, chunk: Text, more: Text)
    ensures NextPreview(NextPreview(before, [], chunk), [], more) == NextPreview(before, [], chunk + more)
  {
    if chunk == [] {
      assert chunk + more == more;
    } else if more == [] {
      assert chunk + more == chunk;
    } else {
      TruncateAbsorbs(before + chunk, more);
      assert before + chunk + more == before + (chunk + more);
    }
  }

  lemma PreviewThenChunk(before: Text, preview: Text, more: Text)
    requires preview != []
    ensures NextPreview(NextPreview(before, preview, []), [], more)
            == TruncateTerminalPreview(TruncateTerminalPreview(preview + more))
  {
  }

  /** Merging a second event into the pending one and showing the result once is showing the two
      one after the other. */
  lemma PreviewStep(before: Text, preview: Text, chunk: Text, preview2: Text, more: Text)
    ensures NextPreview(before, NextPendingPreview(preview, preview2, more), NextChunk(chunk, more).value)
            == NextPreview(NextPreview(before, preview, chunk), preview2, more)
  {
    if preview2 == [] {
      if preview == [] {
        BoundedChunkSamePreview(before, chunk, more);
        ChunksOneByOne(before, chunk, more);
      } else {
        PreviewThenChunk(before, preview, more);
      }
    }
  }

  /** Merging depends on the previous pane only through what it shows. */
  lemma MergeRespectsShow(a: Option<Snapshot>, b: Option<Snapshot>, incoming: Snapshot)
    requires ShowPane(a) == ShowPane(b)
    ensures Show(MergeTerminalSnapshot(a, incoming)) == Show(MergeTerminalSnapshot(b, incoming))
  {
  }

  /** One more event: merging it into the pending snapshot and flushing shows the same as
      flushing first and applying the event directly. */
  lemma CoalesceStep(previous: Option<Snapshot>, pending: Snapshot, e: Snapshot)
    ensures Show(MergeTerminalSnapshot(previous, MergePendingSnapshot(Some(pending), e)))
            == Show(MergeTerminalSnapshot(Some(MergeTerminalSnapshot(previous, pending)), e))
  {
    PreviewStep(PreviewOf(previous), pending.bufferPreview, pending.Chunk(), e.bufferPreview, e.Chunk());
  }

  /** Main result: one flush of the coalesced events shows what applying every event shows. */
  lemma {:induction false} CoalescingAgrees(previous: Option<Snapshot>, events: seq<Snapshot>)
    requires events != []
    ensures Show(MergeTerminalSnapshot(previous, Coalesce(events)))
            == Show(ApplyEach(previous, events).value)
  {
    var e := Latest(events);
    if |events| == 1 {
      assert [] + e.Chunk() == e.Chunk();
      BoundedChunkSamePreview(PreviewOf(previous), [], e.Chunk());
      assert ApplyEach(previous, Earlier(events)) == previous;
    } else {
      var init := Earlier(events);
      CoalesceStep(previous, Coalesce(init), e);
      CoalescingAgrees(previous, init);
      MergeRespectsShow(Some(MergeTerminalSnapshot(previous, Coalesce(init))), ApplyEach(previous, init), e);
    }
  }

  // ----- What the renderer is handed -----

  function Chunks(events: seq<Snapshot>): Text {
    if events == [] then [] else Chunks(Earlier(events)) + Latest(events).Chunk()
  }

  function AlreadyDropped(events: seq<Snapshot>): nat {
    if events == [] then 0 else AlreadyDropped(Earlier(events)) + Latest(events).Dropped()
  }

  /** No output unit disappears uncounted: what is kept and what is reported as dropped add
      up to what came in. */
  lemma {:induction false} OutputAccountedFor(events: seq<Snapshot>)
    requires events != []
    ensures |Coalesce(events).Chunk()| + Coalesce(events).Dropped() == |Chunks(events)| + AlreadyDropped(events)
    ensures Coalesce(events).droppedOutputCharacters != Some(0)
  {
    var init, e := Earlier(events), Latest(events);
    if |events| == 1 {
      assert Chunks(init) == [] && AlreadyDropped(init) == 0;
    } else {
      OutputAccountedFor(init);
      PendingDropped(Coalesce(init), e);
    }
  }

  lemma PendingDropped(pending: Snapshot, e: Snapshot)
    ensures var p := MergePendingSnapshot(Some(pending), e);
            |p.Chunk()| + p.Dropped() == |pending.Chunk()| + pending.Dropped() + |e.Chunk()| + e.Dropped()
  {
  }

  predicate IsSuffix(tail: Text, all: Text) {
    |tail| <= |all| && tail == all[|all| - |tail|..]
  }

  lemma NextChunkIsSuffix(was: Text, all: Text, more: Text)
    requires IsSuffix(was, all)
    ensures IsSuffix(NextChunk(was, more).value, all + more)
  {
  }

  lemma CoalesceChunk(events: seq<Snapshot>)
    requires events != []
    ensures Coalesce(events).Chunk()
            == NextChunk(if |events| == 1 then [] else Coalesce(Earlier(events)).Chunk(), Latest(events).Chunk()).value
  {
  }

  /** What is kept is the last part of everything received. */
  lemma {:induction false} KeptOutputIsSuffix(events: seq<Snapshot>)
    requires events != []
    ensures IsSuffix(Coalesce(events).Chunk(), Chunks(events))
  {
    hide Coalesce, NextChunk;
    var init, more := Earlier(events), Latest(events).Chunk();
    CoalesceChunk(events);
    if |events| == 1 {
      assert Chunks(init) == [];
      NextChunkIsSuffix([], [], more);
    } else {
      KeptOutputIsSuffix(init);
      NextChunkIsSuffix(Coalesce(init).Chunk(), Chunks(init), more);
    }
  }

  lemma {:induction false} ApplyEachConcat(previous: Option<Snapshot>, a: seq<Snapshot>, b: seq<Snapshot>)
    ensures ApplyEach(previous, a + b) == ApplyEach(ApplyEach(previous, a), b)
  {
    if b == [] {
      assert a + b == a;
    } else {
      assert Earlier(a + b) == a + Earlier(b);
      ApplyEachConcat(previous, a, Earlier(b));
    }
  }

  lemma {:induction false} ApplyEachRespectsShow(a: Option<Snapshot>, b: Option<Snapshot>, events: seq<Snapshot>)
    requires ShowPane(a) == ShowPane(b)
    ensures ShowPane(ApplyEach(a, events)) == ShowPane(ApplyEach(b, events))
  {
    if events != [] {
      ApplyEachRespectsShow(a, b, Earlier(events));
      MergeRespectsShow(ApplyEach(a, Earlier(events)), ApplyEach(b, Earlier(events)), Latest(events));
    }
  }

  // ----- What a pane shows -----

  predicate NoPreviews(events: seq<Snapshot>) {
    forall i :: 0 <= i < |events| ==> events[i].bufferPreview == []
  }

  lemma OutputStep(shown: Text, before: Text, chunks: Text, more: Text)
    requires shown == if chunks == [] then before else TruncateTerminalPreview(before + chunks)
    ensures (if more == [] then shown else TruncateTerminalPreview(shown + more))
            == if chunks + more == [] then before else TruncateTerminalPreview(before + (chunks + more))
  {
    if chunks == [] {
      assert chunks + more == more;
    } else if more == [] {
      assert chunks + more == chunks;
    } else {
      TruncateAbsorbs(before + chunks, more);
      assert before + chunks + more == before + (chunks + more);
    }
  }

  /** Events without a preview of their own extend what the pane showed by their output, cut to
      the last 262144 units; without output the pane shows what it did. */
  lemma {:induction false} OutputIsShown(previous: Option<Snapshot>, events: seq<Snapshot>)
    requires events != [] && NoPreviews(events)
    ensures var before: Text := if previous.Some? then previous.value.bufferPreview else [];
            ApplyEach(previous, events).value.bufferPreview
            == if Chunks(events) == [] then before else TruncateTerminalPreview(before + Chunks(events))
  {
    hide TruncateTerminalPreview;
    var before: Text := if previous.Some? then previous.value.bufferPreview else [];
    var init, e := Earlier(events), Latest(events);
    assert e.bufferPreview == [];
    if init == [] {
      assert ApplyEach(previous, init) == previous && Chunks(init) == [];
      OutputStep(before, before, [], e.Chunk());
    } else {
      OutputIsShown(previous, init);
      OutputStep(ApplyEach(previous, init).value.bufferPreview, before, Chunks(init), e.Chunk());
    }
  }

  /** After the last event with a preview of its own, the pane shows that preview followed by the
      output of the later events, cut to the last 262144 units. */
  lemma PreviewThenOutputIsShown(previous: Option<Snapshot>, events: seq<Snapshot>, k: nat)
    requires k < |events| && events[k].bufferPreview != [] && NoPreviews(events[k + 1..])
    ensures ApplyEach(previous, events).value.bufferPreview
            == TruncateTerminalPreview(events[k].bufferPreview + Chunks(events[k + 1..]))
  {
    hide NextPreview, Chunks, ApplyEach, TruncateTerminalPreview, NoPreviews;
    var init, later := events[..k + 1], events[k + 1..];
    var shown := ApplyEach(previous, init);
    assert Latest(init) == events[k] && events == init + later;
    PreviewIsShown(previous, init);
    ApplyEachConcat(previous, init, later);
    NothingApplied(shown);
    assert events[k].bufferPreview + [] == events[k].bufferPreview;
    if later != [] {
      OutputIsShown(shown, later);
      TruncateAbsorbs(events[k].bufferPreview, Chunks(later));
    }
  }

  lemma PreviewIsShown(previous: Option<Snapshot>, events: seq<Snapshot>)
    requires events != [] && Latest(events).bufferPreview != []
    ensures ApplyEach(previous, events).Some?
    ensures ApplyEach(previous, events).value.bufferPreview == TruncateTerminalPreview(Latest(events).bufferPreview)
  {
  }

  lemma NothingApplied(shown: Option<Snapshot>)
    ensures ApplyEach(shown, []) == shown && Chunks([]) == []
  {
  }

  /** All else is as the last event says, but history counts as truncated once it was. */
  lemma {:induction false} LastEventIsShown(previous: Option<Snapshot>, events: seq<Snapshot>)
    requires events != []
    ensures var shown, last := ApplyEach(previous, events).value, events[|events| - 1];
            && shown.terminalId == last.terminalId && shown.status == last.status
            && shown.bufferedBytes == last.bufferedBytes && shown.renderPolicy == last.renderPolicy
    ensures ApplyEach(previous, events).value.historyTruncated == Some(true)
            <==> (previous.Some? && previous.value.historyTruncated == Some(true))
                 || exists i :: 0 <= i < |events| && events[i].historyTruncated == Some(true)
  {
    hide NextPreview;
    var init, e := Earlier(events), Latest(events);
    var before := ApplyEach(previous, init);
    TruncationStays(before, e);
    assert events[|events| - 1] == e;
    if init == [] {
      assert before == previous;
    } else {
      LastEventIsShown(previous, init);
      AnyOf(events);
    }
  }

  lemma TruncationStays(previous: Option<Snapshot>, e: Snapshot)
    ensures MergeTerminalSnapshot(previous, e).historyTruncated == Some(true)
            <==> (previous.Some? && previous.value.historyTruncated == Some(true)) || e.historyTruncated == Some(true)
  {
  }

  lemma AnyOf(events: seq<Snapshot>)
    requires events != []
    ensures (exists i :: 0 <= i < |events| && events[i].historyTruncated == Some(true))
            <==> (exists i :: 0 <= i < |Earlier(events)| && Earlier(events)[i].historyTruncated == Some(true))
                 || Latest(events).historyTruncated == Some(true)
  {
    if i :| 0 <= i < |Earlier(events)| && Earlier(events)[i].historyTruncated == Some(true) {
      assert events[i] == Earlier(events)[i];
    }
    if Latest(events).historyTruncated == Some(true) {
      assert events[|events| - 1] == Latest(events);
    }
    if i :| 0 <= i < |events| && events[i].historyTruncated == Some(true) {
      assert i < |events| - 1 ==> Earlier(events)[i] == events[i];
    }
  }

  /** What the renderer is handed is the longest tail of all output within 524288 units that
      splits no surrogate pair. */
  lemma {:induction false} KeptOutputIsLongestTail(events: seq<Snapshot>)
    requires events != [] && forall i :: 0 <= i < |events| ==> WellFormed(events[i].Chunk())
    ensures |Coalesce(events).Chunk()| <= |Chunks(events)|
    ensures IsLongestTailAt(Chunks(events), 524288, |Chunks(events)| - |Coalesce(events).Chunk()|)
  {
    hide IsLongestTailAt, WellFormed, Coalesce, Chunks, Concat, AppendAll, AppendBounded;
    var chunks := ChunkList(events);
    ChunkListIsChunks(events);
    KeptIsAppended(events);
    assert forall c :: c in chunks ==> WellFormed(c);
    ChunkingIndependent(chunks, 524288);
  }

  function ChunkList(events: seq<Snapshot>): (r: seq<Text>)
    ensures |r| == |events| && forall i :: 0 <= i < |r| ==> r[i] == events[i].Chunk()
  {
    seq(|events|, i requires 0 <= i < |events| => events[i].Chunk())
  }

  lemma {:induction false} ChunkListIsChunks(events: seq<Snapshot>)
    ensures Concat(ChunkList(events)) == Chunks(events)
  {
    if events != [] {
      ChunkListIsChunks(Earlier(events));
      assert ChunkList(events)[..|events| - 1] == ChunkList(Earlier(events));
    }
  }

  lemma {:induction false} KeptIsAppended(events: seq<Snapshot>)
    requires events != []
    ensures Coalesce(events).Chunk() == AppendAll(ChunkList(events), 524288).value
  {
    hide AppendBounded, Coalesce;
    var list := ChunkList(events);
    CoalesceChunk(events);
    assert list[..|events| - 1] == ChunkList(Earlier(events));
    if |events| > 1 {
      KeptIsAppended(Earlier(events));
    } else {
      assert list[..0] == [];
    }
  }
}
