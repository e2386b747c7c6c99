/** The flush machine of src/app/usePortivaWorkspace.ts: pending snapshots wait for one
    animation frame, or for one timer while the page is hidden, and are then folded into the
    open panes. The browser's own queue of callbacks is part of the state, so that a callback
    that is forgotten or requested twice shows up. */
module TerminalFlush {
  import opened Bytes
  import opened TerminalCoalescing

  datatype Action =
    | Event(snapshot: Snapshot)
    | FrameFires
    | TimerFires
    | Visibility(isHidden: bool)
    | OpenPane(terminalId: string, shown: Option<Snapshot>)
    | ClosePane(terminalId: string)

  function EventFor(action: Action, terminalId: string): seq<Snapshot> {
    if action.Event? && action.snapshot.terminalId == terminalId then [action.snapshot] else []
  }

  function EventsFor(actions: seq<Action>, terminalId: string): seq<Snapshot> {
    if actions == [] then []
    else EventsFor(Earlier(actions), terminalId) + EventFor(Latest(actions), terminalId)
  }

  /** The pane shows what folding the events into `start` one by one shows. */
  ghost predicate ShowsEach(pane: Option<Snapshot>, start: Option<Snapshot>, events: seq<Snapshot>) {
    ShowPane(pane) == ShowPane(ApplyEach(start, events))
  }

  ghost predicate IsCoalesced(pending: Snapshot, events: seq<Snapshot>) {
    events != [] && pending == Coalesce(events)
  }

  lemma FlushShowsEach(pane: Option<Snapshot>, start: Option<Snapshot>, done: seq<Snapshot>,
                       pending: Snapshot, events: seq<Snapshot>)
    requires ShowsEach(pane, start, done) && IsCoalesced(pending, events)
    ensures ShowsEach(Some(MergeTerminalSnapshot(pane, pending)), start, done + events)
  {
    CoalescingAgrees(pane, events);
    ApplyEachRespectsShow(pane, ApplyEach(start, done), events);
    ApplyEachConcat(start, done, events);
  }

  /** Merges an event into the pending map. */
  function AddPending(pending: map<string, Snapshot>, incoming: Snapshot): map<string, Snapshot> {
    var id := incoming.terminalId;
    pending[id := MergePendingSnapshot(if id in pending then Some(pending[id]) else None, incoming)]
  }

  /** The events of one terminal in a log kept per terminal. */
  function Log(logs: map<string, seq<Snapshot>>, terminalId: string): seq<Snapshot> {
    if terminalId in logs then logs[terminalId] else []
  }

  lemma AddIsCoalesced(pending: map<string, Snapshot>, waiting: map<string, seq<Snapshot>>, incoming: Snapshot)
    requires AllCoalesced(pending, waiting)
    ensures AllCoalesced(AddPending(pending, incoming),
                         waiting[incoming.terminalId := Log(waiting, incoming.terminalId) + [incoming]])
  {
  }

  ghost predicate AllCoalesced(pending: map<string, Snapshot>, waiting: map<string, seq<Snapshot>>) {
    && waiting.Keys == pending.Keys
    && forall t :: t in pending ==> IsCoalesced(pending[t], waiting[t])
  }

  lemma NothingWaits(pending: map<string, Snapshot>, waiting: map<string, seq<Snapshot>>)
    requires AllCoalesced(pending, waiting)
    ensures pending == map[] ==> waiting == map[]
  {
  }

  lemma NothingPendingIsCoalesced()
    ensures AllCoalesced(map[], map[])
  {
  }

  ghost predicate AllShown(panes: map<string, Option<Snapshot>>, base: map<string, Option<Snapshot>>,
                           flushed: map<string, seq<Snapshot>>)
  {
    && base.Keys == flushed.Keys == panes.Keys
    && forall t :: t in panes ==> ShowsEach(panes[t], base[t], flushed[t])
  }

  /** Folds each pending snapshot into its pane, if that is open. */
  function FlushPanes(panes: map<string, Option<Snapshot>>, snapshots: map<string, Snapshot>)
    : map<string, Option<Snapshot>>
  {
    map t | t in panes ::
      if t in snapshots then Some(MergeTerminalSnapshot(panes[t], snapshots[t])) else panes[t]
  }

  ghost function FlushLogs(flushed: map<string, seq<Snapshot>>, waiting: map<string, seq<Snapshot>>)
    : map<string, seq<Snapshot>>
  {
    map t | t in flushed :: flushed[t] + Log(waiting, t)
  }

  lemma FlushKeepsShown(panes: map<string, Option<Snapshot>>, base: map<string, Option<Snapshot>>,
                        flushed: map<string, seq<Snapshot>>, pending: map<string, Snapshot>,
                        waiting: map<string, seq<Snapshot>>)
    requires AllShown(panes, base, flushed) && AllCoalesced(pending, waiting)
    ensures AllShown(FlushPanes(panes, pending), base, FlushLogs(flushed, waiting))
  {
    hide MergeTerminalSnapshot, ShowsEach, IsCoalesced;
    forall t | t in panes
      ensures ShowsEach(FlushPanes(panes, pending)[t], base[t], FlushLogs(flushed, waiting)[t])
    {
      assert ShowsEach(panes[t], base[t], flushed[t]);
      if t in pending {
        FlushShowsEach(panes[t], base[t], flushed[t], pending[t], waiting[t]);
      } else {
        assert flushed[t] + [] == flushed[t];
      }
    }
  }

  lemma NothingToFlush(panes: map<string, Option<Snapshot>>, flushed: map<string, seq<Snapshot>>,
                       waiting: map<string, seq<Snapshot>>)
    ensures FlushPanes(panes, map[]) == panes
    ensures AllCoalesced(map[], waiting) ==> FlushLogs(flushed, waiting) == flushed
  {
    if waiting == map[] {
      assert forall t :: t in flushed ==> flushed[t] + Log(waiting, t) == flushed[t];
    }
  }

  lemma FlushKeepsLogs(flushed: map<string, seq<Snapshot>>, waiting: map<string, seq<Snapshot>>)
    ensures FlushLogs(FlushLogs(flushed, waiting), map[]) == FlushLogs(flushed, waiting)
  {
    var done := FlushLogs(flushed, waiting);
    assert forall t :: t in done ==> done[t] + Log(map[], t) == done[t];
  }

  /** All that a flush needs: the panes follow the logs, and flushing nothing is doing nothing. */
  lemma FlushKeepsEverything(panes: map<string, Option<Snapshot>>, base: map<string, Option<Snapshot>>,
                             flushed: map<string, seq<Snapshot>>, pending: map<string, Snapshot>,
                             waiting: map<string, seq<Snapshot>>)
    requires AllShown(panes, base, flushed) && AllCoalesced(pending, waiting)
    ensures AllShown(FlushPanes(panes, pending), base, FlushLogs(flushed, waiting))
    ensures FlushLogs(FlushLogs(flushed, waiting), map[]) == FlushLogs(flushed, waiting)
    ensures pending == map[] ==> FlushPanes(panes, pending) == panes && FlushLogs(flushed, waiting) == flushed
    ensures AllCoalesced(map[], map[])
  {
    FlushKeepsShown(panes, base, flushed, pending, waiting);
    FlushKeepsLogs(flushed, waiting);
    NothingToFlush(panes, flushed, waiting);
  }

  /** An event noted in the log of its terminal, if that one is kept. */
  function Note(logs: map<string, seq<Snapshot>>, e: Snapshot): map<string, seq<Snapshot>> {
    if e.terminalId in logs then logs[e.terminalId := logs[e.terminalId] + [e]] else logs
  }

  lemma WaitingIsNoted(flushed: map<string, seq<Snapshot>>, waiting: map<string, seq<Snapshot>>, e: Snapshot)
    ensures FlushLogs(flushed, waiting[e.terminalId := Log(waiting, e.terminalId) + [e]])
            == Note(FlushLogs(flushed, waiting), e)
  {
    var id := e.terminalId;
    var waiting' := waiting[id := Log(waiting, id) + [e]];
    forall t | t in flushed
      ensures FlushLogs(flushed, waiting')[t] == Note(FlushLogs(flushed, waiting), e)[t]
    {
      if t == id {
        assert flushed[id] + (Log(waiting, id) + [e]) == flushed[id] + Log(waiting, id) + [e];
      } else {
        assert Log(waiting', t) == Log(waiting, t);
      }
    }
  }

  /** The logs of the open panes after an action. A new pane starts with what is pending for it. */
  function LogsAfter(logs: map<string, seq<Snapshot>>, action: Action, waiting: map<string, seq<Snapshot>>)
    : map<string, seq<Snapshot>>
  {
    match action
    case Event(e) => Note(logs, e)
    case OpenPane(t, _) => logs[t := Log(waiting, t)]
    case ClosePane(t) => logs - {t}
    case _ => logs
  }

  /** What the panes showed when they were opened. */
  function BaseAfter(base: map<string, Option<Snapshot>>, action: Action): map<string, Option<Snapshot>> {
    match action
    case OpenPane(t, shown) => base[t := shown]
    case ClosePane(t) => base - {t}
    case _ => base
  }

  function BaseAll(base: map<string, Option<Snapshot>>, actions: seq<Action>): map<string, Option<Snapshot>> {
    if actions == [] then base else BaseAfter(BaseAll(base, Earlier(actions)), Latest(actions))
  }

  /** Events wait until a callback takes them all. */
  ghost predicate WaitingAfter(waiting: map<string, seq<Snapshot>>, action: Action, waiting': map<string, seq<Snapshot>>) {
    match action
    case Event(e) => waiting' == waiting[e.terminalId := Log(waiting, e.terminalId) + [e]]
    case FrameFires => waiting' == waiting || waiting' == map[]
    case TimerFires => waiting' == waiting || waiting' == map[]
    case _ => waiting' == waiting
  }

  /** The events waiting before each action of a run, and after the last. */
  ghost predicate WaitingAlong(waits: seq<map<string, seq<Snapshot>>>, actions: seq<Action>) {
    |waits| == |actions| + 1 && forall i :: 0 <= i < |actions| ==> WaitingAfter(waits[i], actions[i], waits[i + 1])
  }

  function LogsAll(logs: map<string, seq<Snapshot>>, actions: seq<Action>, waits: seq<map<string, seq<Snapshot>>>)
    : map<string, seq<Snapshot>>
    requires |waits| == |actions| + 1
  {
    if actions == [] then logs
    else
      var n := |actions| - 1;
      LogsAfter(LogsAll(logs, actions[..n], waits[..n + 1]), actions[n], waits[n])
  }

  predicate Touches(action: Action, t: string) {
    (action.OpenPane? || action.ClosePane?) && action.terminalId == t
  }

  /** From some action on, the pane is neither opened nor closed. */
  predicate StaysOpen(actions: seq<Action>, from: nat, t: string) {
    forall i :: from <= i < |actions| ==> !Touches(actions[i], t)
  }

  lemma LogStep(logs: map<string, seq<Snapshot>>, action: Action, waiting: map<string, seq<Snapshot>>, t: string)
    requires t in logs && !Touches(action, t)
    ensures t in LogsAfter(logs, action, waiting)
    ensures LogsAfter(logs, action, waiting)[t] == logs[t] + EventFor(action, t)
  {
  }

  /** A pane that stays open gains exactly its events, in order. */
  lemma {:induction false} LogsAllAppends(logs: map<string, seq<Snapshot>>, actions: seq<Action>,
                                          waits: seq<map<string, seq<Snapshot>>>, t: string)
    requires t in logs && |waits| == |actions| + 1 && StaysOpen(actions, 0, t)
    ensures t in LogsAll(logs, actions, waits)
    ensures LogsAll(logs, actions, waits)[t] == logs[t] + EventsFor(actions, t)
  {
    hide LogsAfter, EventFor, Touches;
    if actions == [] {
      assert logs[t] + [] == logs[t];
    } else {
      var n := |actions| - 1;
      LogsAllAppends(logs, actions[..n], waits[..n + 1], t);
      LogStep(LogsAll(logs, actions[..n], waits[..n + 1]), actions[n], waits[n], t);
    }
  }

  /** A pane opened during the run, and open since, has what was pending for it then, and exactly
      its later events. */
  lemma {:induction false} OpenedPaneGets(logs: map<string, seq<Snapshot>>, actions: seq<Action>,
                                          waits: seq<map<string, seq<Snapshot>>>, k: nat, t: string)
    requires |waits| == |actions| + 1 && k < |actions| && StaysOpen(actions, k + 1, t)
    requires actions[k].OpenPane? && actions[k].terminalId == t
    ensures t in LogsAll(logs, actions, waits)
    ensures LogsAll(logs, actions, waits)[t] == Log(waits[k], t) + EventsFor(actions[k + 1..], t)
    decreases |actions|
  {
    hide EventFor, Touches, LogsAfter;
    var n := |actions| - 1;
    if k == n {
      OpenStep(LogsAll(logs, actions[..n], waits[..n + 1]), actions[n], waits[n]);
      assert actions[k + 1..] == [];
      assert Log(waits[k], t) + [] == Log(waits[k], t);
    } else {
      OpenedPaneGets(logs, actions[..n], waits[..n + 1], k, t);
      LogStep(LogsAll(logs, actions[..n], waits[..n + 1]), actions[n], waits[n], t);
      assert Earlier(actions[k + 1..]) == actions[..n][k + 1..];
      assert EventsFor(actions[k + 1..], t) == EventsFor(actions[..n][k + 1..], t) + EventFor(actions[n], t);
    }
  }

  lemma OpenStep(logs: map<string, seq<Snapshot>>, action: Action, waiting: map<string, seq<Snapshot>>)
    requires action.OpenPane?
    ensures action.terminalId in LogsAfter(logs, action, waiting)
    ensures LogsAfter(logs, action, waiting)[action.terminalId] == Log(waiting, action.terminalId)
  {
  }

  ghost predicate IsTail(part: seq<Snapshot>, all: seq<Snapshot>) {
    |part| <= |all| && part == all[|all| - |part|..]
  }

  /** What waits for a terminal is the last part of its events so far. */
  lemma {:induction false} WaitingIsTail(waits: seq<map<string, seq<Snapshot>>>, actions: seq<Action>, t: string)
    requires WaitingAlong(waits, actions)
    ensures IsTail(Log(waits[|actions|], t), Log(waits[0], t) + EventsFor(actions, t))
    decreases |actions|
  {
    hide IsTail, WaitingAfter;
    if actions == [] {
      WholeIsTail(Log(waits[0], t));
    } else {
      var n := |actions| - 1;
      WaitingIsTail(waits[..n + 1], actions[..n], t);
      WaitingStep(waits[n], actions[n], waits[n + 1], t, Log(waits[0], t) + EventsFor(actions[..n], t));
      assert Log(waits[0], t) + EventsFor(actions[..n], t) + EventFor(actions[n], t)
             == Log(waits[0], t) + EventsFor(actions, t);
    }
  }

  lemma WholeIsTail(all: seq<Snapshot>)
    ensures IsTail(all, all + [])
  {
    assert all + [] == all;
  }

  lemma WaitingStep(waiting: map<string, seq<Snapshot>>, action: Action, waiting': map<string, seq<Snapshot>>, t: string,
                    all: seq<Snapshot>)
    requires WaitingAfter(waiting, action, waiting') && IsTail(Log(waiting, t), all)
    ensures IsTail(Log(waiting', t), all + EventFor(action, t))
  {
    if action.Event? && action.snapshot.terminalId == t {
      var part := Log(waiting, t);
      assert all + [action.snapshot] == all[..|all| - |part|] + (part + [action.snapshot]);
    } else {
      assert all + EventFor(action, t) == all;
      assert Log(waiting', t) == Log(waiting, t) || Log(waiting', t) == [];
    }
  }

  lemma OpenedIsShown(panes: map<string, Option<Snapshot>>, base: map<string, Option<Snapshot>>,
                      flushed: map<string, seq<Snapshot>>, t: string, shown: Option<Snapshot>)
    requires AllShown(panes, base, flushed)
    ensures AllShown(panes[t := shown], base[t := shown], flushed[t := []])
    ensures AllShown(panes - {t}, base - {t}, flushed - {t})
  {
    assert ShowsEach(shown, shown, []);
  }

  lemma OpenedLogs(flushed: map<string, seq<Snapshot>>, waiting: map<string, seq<Snapshot>>, t: string)
    ensures FlushLogs(flushed[t := []], waiting) == FlushLogs(flushed, waiting)[t := Log(waiting, t)]
    ensures FlushLogs(flushed - {t}, waiting) == FlushLogs(flushed, waiting) - {t}
  {
    assert [] + Log(waiting, t) == Log(waiting, t);
  }

  lemma OneMoreAction(base: map<string, Option<Snapshot>>, logs: map<string, seq<Snapshot>>, actions: seq<Action>, i: nat,
                      waits: seq<map<string, seq<Snapshot>>>, waiting: map<string, seq<Snapshot>>)
    requires i < |actions| && WaitingAlong(waits, actions[..i]) && WaitingAfter(waits[i], actions[i], waiting)
    ensures WaitingAlong(waits + [waiting], actions[..i + 1])
    ensures BaseAll(base, actions[..i + 1]) == BaseAfter(BaseAll(base, actions[..i]), actions[i])
    ensures LogsAll(logs, actions[..i + 1], waits + [waiting])
            == LogsAfter(LogsAll(logs, actions[..i], waits), actions[i], waits[i])
  {
    hide WaitingAfter, BaseAfter, LogsAfter;
    var now, more := actions[..i + 1], waits + [waiting];
    assert Earlier(now) == actions[..i] && now[..i] == actions[..i] && more[..i + 1] == waits;
    forall k | 0 <= k < |now|
      ensures WaitingAfter(more[k], now[k], more[k + 1])
    {
      if k < i {
        assert actions[..i][k] == now[k] && more[k] == waits[k] && more[k + 1] == waits[k + 1];
      }
    }
  }

  class TerminalSnapshotPump {
    var pending: map<string, Snapshot>
    var frame: Option<nat>
    var timer: Option<nat>
    var panes: map<string, Option<Snapshot>>

    // The browser.
    var hidden: bool
    var liveFrames: set<nat>
    var liveTimers: set<nat>
    var nextHandle: nat

    // What each open pane showed at first, the events folded into it since, and the events
    // merged into each pending snapshot.
    ghost var base: map<string, Option<Snapshot>>
    ghost var flushed: map<string, seq<Snapshot>>
    ghost var waiting: map<string, seq<Snapshot>>

    ghost predicate OneCallback()
      reads this
    {
      && liveFrames == (if frame.Some? then {frame.value} else {})
      && liveTimers == (if timer.Some? then {timer.value} else {})
      && !(frame.Some? && timer.Some?)
      // Animation frames are not delivered while the page is hidden.
      && (hidden ==> frame.None?)
    }

    ghost predicate Valid()
      reads this
    {
      && OneCallback()
      && (pending != map[] ==> frame.Some? || timer.Some?)
      && AllCoalesced(pending, waiting)
      && AllShown(panes, base, flushed)
    }

    /** Everything received for each open pane: first what was flushed, then what is pending. */
    ghost function Received(): map<string, seq<Snapshot>>
      reads this
    {
      FlushLogs(flushed, waiting)
    }

    constructor (initial: map<string, Option<Snapshot>>, isHidden: bool)
      ensures Valid()
      ensures panes == base == initial && hidden == isHidden && pending == map[]
      ensures Received() == map t | t in initial :: []
    {
      pending, frame, timer, panes := map[], None, None, initial;
      hidden, liveFrames, liveTimers, nextHandle := isHidden, {}, {}, 0;
      base, flushed, waiting := initial, map t | t in initial :: [], map[];
    }

    /** Folds every pending snapshot into its pane and forgets it. */
    method FlushPendingSnapshots()
      requires liveFrames == {} && liveTimers == {}
      requires AllCoalesced(pending, waiting) && AllShown(panes, base, flushed)
      modifies this
      ensures Valid() && base == old(base) && hidden == old(hidden)
      ensures pending == map[] && waiting == map[] && panes == FlushPanes(old(panes), old(pending))
      ensures Received() == old(Received())
      ensures AllShown(panes, base, Received())
    {
      hide AllCoalesced, AllShown, FlushPanes, FlushLogs;
      frame, timer := None, None;
      FlushKeepsEverything(panes, base, flushed, pending, waiting);
      if pending == map[] {
        NothingWaits(pending, waiting);
        return;
      }
      var snapshots := pending;
      pending := map[];
      panes, flushed, waiting := FlushPanes(panes, snapshots), FlushLogs(flushed, waiting), map[];
    }

    /** Requests a callback unless one is outstanding. */
    method SchedulePendingSnapshotFlush()
      requires OneCallback()
      modifies `frame, `timer, `liveFrames, `liveTimers, `nextHandle
      ensures OneCallback() && (frame.Some? || timer.Some?)
      ensures old(frame.Some? || timer.Some?) ==> frame == old(frame) && timer == old(timer)
      ensures old(frame.None? && timer.None?) ==> (timer.Some? <==> hidden)
    {
      if frame.Some? || timer.Some? {
        return;
      }
      if hidden {
        liveTimers, timer := liveTimers + {nextHandle}, Some(nextHandle);
      } else {
        liveFrames, frame := liveFrames + {nextHandle}, Some(nextHandle);
      }
      nextHandle := nextHandle + 1;
    }

    method OnEvent(incoming: Snapshot)
      requires Valid()
      modifies this
      ensures Valid() && panes == old(panes) && base == old(base) && hidden == old(hidden)
      ensures pending == AddPending(old(pending), incoming)
      ensures Received() == Note(old(Received()), incoming)
      ensures WaitingAfter(old(waiting), Event(incoming), waiting)
      ensures old(frame.Some? || timer.Some?) ==> frame == old(frame) && timer == old(timer)
      ensures old(frame.None? && timer.None?) ==> (timer.Some? <==> hidden) && (frame.Some? <==> !hidden)
    {
      hide AllCoalesced, AllShown, AddPending, FlushLogs, Note;
      AddIsCoalesced(pending, waiting, incoming);
      WaitingIsNoted(flushed, waiting, incoming);
      pending := AddPending(pending, incoming);
      waiting := waiting[incoming.terminalId := Log(waiting, incoming.terminalId) + [incoming]];
      SchedulePendingSnapshotFlush();
    }

    method OnFrame(handle: nat)
      requires Valid() && handle in liveFrames
      modifies this
      ensures Valid() && base == old(base) && hidden == old(hidden)
      ensures pending == map[] && waiting == map[] && panes == FlushPanes(old(panes), old(pending))
      ensures Received() == old(Received()) && AllShown(panes, base, Received())
    {
      hide AllCoalesced, AllShown, FlushPanes, FlushLogs;
      liveFrames := liveFrames - {handle};
      FlushPendingSnapshots();
    }

    method OnTimer(handle: nat)
      requires Valid() && handle in liveTimers
      modifies this
      ensures Valid() && base == old(base) && hidden == old(hidden)
      ensures pending == map[] && waiting == map[] && panes == FlushPanes(old(panes), old(pending))
      ensures Received() == old(Received()) && AllShown(panes, base, Received())
    {
      hide AllCoalesced, AllShown, FlushPanes, FlushLogs;
      liveTimers := liveTimers - {handle};
      FlushPendingSnapshots();
    }

    method OnVisibilityChange(isHidden: bool)
      requires Valid()
      modifies this
      ensures Valid() && panes == old(panes) && base == old(base) && hidden == isHidden
      ensures pending == old(pending) && waiting == old(waiting) && Received() == old(Received())
      ensures if isHidden && old(frame.Some?) then timer.Some? else frame == old(frame) && timer == old(timer)
    {
      hide AllCoalesced, AllShown, FlushLogs;
      hidden := isHidden;
      if !hidden || frame.None? {
        return;
      }
      liveFrames := liveFrames - {frame.value};
      frame := None;
      SchedulePendingSnapshotFlush();
    }

    /** A tab or a split adds a pane, with what its terminal showed so far. */
    method OnOpenPane(terminalId: string, shown: Option<Snapshot>)
      requires Valid()
      modifies this
      ensures Valid() && hidden == old(hidden) && pending == old(pending) && waiting == old(waiting)
      ensures panes == old(panes)[terminalId := shown] && base == old(base)[terminalId := shown]
      ensures Received() == old(Received())[terminalId := Log(waiting, terminalId)]
    {
      hide AllCoalesced, AllShown, FlushLogs;
      OpenedIsShown(panes, base, flushed, terminalId, shown);
      OpenedLogs(flushed, waiting, terminalId);
      panes, base := panes[terminalId := shown], base[terminalId := shown];
      flushed := flushed[terminalId := []];
    }

    method OnClosePane(terminalId: string)
      requires Valid()
      modifies this
      ensures Valid() && hidden == old(hidden) && pending == old(pending) && waiting == old(waiting)
      ensures panes == old(panes) - {terminalId} && base == old(base) - {terminalId}
      ensures Received() == old(Received()) - {terminalId}
    {
      hide AllCoalesced, AllShown, FlushLogs;
      OpenedIsShown(panes, base, flushed, terminalId, None);
      OpenedLogs(flushed, waiting, terminalId);
      panes, base, flushed := panes - {terminalId}, base - {terminalId}, flushed - {terminalId};
    }

    method Step(action: Action)
      requires Valid()
      modifies this
      ensures Valid() && base == BaseAfter(old(base), action)
      ensures Received() == LogsAfter(old(Received()), action, old(waiting))
      ensures WaitingAfter(old(waiting), action, waiting)
    {
      hide AllCoalesced, AllShown, FlushPanes, FlushLogs, Note, AddPending;
      match action
      case Event(snapshot) =>
        OnEvent(snapshot);
      case FrameFires =>
        if frame.Some? {
          OnFrame(frame.value);
        }
      case TimerFires =>
        if timer.Some? {
          OnTimer(timer.value);
        }
      case Visibility(isHidden) =>
        OnVisibilityChange(isHidden);
      case OpenPane(terminalId, shown) =>
        OnOpenPane(terminalId, shown);
      case ClosePane(terminalId) =>
        OnClosePane(terminalId);
    }

    /** Over every interleaving of events, callbacks, visibility changes, and panes that open and
        close: each event for an open pane is flushed or pending exactly once and in order, and
        pending snapshots always have a callback that the browser will deliver. */
    method Run(actions: seq<Action>) returns (ghost waits: seq<map<string, seq<Snapshot>>>)
      requires Valid()
      modifies this
      ensures Valid() && base == BaseAll(old(base), actions)
      ensures WaitingAlong(waits, actions) && waits[0] == old(waiting) && waits[|actions|] == waiting
      ensures Received() == LogsAll(old(Received()), actions, waits)
    {
      hide AllCoalesced, AllShown, FlushLogs, LogsAfter, BaseAfter, WaitingAfter;
      assert actions[..0] == [];
      waits := [waiting];
      for i := 0 to |actions|
        invariant Valid() && base == BaseAll(old(base), actions[..i])
        invariant WaitingAlong(waits, actions[..i]) && waits[0] == old(waiting) && waits[i] == waiting
        invariant Received() == LogsAll(old(Received()), actions[..i], waits)
      {
        ghost var was := waits;
        Step(actions[i]);
        waits := waits + [waiting];
        OneMoreAction(old(base), old(Received()), actions, i, was, waiting);
      }
      assert actions[..|actions|] == actions;
    }

    /** Once the outstanding callback has fired, every open pane shows what folding in each
        received event directly would show. */
    method Settle()
      requires Valid()
      modifies this
      ensures Valid() && pending == map[]
      ensures AllShown(panes, old(base), old(Received()))
    {
      hide AllCoalesced, AllShown, FlushPanes, FlushLogs;
      if frame.Some? {
        OnFrame(frame.value);
      } else if timer.Some? {
        OnTimer(timer.value);
      } else {
        FlushKeepsEverything(panes, base, flushed, pending, waiting);
      }
    }

    /** Unmounting cancels the callback and forgets what was pending. */
    method Dispose()
      requires Valid()
      modifies this
      ensures Valid() && panes == old(panes) && base == old(base)
      ensures pending == map[] && liveFrames == {} && liveTimers == {}
    {
      hide AllCoalesced, AllShown, FlushLogs;
      NothingPendingIsCoalesced();
      if frame.Some? {
        liveFrames := liveFrames - {frame.value};
        frame := None;
      }
      if timer.Some? {
        liveTimers := liveTimers - {timer.value};
        timer := None;
      }
      pending, waiting := map[], map[];
    }
  }
}
