/** The SSH panes of one tab and the state updates of src/app/usePortivaWorkspace.ts that
    split, close, replace and resize them. Each update is one React state transition. */
module SshPanes {
  import opened Bytes
  import opened TerminalSplits

  datatype Tab = Tab(terminal: Option<string>, additionalTerminals: seq<string>, terminalLayout: Option<Layout>)

  function PaneIds(tab: Tab): seq<string> {
    (if tab.terminal.Some? then [tab.terminal.value] else []) + tab.additionalTerminals
  }

  function Resolve(tab: Tab): Option<Layout> {
    var ids := PaneIds(tab);
    if |ids| == 0 then None
    else if tab.terminalLayout.Some? && Matches(Leaves(tab.terminalLayout.value), ids) then tab.terminalLayout
    else Some(CreateDefaultTerminalSplitLayout(ids))
  }

  // ----- The state updates -----

  function SplitUpdate(tab: Tab, target: string, added: string, orientation: Orientation): Tab {
    var layout := Resolve(tab);
    if layout.None? || |PaneIds(tab)| >= MAXIMUM_SSH_TERMINAL_PANES then tab
    else Tab(tab.terminal, tab.additionalTerminals + [added],
             Some(SplitTerminalLayout(layout.value, target, added, orientation)))
  }

  /** The pane that takes the primary's place, read before the terminal is closed. */
  function PromotedFor(tab: Tab, id: string): Option<string> {
    if tab.terminal == Some(id) && |tab.additionalTerminals| > 0 then Some(tab.additionalTerminals[0]) else None
  }

  function CloseUpdate(tab: Tab, id: string, promoted: Option<string>): Tab {
    var layout := Resolve(tab);
    var terminalLayout := if layout.Some? then RemoveTerminalFromLayout(layout.value, id) else None;
    if tab.terminal == Some(id) && promoted.Some? then
      Tab(promoted, Without(tab.additionalTerminals, promoted.value), terminalLayout)
    else
      Tab(tab.terminal, Without(tab.additionalTerminals, id), terminalLayout)
  }

  function ReplaceUpdate(tab: Tab, id: string, replacement: string): Tab {
    var layout := Resolve(tab);
    Tab(if tab.terminal == Some(id) then Some(replacement) else tab.terminal,
        Renamed(tab.additionalTerminals, id, replacement),
        if layout.Some? then Some(ReplaceTerminalInLayout(layout.value, id, replacement)) else None)
  }

  function ResizeUpdate(tab: Tab, path: seq<int>, ratio: Number): Tab {
    var layout := Resolve(tab);
    if layout.None? then tab
    else tab.(terminalLayout := Some(UpdateTerminalSplitRatio(layout.value, path, ratio)))
  }

  datatype Op =
    | SplitPane(target: string, added: string, orientation: Orientation)
    | ClosePane(id: string)
    | SetX11(id: string, replacement: string)
    | Resize(path: seq<int>, ratio: Number)

  /** One user action on a tab that does not change while the action runs. */
  function Apply(tab: Tab, op: Op): Tab {
    match op
    case SplitPane(target, added, orientation) =>
      if tab.terminal.None? || |PaneIds(tab)| >= MAXIMUM_SSH_TERMINAL_PANES || target !in PaneIds(tab) then tab
      else SplitUpdate(tab, target, added, orientation)
    case ClosePane(id) =>
      if |PaneIds(tab)| <= 1 || id !in PaneIds(tab) then tab
      else CloseUpdate(tab, id, PromotedFor(tab, id))
    case SetX11(id, replacement) =>
      if id !in PaneIds(tab) then tab else ReplaceUpdate(tab, id, replacement)
    case Resize(path, ratio) =>
      ResizeUpdate(tab, path, ratio)
  }

  // ----- The invariant -----

  predicate PanesGood(tab: Tab) {
    && tab.terminal.Some?
    && |PaneIds(tab)| <= MAXIMUM_SSH_TERMINAL_PANES
    && Distinct(PaneIds(tab))
    && forall i :: 0 <= i < |PaneIds(tab)| ==> |PaneIds(tab)[i]| > 0
  }

  /** Any layout that is stored is well shaped; it need not fit the panes yet. */
  predicate LayoutGood(tab: Tab) {
    tab.terminalLayout.Some? ==> WellShaped(tab.terminalLayout.value)
  }

  /** The stored layout is the one that is shown. */
  predicate LayoutFits(tab: Tab) {
    && tab.terminalLayout.Some?
    && Matches(Leaves(tab.terminalLayout.value), PaneIds(tab))
  }

  predicate ShowsEachPaneOnce(tab: Tab) {
    && Resolve(tab).Some?
    && multiset(Leaves(Resolve(tab).value)) == multiset(PaneIds(tab))
    && Acceptable(Resolve(tab).value)
  }

  /** New terminals get ids of their own, and a ratio computed from the mouse is a number. */
  predicate OpGood(tab: Tab, op: Op) {
    && (op.SplitPane? ==> |op.added| > 0 && op.added !in PaneIds(tab))
    && (op.SetX11? ==> |op.replacement| > 0 && op.replacement !in PaneIds(tab))
    && (op.Resize? ==> !op.ratio.NaN?)
  }

  lemma GoodTabShowsEachPaneOnce(tab: Tab)
    requires PanesGood(tab) && LayoutGood(tab)
    ensures ShowsEachPaneOnce(tab)
    ensures LayoutFits(tab) ==> Resolve(tab) == tab.terminalLayout
  {
    var ids := PaneIds(tab);
    if LayoutFits(tab) {
      MatchesIsPermutation(Leaves(tab.terminalLayout.value), ids);
    } else {
      DefaultShowsAll(ids);
      DefaultIsWellShaped(ids);
    }
  }

  lemma DefaultIsWellShaped(ids: seq<string>)
    requires 0 < |ids| <= MAXIMUM_SSH_TERMINAL_PANES && forall i :: 0 <= i < |ids| ==> |ids[i]| > 0
    ensures WellShaped(CreateDefaultTerminalSplitLayout(ids))
  {
  }

  // ----- Counting panes -----

  lemma {:induction false} WithoutCounts(s: seq<string>, id: string)
    ensures multiset(Without(s, id)) == multiset(s)[id := 0]
  {
    if s == [] {
      assert multiset(s)[id := 0] == multiset(s);
    } else {
      WithoutCounts(s[1..], id);
      assert s == [s[0]] + s[1..];
    }
  }

  lemma {:induction false} InsertedCounts(s: seq<string>, target: string, added: string)
    requires target in s
    ensures multiset(InsertedAfter(s, target, added)) == multiset(s) + multiset{added}
  {
    assert s == [s[0]] + s[1..];
    if s[0] != target {
      InsertedCounts(s[1..], target, added);
    }
  }

  lemma {:induction false} RenamedCounts(s: seq<string>, id: string, replacement: string, x: string)
    requires replacement !in s
    ensures multiset(Renamed(s, id, replacement))[x]
            == if x == replacement then multiset(s)[id] else if x == id then 0 else multiset(s)[x]
  {
    if s != [] {
      RenamedCounts(s[1..], id, replacement, x);
      assert s == [s[0]] + s[1..];
    }
  }

  lemma RenamedSameCounts(s: seq<string>, t: seq<string>, id: string, replacement: string)
    requires multiset(s) == multiset(t) && replacement !in s
    ensures multiset(Renamed(s, id, replacement)) == multiset(Renamed(t, id, replacement))
  {
    assert replacement !in t by { assert replacement !in multiset(s); }
    forall x
      ensures multiset(Renamed(s, id, replacement))[x] == multiset(Renamed(t, id, replacement))[x]
    {
      RenamedCounts(s, id, replacement, x);
      RenamedCounts(t, id, replacement, x);
    }
  }

  lemma {:induction false} WithoutIsPart(s: seq<string>, id: string)
    ensures Distinct(s) ==> Distinct(Without(s, id))
    ensures forall x :: x in Without(s, id) <==> x in s && x != id
    ensures id !in s ==> Without(s, id) == s
    ensures |Without(s, id)| <= |s|
  {
    if s != [] {
      var rest := s[1..];
      WithoutIsPart(rest, id);
      assert s == [s[0]] + rest;
      if Distinct(s) {
        assert forall i :: 0 <= i < |rest| ==> rest[i] == s[i + 1];
        assert Distinct(rest);
        assert s[0] !in rest;
      }
    }
  }

  lemma {:induction false} RenamedKeepsDistinct(s: seq<string>, id: string, replacement: string)
    requires Distinct(s) && replacement !in s
    ensures |Renamed(s, id, replacement)| == |s|
    ensures forall i :: 0 <= i < |s| ==> Renamed(s, id, replacement)[i] == if s[i] == id then replacement else s[i]
    ensures Distinct(Renamed(s, id, replacement))
  {
    if s != [] {
      RenamedKeepsDistinct(s[1..], id, replacement);
    }
  }

  // ----- What each action does to the panes -----

  lemma ReplacePanes(tab: Tab, id: string, replacement: string)
    ensures PaneIds(ReplaceUpdate(tab, id, replacement)) == Renamed(PaneIds(tab), id, replacement)
  {
    RenamedConcat(if tab.terminal.Some? then [tab.terminal.value] else [], tab.additionalTerminals, id, replacement);
  }

  /** Closing removes exactly the closed pane, and a closed primary is replaced by the next
      pane in order. */
  lemma ClosePanes(tab: Tab, id: string)
    requires PanesGood(tab) && id in PaneIds(tab) && |PaneIds(tab)| > 1
    ensures PaneIds(CloseUpdate(tab, id, PromotedFor(tab, id))) == Without(PaneIds(tab), id)
    ensures CloseUpdate(tab, id, PromotedFor(tab, id)).terminal.Some?
  {
    WithoutFirst(tab.terminal.value, tab.additionalTerminals, id);
    if tab.terminal.value == id {
      FirstToFront(tab.additionalTerminals);
    }
  }

  lemma DistinctRest(p: string, rest: seq<string>)
    requires Distinct([p] + rest)
    ensures Distinct(rest) && p !in rest
  {
    var all := [p] + rest;
    assert forall i :: 0 <= i < |rest| ==> rest[i] == all[i + 1];
    forall i | 0 <= i < |rest|
      ensures rest[i] != p
    {
      assert all[0] != all[i + 1];
    }
  }

  lemma WithoutFirst(p: string, rest: seq<string>, id: string)
    requires Distinct([p] + rest)
    ensures Without([p] + rest, id) == if p == id then rest else [p] + Without(rest, id)
    ensures Distinct(rest) && p !in rest
  {
    hide Distinct;
    DistinctRest(p, rest);
    assert ([p] + rest)[1..] == rest;
    if p == id {
      WithoutIsPart(rest, id);
    }
  }

  lemma FirstToFront(rest: seq<string>)
    requires Distinct(rest) && |rest| > 0
    ensures [rest[0]] + Without(rest, rest[0]) == rest
  {
    assert rest == [rest[0]] + rest[1..];
    WithoutFirst(rest[0], rest[1..], rest[0]);
  }

  /** The promoted pane is read before the terminal is closed and used after it. Whatever was
      promoted, the update leaves exactly the other panes if and only if a closed primary is
      replaced by a pane that is still open. */
  lemma ClosingWithAnyPromotion(tab: Tab, id: string, promoted: Option<string>)
    requires PanesGood(tab) && id in PaneIds(tab)
    ensures multiset(PaneIds(CloseUpdate(tab, id, promoted))) == multiset(Without(PaneIds(tab), id))
            <==> (tab.terminal == Some(id) ==> promoted.Some? && promoted.value in tab.additionalTerminals)
  {
    var p, rest := tab.terminal.value, tab.additionalTerminals;
    var panes := PaneIds(CloseUpdate(tab, id, promoted));
    WithoutFirst(p, rest, id);
    if p != id {
      assert panes == [p] + Without(rest, id);
    } else if promoted.None? {
      assert p in multiset(panes) && p !in multiset(rest);
    } else {
      assert panes == [promoted.value] + Without(rest, promoted.value);
      FrontCounts(rest, promoted.value);
    }
  }

  lemma FrontCounts(rest: seq<string>, q: string)
    requires Distinct(rest)
    ensures multiset([q] + Without(rest, q)) == multiset(rest) <==> q in rest
  {
    DistinctMultiset(rest, q);
    WithoutCounts(rest, q);
    assert multiset([q] + Without(rest, q)) == multiset{q} + multiset(rest)[q := 0];
    if q in rest {
      assert multiset{q} + multiset(rest)[q := 0] == multiset(rest);
    } else {
      assert (multiset{q} + multiset(rest)[q := 0])[q] == 1 && multiset(rest)[q] == 0;
    }
  }

  // ----- One action keeps the invariant -----

  predicate FitsAfter(tab: Tab) {
    PanesGood(tab) && LayoutGood(tab) && LayoutFits(tab)
  }

  lemma FitsIfCounted(tab: Tab)
    requires PanesGood(tab) && tab.terminalLayout.Some?
    requires multiset(Leaves(tab.terminalLayout.value)) == multiset(PaneIds(tab))
    ensures LayoutFits(tab)
  {
    MatchesIsPermutation(Leaves(tab.terminalLayout.value), PaneIds(tab));
  }

  lemma {:induction false} SplitKeepsShape(layout: Layout, target: string, added: string, orientation: Orientation)
    requires WellShaped(layout) && |added| > 0
    ensures WellShaped(SplitTerminalLayout(layout, target, added, orientation))
  {
    if layout.Split? {
      SplitKeepsShape(layout.first, target, added, orientation);
      SplitKeepsShape(layout.second, target, added, orientation);
    }
  }

  lemma {:induction false} RemoveKeepsShape(layout: Layout, id: string)
    requires WellShaped(layout)
    ensures RemoveTerminalFromLayout(layout, id).Some? ==> WellShaped(RemoveTerminalFromLayout(layout, id).value)
  {
    if layout.Split? {
      RemoveKeepsShape(layout.first, id);
      RemoveKeepsShape(layout.second, id);
    }
  }

  lemma {:induction false} ReplaceKeepsShape(layout: Layout, id: string, replacement: string)
    requires WellShaped(layout) && |replacement| > 0
    ensures WellShaped(ReplaceTerminalInLayout(layout, id, replacement))
  {
    if layout.Split? {
      ReplaceKeepsShape(layout.first, id, replacement);
      ReplaceKeepsShape(layout.second, id, replacement);
    }
  }

  lemma SplitKeepsPanes(tab: Tab, target: string, added: string, orientation: Orientation)
    requires PanesGood(tab) && |PaneIds(tab)| < MAXIMUM_SSH_TERMINAL_PANES
    requires |added| > 0 && added !in PaneIds(tab)
    ensures PanesGood(SplitUpdate(tab, target, added, orientation))
    ensures PaneIds(SplitUpdate(tab, target, added, orientation)) == PaneIds(tab) + [added]
  {
    var ids := PaneIds(tab) + [added];
    assert PaneIds(SplitUpdate(tab, target, added, orientation)) == ids;
    forall i, j | 0 <= i < j < |ids|
      ensures ids[i] != ids[j]
    {
      assert ids[i] == PaneIds(tab)[i];
      assert PaneIds(tab)[i] in PaneIds(tab);
    }
  }

  lemma CloseKeepsPanes(tab: Tab, id: string)
    requires PanesGood(tab) && |PaneIds(tab)| > 1 && id in PaneIds(tab)
    ensures PanesGood(CloseUpdate(tab, id, PromotedFor(tab, id)))
  {
    hide CloseUpdate;
    ClosePanes(tab, id);
    WithoutIsPart(PaneIds(tab), id);
    var left := Without(PaneIds(tab), id);
    forall i | 0 <= i < |left|
      ensures |left[i]| > 0
    {
      assert left[i] in left;
    }
    assert PaneIds(CloseUpdate(tab, id, PromotedFor(tab, id))) == left;
  }

  lemma ReplaceKeepsPanes(tab: Tab, id: string, replacement: string)
    requires PanesGood(tab) && |replacement| > 0 && replacement !in PaneIds(tab)
    ensures PanesGood(ReplaceUpdate(tab, id, replacement))
  {
    ReplacePanes(tab, id, replacement);
    RenamedKeepsDistinct(PaneIds(tab), id, replacement);
  }

  lemma SplitKeeps(tab: Tab, target: string, added: string, orientation: Orientation)
    requires PanesGood(tab) && LayoutGood(tab)
    requires |PaneIds(tab)| < MAXIMUM_SSH_TERMINAL_PANES && target in PaneIds(tab)
    requires |added| > 0 && added !in PaneIds(tab)
    ensures FitsAfter(SplitUpdate(tab, target, added, orientation))
  {
    hide PanesGood, Distinct;
    GoodTabShowsEachPaneOnce(tab);
    var layout := Resolve(tab).value;
    var tab' := SplitUpdate(tab, target, added, orientation);
    SplitKeepsPanes(tab, target, added, orientation);
    assert target in multiset(Leaves(layout)) by { assert target in multiset(PaneIds(tab)); }
    SplitLeaves(layout, target, added, orientation);
    InsertedCounts(Leaves(layout), target, added);
    SplitKeepsShape(layout, target, added, orientation);
    FitsIfCounted(tab');
  }

  lemma CloseKeeps(tab: Tab, id: string)
    requires PanesGood(tab) && LayoutGood(tab)
    requires |PaneIds(tab)| > 1 && id in PaneIds(tab)
    ensures FitsAfter(CloseUpdate(tab, id, PromotedFor(tab, id)))
  {
    hide PanesGood, Distinct;
    GoodTabShowsEachPaneOnce(tab);
    var layout := Resolve(tab).value;
    var tab' := CloseUpdate(tab, id, PromotedFor(tab, id));
    ClosePanes(tab, id);
    CloseKeepsPanes(tab, id);
    WithoutCounts(PaneIds(tab), id);
    WithoutCounts(Leaves(layout), id);
    RemoveLeaves(layout, id);
    RemoveKeepsShape(layout, id);
    assert multiset(LeavesOrNone(tab'.terminalLayout)) == multiset(PaneIds(tab'));
    assert |LeavesOrNone(tab'.terminalLayout)| == |multiset(PaneIds(tab'))| > 0;
    FitsIfCounted(tab');
  }

  lemma ReplaceKeeps(tab: Tab, id: string, replacement: string)
    requires PanesGood(tab) && LayoutGood(tab)
    requires |replacement| > 0 && replacement !in PaneIds(tab)
    ensures FitsAfter(ReplaceUpdate(tab, id, replacement))
  {
    hide PanesGood, Distinct;
    GoodTabShowsEachPaneOnce(tab);
    var layout := Resolve(tab).value;
    var tab' := ReplaceUpdate(tab, id, replacement);
    ReplacePanes(tab, id, replacement);
    ReplaceKeepsPanes(tab, id, replacement);
    RenamedSameCounts(PaneIds(tab), Leaves(layout), id, replacement);
    ReplaceLeaves(layout, id, replacement);
    ReplaceKeepsShape(layout, id, replacement);
    FitsIfCounted(tab');
  }

  /** Resizing keeps a tab good exactly when the ratio is a number or the path leads nowhere. */
  lemma ResizeKeeps(tab: Tab, path: seq<int>, ratio: Number)
    requires PanesGood(tab) && LayoutGood(tab)
    ensures PanesGood(ResizeUpdate(tab, path, ratio)) && LayoutFits(ResizeUpdate(tab, path, ratio))
    ensures LayoutGood(ResizeUpdate(tab, path, ratio))
            <==> !(ratio.NaN? && RatioAt(Resolve(tab).value, path).Some?)
  {
    GoodTabShowsEachPaneOnce(tab);
    var layout := Resolve(tab).value;
    ResizeChangesOneRatio(layout, path, ratio, path);
    ResizeKeepsShape(layout, path, ratio);
    assert PaneIds(ResizeUpdate(tab, path, ratio)) == PaneIds(tab);
    FitsIfCounted(ResizeUpdate(tab, path, ratio));
  }

  /** One action keeps the invariant, and a stored layout that fits keeps fitting, so the
      default never replaces it. */
  lemma ApplyKeeps(tab: Tab, op: Op)
    requires PanesGood(tab) && LayoutGood(tab) && OpGood(tab, op)
    ensures PanesGood(Apply(tab, op)) && LayoutGood(Apply(tab, op))
    ensures LayoutFits(tab) || Apply(tab, op) != tab ==> LayoutFits(Apply(tab, op))
  {
    match op
    case SplitPane(target, added, orientation) =>
      if |PaneIds(tab)| < MAXIMUM_SSH_TERMINAL_PANES && target in PaneIds(tab) {
        SplitKeeps(tab, target, added, orientation);
      }
    case ClosePane(id) =>
      if |PaneIds(tab)| > 1 && id in PaneIds(tab) {
        CloseKeeps(tab, id);
      }
    case SetX11(id, replacement) =>
      if id in PaneIds(tab) {
        ReplaceKeeps(tab, id, replacement);
      }
    case Resize(path, ratio) =>
      ResizeKeeps(tab, path, ratio);
  }

  // ----- Every run -----

  function Run(tab: Tab, ops: seq<Op>): Tab
    decreases |ops|
  {
    if ops == [] then tab else Run(Apply(tab, ops[0]), ops[1..])
  }

  predicate RunGood(tab: Tab, ops: seq<Op>)
    decreases |ops|
  {
    ops == [] || (OpGood(tab, ops[0]) && RunGood(Apply(tab, ops[0]), ops[1..]))
  }

  /** Main result: after any run of actions the tab shows each of its one to four panes exactly
      once, in a layout that the validator of a detached window accepts. */
  lemma {:induction false} RunShowsEachPaneOnce(tab: Tab, ops: seq<Op>)
    requires PanesGood(tab) && LayoutGood(tab) && RunGood(tab, ops)
    ensures PanesGood(Run(tab, ops)) && ShowsEachPaneOnce(Run(tab, ops))
    ensures LayoutFits(tab) ==> Resolve(Run(tab, ops)) == Run(tab, ops).terminalLayout
    decreases |ops|
  {
    if ops == [] {
      GoodTabShowsEachPaneOnce(tab);
    } else {
      ApplyKeeps(tab, ops[0]);
      RunShowsEachPaneOnce(Apply(tab, ops[0]), ops[1..]);
    }
  }

  // ----- Where the panes are shown -----

  /** A split shows the new pane beside its target and leaves every other pane in its place. */
  lemma SplitShown(tab: Tab, path: seq<int>, target: string, added: string, orientation: Orientation)
    requires PanesGood(tab) && LayoutGood(tab) && |PaneIds(tab)| < 4
    requires OnlyAt(Resolve(tab).value, path, target) && |added| > 0 && added !in PaneIds(tab)
    ensures Resolve(SplitUpdate(tab, target, added, orientation))
            == Some(Put(Resolve(tab).value, path, Split(orientation, Finite(0.5), Terminal(target), Terminal(added))))
  {
    GoodTabShowsEachPaneOnce(tab);
    ShownIsPane(tab, path, target);
    SplitKeeps(tab, target, added, orientation);
    SplitsInPlace(Resolve(tab).value, path, target, added, orientation);
  }

  lemma ShownIsPane(tab: Tab, path: seq<int>, id: string)
    requires ShowsEachPaneOnce(tab) && OnlyAt(Resolve(tab).value, path, id)
    ensures id in PaneIds(tab)
  {
    TargetIsShown(Resolve(tab).value, path, id);
    assert id in multiset(Leaves(Resolve(tab).value));
  }

  /** Closing gives the pane's place to the other half of its split. */
  lemma CloseShown(tab: Tab, path: seq<int>, id: string)
    requires PanesGood(tab) && LayoutGood(tab) && |PaneIds(tab)| > 1
    requires OnlyAt(Resolve(tab).value, path, id)
    ensures path != []
    ensures var above := path[..|path| - 1];
            var sibling := SubtreeAt(Resolve(tab).value, above + [if path[|path| - 1] == 0 then 1 else 0]);
            sibling.Some? && Resolve(CloseUpdate(tab, id, PromotedFor(tab, id)))
                             == Some(Put(Resolve(tab).value, above, sibling.value))
  {
    GoodTabShowsEachPaneOnce(tab);
    ShownIsPane(tab, path, id);
    CloseKeeps(tab, id);
    RemovesInPlace(Resolve(tab).value, path, id);
    assert |multiset(Leaves(Resolve(tab).value))| == |Leaves(Resolve(tab).value)|;
    assert |multiset(PaneIds(tab))| == |PaneIds(tab)|;
  }

  lemma ReplaceShown(tab: Tab, path: seq<int>, id: string, replacement: string)
    requires PanesGood(tab) && LayoutGood(tab) && OnlyAt(Resolve(tab).value, path, id)
    requires |replacement| > 0 && replacement !in PaneIds(tab)
    ensures Resolve(ReplaceUpdate(tab, id, replacement)) == Some(Put(Resolve(tab).value, path, Terminal(replacement)))
  {
    GoodTabShowsEachPaneOnce(tab);
    ReplaceKeeps(tab, id, replacement);
    ReplacesInPlace(Resolve(tab).value, path, id, replacement);
  }

  lemma ResizeShown(tab: Tab, path: seq<int>, ratio: Number)
    requires PanesGood(tab) && LayoutGood(tab)
    ensures Resolve(ResizeUpdate(tab, path, ratio))
            == Some(WithRatioAt(Resolve(tab).value, path, ClampTerminalSplitRatio(ratio)))
  {
    ResizeKeeps(tab, path, ratio);
    ResizesInPlace(Resolve(tab).value, path, ratio);
  }
}
