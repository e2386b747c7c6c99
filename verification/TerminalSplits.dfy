/** Split-pane layouts, src/shared/terminalSplits.ts. */
module TerminalSplits {
  import opened Bytes

  datatype Orientation = Columns | Rows

  /** A JavaScript number, as far as a ratio can be one. */
  datatype Number = NaN | NegativeInfinity | PositiveInfinity | Finite(value: real)

  datatype Layout =
    | Terminal(terminalId: string)
    | Split(orientation: Orientation, ratio: Number, first: Layout, second: Layout)

  const MAXIMUM_SSH_TERMINAL_PANES: nat := 4

  function Leaves(layout: Layout): (r: seq<string>)
    ensures |r| > 0
  {
    match layout
    case Terminal(id) => [id]
    case Split(_, _, first, second) => Leaves(first) + Leaves(second)
  }

  // ----- Layout operations -----

  function SplitTerminalLayout(layout: Layout, target: string, added: string, orientation: Orientation): Layout {
    match layout
    case Terminal(id) =>
      if id != target then layout
      else Split(orientation, Finite(0.5), layout, Terminal(added))
    case Split(_, _, _, _) =>
      var first := SplitTerminalLayout(layout.first, target, added, orientation);
      if first != layout.first then layout.(first := first)
      else layout.(second := SplitTerminalLayout(layout.second, target, added, orientation))
  }

  function RemoveTerminalFromLayout(layout: Layout, terminalId: string): Option<Layout> {
    match layout
    case Terminal(id) => if id == terminalId then None else Some(layout)
    case Split(_, _, _, _) =>
      var first := RemoveTerminalFromLayout(layout.first, terminalId);
      var second := RemoveTerminalFromLayout(layout.second, terminalId);
      if first.None? then second
      else if second.None? then first
      else Some(layout.(first := first.value, second := second.value))
  }

  function ReplaceTerminalInLayout(layout: Layout, terminalId: string, replacement: string): Layout {
    match layout
    case Terminal(id) => if id == terminalId then Terminal(replacement) else layout
    case Split(_, _, _, _) =>
      layout.(first := ReplaceTerminalInLayout(layout.first, terminalId, replacement),
              second := ReplaceTerminalInLayout(layout.second, terminalId, replacement))
  }

  function ClampTerminalSplitRatio(ratio: Number): Number {
    match ratio
    case NaN => NaN
    case NegativeInfinity => Finite(0.22)
    case PositiveInfinity => Finite(0.78)
    case Finite(r) => Finite(if r < 0.22 then 0.22 else if r > 0.78 then 0.78 else r)
  }

  function UpdateTerminalSplitRatio(layout: Layout, path: seq<int>, ratio: Number): Layout
    decreases layout
  {
    if layout.Terminal? then layout
    else if path == [] then layout.(ratio := ClampTerminalSplitRatio(ratio))
    else if path[0] == 0 then layout.(first := UpdateTerminalSplitRatio(layout.first, path[1..], ratio))
    else layout.(second := UpdateTerminalSplitRatio(layout.second, path[1..], ratio))
  }

  function SplitBranch(orientation: Orientation, first: Layout, second: Layout): Layout {
    Split(orientation, Finite(0.5), first, second)
  }

  function CreateDefaultTerminalSplitLayout(ids: seq<string>): Layout
    requires |ids| > 0
  {
    if |ids| == 1 then Terminal(ids[0])
    else if |ids| == 2 then SplitBranch(Columns, Terminal(ids[0]), Terminal(ids[1]))
    else if |ids| == 3 then
      SplitBranch(Columns, Terminal(ids[0]), SplitBranch(Rows, Terminal(ids[1]), Terminal(ids[2])))
    else
      SplitBranch(Columns, SplitBranch(Rows, Terminal(ids[0]), Terminal(ids[1])),
                           SplitBranch(Rows, Terminal(ids[2]), Terminal(ids[3])))
  }

  /** The default layout shows every pane exactly when there are at most four. */
  lemma DefaultShowsAll(ids: seq<string>)
    requires |ids| > 0
    ensures Leaves(CreateDefaultTerminalSplitLayout(ids)) == ids <==> |ids| <= 4
  {
    if |ids| == 1 {
      assert ids == [ids[0]];
    } else if |ids| == 2 {
      assert ids == [ids[0]] + [ids[1]];
    } else if |ids| == 3 {
      var right := SplitBranch(Rows, Terminal(ids[1]), Terminal(ids[2]));
      assert Leaves(right) == [ids[1]] + [ids[2]];
      assert ids == [ids[0]] + ([ids[1]] + [ids[2]]);
    } else {
      var left := SplitBranch(Rows, Terminal(ids[0]), Terminal(ids[1]));
      var right := SplitBranch(Rows, Terminal(ids[2]), Terminal(ids[3]));
      assert Leaves(left) == [ids[0]] + [ids[1]] && Leaves(right) == [ids[2]] + [ids[3]];
      assert Leaves(SplitBranch(Columns, left, right)) == ([ids[0]] + [ids[1]]) + ([ids[2]] + [ids[3]]);
      assert |ids| == 4 ==> ids == ([ids[0]] + [ids[1]]) + ([ids[2]] + [ids[3]]);
    }
  }

  // ----- What the operations do to the leaves -----

  function InsertedAfter(ids: seq<string>, target: string, added: string): seq<string> {
    if ids == [] then []
    else if ids[0] == target then [target, added] + ids[1..]
    else [ids[0]] + InsertedAfter(ids[1..], target, added)
  }

  lemma {:induction false} InsertedLength(ids: seq<string>, target: string, added: string)
    ensures |InsertedAfter(ids, target, added)| == |ids| + if target in ids then 1 else 0
    ensures target !in ids ==> InsertedAfter(ids, target, added) == ids
  {
    if ids != [] {
      InsertedLength(ids[1..], target, added);
      assert ids == [ids[0]] + ids[1..];
    }
  }

  lemma {:induction false} InsertedConcat(a: seq<string>, b: seq<string>, target: string, added: string)
    ensures InsertedAfter(a + b, target, added)
            == if target in a then InsertedAfter(a, target, added) + b else a + InsertedAfter(b, target, added)
  {
    if a == [] {
      assert a + b == b;
    } else {
      var rest := a[1..];
      assert (a + b)[1..] == rest + b;
      InsertedConcat(rest, b, target, added);
      assert a == [a[0]] + rest;
      if a[0] == target {
        assert [target, added] + (rest + b) == ([target, added] + rest) + b;
      } else if target in rest {
        assert [a[0]] + (InsertedAfter(rest, target, added) + b) == ([a[0]] + InsertedAfter(rest, target, added)) + b;
      } else {
        assert [a[0]] + (rest + InsertedAfter(b, target, added)) == a + InsertedAfter(b, target, added);
      }
    }
  }

  /** Splitting shows the new pane once, right after the target, and changes the layout
      exactly when the target is shown. */
  lemma {:induction false} SplitLeaves(layout: Layout, target: string, added: string, orientation: Orientation)
    ensures Leaves(SplitTerminalLayout(layout, target, added, orientation))
            == InsertedAfter(Leaves(layout), target, added)
    ensures SplitTerminalLayout(layout, target, added, orientation) != layout <==> target in Leaves(layout)
  {
    match layout
    case Terminal(id) =>
    case Split(_, _, first, second) =>
      SplitLeaves(first, target, added, orientation);
      SplitLeaves(second, target, added, orientation);
      InsertedConcat(Leaves(first), Leaves(second), target, added);
      InsertedLength(Leaves(first), target, added);
  }

  function Without(ids: seq<string>, id: string): seq<string> {
    if ids == [] then []
    else (if ids[0] == id then [] else [ids[0]]) + Without(ids[1..], id)
  }

  function Renamed(ids: seq<string>, id: string, replacement: string): seq<string> {
    if ids == [] then []
    else [if ids[0] == id then replacement else ids[0]] + Renamed(ids[1..], id, replacement)
  }

  lemma {:induction false} WithoutConcat(a: seq<string>, b: seq<string>, id: string)
    ensures Without(a + b, id) == Without(a, id) + Without(b, id)
  {
    if a == [] {
      assert a + b == b;
    } else {
      assert (a + b)[1..] == a[1..] + b;
      WithoutConcat(a[1..], b, id);
    }
  }

  lemma {:induction false} RenamedConcat(a: seq<string>, b: seq<string>, id: string, replacement: string)
    ensures Renamed(a + b, id, replacement) == Renamed(a, id, replacement) + Renamed(b, id, replacement)
  {
    if a == [] {
      assert a + b == b;
    } else {
      assert (a + b)[1..] == a[1..] + b;
      RenamedConcat(a[1..], b, id, replacement);
    }
  }

  function LeavesOrNone(layout: Option<Layout>): seq<string> {
    if layout.None? then [] else Leaves(layout.value)
  }

  /** Removing keeps the other panes in their order; nothing is left exactly when there were
      no others. */
  lemma {:induction false} RemoveLeaves(layout: Layout, id: string)
    ensures LeavesOrNone(RemoveTerminalFromLayout(layout, id)) == Without(Leaves(layout), id)
  {
    if layout.Split? {
      RemoveLeaves(layout.first, id);
      RemoveLeaves(layout.second, id);
      WithoutConcat(Leaves(layout.first), Leaves(layout.second), id);
    }
  }

  lemma {:induction false} ReplaceLeaves(layout: Layout, id: string, replacement: string)
    ensures Leaves(ReplaceTerminalInLayout(layout, id, replacement)) == Renamed(Leaves(layout), id, replacement)
  {
    if layout.Split? {
      ReplaceLeaves(layout.first, id, replacement);
      ReplaceLeaves(layout.second, id, replacement);
      RenamedConcat(Leaves(layout.first), Leaves(layout.second), id, replacement);
    }
  }

  /** The ratio of the split that a path leads to, if it leads to one. */
  function RatioAt(layout: Layout, path: seq<int>): Option<Number>
    decreases layout
  {
    if layout.Terminal? then None
    else if path == [] then Some(layout.ratio)
    else RatioAt(if path[0] == 0 then layout.first else layout.second, path[1..])
  }

  /** Two paths name the same split: any step but 0 goes to the second branch. */
  predicate SamePath(p: seq<int>, q: seq<int>) {
    |p| == |q| && forall i :: 0 <= i < |p| ==> (p[i] == 0 <==> q[i] == 0)
  }

  /** Resizing changes the ratio at one split and nothing else. */
  lemma {:induction false} ResizeChangesOneRatio(layout: Layout, path: seq<int>, ratio: Number, other: seq<int>)
    ensures Leaves(UpdateTerminalSplitRatio(layout, path, ratio)) == Leaves(layout)
    ensures RatioAt(UpdateTerminalSplitRatio(layout, path, ratio), other)
            == if SamePath(path, other) && RatioAt(layout, path).Some?
               then Some(ClampTerminalSplitRatio(ratio)) else RatioAt(layout, other)
    decreases layout
  {
    if layout.Split? && path != [] {
      var branch := if path[0] == 0 then layout.first else layout.second;
      ResizeChangesOneRatio(branch, path[1..], ratio, if other == [] then [] else other[1..]);
      if other != [] && |path| == |other| && (path[0] == 0 <==> other[0] == 0) {
        assert SamePath(path, other) <==> SamePath(path[1..], other[1..]) by {
          if SamePath(path[1..], other[1..]) {
            forall i | 0 <= i < |path| ensures path[i] == 0 <==> other[i] == 0 {
              if i > 0 { assert path[1..][i - 1] == path[i] && other[1..][i - 1] == other[i]; }
            }
          }
        }
      }
    }
  }

  // ----- The validator of a layout that came from outside -----

  predicate ValidRatio(ratio: Number) {
    ratio.Finite? && 0.1 <= ratio.value <= 0.9
  }

  predicate WellShaped(layout: Layout) {
    match layout
    case Terminal(id) => |id| > 0
    case Split(_, ratio, first, second) => ValidRatio(ratio) && WellShaped(first) && WellShaped(second)
  }

  function Height(layout: Layout): nat {
    match layout
    case Terminal(_) => 0
    case Split(_, _, first, second) =>
      1 + if Height(first) > Height(second) then Height(first) else Height(second)
  }

  lemma {:induction false} HeightBelowLeaves(layout: Layout)
    ensures Height(layout) < |Leaves(layout)|
  {
    if layout.Split? {
      HeightBelowLeaves(layout.first);
      HeightBelowLeaves(layout.second);
    }
  }

  class LeafCounter {
    var leaves: nat

    constructor ()
      ensures leaves == 0
    {
      leaves := 0;
    }
  }

  /** A value of unknown type; arrays are objects without the fields that matter here. */
  datatype JsValue =
    | Undefined
    | Null
    | Boolean(b: bool)
    | Num(n: Number)
    | Str(s: string)
    | Object(fields: map<string, JsValue>)

  function Field(value: JsValue, name: string): JsValue
    requires value.Object?
  {
    if name in value.fields then value.fields[name] else Undefined
  }

  /** The layout that a value denotes, if any. */
  function ReadLayout(value: JsValue): Option<Layout> {
    if !value.Object? then None
    else if Field(value, "type") == Str("terminal") then
      if Field(value, "terminalId").Str? then Some(Terminal(Field(value, "terminalId").s)) else None
    else if Field(value, "type") == Str("split") && "first" in value.fields && "second" in value.fields then
      var orientation, ratio := ReadOrientation(Field(value, "orientation")), Field(value, "ratio");
      var first, second := ReadLayout(value.fields["first"]), ReadLayout(value.fields["second"]);
      if orientation.Some? && ratio.Num? && first.Some? && second.Some?
      then Some(Split(orientation.value, ratio.n, first.value, second.value)) else None
    else None
  }

  function ReadOrientation(value: JsValue): Option<Orientation> {
    if value == Str("columns") then Some(Columns) else if value == Str("rows") then Some(Rows) else None
  }

  /** How a layout is stored. */
  function WriteLayout(layout: Layout): JsValue {
    match layout
    case Terminal(id) => Object(map["type" := Str("terminal"), "terminalId" := Str(id)])
    case Split(orientation, ratio, first, second) =>
      Object(map["type" := Str("split"), "orientation" := Str(if orientation.Columns? then "columns" else "rows"),
                 "ratio" := Num(ratio), "first" := WriteLayout(first), "second" := WriteLayout(second)])
  }

  lemma {:induction false} LayoutReadsBack(layout: Layout)
    ensures ReadLayout(WriteLayout(layout)) == Some(layout)
  {
    if layout.Split? {
      LayoutReadsBack(layout.first);
      LayoutReadsBack(layout.second);
    }
  }

  method ValidateTerminalSplitLayout(value: JsValue, depth: nat, state: LeafCounter) returns (ok: bool)
    modifies state
    ensures ok <==> && ReadLayout(value).Some?
                    && depth + Height(ReadLayout(value).value) <= MAXIMUM_SSH_TERMINAL_PANES
                    && old(state.leaves) + |Leaves(ReadLayout(value).value)| <= MAXIMUM_SSH_TERMINAL_PANES
                    && WellShaped(ReadLayout(value).value)
    ensures ok ==> state.leaves == old(state.leaves) + |Leaves(ReadLayout(value).value)|
    decreases value
  {
    if depth > MAXIMUM_SSH_TERMINAL_PANES || state.leaves > MAXIMUM_SSH_TERMINAL_PANES {
      return false;
    }
    if !value.Object? {
      return false;
    }
    if Field(value, "type") == Str("terminal") {
      state.leaves := state.leaves + 1;
      return state.leaves <= MAXIMUM_SSH_TERMINAL_PANES
             && Field(value, "terminalId").Str? && |Field(value, "terminalId").s| > 0;
    }
    var orientation, ratio := Field(value, "orientation"), Field(value, "ratio");
    if !(&& Field(value, "type") == Str("split")
         && (orientation == Str("columns") || orientation == Str("rows"))
         && ratio.Num? && ValidRatio(ratio.n)
         && "first" in value.fields && "second" in value.fields)
    {
      return false;
    }
    ok := ValidateTerminalSplitLayout(value.fields["first"], depth + 1, state);
    if ok {
      ok := ValidateTerminalSplitLayout(value.fields["second"], depth + 1, state);
    }
  }

  predicate Acceptable(layout: Layout) {
    |Leaves(layout)| <= 4 && WellShaped(layout)
  }

  /** The mutable leaf count and the depth limit amount to: the value denotes a layout of at most
      four panes, each with an id, and with ratios in range. */
  method IsTerminalSplitLayout(value: JsValue) returns (ok: bool)
    ensures ok <==> ReadLayout(value).Some? && Acceptable(ReadLayout(value).value)
  {
    var state := new LeafCounter();
    ok := ValidateTerminalSplitLayout(value, 0, state);
    if ReadLayout(value).Some? {
      HeightBelowLeaves(ReadLayout(value).value);
    }
  }

  lemma {:induction false} ResizeKeepsShape(layout: Layout, path: seq<int>, ratio: Number)
    requires WellShaped(layout)
    ensures WellShaped(UpdateTerminalSplitRatio(layout, path, ratio))
            <==> !(ratio.NaN? && RatioAt(layout, path).Some?)
    decreases layout
  {
    if layout.Split? && path != [] {
      ResizeKeepsShape(if path[0] == 0 then layout.first else layout.second, path[1..], ratio);
    }
  }

  // ----- Comparing a layout with the panes of its tab -----

  class IdList {
    var items: seq<string>

    constructor ()
      ensures items == []
    {
      items := [];
    }
  }

  method CollectLayoutTerminalIds(layout: Layout, ids: IdList)
    modifies ids
    ensures ids.items == old(ids.items) + Leaves(layout)
    decreases layout
  {
    match layout
    case Terminal(id) =>
      ids.items := ids.items + [id];
    case Split(_, _, first, second) =>
      CollectLayoutTerminalIds(first, ids);
      CollectLayoutTerminalIds(second, ids);
  }

  function ToSet(s: seq<string>): set<string> {
    set x | x in s
  }

  predicate Matches(layoutIds: seq<string>, ids: seq<string>) {
    && |layoutIds| == |ids|
    && |ToSet(layoutIds)| == |ToSet(ids)|
    && forall i :: 0 <= i < |layoutIds| ==> layoutIds[i] in ToSet(ids)
  }

  method LayoutMatchesTerminalIds(layout: Layout, ids: seq<string>) returns (ok: bool)
    ensures ok <==> Matches(Leaves(layout), ids)
  {
    var list := new IdList();
    CollectLayoutTerminalIds(layout, list);
    assert list.items == Leaves(layout);
    if |list.items| != |ids| {
      return false;
    }
    var expected := ToSet(ids);
    ok := |ToSet(list.items)| == |expected| && forall i :: 0 <= i < |list.items| ==> list.items[i] in expected;
  }

  predicate Distinct(s: seq<string>) {
    forall i, j :: 0 <= i < j < |s| ==> s[i] != s[j]
  }

  lemma {:induction false} SetSize(s: seq<string>)
    ensures |ToSet(s)| <= |s|
    ensures |ToSet(s)| == |s| <==> Distinct(s)
  {
    if s != [] {
      var init, last := s[..|s| - 1], s[|s| - 1];
      SetSize(init);
      assert ToSet(s) == ToSet(init) + {last};
      if last in init {
        assert ToSet(s) == ToSet(init);
        var i :| 0 <= i < |init| && init[i] == last;
        assert s[i] == s[|s| - 1];
      } else {
        assert Distinct(init) ==> Distinct(s);
        assert Distinct(s) ==> Distinct(init);
      }
    }
  }

  lemma {:induction false} DistinctMultiset(s: seq<string>, x: string)
    requires Distinct(s)
    ensures multiset(s)[x] == if x in s then 1 else 0
  {
    if s != [] {
      var init, last := s[..|s| - 1], s[|s| - 1];
      assert s == init + [last];
      assert last !in init;
      DistinctMultiset(init, x);
    }
  }

  lemma SubsetSameSize(a: set<string>, b: set<string>)
    requires a <= b && |a| == |b|
    ensures a == b
  {
    assert |b - a| == 0;
  }

  /** For distinct panes the comparison means: each pane is shown exactly once, no other is. */
  lemma MatchesIsPermutation(layoutIds: seq<string>, ids: seq<string>)
    requires Distinct(ids)
    ensures Matches(layoutIds, ids) <==> multiset(layoutIds) == multiset(ids)
  {
    SetSize(ids);
    SetSize(layoutIds);
    if Matches(layoutIds, ids) {
      assert ToSet(layoutIds) <= ToSet(ids);
      SubsetSameSize(ToSet(layoutIds), ToSet(ids));
      forall x
        ensures multiset(layoutIds)[x] == multiset(ids)[x]
      {
        DistinctMultiset(layoutIds, x);
        DistinctMultiset(ids, x);
        assert x in layoutIds <==> x in ToSet(layoutIds);
        assert x in ids <==> x in ToSet(ids);
      }
    }
    if multiset(layoutIds) == multiset(ids) {
      assert |layoutIds| == |multiset(layoutIds)| == |ids|;
      forall x
        ensures x in layoutIds <==> x in ids
      {
        assert x in layoutIds <==> x in multiset(layoutIds);
        assert x in ids <==> x in multiset(ids);
      }
      assert ToSet(layoutIds) == ToSet(ids);
    }
  }

  // ----- What the operations do to the tree -----

  /** The part of a layout at a path: 0 is the first half, all else the second. */
  function SubtreeAt(layout: Layout, path: seq<int>): Option<Layout>
    decreases path
  {
    if path == [] then Some(layout)
    else if layout.Terminal? then None
    else SubtreeAt(if path[0] == 0 then layout.first else layout.second, path[1..])
  }

  /** The layout with another part at a path, and otherwise the same. */
  function Put(layout: Layout, path: seq<int>, part: Layout): Layout
    decreases path
  {
    if path == [] then part
    else if layout.Terminal? then layout
    else if path[0] == 0 then Split(layout.orientation, layout.ratio, Put(layout.first, path[1..], part), layout.second)
    else Split(layout.orientation, layout.ratio, layout.first, Put(layout.second, path[1..], part))
  }

  /** A pane is shown at this place and nowhere else. */
  predicate OnlyAt(layout: Layout, path: seq<int>, id: string)
    decreases path
  {
    if path == [] then layout == Terminal(id)
    else
      && layout.Split?
      && (if path[0] == 0 then id !in Leaves(layout.second) && OnlyAt(layout.first, path[1..], id)
          else id !in Leaves(layout.first) && OnlyAt(layout.second, path[1..], id))
  }

  lemma {:induction false} PlaceOf(layout: Layout, id: string) returns (path: seq<int>)
    requires Distinct(Leaves(layout)) && id in Leaves(layout)
    ensures OnlyAt(layout, path, id) && SubtreeAt(layout, path) == Some(Terminal(id))
  {
    path := [];
    if layout.Split? {
      var a, b := Leaves(layout.first), Leaves(layout.second);
      DistinctParts(a, b, id);
      var rest;
      if id in a {
        rest := PlaceOf(layout.first, id);
        path := [0] + rest;
      } else {
        rest := PlaceOf(layout.second, id);
        path := [1] + rest;
      }
      assert path[1..] == rest;
    }
  }

  lemma DistinctParts(a: seq<string>, b: seq<string>, id: string)
    requires Distinct(a + b)
    ensures Distinct(a) && Distinct(b) && !(id in a && id in b)
  {
    forall i, j | 0 <= i < j < |a|
      ensures a[i] != a[j]
    {
      assert (a + b)[i] == a[i] && (a + b)[j] == a[j];
    }
    forall i, j | 0 <= i < j < |b|
      ensures b[i] != b[j]
    {
      assert (a + b)[|a| + i] == b[i] && (a + b)[|a| + j] == b[j];
    }
    forall i, j | 0 <= i < |a| && 0 <= j < |b|
      ensures a[i] != b[j]
    {
      assert (a + b)[i] == a[i] && (a + b)[|a| + j] == b[j];
    }
  }

  lemma {:induction false} AbsentIsUntouched(layout: Layout, id: string, other: string, orientation: Orientation)
    requires id !in Leaves(layout)
    ensures SplitTerminalLayout(layout, id, other, orientation) == layout
    ensures RemoveTerminalFromLayout(layout, id) == Some(layout)
    ensures ReplaceTerminalInLayout(layout, id, other) == layout
  {
    if layout.Split? {
      AbsentIsUntouched(layout.first, id, other, orientation);
      AbsentIsUntouched(layout.second, id, other, orientation);
    }
  }

  /** A split puts the target and the new pane, in this order and in equal parts, in the target's
      place, in the orientation asked for; all else stays as it is. */
  lemma {:induction false} SplitsInPlace(layout: Layout, path: seq<int>, target: string, added: string,
                                         orientation: Orientation)
    requires OnlyAt(layout, path, target)
    ensures SplitTerminalLayout(layout, target, added, orientation)
            == Put(layout, path, Split(orientation, Finite(0.5), Terminal(target), Terminal(added)))
    decreases path
  {
    if path != [] {
      if path[0] == 0 {
        SplitsInPlace(layout.first, path[1..], target, added, orientation);
        TargetIsShown(layout.first, path[1..], target);
        SplitLeaves(layout.first, target, added, orientation);
      } else {
        SplitsInPlace(layout.second, path[1..], target, added, orientation);
        AbsentIsUntouched(layout.first, target, added, orientation);
      }
    }
  }

  lemma {:induction false} TargetIsShown(layout: Layout, path: seq<int>, id: string)
    requires OnlyAt(layout, path, id)
    ensures id in Leaves(layout)
    decreases path
  {
    if path != [] {
      TargetIsShown(if path[0] == 0 then layout.first else layout.second, path[1..], id);
    }
  }

  lemma {:induction false} ReplacesInPlace(layout: Layout, path: seq<int>, id: string, replacement: string)
    requires OnlyAt(layout, path, id)
    ensures ReplaceTerminalInLayout(layout, id, replacement) == Put(layout, path, Terminal(replacement))
    decreases path
  {
    if path != [] {
      if path[0] == 0 {
        ReplacesInPlace(layout.first, path[1..], id, replacement);
        AbsentIsUntouched(layout.second, id, replacement, Columns);
      } else {
        ReplacesInPlace(layout.second, path[1..], id, replacement);
        AbsentIsUntouched(layout.first, id, replacement, Columns);
      }
    }
  }

  /** When a pane goes, the other half of its split takes the place of both; a lone pane leaves
      nothing. */
  lemma {:induction false} RemovesInPlace(layout: Layout, path: seq<int>, id: string)
    requires OnlyAt(layout, path, id)
    ensures path == [] ==> RemoveTerminalFromLayout(layout, id) == None
    ensures path != [] ==>
              var above := path[..|path| - 1];
              var sibling := SubtreeAt(layout, above + [if path[|path| - 1] == 0 then 1 else 0]);
              sibling.Some? && RemoveTerminalFromLayout(layout, id) == Some(Put(layout, above, sibling.value))
    decreases path
  {
    if path != [] {
      var half, other := if path[0] == 0 then layout.first else layout.second,
                         if path[0] == 0 then layout.second else layout.first;
      RemovesInPlace(half, path[1..], id);
      AbsentIsUntouched(other, id, "", Columns);
      var above := path[..|path| - 1];
      var last := if path[|path| - 1] == 0 then 1 else 0;
      if |path| == 1 {
        assert above + [last] == [last] && [last][1..] == [];
        assert path[1..] == [];
      } else {
        assert above[1..] == path[1..][..|path| - 2];
        assert (above + [last])[1..] == above[1..] + [last] && (above + [last])[0] == path[0];
      }
    }
  }

  /** The layout with another ratio at a path, if there is a split. */
  function WithRatioAt(layout: Layout, path: seq<int>, ratio: Number): Layout {
    var part := SubtreeAt(layout, path);
    if part.Some? && part.value.Split?
    then Put(layout, path, Split(part.value.orientation, ratio, part.value.first, part.value.second))
    else layout
  }

  /** A resize changes the ratio at its path and nothing else. */
  lemma {:induction false} ResizesInPlace(layout: Layout, path: seq<int>, ratio: Number)
    ensures UpdateTerminalSplitRatio(layout, path, ratio)
            == WithRatioAt(layout, path, ClampTerminalSplitRatio(ratio))
    decreases path
  {
    if layout.Split? && path != [] {
      ResizesInPlace(if path[0] == 0 then layout.first else layout.second, path[1..], ratio);
      NothingPut(layout, path);
    }
  }

  lemma NothingPut(layout: Layout, path: seq<int>)
    ensures layout.Split? && path != [] ==>
              layout == Split(layout.orientation, layout.ratio, layout.first, layout.second)
  {
  }

  /** The clamped ratio is the one nearest to what was asked for between 0.22 and 0.78. */
  lemma ClampIsNearest(r: real, other: real)
    requires 0.22 <= other <= 0.78
    ensures var c := ClampTerminalSplitRatio(Finite(r));
            && c.Finite? && 0.22 <= c.value <= 0.78
            && (if c.value < r then r - c.value else c.value - r) <= (if other < r then r - other else other - r)
    ensures ClampTerminalSplitRatio(NegativeInfinity) == Finite(0.22)
    ensures ClampTerminalSplitRatio(PositiveInfinity) == Finite(0.78)
  {
  }

  /** The default puts two panes side by side and stacks the third below the second, or four in
      two columns, all in equal parts. */
  lemma DefaultShape(ids: seq<string>)
    requires 1 <= |ids| <= 4
    ensures CreateDefaultTerminalSplitLayout(ids)
            == match |ids|
               case 1 => Terminal(ids[0])
               case 2 => Split(Columns, Finite(0.5), Terminal(ids[0]), Terminal(ids[1]))
               case 3 => Split(Columns, Finite(0.5), Terminal(ids[0]),
                               Split(Rows, Finite(0.5), Terminal(ids[1]), Terminal(ids[2])))
               case _ => Split(Columns, Finite(0.5), Split(Rows, Finite(0.5), Terminal(ids[0]), Terminal(ids[1])),
                               Split(Rows, Finite(0.5), Terminal(ids[2]), Terminal(ids[3])))
  {
  }
}
