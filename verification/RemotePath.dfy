/** Remote paths, src-tauri/src/utils/remote_path.rs, and the containment test of
    src-tauri/src/commands/file_transfer.rs. */
module RemotePath {

  // ----- Paths as lists of components -----

  predicate IsComponent(c: string) {
    c != "" && c != "." && c != ".." && '/' !in c && '\\' !in c
  }

  predicate AreComponents(cs: seq<string>) {
    forall i :: 0 <= i < |cs| ==> IsComponent(cs[i])
  }

  /** Components joined by slashes. */
  function Joined(cs: seq<string>): string {
    if cs == [] then "" else if |cs| == 1 then cs[0] else cs[0] + "/" + Joined(cs[1..])
  }

  function Render(absolute: bool, cs: seq<string>): string {
    if absolute then "/" + Joined(cs) else if cs == [] then "." else Joined(cs)
  }

  // ----- Normalising -----

  function ForwardSlashes(s: string): string {
    if s == "" then "" else [if s[0] == '\\' then '/' else s[0]] + ForwardSlashes(s[1..])
  }

  /** The pieces between slashes. */
  function Pieces(s: string): (r: seq<string>)
    ensures |r| > 0
  {
    if s == "" then [""]
    else
      var rest := Pieces(s[1..]);
      if s[0] == '/' then [""] + rest else [[s[0]] + rest[0]] + rest[1..]
  }

  /** The components after some pieces: `..` takes the last one away. */
  function Walk(cs: seq<string>, pieces: seq<string>): seq<string>
    decreases |pieces|
  {
    if pieces == [] then cs
    else if pieces[0] == "" || pieces[0] == "." then Walk(cs, pieces[1..])
    else if pieces[0] == ".." then Walk(if cs == [] then [] else cs[..|cs| - 1], pieces[1..])
    else Walk(cs + [pieces[0]], pieces[1..])
  }

  predicate IsAbsolute(s: string) {
    s != "" && s[0] == '/'
  }

  function ComponentsOf(input: string): seq<string> {
    Walk([], Pieces(ForwardSlashes(input)))
  }

  function NormalizeRemotePath(input: string): string {
    Render(IsAbsolute(input), ComponentsOf(input))
  }

  function TrimSlashes(s: string): string
    decreases |s|
  {
    if s != "" && s[0] == '/' then TrimSlashes(s[1..])
    else if s != "" && s[|s| - 1] == '/' then TrimSlashes(s[..|s| - 1])
    else s
  }

  function JoinRemotePath(base: string, name: string): string {
    var normalized := NormalizeRemotePath(base);
    var start := if normalized == "." then "" else normalized;
    var slashed := if start != "" && start[|start| - 1] != '/' then start + "/" else start;
    NormalizeRemotePath(slashed + TrimSlashes(name))
  }

  lemma {:induction false} PiecesArePlain(s: string)
    requires '\\' !in s
    ensures forall i :: 0 <= i < |Pieces(s)| ==> '/' !in Pieces(s)[i] && '\\' !in Pieces(s)[i]
  {
    if s != "" {
      PiecesArePlain(s[1..]);
    }
  }

  lemma {:induction false} WalkGivesComponents(cs: seq<string>, pieces: seq<string>)
    requires AreComponents(cs)
    requires forall i :: 0 <= i < |pieces| ==> '/' !in pieces[i] && '\\' !in pieces[i]
    ensures AreComponents(Walk(cs, pieces))
    decreases |pieces|
  {
    if pieces != [] {
      if pieces[0] == "" || pieces[0] == "." {
        WalkGivesComponents(cs, pieces[1..]);
      } else if pieces[0] == ".." {
        WalkGivesComponents(if cs == [] then [] else cs[..|cs| - 1], pieces[1..]);
      } else {
        WalkGivesComponents(cs + [pieces[0]], pieces[1..]);
      }
    }
  }

  lemma {:induction false} ForwardSlashesArePlain(s: string)
    ensures '\\' !in ForwardSlashes(s)
    ensures '\\' !in s ==> ForwardSlashes(s) == s
  {
    if s != "" {
      ForwardSlashesArePlain(s[1..]);
      assert s == [s[0]] + s[1..];
    }
  }

  /** A normalized path is a list of real components: no empty one, no dots, no backslash. */
  lemma NormalizedHasComponents(input: string)
    ensures AreComponents(ComponentsOf(input))
    ensures NormalizeRemotePath(input) != ""
  {
    ForwardSlashesArePlain(input);
    PiecesArePlain(ForwardSlashes(input));
    WalkGivesComponents([], Pieces(ForwardSlashes(input)));
    var cs := ComponentsOf(input);
    assert cs != [] ==> IsComponent(cs[0]);
  }

  lemma {:induction false} PiecesOfComponent(c: string, rest: string)
    requires '/' !in c
    ensures Pieces(c + "/" + rest) == [c] + Pieces(rest)
    ensures Pieces(c) == [c]
  {
    if c == "" {
      assert (c + "/" + rest)[1..] == rest;
    } else {
      PiecesOfComponent(c[1..], rest);
      assert (c + "/" + rest)[1..] == c[1..] + "/" + rest;
      assert c == [c[0]] + c[1..];
    }
  }

  lemma {:induction false} PiecesOfJoined(cs: seq<string>)
    requires AreComponents(cs) && cs != []
    ensures Pieces(Joined(cs)) == cs
    ensures '\\' !in Joined(cs)
  {
    if |cs| == 1 {
      PiecesOfComponent(cs[0], "");
    } else {
      PiecesOfJoined(cs[1..]);
      PiecesOfComponent(cs[0], Joined(cs[1..]));
      assert cs == [cs[0]] + cs[1..];
    }
  }

  lemma {:induction false} WalkComponents(cs: seq<string>, more: seq<string>)
    requires AreComponents(more)
    ensures Walk(cs, more) == cs + more
    decreases |more|
  {
    if more != [] {
      assert IsComponent(more[0]);
      WalkComponents(cs + [more[0]], more[1..]);
      assert cs + [more[0]] + more[1..] == cs + more;
    }
  }

  /** Normalizing reads a rendered path back. */
  lemma RenderedIsNormal(absolute: bool, cs: seq<string>)
    requires AreComponents(cs)
    ensures IsAbsolute(Render(absolute, cs)) == absolute
    ensures ComponentsOf(Render(absolute, cs)) == cs
    ensures NormalizeRemotePath(Render(absolute, cs)) == Render(absolute, cs)
  {
    var s := Render(absolute, cs);
    if cs == [] {
      assert Pieces("") == [""] && Pieces("/") == [""] + Pieces("");
      assert "."[1..] == "" && "/"[1..] == "";
      PiecesOfComponent(".", "");
      assert ForwardSlashes(s) == s;
      if absolute {
        assert Pieces(s) == ["", ""] && ["", ""][1..] == [""] && [""][1..] == [];
        assert Walk([], [""]) == Walk([], []) == [];
        assert Walk([], ["", ""]) == Walk([], [""]);
      } else {
        assert Pieces(s) == ["."] && ["."][1..] == [];
        assert Walk([], ["."]) == Walk([], []) == [];
      }
    } else {
      PiecesOfJoined(cs);
      ForwardSlashesArePlain(s);
      WalkComponents([], cs);
      assert [] + cs == cs;
      assert IsComponent(cs[0]);
      if absolute {
        assert s[1..] == Joined(cs);
        assert ([""] + cs)[1..] == cs;
      } else {
        assert s[0] == cs[0][0] && cs[0][0] in cs[0];
      }
    }
  }

  lemma JoinedMore(cs: seq<string>, name: string)
    requires cs != []
    ensures Joined(cs + [name]) == Joined(cs) + "/" + name
  {
    if |cs| == 1 {
      assert (cs + [name])[1..] == [name];
    } else {
      JoinedMore(cs[1..], name);
      assert (cs + [name])[1..] == cs[1..] + [name];
    }
  }

  // ----- Joining an entry name -----

  lemma {:induction false} PiecesConcat(a: string, b: string)
    ensures Pieces(a + "/" + b) == Pieces(a) + Pieces(b)
  {
    var s := a + "/" + b;
    if a == "" {
      assert s[1..] == b;
    } else {
      assert s[0] == a[0] && s[1..] == a[1..] + "/" + b;
      PiecesConcat(a[1..], b);
    }
  }

  lemma {:induction false} ForwardSlashesConcat(a: string, b: string)
    ensures ForwardSlashes(a + b) == ForwardSlashes(a) + ForwardSlashes(b)
  {
    if a == "" {
      assert a + b == b;
    } else {
      assert (a + b)[1..] == a[1..] + b;
      ForwardSlashesConcat(a[1..], b);
    }
  }

  lemma {:induction false} WalkConcat(cs: seq<string>, a: seq<string>, b: seq<string>)
    ensures Walk(cs, a + b) == Walk(Walk(cs, a), b)
    decreases |a|
  {
    if a == [] {
      assert a + b == b;
    } else {
      assert (a + b)[0] == a[0] && (a + b)[1..] == a[1..] + b;
      WalkConcat(cs, a[1..], b);
      WalkConcat(if cs == [] then [] else cs[..|cs| - 1], a[1..], b);
      WalkConcat(cs + [a[0]], a[1..], b);
    }
  }

  lemma {:induction false} TrimmedStart(s: string)
    ensures TrimSlashes(s) == "" || TrimSlashes(s)[0] != '/'
    decreases |s|
  {
    if s != "" && s[0] == '/' {
      TrimmedStart(s[1..]);
    } else if s != "" && s[|s| - 1] == '/' {
      TrimmedStart(s[..|s| - 1]);
    }
  }

  /** The pieces of an entry name; it has more than one if it holds a backslash. */
  function NamePieces(name: string): seq<string> {
    Pieces(ForwardSlashes(TrimSlashes(name)))
  }

  lemma NamePiecesWalk(cs: seq<string>, name: string)
    requires AreComponents(cs)
    ensures AreComponents(Walk(cs, NamePieces(name)))
  {
    ForwardSlashesArePlain(TrimSlashes(name));
    PiecesArePlain(ForwardSlashes(TrimSlashes(name)));
    WalkGivesComponents(cs, NamePieces(name));
  }

  lemma PiecesBelow(absolute: bool, cs: seq<string>, t: string)
    requires AreComponents(cs) && cs != []
    ensures IsAbsolute(Render(absolute, cs) + "/" + t) == absolute
    ensures ComponentsOf(Render(absolute, cs) + "/" + t) == Walk(cs, Pieces(ForwardSlashes(t)))
  {
    hide Pieces, Walk, ForwardSlashes;
    var base := Render(absolute, cs);
    RenderedIsNormal(absolute, cs);
    ForwardSlashesConcat(base, "/" + t);
    ForwardSlashesConcat("/", t);
    assert base + "/" + t == base + ("/" + t);
    assert ForwardSlashes("/") == "/" by {
      ForwardSlashesArePlain("/");
    }
    assert ForwardSlashes(base) + ("/" + ForwardSlashes(t)) == ForwardSlashes(base) + "/" + ForwardSlashes(t);
    PiecesConcat(ForwardSlashes(base), ForwardSlashes(t));
    WalkConcat([], Pieces(ForwardSlashes(base)), Pieces(ForwardSlashes(t)));
    assert base != "" by {
      assert IsComponent(cs[0]);
    }
    assert (base + "/" + t)[0] == base[0];
  }

  /** Joining any name to a directory walks on from it. */
  lemma JoinWalks(absolute: bool, cs: seq<string>, name: string)
    requires AreComponents(cs)
    ensures JoinRemotePath(Render(absolute, cs), name) == Render(absolute, Walk(cs, NamePieces(name)))
  {
    hide Pieces, Walk, ForwardSlashes, TrimSlashes;
    RenderedIsNormal(absolute, cs);
    TrimmedStart(name);
    var base, t := Render(absolute, cs), TrimSlashes(name);
    if cs == [] {
      if absolute {
        RootPieces(t);
        assert base == "/" && base + t == "/" + t;
      } else {
        assert "" + t == t;
      }
    } else {
      LastIsNotSlash(cs);
      assert base[|base| - 1] == Joined(cs)[|Joined(cs)| - 1];
      if !absolute {
        JoinedIsNotDot(cs);
      }
      PiecesBelow(absolute, cs, t);
    }
  }

  lemma RootPieces(t: string)
    ensures ComponentsOf("/" + t) == Walk([], Pieces(ForwardSlashes(t)))
  {
    assert ("/" + t)[1..] == t;
    assert ([""] + Pieces(ForwardSlashes(t)))[1..] == Pieces(ForwardSlashes(t));
    assert ForwardSlashes("/" + t)[1..] == ForwardSlashes(t);
  }

  lemma {:induction false} ComponentPieces(name: string)
    requires IsComponent(name)
    ensures NamePieces(name) == [name]
  {
    assert TrimSlashes(name) == name by {
      assert name[0] in name && name[|name| - 1] in name;
    }
    ForwardSlashesArePlain(name);
    PiecesOfComponent(name, "");
  }

  /** Joining a directory and a plain entry name appends one component. */
  lemma JoinAppends(absolute: bool, cs: seq<string>, name: string)
    requires AreComponents(cs) && IsComponent(name)
    ensures JoinRemotePath(Render(absolute, cs), name) == Render(absolute, cs + [name])
  {
    JoinWalks(absolute, cs, name);
    ComponentPieces(name);
    WalkComponents(cs, [name]);
  }

  // ----- Where a name leads -----

  /** How far pieces climb above their start, and the components that they then go down. */
  function Climb(up: nat, down: seq<string>, pieces: seq<string>): (nat, seq<string>)
    decreases |pieces|
  {
    if pieces == [] then (up, down)
    else if pieces[0] == "" || pieces[0] == "." then Climb(up, down, pieces[1..])
    else if pieces[0] == ".." then
      if down == [] then Climb(up + 1, [], pieces[1..]) else Climb(up, down[..|down| - 1], pieces[1..])
    else Climb(up, down + [pieces[0]], pieces[1..])
  }

  function Above(cs: seq<string>, up: nat): (r: seq<string>)
    ensures r <= cs
  {
    if up <= |cs| then cs[..|cs| - up] else []
  }

  lemma {:induction false} WalkClimbs(cs: seq<string>, up: nat, down: seq<string>, pieces: seq<string>)
    ensures Walk(Above(cs, up) + down, pieces)
            == Above(cs, Climb(up, down, pieces).0) + Climb(up, down, pieces).1
    decreases |pieces|
  {
    if pieces != [] {
      var here, rest := Above(cs, up) + down, pieces[1..];
      if pieces[0] == "" || pieces[0] == "." {
        WalkClimbs(cs, up, down, rest);
      } else if pieces[0] == ".." {
        if down == [] {
          WalkClimbs(cs, up + 1, [], rest);
          assert here == Above(cs, up);
          assert Above(cs, up + 1) + [] == (if here == [] then [] else here[..|here| - 1]);
        } else {
          WalkClimbs(cs, up, down[..|down| - 1], rest);
          assert here[..|here| - 1] == Above(cs, up) + down[..|down| - 1];
        }
      } else {
        WalkClimbs(cs, up, down + [pieces[0]], rest);
        assert here + [pieces[0]] == Above(cs, up) + (down + [pieces[0]]);
      }
    }
  }

  /** A name leads back into its directory: whatever it climbs, it goes down again. */
  predicate StaysBelow(cs: seq<string>, name: string) {
    var (up, down) := Climb(0, [], NamePieces(name));
    cs[|Above(cs, up)|..] <= down
  }

  lemma StaysBelowIsPrefix(cs: seq<string>, name: string)
    ensures StaysBelow(cs, name) <==> cs <= Walk(cs, NamePieces(name))
    ensures Climb(0, [], NamePieces(name)).0 == 0 ==> StaysBelow(cs, name)
  {
    hide Walk, NamePieces, Climb;
    WalkClimbs(cs, 0, [], NamePieces(name));
    assert Above(cs, 0) + [] == cs;
    var (up, down) := Climb(0, [], NamePieces(name));
    var kept, lost := Above(cs, up), cs[|Above(cs, up)|..];
    assert cs == kept + lost;
    SamePrefix(kept, lost, down);
  }

  lemma SamePrefix(a: seq<string>, b: seq<string>, c: seq<string>)
    ensures a + b <= a + c <==> b <= c
  {
    if a + b <= a + c {
      assert b == (a + b)[|a|..] && c == (a + c)[|a|..];
    }
    if b <= c {
      assert c == b + c[|b|..];
      assert a + c == a + b + c[|b|..];
    }
  }

  lemma LastIsNotSlash(cs: seq<string>)
    requires AreComponents(cs) && cs != []
    ensures Joined(cs) != "" && Joined(cs)[|Joined(cs)| - 1] != '/'
  {
  }

  lemma JoinedIsNotDot(cs: seq<string>)
    requires AreComponents(cs) && cs != []
    ensures Joined(cs) != "."
  {
  }

  // ----- Containment -----

  function RemotePathIsWithin(path: string, directory: string): bool {
    || directory == "/"
    || path == directory
    || (directory <= path && |path| > |directory| && path[|directory|] == '/')
  }

  /** Containment passes on, except through the root to the empty path. */
  lemma WithinIsTransitive(path: string, middle: string, directory: string)
    requires RemotePathIsWithin(path, middle) && RemotePathIsWithin(middle, directory)
    ensures directory != "" ==> RemotePathIsWithin(path, directory)
  {
  }

  lemma {:induction false} JoinedPrefix(p: seq<string>, d: seq<string>)
    requires AreComponents(p) && AreComponents(d) && d != []
    ensures RemotePathIsWithin(Joined(p), Joined(d)) <==> d <= p
    decreases |d|
  {
    var s, t := Joined(p), Joined(d);
    JoinedIsNotSlash(d);
    if p == [] {
      assert IsComponent(d[0]);
    } else if p[0] == d[0] {
      SameHead(p, d);
    } else {
      DifferentHead(p, d);
    }
  }

  lemma JoinedIsNotSlash(cs: seq<string>)
    requires AreComponents(cs) && cs != []
    ensures Joined(cs) != "/" && Joined(cs) != ""
  {
  }

  /** A first component ends at the first slash. */
  lemma HeadOf(cs: seq<string>)
    requires AreComponents(cs) && cs != []
    ensures cs[0] <= Joined(cs)
    ensures forall i :: 0 <= i < |cs[0]| ==> Joined(cs)[i] == cs[0][i] && cs[0][i] != '/'
    ensures |cs| > 1 ==> |Joined(cs)| > |cs[0]| && Joined(cs)[|cs[0]|] == '/'
    ensures |cs| == 1 ==> Joined(cs) == cs[0]
  {
  }

  lemma DifferentHead(p: seq<string>, d: seq<string>)
    requires AreComponents(p) && AreComponents(d) && p != [] && d != [] && p[0] != d[0]
    ensures !RemotePathIsWithin(Joined(p), Joined(d))
    ensures !(d <= p)
  {
    HeadOf(p);
    HeadOf(d);
    JoinedIsNotSlash(d);
  }

  lemma SameHead(p: seq<string>, d: seq<string>)
    requires AreComponents(p) && AreComponents(d) && p != [] && d != [] && p[0] == d[0]
    ensures RemotePathIsWithin(Joined(p), Joined(d)) <==> d <= p
    decreases |d|, 0
  {
    HeadOf(p);
    HeadOf(d);
    JoinedIsNotSlash(d);
    var s, t := Joined(p), Joined(d);
    if |d| == 1 {
      assert d <= p;
    } else if |p| == 1 {
      assert |t| > |s|;
    } else {
      JoinedPrefix(p[1..], d[1..]);
      JoinedIsNotSlash(d[1..]);
      var h := p[0] + "/";
      assert s == h + Joined(p[1..]) && t == h + Joined(d[1..]);
      ShiftWithin(h, Joined(p[1..]), Joined(d[1..]));
      assert p == [p[0]] + p[1..] && d == [d[0]] + d[1..];
    }
  }

  lemma ShiftWithin(h: string, s: string, t: string)
    requires h != "" && t != "" && t != "/"
    ensures RemotePathIsWithin(h + s, h + t) <==> RemotePathIsWithin(s, t)
  {
    assert |h + t| > 1;
    assert (h + s)[|h|..] == s && (h + t)[|h|..] == t;
    assert t <= s ==> h + t <= h + s by {
      if t <= s { assert s == t + s[|t|..]; assert h + s == h + t + s[|t|..]; }
    }
    assert h + t <= h + s ==> t <= s by {
      if h + t <= h + s {
        forall i | 0 <= i < |t| ensures t[i] == s[i] { assert (h + t)[|h| + i] == (h + s)[|h| + i]; }
      }
    }
  }

  /** On normalized paths of one kind, the string test means component prefix, except for the
      relative root: nothing but "." itself counts as being within ".". */
  lemma WithinMeansPrefix(absolute: bool, p: seq<string>, d: seq<string>)
    requires AreComponents(p) && AreComponents(d)
    ensures (RemotePathIsWithin(Render(absolute, p), Render(absolute, d)) <==> d <= p)
            <==> (absolute || d != [] || p == [])
  {
    if d == [] {
      if !absolute && p != [] {
        JoinedIsNotDot(p);
        HeadOf(p);
        assert IsComponent(p[0]);
        RelativeNotInDot(p);
      }
    } else {
      JoinedPrefix(p, d);
      JoinedIsNotSlash(d);
      if absolute {
        ShiftWithin("/", Joined(p), Joined(d));
      } else if p == [] {
        DotNotWithin(d);
      }
    }
  }

  lemma RelativeNotInDot(p: seq<string>)
    requires AreComponents(p) && p != []
    ensures !RemotePathIsWithin(Joined(p), ".")
  {
  }

  lemma DotNotWithin(d: seq<string>)
    requires AreComponents(d) && d != []
    ensures !RemotePathIsWithin(".", Joined(d))
  {
  }

  /** An entry counts as within its directory exactly when its name leads back into it, except
      that only "." itself is within ".". */
  lemma ChildIsWithin(absolute: bool, cs: seq<string>, name: string)
    requires AreComponents(cs)
    ensures RemotePathIsWithin(JoinRemotePath(Render(absolute, cs), name), Render(absolute, cs))
            <==> StaysBelow(cs, name) && (absolute || cs != [] || Climb(0, [], NamePieces(name)).1 == [])
  {
    hide RemotePathIsWithin, JoinRemotePath, Render, Climb, Walk, NamePieces, StaysBelow;
    var w := Walk(cs, NamePieces(name));
    JoinWalks(absolute, cs, name);
    NamePiecesWalk(cs, name);
    StaysBelowIsPrefix(cs, name);
    WithinMeansPrefix(absolute, w, cs);
    WalkFromRoot(cs, name);
    if !absolute && cs == [] {
      NothingInDot(w);
    }
  }

  lemma WalkFromRoot(cs: seq<string>, name: string)
    ensures cs == [] ==> Walk(cs, NamePieces(name)) == Climb(0, [], NamePieces(name)).1
  {
    hide Walk, NamePieces, Climb;
    WalkClimbs([], 0, [], NamePieces(name));
    assert Above([], 0) + [] == [];
    var (up, down) := Climb(0, [], NamePieces(name));
    assert Above([], up) + down == down;
  }

  lemma NothingInDot(p: seq<string>)
    requires AreComponents(p)
    ensures RemotePathIsWithin(Render(false, p), Render(false, [])) <==> p == []
  {
    if p != [] {
      RelativeNotInDot(p);
    }
  }

  /** A plain name stays below its directory. */
  lemma PlainNameStaysBelow(cs: seq<string>, name: string)
    requires IsComponent(name)
    ensures StaysBelow(cs, name) && Climb(0, [], NamePieces(name)).1 == [name]
  {
    ComponentPieces(name);
    assert [name][1..] == [] && [] + [name] == [name];
    assert Climb(0, [], [name]) == Climb(0, [name], []);
    StaysBelowIsPrefix(cs, name);
  }

  /** A backslash in a name can lead out of the directory. */
  lemma BackslashLeadsOut()
    ensures JoinRemotePath("/a", "..\\x") == "/x" && !RemotePathIsWithin("/x", "/a")
    ensures Climb(0, [], NamePieces("..\\x")) == (1, ["x"]) && !StaysBelow(["a"], "..\\x")
  {
    var name := "..\\x";
    assert Render(true, ["a"]) == "/a" && Render(true, ["x"]) == "/x";
    assert NamePieces(name) == ["..", "x"] by {
      assert TrimSlashes(name) == name;
      assert name[1..] == ".\\x" && name[1..][1..] == "\\x" && name[1..][1..][1..] == "x" && "x"[1..] == "";
      assert ForwardSlashes("x") == "x" && ForwardSlashes("\\x") == "/x" && ForwardSlashes(".\\x") == "./x";
      assert ForwardSlashes(name) == "../x";
      PiecesOfComponent("..", "x");
      PiecesOfComponent("x", "");
      assert "../x" == ".." + "/" + "x";
    }
    JoinWalks(true, ["a"], name);
    assert ["..", "x"][1..] == ["x"] && ["x"][1..] == [];
    assert ["a"][..0] == [] && [] + ["x"] == ["x"];
    assert Walk(["a"], ["..", "x"]) == Walk([], ["x"]);
    assert Walk([], ["x"]) == Walk(["x"], []);
    assert Climb(0, [], ["..", "x"]) == Climb(1, [], ["x"]) == Climb(1, ["x"], []);
    assert Above(["a"], 1) == [];
  }

  // ----- What normalising means -----

  /** Components are separated by slashes or backslashes; empty ones and "." say nothing, and
      ".." takes the last one away. */
  lemma PathLaws(path: string, c: string)
    requires IsComponent(c)
    ensures ComponentsOf("") == [] && ComponentsOf(c) == [c]
    ensures ComponentsOf(path + "/" + c) == ComponentsOf(path) + [c]
    ensures ComponentsOf(path + "\\" + c) == ComponentsOf(path) + [c]
    ensures ComponentsOf(path + "/") == ComponentsOf(path) && ComponentsOf(path + "/.") == ComponentsOf(path)
    ensures ComponentsOf(path + "/..")
            == if ComponentsOf(path) == [] then [] else ComponentsOf(path)[..|ComponentsOf(path)| - 1]
  {
    hide Pieces, Walk, ForwardSlashes;
    MoreComponents(path, c);
    MoreComponents(path, "");
    MoreComponents(path, ".");
    MoreComponents(path, "..");
    PlainPieces(c);
    PlainPieces("");
    PlainPieces(".");
    PlainPieces("..");
    var cs := ComponentsOf(path);
    WalkOne(cs, c);
    WalkOne([], c);
    WalkOne(cs, "");
    WalkOne([], "");
    WalkOne(cs, ".");
    WalkOne(cs, "..");
    assert path + "/" + "" == path + "/";
    assert [] + [c] == [c];
    assert ComponentsOf(c) == Walk([], [c]);
    assert ComponentsOf("") == Walk([], [""]);
    assert path + "/" + "." == path + "/." && path + "/" + ".." == path + "/..";
  }

  lemma MoreComponents(path: string, more: string)
    ensures ComponentsOf(path + "/" + more) == Walk(ComponentsOf(path), Pieces(ForwardSlashes(more)))
    ensures ComponentsOf(path + "\\" + more) == Walk(ComponentsOf(path), Pieces(ForwardSlashes(more)))
  {
    hide Pieces, Walk, ForwardSlashes;
    var a, b := ForwardSlashes(path), ForwardSlashes(more);
    assert ForwardSlashes("/") == "/" && ForwardSlashes("\\") == "/" by {
      SeparatorsAreSlashes();
    }
    ForwardSlashesConcat(path, "/");
    ForwardSlashesConcat(path, "\\");
    ForwardSlashesConcat(path + "/", more);
    ForwardSlashesConcat(path + "\\", more);
    PiecesConcat(a, b);
    WalkConcat([], Pieces(a), Pieces(b));
  }

  lemma SeparatorsAreSlashes()
    ensures ForwardSlashes("/") == "/" && ForwardSlashes("\\") == "/"
  {
    assert "/"[1..] == "" && "\\"[1..] == "";
  }

  lemma PlainPieces(c: string)
    requires '/' !in c && '\\' !in c
    ensures Pieces(ForwardSlashes(c)) == [c]
  {
    ForwardSlashesArePlain(c);
    PiecesOfComponent(c, "");
  }

  lemma WalkOne(cs: seq<string>, piece: string)
    ensures Walk(cs, [piece])
            == if piece == "" || piece == "." then cs
               else if piece == ".." then (if cs == [] then [] else cs[..|cs| - 1])
               else cs + [piece]
  {
    assert [piece][1..] == [];
  }

  /** The normal form starts with a slash exactly if the path does, and has single slashes
      between the components. */
  lemma NormalForm(path: string)
    ensures NormalizeRemotePath(path)
            == if path != "" && path[0] == '/' then "/" + Joined(ComponentsOf(path))
               else if ComponentsOf(path) == [] then "." else Joined(ComponentsOf(path))
  {
  }
}
