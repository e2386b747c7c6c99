/** Where one byte string first occurs in another. */
module ByteSearch {
  import opened Bytes

  const CR: byte := 13
  const LF: byte := 10
  const CRLF: seq<byte> := [13, 10]
  const BLANK_LINE: seq<byte> := [13, 10, 13, 10]

  predicate At(s: seq<byte>, d: seq<byte>, i: int) {
    0 <= i && i + |d| <= |s| && s[i..i + |d|] == d
  }

  function FirstAt(s: seq<byte>, d: seq<byte>): (r: Option<nat>)
    ensures r.Some? ==> r.value + |d| <= |s|
    decreases |s|
  {
    if |d| > |s| then None
    else if d <= s then Some(0)
    else
      match FirstAt(s[1..], d)
      case None => None
      case Some(i) => Some(i + 1)
  }

  lemma AtRest(s: seq<byte>, d: seq<byte>, i: int)
    requires s != []
    ensures i >= 1 ==> At(s, d, i) == At(s[1..], d, i - 1)
    ensures At(s, d, 0) == (d <= s)
  {
    if 1 <= i && i + |d| <= |s| {
      assert s[1..][i - 1..i - 1 + |d|] == s[i..i + |d|];
    }
  }

  lemma {:induction false} FirstAtFinds(s: seq<byte>, d: seq<byte>, i: int)
    ensures var r := FirstAt(s, d);
            && (At(s, d, i) ==> r.Some? && r.value <= i)
            && (r.Some? ==> At(s, d, r.value))
    decreases |s|
  {
    if |d| <= |s| && !(d <= s) {
      AtRest(s, d, i);
      FirstAtFinds(s[1..], d, i - 1);
      if FirstAt(s, d).Some? {
        AtRest(s, d, FirstAt(s, d).value);
      }
    }
  }

  lemma FirstAtIs(s: seq<byte>, d: seq<byte>, i: nat)
    requires At(s, d, i) && forall j :: 0 <= j < i ==> !At(s, d, j)
    ensures FirstAt(s, d) == Some(i)
  {
    hide At;
    FirstAtFinds(s, d, i);
  }

  lemma AtPrefix(s: seq<byte>, t: seq<byte>, d: seq<byte>, i: int)
    requires i + |d| <= |s|
    ensures At(s + t, d, i) <==> At(s, d, i)
  {
  }

  lemma AtSuffix(s: seq<byte>, t: seq<byte>, d: seq<byte>, i: int)
    requires i >= |s|
    ensures At(s + t, d, i) <==> At(t, d, i - |s|)
  {
  }

  lemma AtElement(s: seq<byte>, d: seq<byte>, i: int, k: nat)
    requires At(s, d, i) && k < |d|
    ensures s[i + k] == d[k]
  {
  }

  lemma AtInPrefix(h: seq<byte>, d: seq<byte>, more: seq<byte>, cut: nat)
    requires |h| + |d| <= cut <= |h| + |d| + |more|
    ensures At((h + (d + more))[..cut], d, |h|)
  {
  }

  lemma AtInside(s: seq<byte>, d: seq<byte>, j: int)
    requires At(s, d, j)
    ensures 0 <= j && j + |d| <= |s|
  {
  }
}
