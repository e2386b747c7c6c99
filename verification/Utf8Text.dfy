/** Rust strings and their bytes: UTF-8, section 3 of RFC 3629. */
module Utf8Text {
  import opened Bytes

  /** White space as Rust's `trim` sees it. */
  predicate IsWhitespace(c: char) {
    var n := c as int;
    || 0x9 <= n <= 0xD || n == 0x20 || n == 0x85 || n == 0xA0 || n == 0x1680 || 0x2000 <= n <= 0x200A
    || n == 0x2028 || n == 0x2029 || n == 0x202F || n == 0x205F || n == 0x3000
  }

  /** The order of Rust strings, which is that of their bytes and of their characters. */
  predicate AtMost(a: string, b: string) {
    a == "" || (b != "" && (a[0] < b[0] || (a[0] == b[0] && AtMost(a[1..], b[1..]))))
  }

  /** The strings agree up to some place where the first is smaller. */
  predicate SmallerAt(a: string, b: string, k: nat) {
    k < |a| && k < |b| && a[..k] == b[..k] && a[k] < b[k]
  }

  lemma SmallerBehind(a: string, b: string, k: nat)
    requires a != "" && b != "" && a[0] == b[0]
    ensures SmallerAt(a[1..], b[1..], k) <==> SmallerAt(a, b, k + 1)
    ensures !SmallerAt(a, b, 0)
    ensures a[1..] <= b[1..] <==> a <= b
  {
    assert a == [a[0]] + a[1..] && b == [b[0]] + b[1..];
    if k + 1 < |a| && k + 1 < |b| {
      assert a[..k + 1] == [a[0]] + a[1..][..k] && b[..k + 1] == [b[0]] + b[1..][..k];
      assert a[..k + 1][1..] == a[1..][..k] && b[..k + 1][1..] == b[1..][..k];
    }
  }

  /** One string is a prefix of the other, or smaller where they first differ. */
  lemma {:induction false} AtMostIsLexicographic(a: string, b: string)
    ensures AtMost(a, b) <==> a <= b || exists k :: SmallerAt(a, b, k)
  {
    if a != "" && b != "" {
      if a[0] == b[0] {
        AtMostIsLexicographic(a[1..], b[1..]);
        forall k: nat
          ensures SmallerAt(a[1..], b[1..], k) <==> SmallerAt(a, b, k + 1)
        {
          SmallerBehind(a, b, k);
        }
        SmallerBehind(a, b, 0);
        if k: nat :| SmallerAt(a, b, k) {
          var m: nat := k - 1;
          assert SmallerAt(a[1..], b[1..], m);
        }
      } else {
        assert a[0] < b[0] ==> SmallerAt(a, b, 0);
        forall k: nat
          ensures SmallerAt(a, b, k) ==> k == 0
        {
          if 0 < k <= |a| && k <= |b| {
            assert a[..k][0] == a[0] && b[..k][0] == b[0];
          }
        }
      }
    }
  }

  lemma {:induction false} AtMostIsTotal(a: string, b: string)
    ensures AtMost(a, b) || AtMost(b, a)
    ensures AtMost(a, b) && AtMost(b, a) ==> a == b
  {
    if a != "" && b != "" && a[0] == b[0] {
      AtMostIsTotal(a[1..], b[1..]);
      assert a == [a[0]] + a[1..] && b == [b[0]] + b[1..];
    }
  }

  lemma {:induction false} AtMostIsTransitive(a: string, b: string, c: string)
    requires AtMost(a, b) && AtMost(b, c)
    ensures AtMost(a, c)
  {
    if a != "" && a[0] == b[0] == c[0] {
      AtMostIsTransitive(a[1..], b[1..], c[1..]);
    }
  }

  lemma {:induction false} LeastExists(s: set<string>)
    requires s != {}
    ensures exists least :: least in s && forall x :: x in s ==> AtMost(least, x)
  {
    var some :| some in s;
    var rest := s - {some};
    if rest == {} {
      AtMostIsTotal(some, some);
      assert s == {some};
    } else {
      LeastExists(rest);
      var least :| least in rest && forall x :: x in rest ==> AtMost(least, x);
      AtMostIsTotal(some, least);
      var now := if AtMost(some, least) then some else least;
      forall x | x in s
        ensures AtMost(now, x)
      {
        AtMostIsTotal(some, some);
        if x != some && now == some {
          AtMostIsTransitive(some, least, x);
        }
      }
    }
  }

  function Utf8Char(c: char): (r: seq<byte>)
    ensures 1 <= |r| <= 4
    ensures c as int < 0x80 ==> r == [c as int]
    ensures c as int >= 0x80 ==> forall i :: 0 <= i < |r| ==> r[i] >= 0x80
  {
    var n := c as int;
    if n < 0x80 then [n]
    else if n < 0x800 then [0xC0 + n / 0x40, 0x80 + n % 0x40]
    else if n < 0x1_0000 then [0xE0 + n / 0x1000, 0x80 + n / 0x40 % 0x40, 0x80 + n % 0x40]
    else [0xF0 + n / 0x4_0000, 0x80 + n / 0x1000 % 0x40, 0x80 + n / 0x40 % 0x40, 0x80 + n % 0x40]
  }

  function Utf8(s: string): seq<byte> {
    if s == "" then [] else Utf8Char(s[0]) + Utf8(s[1..])
  }

  lemma {:induction false} Utf8Concat(a: string, b: string)
    ensures Utf8(a + b) == Utf8(a) + Utf8(b)
  {
    hide Utf8Char;
    if a == "" {
      assert a + b == b;
    } else {
      assert (a + b)[1..] == a[1..] + b;
      Utf8Concat(a[1..], b);
    }
  }

  /** A byte below 0x80 stands for itself wherever it occurs. */
  lemma {:induction false} Utf8Plain(s: string, c: char)
    requires c as int < 0x80
    ensures c as int in Utf8(s) <==> c in s
  {
    if s != "" {
      Utf8Plain(s[1..], c);
      assert s == [s[0]] + s[1..];
    }
  }

  /** The first character, from its bytes. */
  function FirstLength(b: byte): nat {
    if b < 0x80 then 1 else if b < 0xE0 then 2 else if b < 0xF0 then 3 else 4
  }

  /** The code point that the bytes of one character carry. */
  function CodePoint(b: seq<byte>): int {
    match |b|
    case 1 => b[0]
    case 2 => (b[0] as int - 0xC0) * 0x40 + (b[1] as int - 0x80)
    case 3 => (b[0] as int - 0xE0) * 0x1000 + (b[1] as int - 0x80) * 0x40 + (b[2] as int - 0x80)
    case 4 =>
      (b[0] as int - 0xF0) * 0x4_0000 + (b[1] as int - 0x80) * 0x1000 + (b[2] as int - 0x80) * 0x40
      + (b[3] as int - 0x80)
    case _ => -1
  }

  lemma Digits(n: nat)
    ensures n == n / 0x40 * 0x40 + n % 0x40
    ensures n / 0x40 == n / 0x1000 * 0x40 + n / 0x40 % 0x40
    ensures n / 0x1000 == n / 0x4_0000 * 0x40 + n / 0x1000 % 0x40
  {
  }

  lemma CodePointOfChar(c: char)
    ensures CodePoint(Utf8Char(c)) == c as int
  {
    Digits(c as int);
  }

  lemma Utf8CharInjective(a: char, b: char)
    requires Utf8Char(a) == Utf8Char(b)
    ensures a == b
  {
    hide Utf8Char, CodePoint;
    CodePointOfChar(a);
    CodePointOfChar(b);
  }

  lemma LengthFromFirst(c: char)
    ensures |Utf8Char(c)| == FirstLength(Utf8Char(c)[0])
  {
  }

  /** No two strings have the same bytes. */
  lemma {:induction false} Utf8Injective(a: string, b: string)
    requires Utf8(a) == Utf8(b)
    ensures a == b
  {
    hide Utf8Char, FirstLength;
    if a == "" || b == "" {
      return;
    }
    var x, y := Utf8Char(a[0]), Utf8Char(b[0]);
    var s, t := Utf8(a[1..]), Utf8(b[1..]);
    assert x + s == y + t;
    assert x[0] == (x + s)[0] == (y + t)[0] == y[0];
    LengthFromFirst(a[0]);
    LengthFromFirst(b[0]);
    assert x == (x + s)[..|x|] && y == (y + t)[..|y|];
    assert s == (x + s)[|x|..] && t == (y + t)[|y|..];
    Utf8CharInjective(a[0], b[0]);
    Utf8Injective(a[1..], b[1..]);
    assert a == [a[0]] + a[1..] && b == [b[0]] + b[1..];
  }

  lemma {:induction false} Utf8Starts(s: string)
    requires s != ""
    ensures Utf8(s) != [] && Utf8(s)[0] == Utf8Char(s[0])[0]
  {
  }

  /** Section 3 of RFC 3629: how many bytes a character takes, and their first bits. */
  lemma Utf8Bits(c: char)
    ensures var n, b := c as int, Utf8Char(c);
            && |b| == (if n <= 0x7F then 1 else if n <= 0x7FF then 2 else if n <= 0xFFFF then 3 else 4)
            && (|b| == 1 ==> b[0] == n)
            && (|b| == 2 ==> 0xC2 <= b[0] <= 0xDF && n == (b[0] as int - 0xC0) * 64 + (b[1] as int - 0x80))
            && (|b| == 3 ==> 0xE0 <= b[0] <= 0xEF
                             && n == (b[0] as int - 0xE0) * 4096 + (b[1] as int - 0x80) * 64 + (b[2] as int - 0x80))
            && (|b| == 4 ==> 0xF0 <= b[0] <= 0xF4
                             && n == (b[0] as int - 0xF0) * 262144 + (b[1] as int - 0x80) * 4096
                                     + (b[2] as int - 0x80) * 64 + (b[3] as int - 0x80))
            && forall i :: 1 <= i < |b| ==> 0x80 <= b[i] <= 0xBF
  {
    Digits(c as int);
  }
}
