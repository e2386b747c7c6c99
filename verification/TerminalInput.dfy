/** Typed text on its way to a Telnet peer, src-tauri/src/services/tcp_terminal_service.rs:
    line endings are normalised, the text is encoded, and IAC bytes are escaped. The two
    single-byte encodings are modelled. */
module TerminalInput {
  import opened Bytes
  import TelnetCodec

  datatype LineEnding = CrLf | Cr | Lf

  datatype TextEncoding = AsciiText | Latin1

  function Replacement(e: LineEnding): string {
    match e
    case CrLf => "\r\n"
    case Cr => "\r"
    case Lf => "\n"
  }

  predicate IsBreak(c: char) { c == '\r' || c == '\n' }

  /** The text after the line break that `s` starts with. */
  function AfterBreak(s: string): (rest: string)
    requires s != "" && IsBreak(s[0])
    ensures |rest| < |s|
  {
    if s[0] == '\r' && |s| > 1 && s[1] == '\n' then s[2..] else s[1..]
  }

  function Normalize(s: string, replacement: string): string {
    if s == "" then ""
    else if IsBreak(s[0]) then replacement + Normalize(AfterBreak(s), replacement)
    else [s[0]] + Normalize(s[1..], replacement)
  }

  lemma NormalizeFrom(input: string, i: nat, done: string, replacement: string)
    requires i < |input|
    ensures var rest := input[i..];
            if IsBreak(input[i])
            then done + replacement + Normalize(AfterBreak(rest), replacement) == done + Normalize(rest, replacement)
            else done + [input[i]] + Normalize(input[i + 1..], replacement) == done + Normalize(rest, replacement)
    ensures IsBreak(input[i]) ==>
              AfterBreak(input[i..])
              == if input[i] == '\r' && i + 1 < |input| && input[i + 1] == '\n' then input[i + 2..] else input[i + 1..]
  {
    assert input[i..][1..] == input[i + 1..];
  }

  method NormalizeLineEndings(input: string, replacement: string) returns (output: string)
    ensures output == Normalize(input, replacement)
  {
    hide Normalize, AfterBreak;
    output := "";
    var i := 0;
    assert input[0..] == input;
    while i < |input|
      invariant i <= |input|
      invariant output + Normalize(input[i..], replacement) == Normalize(input, replacement)
    {
      NormalizeFrom(input, i, output, replacement);
      var ch := input[i];
      i := i + 1;
      if ch == '\r' {
        if i < |input| && input[i] == '\n' {
          i := i + 1;
        }
        output := output + replacement;
      } else if ch == '\n' {
        output := output + replacement;
      } else {
        output := output + [ch];
      }
    }
    NormalizeEnd(input, replacement);
  }

  lemma NormalizeEnd(input: string, replacement: string)
    ensures Normalize(input[|input|..], replacement) == ""
  {
  }

  // ----- Normalising is joining the lines with the chosen ending -----

  function SplitLines(s: string): (lines: seq<string>)
    ensures |lines| > 0
    ensures forall l, c :: l in lines && c in l ==> !IsBreak(c)
  {
    if s == "" then [""]
    else if IsBreak(s[0]) then [""] + SplitLines(AfterBreak(s))
    else
      var rest := SplitLines(s[1..]);
      [[s[0]] + rest[0]] + rest[1..]
  }

  function Join(lines: seq<string>, separator: string): string
    requires |lines| > 0
  {
    if |lines| == 1 then lines[0] else lines[0] + separator + Join(lines[1..], separator)
  }

  lemma JoinLonger(first: string, rest: seq<string>, separator: string)
    requires |rest| > 0
    ensures Join([first] + rest, separator) == first + separator + Join(rest, separator)
  {
  }

  lemma JoinGrown(c: char, lines: seq<string>, separator: string)
    requires |lines| > 0
    ensures Join([[c] + lines[0]] + lines[1..], separator) == [c] + Join(lines, separator)
  {
  }

  lemma {:induction false} NormalizeJoinsLines(s: string, replacement: string)
    ensures Normalize(s, replacement) == Join(SplitLines(s), replacement)
    decreases |s|
  {
    if s == "" {
    } else if IsBreak(s[0]) {
      NormalizeJoinsLines(AfterBreak(s), replacement);
      JoinLonger("", SplitLines(AfterBreak(s)), replacement);
    } else {
      NormalizeJoinsLines(s[1..], replacement);
      JoinGrown(s[0], SplitLines(s[1..]), replacement);
    }
  }

  lemma {:induction false} SplitOneLine(line: string, e: LineEnding, more: string)
    requires forall c :: c in line ==> !IsBreak(c)
    requires more != "" && !(e == Cr && more[0] == '\n')
    ensures SplitLines(line + Replacement(e) + more) == [line] + SplitLines(more)
    ensures SplitLines(line) == [line]
  {
    var s := line + Replacement(e) + more;
    if line == "" {
      assert AfterBreak(s) == more;
    } else {
      SplitOneLine(line[1..], e, more);
      assert s[1..] == line[1..] + Replacement(e) + more;
      assert line == [line[0]] + line[1..];
    }
  }

  lemma {:induction false} SplitEnds(line: string, e: LineEnding)
    requires forall c :: c in line ==> !IsBreak(c)
    ensures SplitLines(line + Replacement(e)) == [line, ""]
    ensures SplitLines(line) == [line]
  {
    var s := line + Replacement(e);
    if line == "" {
      assert AfterBreak(s) == "";
    } else {
      SplitEnds(line[1..], e);
      assert s[1..] == line[1..] + Replacement(e);
      assert line == [line[0]] + line[1..];
    }
  }

  lemma {:induction false} SplitJoined(lines: seq<string>, e: LineEnding)
    requires |lines| > 0
    requires forall l, c :: l in lines && c in l ==> !IsBreak(c)
    ensures SplitLines(Join(lines, Replacement(e))) == lines
  {
    hide SplitLines, IsBreak, Replacement;
    assert lines[0] in lines;
    SplitEnds(lines[0], e);
    if |lines| > 1 {
      assert forall l :: l in lines[1..] ==> l in lines;
      SplitNothing();
      var more := Join(lines[1..], Replacement(e));
      SplitJoined(lines[1..], e);
      assert lines == [lines[0]] + lines[1..];
      if more == "" {
        assert lines[1..] == [""];
        assert lines[0] + Replacement(e) + more == lines[0] + Replacement(e);
      } else {
        JoinStart(lines[1..], e);
        SplitOneLine(lines[0], e, more);
      }
    }
  }

  lemma SplitNothing()
    ensures SplitLines("") == [""]
  {
  }

  lemma JoinStart(lines: seq<string>, e: LineEnding)
    requires |lines| > 0
    requires forall l, c :: l in lines && c in l ==> !IsBreak(c)
    ensures e == Cr && Join(lines, Replacement(e)) != "" ==> Join(lines, Replacement(e))[0] != '\n'
  {
    if lines[0] != "" {
      assert lines[0] in lines && lines[0][0] in lines[0];
    }
  }

  /** The lines of the text survive, and normalising again changes nothing. */
  lemma NormalizeKeepsLines(s: string, e: LineEnding)
    ensures SplitLines(Normalize(s, Replacement(e))) == SplitLines(s)
    ensures Normalize(Normalize(s, Replacement(e)), Replacement(e)) == Normalize(s, Replacement(e))
  {
    NormalizeJoinsLines(s, Replacement(e));
    SplitJoined(SplitLines(s), e);
    NormalizeJoinsLines(Normalize(s, Replacement(e)), Replacement(e));
  }

  predicate CutsCrLf(a: string, b: string) {
    a != "" && b != "" && a[|a| - 1] == '\r' && b[0] == '\n'
  }

  function AfterFirst(s: string): (rest: string)
    requires s != ""
    ensures |rest| < |s|
  {
    if IsBreak(s[0]) then AfterBreak(s) else s[1..]
  }

  lemma NormalizeStep(a: string, b: string, replacement: string)
    requires a != "" && !(|a| == 1 && CutsCrLf(a, b))
    ensures |AfterFirst(a)| < |a| && CutsCrLf(AfterFirst(a), b) == CutsCrLf(a, b)
    ensures var first := if IsBreak(a[0]) then replacement else [a[0]];
            && Normalize(a, replacement) == first + Normalize(AfterFirst(a), replacement)
            && Normalize(a + b, replacement) == first + Normalize(AfterFirst(a) + b, replacement)
  {
    assert IsBreak(a[0]) ==> AfterBreak(a + b) == AfterBreak(a) + b;
    assert (a + b)[1..] == a[1..] + b;
  }

  lemma NormalizeCut(b: string, replacement: string)
    requires CutsCrLf("\r", b)
    ensures Normalize("\r" + b, replacement) == Normalize(b, replacement)
    ensures Normalize("\r", replacement) == replacement
  {
    assert AfterBreak("\r" + b) == b[1..] == AfterBreak(b);
    assert AfterBreak("\r") == "";
  }

  lemma {:induction false} NormalizeConcat(a: string, b: string, replacement: string)
    ensures !CutsCrLf(a, b) ==> Normalize(a + b, replacement) == Normalize(a, replacement) + Normalize(b, replacement)
    ensures CutsCrLf(a, b) ==>
              |Normalize(a + b, replacement)| + |replacement| == |Normalize(a, replacement)| + |Normalize(b, replacement)|
    decreases |a|
  {
    hide AfterFirst, AfterBreak;
    if a == "" {
      assert a + b == b;
    } else if |a| == 1 && CutsCrLf(a, b) {
      assert a == "\r";
      NormalizeCut(b, replacement);
    } else {
      NormalizeStep(a, b, replacement);
      NormalizeConcat(AfterFirst(a), b, replacement);
    }
  }

  /** Two writes are normalised like one exactly when they do not cut a CR LF in two. */
  lemma WritesNormaliseSeparately(a: string, b: string, e: LineEnding)
    ensures Normalize(a + b, Replacement(e)) == Normalize(a, Replacement(e)) + Normalize(b, Replacement(e))
            <==> !CutsCrLf(a, b)
  {
    NormalizeConcat(a, b, Replacement(e));
  }

  // ----- Single-byte encodings -----

  function Largest(encoding: TextEncoding): byte {
    if encoding == AsciiText then 0x7f else 0xff
  }

  /** The failing case reports the first character that has no byte. */
  function Encode(text: string, encoding: TextEncoding): Result<seq<byte>, char> {
    if text == "" then Ok([])
    else if text[0] as int > Largest(encoding) then Err(text[0])
    else
      match Encode(text[1..], encoding)
      case Ok(rest) => Ok([text[0] as int] + rest)
      case Err(c) => Err(c)
  }

  function DecodeByte(b: byte, encoding: TextEncoding): char {
    if b <= Largest(encoding) then b as char else '\U{FFFD}'
  }

  function Decode(bytes: seq<byte>, encoding: TextEncoding): string {
    if bytes == [] then "" else [DecodeByte(bytes[0], encoding)] + Decode(bytes[1..], encoding)
  }

  lemma {:induction false} EncodeDecode(text: string, encoding: TextEncoding)
    ensures Encode(text, encoding).Ok? <==> forall i :: 0 <= i < |text| ==> text[i] as int <= if encoding == AsciiText then 127 else 255
    ensures Encode(text, encoding).Ok? ==> Decode(Encode(text, encoding).value, encoding) == text
  {
    if text != "" {
      EncodeDecode(text[1..], encoding);
      assert text == [text[0]] + text[1..];
    }
  }

  /** The error is the first character that has no byte. */
  lemma {:induction false} FirstUnencodable(text: string, encoding: TextEncoding, i: nat)
    requires i < |text| && text[i] as int > if encoding == AsciiText then 127 else 255
    requires forall j :: 0 <= j < i ==> text[j] as int <= if encoding == AsciiText then 127 else 255
    ensures Encode(text, encoding) == Err(text[i])
  {
    if i > 0 {
      FirstUnencodable(text[1..], encoding, i - 1);
    }
  }

  lemma {:induction false} DecodeEncode(bytes: seq<byte>, encoding: TextEncoding)
    ensures Encode(Decode(bytes, encoding), encoding) == Ok(bytes)
            <==> forall i :: 0 <= i < |bytes| ==> bytes[i] <= if encoding == AsciiText then 127 else 255
  {
    if bytes != [] {
      var rest := bytes[1..];
      DecodeEncode(rest, encoding);
      assert DecodeByte(bytes[0], encoding) as int == if bytes[0] <= Largest(encoding) then bytes[0] else 0xfffd;
      assert bytes == [bytes[0]] + rest;
      assert Decode(bytes, encoding)[1..] == Decode(rest, encoding);
    }
  }

  /** What the terminal writes to the socket for typed text. */
  function SentFor(input: string, ending: LineEnding, encoding: TextEncoding): Result<seq<byte>, char> {
    match Encode(Normalize(input, Replacement(ending)), encoding)
    case Ok(bytes) => Ok(TelnetCodec.Escape(bytes))
    case Err(c) => Err(c)
  }

  /** End to end: a Telnet peer that decodes what was sent has the typed lines, joined with
      the chosen ending, and is not provoked into a reply. */
  lemma TypedTextArrives(input: string, ending: LineEnding, encoding: TextEncoding, terminalType: seq<byte>)
    requires SentFor(input, ending, encoding).Ok?
    ensures var peer := TelnetCodec.Run(TelnetCodec.Data, SentFor(input, ending, encoding).value, terminalType);
            && peer.state == TelnetCodec.Data && peer.sent == []
            && Decode(peer.output, encoding) == Join(SplitLines(input), Replacement(ending))
  {
    var text := Normalize(input, Replacement(ending));
    EncodeDecode(text, encoding);
    NormalizeJoinsLines(input, Replacement(ending));
    TelnetCodec.EscapedDataArrives(Encode(text, encoding).value, terminalType);
  }

  /** Each line break is sent as the bytes of the chosen ending. */
  lemma EnterInBytes(ending: LineEnding, encoding: TextEncoding)
    ensures SentFor("\n", ending, encoding)
            == Ok(match ending case CrLf => [13, 10] case Cr => [13] case Lf => [10])
  {
    var bytes: seq<byte> := match ending case CrLf => [13, 10] case Cr => [13] case Lf => [10];
    assert "\n"[1..] == "" && Normalize("", Replacement(ending)) == "";
    assert Normalize("\n", Replacement(ending)) == Replacement(ending);
    OneByte('\n', encoding);
    OneByte('\r', encoding);
    var both := ['\r', '\n'];
    assert both[1..] == ['\n'] && both == "\r\n";
    assert Encode(both, encoding) == Ok([13] + [10]);
    match ending {
      case CrLf => assert Replacement(ending) == both && [13] + [10] == bytes;
      case Cr => assert Replacement(ending) == ['\r'];
      case Lf => assert Replacement(ending) == ['\n'];
    }
    TelnetCodec.EscapeNothing(bytes);
  }

  lemma OneByte(c: char, encoding: TextEncoding)
    requires c as int <= 127
    ensures Encode([c], encoding) == Ok([c as int])
  {
    assert [c][1..] == "" && Encode("", encoding) == Ok([]);
    var b: byte := c as int;
    assert [b] + [] == [b];
  }

  /** A received byte is the character of its number, or the replacement character. */
  lemma {:induction false} DecodedCharacters(bytes: seq<byte>, encoding: TextEncoding)
    ensures |Decode(bytes, encoding)| == |bytes|
    ensures forall i :: 0 <= i < |bytes| ==>
              Decode(bytes, encoding)[i] as int
              == if bytes[i] <= 127 || encoding == Latin1 then bytes[i] else 0xFFFD
  {
    if bytes != [] {
      DecodedCharacters(bytes[1..], encoding);
    }
  }
}
