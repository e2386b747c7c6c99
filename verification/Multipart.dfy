/** Multipart form bodies, src-tauri/src/commands/http.rs, with section 5.1.1 of RFC 2046 and
    section 4.2 of RFC 7578. */
module Multipart {
  import opened Bytes
  import opened Utf8Text
  import opened Base64
  import opened ByteSearch

  const MAX_FILE_BYTES: nat := 128 * 1024 * 1024
  const MAX_BODY_BYTES: nat := 160 * 1024 * 1024

  const QUOTE: byte := 34
  const BACKSLASH: byte := 92
  const DASHES: seq<byte> := [45, 45]

  const NAME_INTRO: seq<byte> := Utf8("Content-Disposition: form-data; name=\"")
  const FILENAME_INTRO: seq<byte> := Utf8("; filename=\"")
  const TYPE_INTRO: seq<byte> := Utf8("Content-Type: ")
  const DEFAULT_TYPE: string := "application/octet-stream"

  datatype HttpMultipartPartKind = Text | File

  datatype HttpMultipartPartInput = HttpMultipartPartInput(
    kind: HttpMultipartPartKind,
    name: string,
    value: Option<string>,
    fileName: Option<string>,
    contentType: Option<string>,
    bytes: Option<seq<byte>>,
    bytesBase64: Option<string>)

  datatype MultipartError = FileTooLarge | BodyTooLarge | BadContent(error: Base64Error) | NoFileChosen

  /** What a receiver gets to know of a part. */
  datatype FileInfo = FileInfo(fileName: seq<byte>, contentType: seq<byte>)
  datatype Part = Part(name: seq<byte>, file: Option<FileInfo>, payload: seq<byte>)

  // ----- Text -----

  predicate IsControl(c: char) {
    var n := c as int;
    n < 0x20 || 0x7F <= n < 0xA0
  }

  function Trim(s: string): (r: string)
    ensures r == "" || (!IsWhitespace(r[0]) && !IsWhitespace(r[|r| - 1]))
    decreases |s|
  {
    if s == "" then ""
    else if IsWhitespace(s[0]) then Trim(s[1..])
    else if IsWhitespace(s[|s| - 1]) then Trim(s[..|s| - 1])
    else s
  }

  /** Header values keep no control characters. */
  function Clean(s: string): string {
    if s == "" then "" else [if IsControl(s[0]) then ' ' else s[0]] + Clean(s[1..])
  }

  function EscapedChar(c: char): string {
    if c == '"' then "\\\"" else if c == '\\' then "\\\\" else if IsControl(c) then " " else [c]
  }

  function Escaped(s: string): string {
    if s == "" then "" else EscapedChar(s[0]) + Escaped(s[1..])
  }

  lemma {:induction false} EscapedMore(s: string, c: char)
    ensures Escaped(s + [c]) == Escaped(s) + EscapedChar(c)
  {
    hide EscapedChar;
    if s != "" {
      assert (s + [c])[1..] == s[1..] + [c];
      EscapedMore(s[1..], c);
    }
  }

  method EscapeMultipartHeaderParameter(value: string) returns (escaped: string)
    ensures escaped == Escaped(value)
  {
    escaped := "";
    for i := 0 to |value|
      invariant escaped == Escaped(value[..i])
    {
      EscapedMore(value[..i], value[i]);
      assert value[..i + 1] == value[..i] + [value[i]];
      match value[i]
      case '"' => escaped := escaped + "\\\"";
      case '\\' => escaped := escaped + "\\\\";
      case c => escaped := escaped + if IsControl(c) then " " else [c];
    }
    assert value[..|value|] == value;
  }

  // ----- What cleaning and trimming keep -----

  /** Every character stays in its place, but for control characters, which become spaces. */
  lemma {:induction false} CleanInPlace(s: string)
    ensures |Clean(s)| == |s|
    ensures forall i :: 0 <= i < |s| ==>
              Clean(s)[i] == if s[i] as int < 32 || 127 <= s[i] as int <= 159 then ' ' else s[i]
  {
    if s != "" {
      CleanInPlace(s[1..]);
    }
  }

  ghost predicate AllSpace(s: string) {
    forall i :: 0 <= i < |s| ==> IsWhitespace(s[i])
  }

  ghost predicate Surrounds(name: string, s: string) {
    exists a, b :: AllSpace(a) && AllSpace(b) && s == a + name + b
  }

  lemma SpaceMore(name: string, s: string, c: char)
    requires IsWhitespace(c)
    ensures Surrounds(name, name)
    ensures Surrounds(name, s) ==> Surrounds(name, [c] + s) && Surrounds(name, s + [c])
  {
    hide IsWhitespace;
    assert AllSpace("") && name == "" + name + "";
    if a, b :| AllSpace(a) && AllSpace(b) && s == a + name + b {
      assert AllSpace([c] + a) && [c] + s == [c] + a + name + b;
      assert AllSpace(b + [c]) && s + [c] == a + name + (b + [c]);
    }
  }

  lemma TrimStep(s: string)
    ensures Trim(s) == if s == "" then ""
                       else if IsWhitespace(s[0]) then Trim(s[1..])
                       else if IsWhitespace(s[|s| - 1]) then Trim(s[..|s| - 1])
                       else s
  {
    hide IsWhitespace;
  }

  /** Trimming takes white space off the ends and nothing else. */
  lemma {:induction false} TrimIsInside(s: string)
    ensures Surrounds(Trim(s), s)
    decreases |s|
  {
    hide Surrounds, Trim, IsWhitespace;
    TrimStep(s);
    var n := |s| - 1;
    assert IsWhitespace(' ') by {
      SpaceIsWhite();
    }
    if s == "" {
      SpaceMore("", "", ' ');
    } else if IsWhitespace(s[0]) {
      TrimIsInside(s[1..]);
      SpaceMore(Trim(s), s[1..], s[0]);
      assert s == [s[0]] + s[1..];
    } else if IsWhitespace(s[n]) {
      TrimIsInside(s[..n]);
      SpaceMore(Trim(s), s[..n], s[n]);
      assert s == s[..n] + [s[n]];
    } else {
      SpaceMore(s, "", ' ');
    }
  }

  lemma SpaceIsWhite()
    ensures IsWhitespace(' ')
  {
  }

  // ----- Quoted values as bytes -----

  function EscapedByte(b: byte): seq<byte> {
    if b == QUOTE || b == BACKSLASH then [BACKSLASH, b] else [b]
  }

  function EscapeBytes(s: seq<byte>): seq<byte> {
    if s == [] then [] else EscapedByte(s[0]) + EscapeBytes(s[1..])
  }

  lemma {:induction false} EscapeConcat(a: seq<byte>, b: seq<byte>)
    ensures EscapeBytes(a + b) == EscapeBytes(a) + EscapeBytes(b)
  {
    hide EscapedByte;
    if a == [] {
      assert a + b == b;
    } else {
      assert (a + b)[1..] == a[1..] + b;
      EscapeConcat(a[1..], b);
    }
  }

  lemma {:induction false} NothingToEscape(s: seq<byte>)
    requires forall i :: 0 <= i < |s| ==> s[i] != QUOTE && s[i] != BACKSLASH
    ensures EscapeBytes(s) == s
  {
    if s != [] {
      NothingToEscape(s[1..]);
    }
  }

  lemma EscapedCharBytes(c: char)
    ensures Utf8(EscapedChar(c)) == EscapeBytes(Utf8Char(if IsControl(c) then ' ' else c))
  {
    var d := if IsControl(c) then ' ' else c;
    Utf8Single(d);
    if c == '"' || c == '\\' {
      Utf8Single('\\');
      Utf8Concat(['\\'], [c]);
      assert EscapedChar(c) == ['\\'] + [c];
      assert Utf8Char(c)[1..] == [] && EscapeBytes([]) == [];
    } else {
      NothingToEscape(Utf8Char(d));
    }
  }

  lemma Utf8Single(c: char)
    ensures Utf8([c]) == Utf8Char(c)
  {
  }

  /** Escaping characters is escaping bytes. */
  lemma {:induction false} EscapedBytes(s: string)
    ensures Utf8(Escaped(s)) == EscapeBytes(Utf8(Clean(s)))
  {
    hide EscapedChar, Utf8Char, IsControl;
    if s != "" {
      var c := if IsControl(s[0]) then ' ' else s[0];
      EscapedCharBytes(s[0]);
      EscapedBytes(s[1..]);
      Utf8Concat(EscapedChar(s[0]), Escaped(s[1..]));
      EscapeConcat(Utf8Char(c), Utf8(Clean(s[1..])));
      assert Clean(s)[1..] == Clean(s[1..]);
    }
  }

  lemma {:induction false} CleanHasNoControl(s: string)
    ensures forall i :: 0 <= i < |Clean(s)| ==> !IsControl(Clean(s)[i])
  {
    if s != "" {
      CleanHasNoControl(s[1..]);
      assert !IsControl(' ');
    }
  }

  lemma CleanHasNoBreak(s: string)
    ensures CR !in Utf8(Clean(s)) && LF !in Utf8(Clean(s))
  {
    CleanHasNoControl(s);
    Utf8Plain(Clean(s), '\r');
    Utf8Plain(Clean(s), '\n');
    assert IsControl('\r') && IsControl('\n');
  }

  lemma {:induction false} EscapeHasNoCR(s: seq<byte>)
    requires CR !in s
    ensures CR !in EscapeBytes(s)
  {
    if s != [] {
      EscapeHasNoCR(s[1..]);
    }
  }

  /** Reads up to the closing quote. */
  function ParseQuoted(s: seq<byte>): Option<(seq<byte>, seq<byte>)>
    decreases |s|
  {
    if s == [] then None
    else if s[0] == QUOTE then Some(([], s[1..]))
    else
      var escaped := s[0] == BACKSLASH && |s| > 1;
      match ParseQuoted(if escaped then s[2..] else s[1..])
      case None => None
      case Some((value, rest)) => Some(([if escaped then s[1] else s[0]] + value, rest))
  }

  lemma {:induction false} QuotedReadsBack(value: seq<byte>, rest: seq<byte>)
    ensures ParseQuoted(EscapeBytes(value) + [QUOTE] + rest) == Some((value, rest))
  {
    var s := EscapeBytes(value) + [QUOTE] + rest;
    if value == [] {
      assert s[1..] == rest;
    } else {
      QuotedReadsBack(value[1..], rest);
      var more := EscapeBytes(value[1..]) + [QUOTE] + rest;
      assert s == EscapedByte(value[0]) + more;
      if value[0] == QUOTE || value[0] == BACKSLASH {
        assert s[0] == BACKSLASH && s[1] == value[0] && s[2..] == more;
      } else {
        assert s[0] == value[0] && s[1..] == more;
      }
      assert [value[0]] + value[1..] == value;
    }
  }

  // ----- The body -----

  function Dash(boundary: seq<byte>): seq<byte> {
    DASHES + boundary
  }

  function Delimiter(boundary: seq<byte>): seq<byte> {
    CRLF + Dash(boundary)
  }

  function Disposition(p: Part): seq<byte> {
    NAME_INTRO + EscapeBytes(p.name) + [QUOTE]
    + if p.file.Some? then FILENAME_INTRO + EscapeBytes(p.file.value.fileName) + [QUOTE] else []
  }

  function Headers(p: Part): seq<byte> {
    Disposition(p) + if p.file.Some? then CRLF + TYPE_INTRO + p.file.value.contentType else []
  }

  function BodyPart(p: Part): seq<byte> {
    Headers(p) + BLANK_LINE + p.payload
  }

  function Encapsulated(parts: seq<Part>, boundary: seq<byte>): seq<byte> {
    if parts == [] then []
    else Encapsulated(parts[..|parts| - 1], boundary) + Dash(boundary) + CRLF + BodyPart(parts[|parts| - 1]) + CRLF
  }

  function Body(parts: seq<Part>, boundary: seq<byte>): seq<byte> {
    Encapsulated(parts, boundary) + Dash(boundary) + DASHES + CRLF
  }

  lemma EncapsulatedMore(parts: seq<Part>, p: Part, boundary: seq<byte>)
    ensures Encapsulated(parts + [p], boundary)
            == Encapsulated(parts, boundary) + Dash(boundary) + CRLF + BodyPart(p) + CRLF
  {
    hide Dash, BodyPart;
    assert (parts + [p])[..|parts|] == parts;
  }

  // ----- Reading a body -----

  function ParseHeaders(s: seq<byte>): Option<(seq<byte>, Option<FileInfo>)> {
    if !(NAME_INTRO <= s) then None
    else
      match ParseQuoted(s[|NAME_INTRO|..])
      case None => None
      case Some((name, rest)) =>
        if rest == [] then Some((name, None))
        else if !(FILENAME_INTRO <= rest) then None
        else
          match ParseQuoted(rest[|FILENAME_INTRO|..])
          case None => None
          case Some((fileName, more)) =>
            if CRLF + TYPE_INTRO <= more then Some((name, Some(FileInfo(fileName, more[|CRLF + TYPE_INTRO|..]))))
            else None
  }

  /** Headers up to the first blank line, then the payload. */
  function ParseBodyPart(s: seq<byte>): Option<Part> {
    match FirstAt(s, BLANK_LINE)
    case None => None
    case Some(k) =>
      match ParseHeaders(s[..k])
      case None => None
      case Some((name, file)) => Some(Part(name, file, s[k + 4..]))
  }

  /** What follows a boundary: the end, or a part up to the next delimiter. */
  function ParseParts(s: seq<byte>, boundary: seq<byte>): Option<seq<Part>>
    decreases |s|
  {
    if DASHES <= s then Some([])
    else if !(CRLF <= s) then None
    else
      match FirstAt(s[2..], Delimiter(boundary))
      case None => None
      case Some(i) =>
        match ParseBodyPart(s[2..][..i])
        case None => None
        case Some(p) =>
          match ParseParts(s[2..][i + |Delimiter(boundary)|..], boundary)
          case None => None
          case Some(ps) => Some([p] + ps)
  }

  function ParseBody(body: seq<byte>, boundary: seq<byte>): Option<seq<Part>> {
    if Dash(boundary) <= body then ParseParts(body[|Dash(boundary)|..], boundary) else None
  }

  // ----- Reading back -----

  /** Neither CR nor LF, so that a header value ends with its line. */
  predicate OneLine(s: seq<byte>) {
    CR !in s && LF !in s
  }

  predicate SafePart(p: Part) {
    OneLine(p.name) && (p.file.Some? ==> OneLine(p.file.value.fileName) && OneLine(p.file.value.contentType))
  }

  /** No line of the payload, its first one included, starts with the boundary. */
  ghost predicate FreeOfBoundary(payload: seq<byte>, boundary: seq<byte>) {
    forall i :: !At(CRLF + payload, Delimiter(boundary), i)
  }

  lemma IntrosHaveNoCR()
    ensures CR !in NAME_INTRO && CR !in FILENAME_INTRO && CR !in TYPE_INTRO
  {
    hide Utf8;
    Utf8Plain("Content-Disposition: form-data; name=\"", '\r');
    Utf8Plain("; filename=\"", '\r');
    Utf8Plain("Content-Type: ", '\r');
  }

  lemma IntrosStart()
    ensures TYPE_INTRO != [] && TYPE_INTRO[0] == 'C' as int
    ensures FILENAME_INTRO != [] && NAME_INTRO != []
  {
    hide Utf8;
    Utf8Starts("Content-Type: ");
    Utf8Starts("; filename=\"");
    Utf8Starts("Content-Disposition: form-data; name=\"");
  }

  lemma DispositionHasNoCR(p: Part)
    requires SafePart(p)
    ensures CR !in Disposition(p)
  {
    hide NAME_INTRO, FILENAME_INTRO, TYPE_INTRO;
    IntrosHaveNoCR();
    EscapeHasNoCR(p.name);
    if p.file.Some? {
      EscapeHasNoCR(p.file.value.fileName);
    }
  }

  lemma HeaderCRs(p: Part, j: nat)
    requires SafePart(p) && j < |Headers(p)| && Headers(p)[j] == CR
    ensures p.file.Some? && j == |Disposition(p)|
  {
    hide NAME_INTRO, FILENAME_INTRO, TYPE_INTRO, Disposition;
    IntrosHaveNoCR();
    DispositionHasNoCR(p);
    var d := Disposition(p);
    assert forall k :: 0 <= k < |d| ==> d[k] != CR;
    if p.file.Some? {
      var v := TYPE_INTRO + p.file.value.contentType;
      assert forall k :: 0 <= k < |v| ==> v[k] != CR;
      assert Headers(p) == d + CRLF + v;
    }
  }

  /** A CR in the headers starts the second header line. */
  lemma HeaderBreaks(p: Part, j: nat)
    requires SafePart(p) && j < |Headers(p)| && Headers(p)[j] == CR
    ensures j + 2 < |Headers(p)| && Headers(p)[j + 2] == 'C' as int
  {
    hide NAME_INTRO, FILENAME_INTRO, TYPE_INTRO, Disposition;
    HeaderCRs(p, j);
    IntrosStart();
    assert Headers(p) == Disposition(p) + CRLF + TYPE_INTRO + p.file.value.contentType;
  }

  lemma HeadersReadBack(p: Part)
    ensures ParseHeaders(Headers(p)) == Some((p.name, p.file))
  {
    hide NAME_INTRO, FILENAME_INTRO, TYPE_INTRO, EscapeBytes, ParseQuoted;
    IntrosStart();
    if p.file.Some? {
      var f := p.file.value;
      var line := CRLF + TYPE_INTRO + f.contentType;
      var more := FILENAME_INTRO + (EscapeBytes(f.fileName) + [QUOTE] + line);
      assert Headers(p) == NAME_INTRO + (EscapeBytes(p.name) + [QUOTE] + more);
      QuotedReadsBack(p.name, more);
      assert more[|FILENAME_INTRO|..] == EscapeBytes(f.fileName) + [QUOTE] + line;
      QuotedReadsBack(f.fileName, line);
      assert line[|CRLF + TYPE_INTRO|..] == f.contentType;
    } else {
      assert Headers(p) == NAME_INTRO + (EscapeBytes(p.name) + [QUOTE] + []);
      QuotedReadsBack(p.name, []);
    }
  }

  /** The first blank line of a part ends its headers, however much of the payload is cut off. */
  lemma HeadersEnd(p: Part, cut: nat)
    requires SafePart(p) && |Headers(p)| + 4 <= cut <= |BodyPart(p)|
    ensures FirstAt(BodyPart(p)[..cut], BLANK_LINE) == Some(|Headers(p)|)
  {
    hide Headers, SafePart;
    var h, s := Headers(p), BodyPart(p)[..cut];
    forall j | 0 <= j < |h|
      ensures !At(s, BLANK_LINE, j)
    {
      if At(s, BLANK_LINE, j) {
        AtElement(s, BLANK_LINE, j, 0);
        AtElement(s, BLANK_LINE, j, 2);
        HeaderBreaks(p, j);
      }
    }
    assert BodyPart(p) == h + (BLANK_LINE + p.payload);
    AtInPrefix(h, BLANK_LINE, p.payload, cut);
    FirstAtIs(s, BLANK_LINE, |h|);
  }

  lemma PartReadsBack(p: Part)
    requires SafePart(p)
    ensures ParseBodyPart(BodyPart(p)) == Some(p)
  {
    hide Headers, SafePart, ParseHeaders, FirstAt;
    var s := BodyPart(p);
    assert s[..|s|] == s;
    HeadersEnd(p, |s|);
    assert s[..|Headers(p)|] == Headers(p) && s[|Headers(p)| + 4..] == p.payload;
    HeadersReadBack(p);
  }

  /** A part cut short does not read back as itself. */
  lemma CutPartDiffers(p: Part, cut: nat)
    requires SafePart(p) && cut < |BodyPart(p)|
    ensures ParseBodyPart(BodyPart(p)[..cut]) != Some(p)
  {
    hide Headers, SafePart, ParseHeaders;
    var s := BodyPart(p)[..cut];
    if cut >= |Headers(p)| + 4 {
      HeadersEnd(p, cut);
      assert |s[|Headers(p)| + 4..]| < |p.payload|;
    } else {
      var r := FirstAt(s, BLANK_LINE);
      if r.Some? {
        FirstAtFinds(s, BLANK_LINE, 0);
        AtElement(s, BLANK_LINE, r.value, 0);
        AtElement(s, BLANK_LINE, r.value, 2);
        HeaderBreaks(p, r.value);
      }
    }
  }

  /** A delimiter inside a part is one inside its payload, counting the line break before it. */
  lemma DelimiterInPart(p: Part, boundary: seq<byte>, j: int)
    requires SafePart(p)
    ensures At(BodyPart(p), Delimiter(boundary), j)
            <==> j >= |Headers(p)| + 2 && At(CRLF + p.payload, Delimiter(boundary), j - |Headers(p)| - 2)
  {
    hide Headers, SafePart, At;
    var h, s, d := Headers(p), BodyPart(p), Delimiter(boundary);
    assert s == h + CRLF + (CRLF + p.payload);
    if j >= |h| + 2 {
      AtSuffix(h + CRLF, CRLF + p.payload, d, j);
    } else if At(s, d, j) {
      AtInside(s, d, j);
      AtElement(s, d, j, 0);
      AtElement(s, d, j, 2);
      if j < |h| {
        HeaderBreaks(p, j);
      }
    }
  }

  lemma FreePart(p: Part, boundary: seq<byte>)
    requires SafePart(p)
    ensures FreeOfBoundary(p.payload, boundary) <==> forall j :: !At(BodyPart(p), Delimiter(boundary), j)
  {
    hide BodyPart, SafePart, At, Headers, Delimiter;
    var n, d := |Headers(p)| + 2, Delimiter(boundary);
    if FreeOfBoundary(p.payload, boundary) {
      forall j
        ensures !At(BodyPart(p), d, j)
      {
        DelimiterInPart(p, boundary, j);
      }
    } else {
      var i :| At(CRLF + p.payload, d, i);
      AtInside(CRLF + p.payload, d, i);
      DelimiterInPart(p, boundary, i + n);
      assert i + n - n == i;
    }
  }

  /** With no CR in the boundary, a delimiter cannot run past the end of a part. */
  lemma FirstDelimiter(p: Part, boundary: seq<byte>, more: seq<byte>)
    requires SafePart(p) && CR !in boundary
    ensures var r := FirstAt(BodyPart(p) + (Delimiter(boundary) + more), Delimiter(boundary));
            r.Some? && r.value <= |BodyPart(p)|
            && (r.value == |BodyPart(p)| <==> FreeOfBoundary(p.payload, boundary))
  {
    hide BodyPart, SafePart, At, FirstAt, FreeOfBoundary, Delimiter;
    var x, d := BodyPart(p), Delimiter(boundary);
    var all := x + (d + more);
    FreePart(p, boundary);
    DelimiterFollows(x, d, more);
    FirstAtFinds(all, d, |x|);
    var i := FirstAt(all, d).value;
    if i < |x| {
      DelimiterFits(x, boundary, more, i);
      AtPrefix(x, d + more, d, i);
    } else if !FreeOfBoundary(p.payload, boundary) {
      var j :| At(x, d, j);
      AtInside(x, d, j);
      DelimiterIsLong(boundary);
      AtPrefix(x, d + more, d, j);
      FirstAtFinds(all, d, j);
    }
  }

  lemma DelimiterIsLong(boundary: seq<byte>)
    ensures |Delimiter(boundary)| >= 4
  {
  }

  lemma DelimiterFollows(x: seq<byte>, d: seq<byte>, more: seq<byte>)
    ensures At(x + (d + more), d, |x|)
  {
  }

  lemma DelimiterHasOneCR(boundary: seq<byte>)
    requires CR !in boundary
    ensures |Delimiter(boundary)| >= 4 && Delimiter(boundary)[0] == CR
    ensures forall k :: 1 <= k < |Delimiter(boundary)| ==> Delimiter(boundary)[k] != CR
  {
  }

  lemma DelimiterFits(x: seq<byte>, boundary: seq<byte>, more: seq<byte>, i: nat)
    requires i < |x| && CR !in boundary
    requires At(x + (Delimiter(boundary) + more), Delimiter(boundary), i)
    ensures i + |Delimiter(boundary)| <= |x|
  {
    hide At, Delimiter;
    var d := Delimiter(boundary);
    DelimiterHasOneCR(boundary);
    assert (x + (d + more))[|x|] == CR;
    if i + |d| > |x| {
      AtElement(x + (d + more), d, i, |x| - i);
    }
  }

  // ----- Whole bodies -----

  /** The body after its first boundary. */
  function Tail(parts: seq<Part>, boundary: seq<byte>): seq<byte> {
    if parts == [] then DASHES + CRLF
    else CRLF + (BodyPart(parts[0]) + (Delimiter(boundary) + Tail(parts[1..], boundary)))
  }

  lemma {:induction false} TailAfterMore(parts: seq<Part>, done: seq<Part>, boundary: seq<byte>)
    ensures Encapsulated(done, boundary) + Dash(boundary) + Tail(parts, boundary) == Body(done + parts, boundary)
    decreases |parts|
  {
    hide BodyPart, Dash;
    if parts == [] {
      assert done + parts == done;
    } else {
      var p, more := parts[0], Tail(parts[1..], boundary);
      TailAfterMore(parts[1..], done + [p], boundary);
      assert done + parts == done + [p] + parts[1..];
      EncapsulatedMore(done, p, boundary);
      RegroupDelimiter(Encapsulated(done, boundary), Dash(boundary), BodyPart(p), more);
    }
  }

  lemma RegroupDelimiter(done: seq<byte>, dash: seq<byte>, x: seq<byte>, more: seq<byte>)
    ensures done + dash + CRLF + x + CRLF + dash + more == done + dash + (CRLF + (x + (CRLF + dash + more)))
  {
  }

  lemma BodyIsTail(parts: seq<Part>, boundary: seq<byte>)
    ensures Body(parts, boundary) == Dash(boundary) + Tail(parts, boundary)
  {
    hide Dash, Tail;
    TailAfterMore(parts, [], boundary);
    assert [] + Dash(boundary) == Dash(boundary) && [] + parts == parts;
  }

  ghost predicate AllFree(parts: seq<Part>, boundary: seq<byte>) {
    forall i :: 0 <= i < |parts| ==> FreeOfBoundary(parts[i].payload, boundary)
  }

  lemma AllFreeFirst(parts: seq<Part>, boundary: seq<byte>)
    requires parts != []
    ensures AllFree(parts, boundary) <==> FreeOfBoundary(parts[0].payload, boundary) && AllFree(parts[1..], boundary)
  {
  }

  lemma {:induction false} TailReadsBack(parts: seq<Part>, boundary: seq<byte>)
    requires CR !in boundary && forall i :: 0 <= i < |parts| ==> SafePart(parts[i])
    ensures ParseParts(Tail(parts, boundary), boundary) == Some(parts) <==> AllFree(parts, boundary)
    decreases |parts|
  {
    hide BodyPart, FirstAt, ParseBodyPart, Delimiter, FreeOfBoundary, SafePart, AllFree, ParseParts;
    if parts == [] {
      NothingReadsBack(boundary);
    } else {
      var p, rest, d := parts[0], parts[1..], Delimiter(boundary);
      var x, more := BodyPart(p), Tail(rest, boundary);
      FirstDelimiter(p, boundary, more);
      AllFreeFirst(parts, boundary);
      TailReadsBack(rest, boundary);
      var i := FirstAt(x + (d + more), d).value;
      ParseStep(x + (d + more), boundary, i);
      assert [p] + rest == parts;
      if i == |x| {
        PartReadsBack(p);
        assert (x + (d + more))[..i] == x && (x + (d + more))[i + |d|..] == more;
      } else {
        CutPartDiffers(p, i);
        assert (x + (d + more))[..i] == x[..i];
      }
    }
  }

  lemma ParseStep(y: seq<byte>, boundary: seq<byte>, i: nat)
    requires FirstAt(y, Delimiter(boundary)) == Some(i)
    ensures ParseParts(CRLF + y, boundary)
            == match ParseBodyPart(y[..i])
               case None => None
               case Some(p) =>
                 match ParseParts(y[i + |Delimiter(boundary)|..], boundary)
                 case None => None
                 case Some(ps) => Some([p] + ps)
  {
    hide FirstAt, ParseBodyPart, Delimiter;
    var s := CRLF + y;
    assert s[2..] == y && s[0] == CR;
    assert CRLF <= s && !(DASHES <= s);
  }

  lemma NothingReadsBack(boundary: seq<byte>)
    ensures AllFree([], boundary) && ParseParts(DASHES + CRLF, boundary) == Some([])
  {
  }

  /** A receiver gets exactly the parts that were put in, unless a line of some payload starts
      with the boundary. */
  lemma BodyReadsBack(parts: seq<Part>, boundary: seq<byte>)
    requires CR !in boundary && forall i :: 0 <= i < |parts| ==> SafePart(parts[i])
    ensures ParseBody(Body(parts, boundary), boundary) == Some(parts) <==> AllFree(parts, boundary)
  {
    hide Dash, Tail, ParseParts, AllFree, SafePart;
    BodyIsTail(parts, boundary);
    TailReadsBack(parts, boundary);
    assert Body(parts, boundary)[|Dash(boundary)|..] == Tail(parts, boundary);
  }

  // ----- What the input asks for -----

  function Value(o: Option<string>): string {
    match o case None => "" case Some(s) => s
  }

  function MultipartFileBytes(part: HttpMultipartPartInput): (r: Result<seq<byte>, MultipartError>)
    ensures r.Ok? ==> |r.value| <= 134217728
    ensures r.Ok? ==> if part.bytes.Some? then r.value == part.bytes.value
                      else Decode(Compact(Utf8(Trim(Value(part.bytesBase64))))) == Ok(r.value)
    ensures part.bytes.Some? ==> (r.Ok? <==> |part.bytes.value| <= 134217728)
    ensures r == Err(NoFileChosen) <==> part.bytes.None? && Trim(Value(part.bytesBase64)) == ""
    ensures r.Err? ==> r.error != BodyTooLarge && (part.bytes.Some? ==> r.error == FileTooLarge)
    ensures r.Err? && r.error.BadContent? ==> Decode(Compact(Utf8(Trim(Value(part.bytesBase64))))) == Err(r.error.error)
  {
    if part.bytes.Some? then
      if |part.bytes.value| > MAX_FILE_BYTES then Err(FileTooLarge) else Ok(part.bytes.value)
    else if Trim(Value(part.bytesBase64)) != "" then
      var text := Compact(Utf8(Trim(Value(part.bytesBase64))));
      if |text| / 4 * 3 > MAX_FILE_BYTES then Err(FileTooLarge)
      else
        match Decode(text)
        case Err(e) => Err(BadContent(e))
        case Ok(bytes) => if |bytes| > MAX_FILE_BYTES then Err(FileTooLarge) else Ok(bytes)
    else Err(NoFileChosen)
  }

  /** A file given in Base64 comes through, but its last two permitted sizes do not: the
      estimate rounds them up beyond the limit. */
  lemma EncodedFileArrives(part: HttpMultipartPartInput, bytes: seq<byte>)
    requires part.bytes.None? && Compact(Utf8(Trim(Value(part.bytesBase64)))) == Encode(bytes) && bytes != []
    ensures MultipartFileBytes(part) == if |bytes| <= 134217726 then Ok(bytes) else Err(FileTooLarge)
  {
    hide Trim, Utf8, Encode, Decode, Compact, MultipartFileBytes;
    var text := Encode(bytes);
    DecodeOfEncode(bytes);
    EstimateRoundsUp(|bytes|);
    assert |text| > 0;
    DecodedFile(part, text, bytes);
  }

  lemma DecodedFile(part: HttpMultipartPartInput, text: seq<byte>, bytes: seq<byte>)
    requires part.bytes.None? && Compact(Utf8(Trim(Value(part.bytesBase64)))) == text && text != []
    requires Decode(text) == Ok(bytes)
    ensures MultipartFileBytes(part)
            == if |text| / 4 * 3 > 134217728 || |bytes| > 134217728 then Err(FileTooLarge) else Ok(bytes)
  {
    hide Trim, Utf8, Decode, Compact;
    NothingIsCompact();
  }

  lemma EstimateRoundsUp(n: nat)
    ensures (n + 2) / 3 * 4 / 4 * 3 > 134217728 <==> n > 134217726
    ensures n > 0 ==> (n + 2) / 3 * 4 > 0
  {
    var k := (n + 2) / 3;
    assert k * 4 / 4 == k;
  }

  lemma NothingIsCompact()
    ensures Compact(Utf8("")) == []
  {
  }

  function PayloadSize(part: HttpMultipartPartInput): nat {
    match part.kind
    case Text => |Utf8(Value(part.value))|
    case File =>
      if part.bytes.Some? then |part.bytes.value|
      else if part.bytesBase64.Some? then |Compact(Utf8(part.bytesBase64.value))| / 4 * 3
      else 0
  }

  function PayloadSizes(parts: seq<HttpMultipartPartInput>): nat {
    if parts == [] then 0 else PayloadSizes(parts[..|parts| - 1]) + PayloadSize(parts[|parts| - 1])
  }

  function FileNameOf(part: HttpMultipartPartInput): string {
    var name := Trim(Value(part.fileName));
    if name == "" then "upload" else name
  }

  function MultipartContentType(value: Option<string>): string {
    var trimmed := Trim(Value(value));
    if trimmed == "" || exists i :: 0 <= i < |Utf8(trimmed)| && (Utf8(trimmed)[i] <= 31 || Utf8(trimmed)[i] == 127)
    then DEFAULT_TYPE
    else trimmed
  }

  /** The parts that an input stands for: none when its name is blank. */
  function PartsOf(part: HttpMultipartPartInput): Result<seq<Part>, MultipartError> {
    var name := Utf8(Clean(Trim(part.name)));
    if Trim(part.name) == "" then Ok([])
    else
      match part.kind
      case Text => Ok([Part(name, None, Utf8(Value(part.value)))])
      case File =>
        match MultipartFileBytes(part)
        case Err(e) => Err(e)
        case Ok(bytes) =>
          var info := FileInfo(Utf8(Clean(FileNameOf(part))), Utf8(MultipartContentType(part.contentType)));
          Ok([Part(name, Some(info), bytes)])
  }

  /** All parts in order, or the error of the first input that has one. */
  function AllPartsOf(inputs: seq<HttpMultipartPartInput>): Result<seq<Part>, MultipartError> {
    if inputs == [] then Ok([])
    else
      match AllPartsOf(inputs[..|inputs| - 1])
      case Err(e) => Err(e)
      case Ok(parts) =>
        match PartsOf(inputs[|inputs| - 1])
        case Err(e) => Err(e)
        case Ok(more) => Ok(parts + more)
  }

  lemma AllPartsMore(inputs: seq<HttpMultipartPartInput>, i: nat)
    requires i < |inputs|
    ensures var before, part := AllPartsOf(inputs[..i]), PartsOf(inputs[i]);
            AllPartsOf(inputs[..i + 1])
            == if before.Err? then before else if part.Err? then part else Ok(before.value + part.value)
    ensures PayloadSizes(inputs[..i + 1]) == PayloadSizes(inputs[..i]) + PayloadSize(inputs[i])
  {
    hide PartsOf, PayloadSize;
    assert inputs[..i + 1][..i] == inputs[..i];
  }

  lemma {:induction false} AllPartsUpTo(inputs: seq<HttpMultipartPartInput>, i: nat)
    requires i <= |inputs| && AllPartsOf(inputs[..i]).Err?
    ensures AllPartsOf(inputs) == AllPartsOf(inputs[..i])
    decreases |inputs| - i
  {
    hide PartsOf, PayloadSize, AllPartsOf, PayloadSizes;
    if i < |inputs| {
      AllPartsMore(inputs, i);
      AllPartsUpTo(inputs, i + 1);
    } else {
      assert inputs[..i] == inputs;
    }
  }

  /** No input leads to a header value with a line break in it. */
  lemma PartsAreSafe(part: HttpMultipartPartInput)
    ensures var r := PartsOf(part); r.Ok? ==> forall i :: 0 <= i < |r.value| ==> SafePart(r.value[i])
  {
    hide Trim, FileNameOf, MultipartContentType, Clean, Utf8;
    CleanHasNoBreak(Trim(part.name));
    CleanHasNoBreak(FileNameOf(part));
    TypeHasNoBreak(part.contentType);
  }

  lemma TypeHasNoBreak(value: Option<string>)
    ensures OneLine(Utf8(MultipartContentType(value)))
  {
    hide Utf8;
    Utf8Plain(DEFAULT_TYPE, '\r');
    Utf8Plain(DEFAULT_TYPE, '\n');
  }

  lemma {:induction false} AllPartsAreSafe(inputs: seq<HttpMultipartPartInput>)
    ensures var r := AllPartsOf(inputs); r.Ok? ==> forall i :: 0 <= i < |r.value| ==> SafePart(r.value[i])
  {
    hide PartsOf, SafePart;
    if inputs != [] {
      AllPartsAreSafe(inputs[..|inputs| - 1]);
      PartsAreSafe(inputs[|inputs| - 1]);
    }
  }

  function Built(inputs: seq<HttpMultipartPartInput>, boundary: seq<byte>): Result<seq<byte>, MultipartError> {
    if PayloadSizes(inputs) > 167772160 then Err(BodyTooLarge)
    else
      match AllPartsOf(inputs)
      case Err(e) => Err(e)
      case Ok(parts) =>
        if |Body(parts, boundary)| > 167772160 then Err(BodyTooLarge) else Ok(Body(parts, boundary))
  }

  method BuildMultipartBody(inputs: seq<HttpMultipartPartInput>, boundary: seq<byte>)
    returns (r: Result<seq<byte>, MultipartError>)
    ensures r == Built(inputs, boundary)
  {
    hide AllPartsOf, PartsOf, PayloadSizes, PayloadSize, Encapsulated, Trim, Clean, Escaped, EscapeBytes, Utf8,
      MultipartFileBytes, FileNameOf, MultipartContentType, NAME_INTRO, FILENAME_INTRO, TYPE_INTRO;
    NoInputs(boundary);
    var payloadSize := 0;
    for i := 0 to |inputs|
      invariant payloadSize == PayloadSizes(inputs[..i])
    {
      AllPartsMore(inputs, i);
      payloadSize := payloadSize + PayloadSize(inputs[i]);
    }
    assert inputs[..|inputs|] == inputs;
    if payloadSize > MAX_BODY_BYTES {
      return Err(BodyTooLarge);
    }
    var body: seq<byte> := [];
    for i := 0 to |inputs|
      invariant AllPartsOf(inputs[..i]).Ok? && body == Encapsulated(AllPartsOf(inputs[..i]).value, boundary)
    {
      var part := inputs[i];
      ghost var done := AllPartsOf(inputs[..i]).value;
      ghost var before := body;
      AllPartsMore(inputs, i);
      var name := Trim(part.name);
      if name == "" {
        UnnamedPart(part, done);
        continue;
      }
      var escapedName := EscapeMultipartHeaderParameter(name);
      body := body + Dash(boundary) + CRLF + NAME_INTRO + Utf8(escapedName) + [QUOTE];
      match part.kind {
        case Text =>
          body := body + BLANK_LINE + Utf8(Value(part.value)) + CRLF;
          TextPart(part, done, before, boundary);
        case File =>
          var bytes := MultipartFileBytes(part);
          FailedPart(part);
          if bytes.Err? {
            AllPartsUpTo(inputs, i + 1);
            return Err(bytes.error);
          }
          var fileName := EscapeMultipartHeaderParameter(FileNameOf(part));
          body := body + FILENAME_INTRO + Utf8(fileName) + [QUOTE] + CRLF + TYPE_INTRO
                  + Utf8(MultipartContentType(part.contentType)) + BLANK_LINE;
          body := body + bytes.value + CRLF;
          FilePart(part, done, before, boundary);
      }
    }
    body := body + Dash(boundary) + DASHES + CRLF;
    if |body| > MAX_BODY_BYTES {
      return Err(BodyTooLarge);
    }
    r := Ok(body);
  }

  lemma UnnamedPart(part: HttpMultipartPartInput, done: seq<Part>)
    requires Trim(part.name) == ""
    ensures PartsOf(part) == Ok([]) && done + [] == done
  {
  }

  lemma FailedPart(part: HttpMultipartPartInput)
    requires Trim(part.name) != "" && part.kind.File?
    ensures MultipartFileBytes(part).Err? ==> PartsOf(part) == Err(MultipartFileBytes(part).error)
  {
  }

  lemma TextPart(part: HttpMultipartPartInput, done: seq<Part>, before: seq<byte>, boundary: seq<byte>)
    requires Trim(part.name) != "" && part.kind.Text? && before == Encapsulated(done, boundary)
    ensures PartsOf(part).Ok?
    ensures before + Dash(boundary) + CRLF + NAME_INTRO + Utf8(Escaped(Trim(part.name))) + [QUOTE] + BLANK_LINE
            + Utf8(Value(part.value)) + CRLF
            == Encapsulated(done + PartsOf(part).value, boundary)
  {
    hide Trim, Dash, Clean, Escaped, EscapeBytes, Utf8, Encapsulated, NAME_INTRO;
    var p := PartsOf(part).value[0];
    EscapedBytes(Trim(part.name));
    EncapsulatedMore(done, p, boundary);
    assert BodyPart(p) == NAME_INTRO + EscapeBytes(p.name) + [QUOTE] + BLANK_LINE + p.payload;
    Regroup6(before + Dash(boundary) + CRLF, NAME_INTRO, EscapeBytes(p.name), [QUOTE], BLANK_LINE, p.payload);
  }

  lemma Regroup6(a: seq<byte>, b: seq<byte>, c: seq<byte>, d: seq<byte>, e: seq<byte>, f: seq<byte>)
    ensures a + b + c + d + e + f == a + (b + c + d + e + f)
  {
  }

  lemma FilePart(part: HttpMultipartPartInput, done: seq<Part>, before: seq<byte>, boundary: seq<byte>)
    requires Trim(part.name) != "" && part.kind.File? && MultipartFileBytes(part).Ok?
    requires before == Encapsulated(done, boundary)
    ensures PartsOf(part).Ok?
    ensures before + Dash(boundary) + CRLF + NAME_INTRO + Utf8(Escaped(Trim(part.name))) + [QUOTE]
            + FILENAME_INTRO + Utf8(Escaped(FileNameOf(part))) + [QUOTE] + CRLF + TYPE_INTRO
            + Utf8(MultipartContentType(part.contentType)) + BLANK_LINE + MultipartFileBytes(part).value + CRLF
            == Encapsulated(done + PartsOf(part).value, boundary)
  {
    hide Trim, Dash, Clean, Escaped, EscapeBytes, Utf8, Encapsulated, NAME_INTRO, FILENAME_INTRO, TYPE_INTRO, FileNameOf,
      MultipartContentType, MultipartFileBytes;
    var p := PartsOf(part).value[0];
    var f := p.file.value;
    EscapedBytes(Trim(part.name));
    EscapedBytes(FileNameOf(part));
    EncapsulatedMore(done, p, boundary);
    var name, fileName := EscapeBytes(p.name), EscapeBytes(f.fileName);
    Regroup11(before + Dash(boundary) + CRLF, NAME_INTRO, name, [QUOTE], FILENAME_INTRO, fileName, [QUOTE],
              CRLF, TYPE_INTRO, f.contentType, BLANK_LINE, p.payload);
    assert Headers(p) == NAME_INTRO + name + [QUOTE] + (FILENAME_INTRO + fileName + [QUOTE])
                         + (CRLF + TYPE_INTRO + f.contentType);
  }

  lemma Regroup11(a: seq<byte>, b: seq<byte>, c: seq<byte>, d: seq<byte>, e: seq<byte>, f: seq<byte>, g: seq<byte>,
                  h: seq<byte>, i: seq<byte>, j: seq<byte>, k: seq<byte>, l: seq<byte>)
    ensures a + b + c + d + e + f + g + h + i + j + k + l
            == a + (b + c + d + (e + f + g) + (h + i + j) + k + l)
  {
  }

  lemma NoInputs(boundary: seq<byte>)
    ensures AllPartsOf([]) == Ok([]) && PayloadSizes([]) == 0 && Encapsulated([], boundary) == []
  {
  }

  /** A body that gets built carries every named part, in order, to a reader of the standard,
      unless a line of some payload starts with the boundary. */
  lemma BuiltBodyReadsBack(inputs: seq<HttpMultipartPartInput>, boundary: seq<byte>)
    requires CR !in boundary && Built(inputs, boundary).Ok?
    ensures AllPartsOf(inputs).Ok?
    ensures ParseBody(Built(inputs, boundary).value, boundary) == Some(AllPartsOf(inputs).value)
            <==> AllFree(AllPartsOf(inputs).value, boundary)
  {
    hide AllPartsOf, PayloadSizes, Body, ParseBody, AllFree, SafePart;
    AllPartsAreSafe(inputs);
    BodyReadsBack(AllPartsOf(inputs).value, boundary);
  }

  // ----- The body, letter by letter -----

  lemma TextPartText(name: seq<byte>, payload: seq<byte>)
    ensures BodyPart(Part(name, None, payload))
            == Utf8("Content-Disposition: form-data; name=\"") + EscapeBytes(name) + [34, 13, 10, 13, 10] + payload
  {
    hide Utf8, EscapeBytes;
  }

  lemma FilePartText(name: seq<byte>, fileName: seq<byte>, contentType: seq<byte>, payload: seq<byte>)
    ensures BodyPart(Part(name, Some(FileInfo(fileName, contentType)), payload))
            == Utf8("Content-Disposition: form-data; name=\"") + EscapeBytes(name) + [34]
               + Utf8("; filename=\"") + EscapeBytes(fileName) + [34, 13, 10]
               + Utf8("Content-Type: ") + contentType + [13, 10, 13, 10] + payload
  {
    hide Utf8, EscapeBytes;
  }

  lemma EscapedByteText(b: byte)
    ensures EscapeBytes([b]) == if b == 34 || b == 92 then [92, b] else [b]
  {
    assert [b][1..] == [];
  }

  lemma OnePartBody(p: Part, boundary: seq<byte>)
    ensures Body([p], boundary)
            == [45, 45] + boundary + [13, 10] + BodyPart(p) + [13, 10, 45, 45] + boundary + [45, 45, 13, 10]
  {
    hide BodyPart;
    assert [p][..0] == [];
    assert Encapsulated([p], boundary) == Dash(boundary) + CRLF + BodyPart(p) + CRLF;
  }

  /** A file goes under its trimmed name, or as "upload", and under its trimmed type if that holds
      no control character. */
  lemma FileNameAndType(part: HttpMultipartPartInput, name: string, contentType: string)
    requires Value(part.fileName) == name && Value(part.contentType) == contentType
    ensures FileNameOf(part) == if Trim(name) == "" then "upload" else Trim(name)
    ensures MultipartContentType(part.contentType)
            == if Trim(contentType) != ""
                  && forall i :: 0 <= i < |Trim(contentType)| ==> Trim(contentType)[i] as int >= 32 && Trim(contentType)[i] as int != 127
               then Trim(contentType) else "application/octet-stream"
  {
    hide Trim, Utf8;
    PlainBytes(Trim(contentType));
  }

  /** The bytes of a text are free of control bytes exactly when its characters are. */
  lemma {:induction false} PlainBytes(s: string)
    ensures (exists i :: 0 <= i < |Utf8(s)| && (Utf8(s)[i] <= 31 || Utf8(s)[i] == 127))
            <==> exists i :: 0 <= i < |s| && (s[i] as int <= 31 || s[i] as int == 127)
  {
    hide Utf8;
    forall c: char | c as int <= 31 || c as int == 127
      ensures c as int in Utf8(s) <==> c in s
    {
      Utf8Plain(s, c);
    }
    if i :| 0 <= i < |Utf8(s)| && (Utf8(s)[i] <= 31 || Utf8(s)[i] == 127) {
      var c := Utf8(s)[i] as char;
      assert c as int in Utf8(s) && c in s;
    }
    if i :| 0 <= i < |s| && (s[i] as int <= 31 || s[i] as int == 127) {
      assert s[i] in s && s[i] as int in Utf8(s);
    }
  }

  // ----- The size check before building -----

  function PayloadTotal(parts: seq<Part>): nat {
    if parts == [] then 0 else PayloadTotal(parts[..|parts| - 1]) + |parts[|parts| - 1].payload|
  }

  lemma PayloadTotalMore(parts: seq<Part>, more: seq<Part>)
    requires |more| <= 1
    ensures PayloadTotal(parts + more) == PayloadTotal(parts) + PayloadTotal(more)
  {
    if more == [] {
      assert parts + more == parts;
    } else {
      assert (parts + more)[..|parts|] == parts && more[..0] == [];
    }
  }

  lemma {:induction false} CompactConcat(a: seq<byte>, b: seq<byte>)
    ensures Compact(a + b) == Compact(a) + Compact(b)
  {
    hide IsAsciiWhitespace;
    if a == [] {
      assert a + b == b;
    } else {
      assert (a + b)[1..] == a[1..] + b;
      CompactConcat(a[1..], b);
    }
  }

  lemma {:induction false} TrimIsSmaller(s: string)
    ensures |Compact(Utf8(Trim(s)))| <= |Compact(Utf8(s))|
    decreases |s|
  {
    hide Utf8, Compact;
    if s != "" {
      var n := |s| - 1;
      assert s == [s[0]] + s[1..] && s == s[..n] + [s[n]];
      Utf8Concat([s[0]], s[1..]);
      Utf8Concat(s[..n], [s[n]]);
      CompactConcat(Utf8([s[0]]), Utf8(s[1..]));
      CompactConcat(Utf8(s[..n]), Utf8([s[n]]));
      if IsWhitespace(s[0]) {
        TrimIsSmaller(s[1..]);
      } else if IsWhitespace(s[n]) {
        TrimIsSmaller(s[..n]);
      }
    }
  }

  lemma TrimOfNothing()
    ensures Trim("") == ""
  {
  }

  lemma PartSizeCovers(part: HttpMultipartPartInput)
    requires PartsOf(part).Ok?
    ensures |PartsOf(part).value| <= 1 && PayloadTotal(PartsOf(part).value) <= PayloadSize(part)
    ensures PartsOf(part).value != [] && Trim(Value(part.bytesBase64)) == Value(part.bytesBase64) ==>
              PayloadSize(part) <= PayloadTotal(PartsOf(part).value) + 2
  {
    hide Utf8, Clean, FileNameOf, MultipartContentType, Compact, Decode, Trim;
    var parts := PartsOf(part).value;
    if parts != [] {
      assert parts[..0] == [];
      assert PayloadTotal(parts) == |parts[0].payload|;
      if part.kind.File? && part.bytes.None? {
        var text := Value(part.bytesBase64);
        assert Trim("") == "" by {
          TrimOfNothing();
        }
        EstimateCovers(Utf8(Trim(text)));
        TrimIsSmaller(text);
      }
    }
  }

  /** The estimate made before anything is decoded never falls short of the payloads. */
  lemma {:induction false} EstimateCoversPayloads(inputs: seq<HttpMultipartPartInput>)
    requires AllPartsOf(inputs).Ok?
    ensures PayloadTotal(AllPartsOf(inputs).value) <= PayloadSizes(inputs)
  {
    hide PartsOf, PayloadSize, PayloadTotal;
    if inputs != [] {
      var last := inputs[|inputs| - 1];
      EstimateCoversPayloads(inputs[..|inputs| - 1]);
      PartSizeCovers(last);
      PayloadTotalMore(AllPartsOf(inputs[..|inputs| - 1]).value, PartsOf(last).value);
    } else {
      NothingPaid();
    }
  }

  lemma NothingPaid()
    ensures PayloadTotal([]) == 0
  {
  }
}
