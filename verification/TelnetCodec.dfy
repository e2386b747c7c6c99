/** The Telnet byte-stream codec of src-tauri/src/services/tcp_terminal_service.rs, against
    section "Telnet Command Structure" of RFC 854, and RFC 855, RFC 1073 and RFC 1091. */
module TelnetCodec {
  import opened Bytes

  const IAC: byte := 255
  const DONT: byte := 254
  const DO: byte := 253
  const WONT: byte := 252
  const WILL: byte := 251
  const SB: byte := 250
  const SE: byte := 240
  const TELNET_BINARY: byte := 0
  const TELNET_ECHO: byte := 1
  const TELNET_SUPPRESS_GO_AHEAD: byte := 3
  const TELNET_TERMINAL_TYPE: byte := 24
  const TELNET_NAWS: byte := 31
  const TERMINAL_TYPE_IS: byte := 0
  const TERMINAL_TYPE_SEND: byte := 1

  predicate IsNegotiation(command: byte) {
    command == DO || command == DONT || command == WILL || command == WONT
  }

  // ----- Messages this side sends -----

  function ToAsciiUppercase(b: byte): byte {
    if 97 <= b <= 122 then b - 32 else b
  }

  function Uppercase(s: seq<byte>): (r: seq<byte>)
    ensures |r| == |s|
    ensures forall i :: 0 <= i < |s| ==> r[i] == ToAsciiUppercase(s[i])
  {
    if s == [] then [] else [ToAsciiUppercase(s[0])] + Uppercase(s[1..])
  }

  function TerminalTypeMessage(terminalType: seq<byte>): seq<byte> {
    [IAC, SB, TELNET_TERMINAL_TYPE, TERMINAL_TYPE_IS] + Uppercase(terminalType) + [IAC, SE]
  }

  function EscapedByte(b: byte): seq<byte> {
    if b == IAC then [b, IAC] else [b]
  }

  type u16 = n: int | 0 <= n < 0x1_0000

  function AtLeastOne(n: u16): u16 {
    if n < 1 then 1 else n
  }

  function NawsMessage(cols: u16, rows: u16): seq<byte> {
    var c, r := AtLeastOne(cols), AtLeastOne(rows);
    [IAC, SB, TELNET_NAWS] + EscapedByte(c / 256) + EscapedByte(c % 256)
    + EscapedByte(r / 256) + EscapedByte(r % 256) + [IAC, SE]
  }

  function NegotiationReply(command: byte, option: byte): seq<byte> {
    if command == DO then
      if option == TELNET_TERMINAL_TYPE || option == TELNET_NAWS || option == TELNET_SUPPRESS_GO_AHEAD
      then [IAC, WILL, option] else [IAC, WONT, option]
    else if command == DONT then
      [IAC, WONT, option]
    else if command == WILL then
      if option == TELNET_ECHO || option == TELNET_SUPPRESS_GO_AHEAD || option == TELNET_BINARY
      then [IAC, DO, option] else [IAC, DONT, option]
    else if command == WONT then
      [IAC, DONT, option]
    else
      []
  }

  function SubnegotiationReply(option: byte, data: seq<byte>, terminalType: seq<byte>): seq<byte> {
    if option == TELNET_TERMINAL_TYPE && data != [] && data[0] == TERMINAL_TYPE_SEND
    then TerminalTypeMessage(terminalType)
    else []
  }

  // ----- The parser, one byte at a time -----

  datatype ParseState =
    | Data
    | Iac
    | Negotiation(command: byte)
    | Subnegotiation(option: Option<byte>, data: seq<byte>, iac: bool)

  /** Where the parser stands, what it passed on to the terminal and what it answered. */
  datatype Effect = Effect(state: ParseState, output: seq<byte>, sent: seq<byte>) {
    function Then(next: Effect): Effect {
      Effect(next.state, output + next.output, sent + next.sent)
    }
  }

  lemma ThenAssociates(a: Effect, b: Effect, c: Effect)
    ensures a.Then(b).Then(c) == a.Then(b.Then(c))
  {
  }

  function Step(state: ParseState, b: byte, terminalType: seq<byte>): Effect {
    match state
    case Data =>
      if b == IAC then Effect(Iac, [], []) else Effect(Data, [b], [])
    case Iac =>
      if b == IAC then Effect(Data, [IAC], [])
      else if IsNegotiation(b) then Effect(Negotiation(b), [], [])
      else if b == SB then Effect(Subnegotiation(None, [], false), [], [])
      else Effect(Data, [], [])
    case Negotiation(command) =>
      Effect(Data, [], NegotiationReply(command, b))
    case Subnegotiation(option, data, iac) =>
      if option.None? then Effect(Subnegotiation(Some(b), data, iac), [], [])
      else if iac then
        if b == SE then Effect(Data, [], SubnegotiationReply(option.value, data, terminalType))
        else if b == IAC then Effect(Subnegotiation(option, data + [IAC], false), [], [])
        else Effect(Subnegotiation(option, data, false), [], [])
      else if b == IAC then Effect(Subnegotiation(option, data, true), [], [])
      else Effect(Subnegotiation(option, data + [b], iac), [], [])
  }

  function Run(state: ParseState, input: seq<byte>, terminalType: seq<byte>): Effect {
    if input == [] then Effect(state, [], [])
    else
      var before := Run(state, input[..|input| - 1], terminalType);
      before.Then(Step(before.state, input[|input| - 1], terminalType))
  }

  class TcpWriter {
    var sent: seq<byte>

    constructor ()
      ensures sent == []
    {
      sent := [];
    }

    method WriteTelnetCommand(bytes: seq<byte>)
      modifies this
      ensures sent == old(sent) + bytes
    {
      sent := sent + bytes;
    }
  }

  class Codec {
    var state: ParseState
    const terminalType: seq<byte>

    constructor (terminalType: seq<byte>)
      ensures state == Data && this.terminalType == terminalType
    {
      state := Data;
      this.terminalType := terminalType;
    }

    method Process(input: seq<byte>, writer: TcpWriter) returns (output: seq<byte>)
      modifies this, writer
      ensures Effect(state, output, writer.sent)
              == Effect(Data, [], old(writer.sent)).Then(Run(old(state), input, terminalType))
    {
      output := [];
      for i := 0 to |input|
        invariant Effect(state, output, writer.sent)
                  == Effect(Data, [], old(writer.sent)).Then(Run(old(state), input[..i], terminalType))
      {
        var b := input[i];
        ghost var before := Effect(state, output, writer.sent);
        assert input[..i + 1][..i] == input[..i];
        match state {
          case Data =>
            if b == IAC {
              state := Iac;
            } else {
              output := output + [b];
            }
          case Iac =>
            if b == IAC {
              output := output + [IAC];
              state := Data;
            } else if IsNegotiation(b) {
              state := Negotiation(b);
            } else if b == SB {
              state := Subnegotiation(None, [], false);
            } else {
              state := Data;
            }
          case Negotiation(command) =>
            RespondNegotiation(writer, command, b);
            state := Data;
          case Subnegotiation(option, data, iac) =>
            if option.None? {
              state := Subnegotiation(Some(b), data, iac);
            } else if iac {
              if b == SE {
                RespondSubnegotiation(writer, option.value, data, terminalType);
                state := Data;
              } else if b == IAC {
                state := Subnegotiation(option, data + [IAC], false);
              } else {
                state := Subnegotiation(option, data, false);
              }
            } else if b == IAC {
              state := Subnegotiation(option, data, true);
            } else {
              state := Subnegotiation(option, data + [b], iac);
            }
        }
        assert Effect(state, output, writer.sent) == before.Then(Step(before.state, b, terminalType));
        ThenAssociates(Effect(Data, [], old(writer.sent)), Run(old(state), input[..i], terminalType),
                       Step(before.state, b, terminalType));
      }
      assert input[..|input|] == input;
    }
  }

  method RespondNegotiation(writer: TcpWriter, command: byte, option: byte)
    modifies writer
    ensures writer.sent == old(writer.sent) + NegotiationReply(command, option)
  {
    var response := NegotiationReply(command, option);
    if response != [] {
      writer.WriteTelnetCommand(response);
    }
  }

  method RespondSubnegotiation(writer: TcpWriter, option: byte, data: seq<byte>, terminalType: seq<byte>)
    modifies writer
    ensures writer.sent == old(writer.sent) + SubnegotiationReply(option, data, terminalType)
  {
    if option == TELNET_TERMINAL_TYPE && data != [] && data[0] == TERMINAL_TYPE_SEND {
      writer.WriteTelnetCommand(TerminalTypeMessage(terminalType));
    }
  }

  /** Processing the chunks one after the other, with the replies in between. */
  method ProcessChunks(codec: Codec, chunks: seq<seq<byte>>, writer: TcpWriter) returns (output: seq<byte>)
    modifies codec, writer
    ensures Effect(codec.state, output, writer.sent)
            == Effect(Data, [], old(writer.sent)).Then(Run(old(codec.state), Flatten(chunks), codec.terminalType))
  {
    hide Run, Flatten;
    output := [];
    NothingProcessed(old(codec.state), chunks, codec.terminalType);
    for i := 0 to |chunks|
      invariant Effect(codec.state, output, writer.sent)
                == Effect(Data, [], old(writer.sent)).Then(
                     Run(old(codec.state), Flatten(chunks[..i]), codec.terminalType))
    {
      FlattenMore(chunks, i);
      RunConcat(old(codec.state), Flatten(chunks[..i]), chunks[i], codec.terminalType);
      ghost var piece := Run(codec.state, chunks[i], codec.terminalType);
      var more := codec.Process(chunks[i], writer);
      ThenAssociates(Effect(Data, [], old(writer.sent)),
                     Run(old(codec.state), Flatten(chunks[..i]), codec.terminalType), piece);
      output := output + more;
    }
    assert chunks[..|chunks|] == chunks;
  }

  lemma NothingProcessed(state: ParseState, chunks: seq<seq<byte>>, terminalType: seq<byte>)
    ensures Run(state, Flatten(chunks[..0]), terminalType) == Effect(state, [], [])
  {
  }

  lemma FlattenMore(chunks: seq<seq<byte>>, i: nat)
    requires i < |chunks|
    ensures Flatten(chunks[..i + 1]) == Flatten(chunks[..i]) + chunks[i]
  {
    assert chunks[..i + 1][..i] == chunks[..i];
  }

  function Flatten(chunks: seq<seq<byte>>): seq<byte> {
    if chunks == [] then [] else Flatten(chunks[..|chunks| - 1]) + chunks[|chunks| - 1]
  }

  /** Stopping between two reads and going on later changes nothing. */
  lemma {:induction false} RunConcat(state: ParseState, a: seq<byte>, b: seq<byte>, terminalType: seq<byte>)
    ensures Run(state, a + b, terminalType)
            == Run(state, a, terminalType).Then(Run(Run(state, a, terminalType).state, b, terminalType))
  {
    if b == [] {
      assert a + b == a;
    } else {
      var init, last := b[..|b| - 1], b[|b| - 1];
      assert (a + b)[..|a + b| - 1] == a + init;
      RunConcat(state, a, init, terminalType);
      var first := Run(state, a, terminalType);
      var second := Run(first.state, init, terminalType);
      ThenAssociates(first, second, Step(second.state, last, terminalType));
    }
  }

  // ----- The grammar of a Telnet stream -----

  /** A byte inside a subnegotiation, or an IAC sequence there that carries no data. */
  datatype Item = Plain(b: byte) | Ignored(command: byte)

  datatype Token =
    | DataByte(b: byte)
    | Command(command: byte)
    | Negotiate(command: byte, option: byte)
    | Subnegotiate(option: byte, items: seq<Item>)

  predicate ValidItem(item: Item) {
    item.Ignored? ==> item.command != SE && item.command != IAC
  }

  predicate ValidItems(items: seq<Item>) {
    forall i :: 0 <= i < |items| ==> ValidItem(items[i])
  }

  predicate ValidToken(token: Token) {
    match token
    case DataByte(_) => true
    case Command(c) => c != IAC && c != SB && !IsNegotiation(c)
    case Negotiate(c, _) => IsNegotiation(c)
    case Subnegotiate(_, items) => ValidItems(items)
  }

  predicate ValidTokens(tokens: seq<Token>) {
    forall i :: 0 <= i < |tokens| ==> ValidToken(tokens[i])
  }

  function PrintItem(item: Item): seq<byte> {
    match item
    case Plain(b) => EscapedByte(b)
    case Ignored(c) => [IAC, c]
  }

  function PrintItems(items: seq<Item>): seq<byte> {
    if items == [] then [] else PrintItems(items[..|items| - 1]) + PrintItem(items[|items| - 1])
  }

  function Print(token: Token): seq<byte> {
    match token
    case DataByte(b) => EscapedByte(b)
    case Command(c) => [IAC, c]
    case Negotiate(c, option) => [IAC, c, option]
    case Subnegotiate(option, items) => [IAC, SB, option] + PrintItems(items) + [IAC, SE]
  }

  function PrintAll(tokens: seq<Token>): seq<byte> {
    if tokens == [] then [] else PrintAll(tokens[..|tokens| - 1]) + Print(tokens[|tokens| - 1])
  }

  function Payload(items: seq<Item>): seq<byte> {
    if items == [] then []
    else
      var last := items[|items| - 1];
      Payload(items[..|items| - 1]) + if last.Plain? then [last.b] else []
  }

  function DataOf(token: Token): seq<byte> {
    if token.DataByte? then [token.b] else []
  }

  function ReplyTo(token: Token, terminalType: seq<byte>): seq<byte> {
    match token
    case Negotiate(c, option) => NegotiationReply(c, option)
    case Subnegotiate(option, items) => SubnegotiationReply(option, Payload(items), terminalType)
    case _ => []
  }

  function AllData(tokens: seq<Token>): seq<byte> {
    if tokens == [] then [] else AllData(tokens[..|tokens| - 1]) + DataOf(tokens[|tokens| - 1])
  }

  function AllReplies(tokens: seq<Token>, terminalType: seq<byte>): seq<byte> {
    if tokens == [] then []
    else AllReplies(tokens[..|tokens| - 1], terminalType) + ReplyTo(tokens[|tokens| - 1], terminalType)
  }

  // ----- Reading a stream back into tokens -----

  /** The beginning of a token whose end has not arrived. */
  datatype Partial =
    | Nothing
    | AfterIac
    | AfterCommand(command: byte)
    | AfterSb
    | InSub(option: byte, items: seq<Item>, iac: bool)

  datatype Reading = Reading(tokens: seq<Token>, partial: Partial)

  function PrintPartial(p: Partial): seq<byte> {
    match p
    case Nothing => []
    case AfterIac => [IAC]
    case AfterCommand(c) => [IAC, c]
    case AfterSb => [IAC, SB]
    case InSub(option, items, iac) =>
      [IAC, SB, option] + PrintItems(items) + if iac then [IAC] else []
  }

  function StateOf(p: Partial): ParseState {
    match p
    case Nothing => Data
    case AfterIac => Iac
    case AfterCommand(c) => Negotiation(c)
    case AfterSb => Subnegotiation(None, [], false)
    case InSub(option, items, iac) => Subnegotiation(Some(option), Payload(items), iac)
  }

  predicate ValidPartial(p: Partial) {
    && (p.InSub? ==> ValidItems(p.items))
    && (p.AfterCommand? ==> IsNegotiation(p.command))
  }

  predicate ValidReading(r: Reading) {
    ValidTokens(r.tokens) && ValidPartial(r.partial)
  }

  datatype Extension = More(partial: Partial) | Done(token: Token)

  function Extend(p: Partial, b: byte): Extension {
    match p
    case Nothing =>
      if b == IAC then More(AfterIac) else Done(DataByte(b))
    case AfterIac =>
      if b == IAC then Done(DataByte(IAC))
      else if IsNegotiation(b) then More(AfterCommand(b))
      else if b == SB then More(AfterSb)
      else Done(Command(b))
    case AfterCommand(c) => Done(Negotiate(c, b))
    case AfterSb => More(InSub(b, [], false))
    case InSub(option, items, iac) =>
      if iac then
        if b == SE then Done(Subnegotiate(option, items))
        else if b == IAC then More(InSub(option, items + [Plain(IAC)], false))
        else More(InSub(option, items + [Ignored(b)], false))
      else if b == IAC then More(InSub(option, items, true))
      else More(InSub(option, items + [Plain(b)], false))
  }

  /** A reader that keeps the tokens instead of acting on them. */
  function ReadByte(r: Reading, b: byte): Reading {
    match Extend(r.partial, b)
    case More(p) => Reading(r.tokens, p)
    case Done(token) => Reading(r.tokens + [token], Nothing)
  }

  function Tokenize(start: Reading, input: seq<byte>): Reading {
    if input == [] then start
    else ReadByte(Tokenize(start, input[..|input| - 1]), input[|input| - 1])
  }

  const EMPTY := Reading([], Nothing)

  lemma PrintOneMore(tokens: seq<Token>, t: Token)
    ensures PrintAll(tokens + [t]) == PrintAll(tokens) + Print(t)
  {
  }

  lemma ActOneMore(tokens: seq<Token>, t: Token, terminalType: seq<byte>)
    ensures AllData(tokens + [t]) == AllData(tokens) + DataOf(t)
    ensures AllReplies(tokens + [t], terminalType) == AllReplies(tokens, terminalType) + ReplyTo(t, terminalType)
  {
  }

  lemma ItemOneMore(items: seq<Item>, item: Item)
    ensures PrintItems(items + [item]) == PrintItems(items) + PrintItem(item)
    ensures Payload(items + [item]) == if item.Plain? then Payload(items) + [item.b] else Payload(items)
  {
  }

  lemma PrintSubItem(option: byte, items: seq<Item>, item: Item)
    ensures PrintPartial(InSub(option, items + [item], false))
            == PrintPartial(InSub(option, items, false)) + PrintItem(item)
  {
  }

  lemma PrintSubIac(option: byte, items: seq<Item>, b: byte)
    ensures PrintPartial(InSub(option, items, true)) == PrintPartial(InSub(option, items, false)) + [IAC]
    ensures PrintPartial(InSub(option, items, true)) + [b] == PrintPartial(InSub(option, items, false)) + [IAC, b]
  {
  }

  lemma SubExtendPrints(option: byte, items: seq<Item>, iac: bool, b: byte)
    requires ValidItems(items)
    ensures match Extend(InSub(option, items, iac), b)
            case More(p') => ValidPartial(p') && PrintPartial(p') == PrintPartial(InSub(option, items, iac)) + [b]
            case Done(token) => ValidToken(token) && Print(token) == PrintPartial(InSub(option, items, iac)) + [b]
  {
    hide PrintItems;
    PrintSubIac(option, items, b);
    if iac && b == SE {
      assert Print(Subnegotiate(option, items)) == PrintPartial(InSub(option, items, false)) + [IAC, SE];
    } else {
      hide PrintPartial;
      PrintSubItem(option, items, if !iac then Plain(b) else if b == IAC then Plain(IAC) else Ignored(b));
    }
  }

  /** One byte more of a token: what is printed grows by that byte. */
  lemma ExtendPrints(p: Partial, b: byte)
    requires ValidPartial(p)
    ensures match Extend(p, b)
            case More(p') => ValidPartial(p') && PrintPartial(p') == PrintPartial(p) + [b]
            case Done(token) => ValidToken(token) && Print(token) == PrintPartial(p) + [b]
  {
    if p.InSub? {
      SubExtendPrints(p.option, p.items, p.iac, b);
    }
  }

  /** One byte more of a token: the parser moves on, or acts on the finished token. */
  lemma ExtendActs(p: Partial, b: byte, terminalType: seq<byte>)
    requires ValidPartial(p)
    ensures Step(StateOf(p), b, terminalType)
            == match Extend(p, b)
               case More(p') => Effect(StateOf(p'), [], [])
               case Done(token) => Effect(Data, DataOf(token), ReplyTo(token, terminalType))
  {
    if p.InSub? {
      ItemOneMore(p.items, Plain(b));
      ItemOneMore(p.items, Ignored(b));
    }
  }

  /** What the parser has done after a reading. */
  function Acted(r: Reading, terminalType: seq<byte>): Effect {
    Effect(StateOf(r.partial), AllData(r.tokens), AllReplies(r.tokens, terminalType))
  }

  function PrintReading(r: Reading): seq<byte> {
    PrintAll(r.tokens) + PrintPartial(r.partial)
  }

  lemma TokenFinished(tokens: seq<Token>, token: Token, begun: seq<byte>, b: byte, terminalType: seq<byte>)
    requires Print(token) == begun + [b]
    ensures PrintReading(Reading(tokens + [token], Nothing)) == PrintAll(tokens) + begun + [b]
    ensures AllData(tokens + [token]) == AllData(tokens) + DataOf(token)
    ensures AllReplies(tokens + [token], terminalType) == AllReplies(tokens, terminalType) + ReplyTo(token, terminalType)
  {
  }

  lemma ReadOneByte(r: Reading, b: byte, terminalType: seq<byte>)
    requires ValidReading(r)
    ensures ValidReading(ReadByte(r, b))
    ensures PrintReading(ReadByte(r, b)) == PrintReading(r) + [b]
    ensures Acted(ReadByte(r, b), terminalType)
            == Acted(r, terminalType).Then(Step(StateOf(r.partial), b, terminalType))
  {
    hide Extend, Step, StateOf, Print, PrintPartial, DataOf, ReplyTo;
    ExtendPrints(r.partial, b);
    ExtendActs(r.partial, b, terminalType);
    match Extend(r.partial, b)
    case More(p) =>
      assert PrintAll(r.tokens) + (PrintPartial(r.partial) + [b]) == PrintReading(r) + [b];
    case Done(token) =>
      TokenFinished(r.tokens, token, PrintPartial(r.partial), b, terminalType);
      NothingRead();
  }

  lemma NothingIsRead(terminalType: seq<byte>)
    ensures ValidReading(EMPTY) && PrintReading(EMPTY) == []
    ensures Acted(EMPTY, terminalType) == Effect(Data, [], [])
  {
  }

  lemma NothingRead()
    ensures StateOf(Nothing) == Data && PrintPartial(Nothing) == []
  {
  }

  /** Main result. Every byte sequence is the print of its reading, and the parser passes on
      exactly the data bytes of that reading and sends exactly one reply for each token that
      calls for one, in order. */
  lemma {:induction false} ParserFollowsGrammar(input: seq<byte>, terminalType: seq<byte>)
    ensures ValidReading(Tokenize(EMPTY, input))
    ensures input == PrintReading(Tokenize(EMPTY, input))
    ensures Run(Data, input, terminalType) == Acted(Tokenize(EMPTY, input), terminalType)
  {
    hide ReadByte, Step, PrintReading, ValidReading, StateOf, AllData, AllReplies;
    if input == [] {
      NothingIsRead(terminalType);
    } else {
      var init, b := input[..|input| - 1], input[|input| - 1];
      ParserFollowsGrammar(init, terminalType);
      ReadOneByte(Tokenize(EMPTY, init), b, terminalType);
      assert input == init + [b];
    }
  }

  // ----- Every token list is read back -----

  lemma {:induction false} TokenizeConcat(start: Reading, a: seq<byte>, b: seq<byte>)
    ensures Tokenize(start, a + b) == Tokenize(Tokenize(start, a), b)
  {
    if b == [] {
      assert a + b == a;
    } else {
      assert (a + b)[..|a + b| - 1] == a + b[..|b| - 1];
      TokenizeConcat(start, a, b[..|b| - 1]);
    }
  }

  lemma TokenizeOne(start: Reading, a: byte)
    ensures Tokenize(start, [a]) == ReadByte(start, a)
  {
  }

  lemma TokenizeTwo(start: Reading, a: byte, b: byte)
    ensures Tokenize(start, [a, b]) == ReadByte(ReadByte(start, a), b)
  {
    assert [a, b] == [a] + [b];
    TokenizeConcat(start, [a], [b]);
    TokenizeOne(start, a);
    TokenizeOne(ReadByte(start, a), b);
  }

  lemma {:induction false} ItemsReadBack(tokens: seq<Token>, option: byte, items: seq<Item>)
    requires ValidItems(items)
    ensures Tokenize(Reading(tokens, InSub(option, [], false)), PrintItems(items))
            == Reading(tokens, InSub(option, items, false))
  {
    if items != [] {
      var start := Reading(tokens, InSub(option, [], false));
      var init, last := items[..|items| - 1], items[|items| - 1];
      ItemsReadBack(tokens, option, init);
      TokenizeConcat(start, PrintItems(init), PrintItem(last));
      var mid := Reading(tokens, InSub(option, init, false));
      assert items == init + [last];
      assert ValidItem(last);
      match last
      case Plain(b) =>
        if b == IAC { TokenizeTwo(mid, IAC, IAC); } else { TokenizeOne(mid, b); }
      case Ignored(c) =>
        TokenizeTwo(mid, IAC, c);
    }
  }

  lemma TokenReadBack(tokens: seq<Token>, token: Token)
    requires ValidToken(token)
    ensures Tokenize(Reading(tokens, Nothing), Print(token)) == Reading(tokens + [token], Nothing)
  {
    var start := Reading(tokens, Nothing);
    match token
    case DataByte(b) =>
      if b == IAC { TokenizeTwo(start, IAC, IAC); } else { TokenizeOne(start, b); }
    case Command(c) =>
      TokenizeTwo(start, IAC, c);
    case Negotiate(c, option) =>
      assert [IAC, c, option] == [IAC, c] + [option];
      TokenizeConcat(start, [IAC, c], [option]);
      TokenizeTwo(start, IAC, c);
      TokenizeOne(Reading(tokens, AfterCommand(c)), option);
    case Subnegotiate(option, items) =>
      TokenizeConcat(start, [IAC, SB, option] + PrintItems(items), [IAC, SE]);
      TokenizeConcat(start, [IAC, SB, option], PrintItems(items));
      assert [IAC, SB, option] == [IAC, SB] + [option];
      TokenizeConcat(start, [IAC, SB], [option]);
      TokenizeTwo(start, IAC, SB);
      TokenizeOne(Reading(tokens, AfterSb), option);
      ItemsReadBack(tokens, option, items);
      TokenizeTwo(Reading(tokens, InSub(option, items, false)), IAC, SE);
  }

  lemma {:induction false} PrintReadBack(tokens: seq<Token>)
    requires ValidTokens(tokens)
    ensures Tokenize(EMPTY, PrintAll(tokens)) == Reading(tokens, Nothing)
  {
    hide Print, ReadByte;
    if tokens != [] {
      var init, last := tokens[..|tokens| - 1], tokens[|tokens| - 1];
      PrintReadBack(init);
      TokenizeConcat(EMPTY, PrintAll(init), Print(last));
      TokenReadBack(init, last);
      assert tokens == init + [last];
    }
  }

  /** Round trip: a printed token list is parsed, from the data state back to the data state,
      into its data bytes and its replies. */
  lemma PrintedTokensAreObeyed(tokens: seq<Token>, terminalType: seq<byte>)
    requires ValidTokens(tokens)
    ensures Run(Data, PrintAll(tokens), terminalType)
            == Effect(Data, AllData(tokens), AllReplies(tokens, terminalType))
  {
    PrintReadBack(tokens);
    ParserFollowsGrammar(PrintAll(tokens), terminalType);
  }

  // ----- What this side sends is read back by a peer -----

  function PlainItems(bytes: seq<byte>): seq<Item> {
    if bytes == [] then [] else PlainItems(bytes[..|bytes| - 1]) + [Plain(bytes[|bytes| - 1])]
  }

  function Escape(bytes: seq<byte>): seq<byte> {
    if bytes == [] then [] else Escape(bytes[..|bytes| - 1]) + EscapedByte(bytes[|bytes| - 1])
  }

  method EscapeTelnetIac(bytes: seq<byte>) returns (escaped: seq<byte>)
    ensures escaped == Escape(bytes)
  {
    escaped := [];
    for i := 0 to |bytes|
      invariant escaped == Escape(bytes[..i])
    {
      assert bytes[..i + 1][..i] == bytes[..i];
      escaped := escaped + [bytes[i]];
      if bytes[i] == IAC {
        escaped := escaped + [IAC];
      }
    }
    assert bytes[..|bytes|] == bytes;
  }

  function DataTokens(bytes: seq<byte>): (tokens: seq<Token>)
    ensures ValidTokens(tokens)
  {
    if bytes == [] then [] else DataTokens(bytes[..|bytes| - 1]) + [DataByte(bytes[|bytes| - 1])]
  }

  lemma {:induction false} DataTokensPrint(bytes: seq<byte>)
    ensures PrintAll(DataTokens(bytes)) == Escape(bytes)
  {
    if bytes != [] {
      var init, b := bytes[..|bytes| - 1], bytes[|bytes| - 1];
      DataTokensPrint(init);
      PrintOneMore(DataTokens(init), DataByte(b));
    }
  }

  lemma {:induction false} DataTokensAct(bytes: seq<byte>, terminalType: seq<byte>)
    ensures AllData(DataTokens(bytes)) == bytes
    ensures AllReplies(DataTokens(bytes), terminalType) == []
  {
    if bytes != [] {
      var init, b := bytes[..|bytes| - 1], bytes[|bytes| - 1];
      DataTokensAct(init, terminalType);
      ActOneMore(DataTokens(init), DataByte(b), terminalType);
      assert DataTokens(bytes) == DataTokens(init) + [DataByte(b)];
      assert bytes == init + [b];
    }
  }

  /** Escaped input reaches the peer's terminal unchanged and provokes no reply. */
  lemma EscapedDataArrives(bytes: seq<byte>, terminalType: seq<byte>)
    ensures Run(Data, Escape(bytes), terminalType) == Effect(Data, bytes, [])
  {
    DataTokensPrint(bytes);
    DataTokensAct(bytes, terminalType);
    PrintedTokensAreObeyed(DataTokens(bytes), terminalType);
  }

  lemma {:induction false} PlainItemsPrint(bytes: seq<byte>)
    ensures ValidItems(PlainItems(bytes))
    ensures PrintItems(PlainItems(bytes)) == Escape(bytes)
  {
    if bytes != [] {
      var init, b := bytes[..|bytes| - 1], bytes[|bytes| - 1];
      PlainItemsPrint(init);
      ItemOneMore(PlainItems(init), Plain(b));
    }
  }

  lemma {:induction false} PlainItemsPayload(bytes: seq<byte>)
    ensures Payload(PlainItems(bytes)) == bytes
  {
    if bytes != [] {
      var init, b := bytes[..|bytes| - 1], bytes[|bytes| - 1];
      PlainItemsPayload(init);
      ItemOneMore(PlainItems(init), Plain(b));
      assert bytes == init + [b];
    }
  }

  lemma EscapeOneMore(bytes: seq<byte>, b: byte)
    ensures Escape(bytes + [b]) == Escape(bytes) + EscapedByte(b)
  {
  }

  lemma EscapeFour(a: byte, b: byte, c: byte, d: byte)
    ensures Escape([a, b, c, d]) == EscapedByte(a) + EscapedByte(b) + EscapedByte(c) + EscapedByte(d)
  {
    hide EscapedByte;
    assert [a, b, c] + [d] == [a, b, c, d] && [a, b] + [c] == [a, b, c] && [a] + [b] == [a, b] && [] + [a] == [a];
    EscapeOneMore([a, b, c], d);
    EscapeOneMore([a, b], c);
    EscapeOneMore([a], b);
    EscapeOneMore([], a);
  }

  /** The single subnegotiation that a peer reads from a message. */
  ghost predicate ReadsAsSub(message: seq<byte>, option: byte, payload: seq<byte>) {
    var r := Tokenize(EMPTY, message);
    && r.partial.Nothing? && |r.tokens| == 1
    && r.tokens[0].Subnegotiate? && r.tokens[0].option == option && Payload(r.tokens[0].items) == payload
  }

  lemma SubMessageReads(option: byte, payload: seq<byte>)
    ensures ReadsAsSub([IAC, SB, option] + Escape(payload) + [IAC, SE], option, payload)
  {
    PlainItemsPrint(payload);
    PlainItemsPayload(payload);
    var token := Subnegotiate(option, PlainItems(payload));
    assert [token][..0] == [];
    assert PrintAll([token]) == [] + Print(token) == Print(token);
    PrintReadBack([token]);
  }

  /** RFC 1073: the four bytes a peer reads are the window size, even when one of them is 255. */
  lemma NawsArrives(cols: u16, rows: u16)
    ensures var c, r := AtLeastOne(cols), AtLeastOne(rows);
            && ReadsAsSub(NawsMessage(cols, rows), TELNET_NAWS, [c / 256, c % 256, r / 256, r % 256])
            && (c / 256) * 256 + c % 256 == (if cols == 0 then 1 else cols)
            && (r / 256) * 256 + r % 256 == (if rows == 0 then 1 else rows)
  {
    var c, r := AtLeastOne(cols), AtLeastOne(rows);
    var payload: seq<byte> := [c / 256, c % 256, r / 256, r % 256];
    hide Escape;
    EscapeFour(c / 256, c % 256, r / 256, r % 256);
    SubMessageReads(TELNET_NAWS, payload);
    assert NawsMessage(cols, rows) == [IAC, SB, TELNET_NAWS] + Escape(payload) + [IAC, SE];
  }

  lemma {:induction false} EscapeNothing(bytes: seq<byte>)
    requires IAC !in bytes
    ensures Escape(bytes) == bytes
  {
    if bytes != [] {
      EscapeNothing(bytes[..|bytes| - 1]);
      assert bytes == bytes[..|bytes| - 1] + [bytes[|bytes| - 1]];
    }
  }

  /** RFC 1091: a peer reads IS followed by the upper-case type. The name is sent unescaped,
      so this holds when it has no byte 255, which UTF-8 text never has. */
  lemma TerminalTypeArrives(terminalType: seq<byte>)
    requires IAC !in terminalType
    ensures ReadsAsSub(TerminalTypeMessage(terminalType), TELNET_TERMINAL_TYPE,
                       [TERMINAL_TYPE_IS] + Uppercase(terminalType))
  {
    hide Escape, Uppercase;
    var upper := Uppercase(terminalType);
    var payload := [TERMINAL_TYPE_IS] + upper;
    UppercaseHasNoIac(terminalType);
    EscapeNothing(payload);
    SubMessageReads(TELNET_TERMINAL_TYPE, payload);
    assert [IAC, SB, TELNET_TERMINAL_TYPE] + payload == [IAC, SB, TELNET_TERMINAL_TYPE, TERMINAL_TYPE_IS] + upper;
  }

  lemma UppercaseHasNoIac(bytes: seq<byte>)
    requires IAC !in bytes
    ensures IAC !in [TERMINAL_TYPE_IS] + Uppercase(bytes)
  {
  }

  // ----- What is answered, in numbers -----

  /** The client offers the options 3, 24 and 31 and accepts 0, 1 and 3; it refuses all others,
      and never insists. */
  lemma RepliesInNumbers(option: byte, terminalType: seq<byte>)
    ensures Run(Data, [255, 253, option], terminalType).sent
            == [255, if option == 3 || option == 24 || option == 31 then 251 else 252, option]
    ensures Run(Data, [255, 251, option], terminalType).sent
            == [255, if option == 0 || option == 1 || option == 3 then 253 else 254, option]
    ensures Run(Data, [255, 254, option], terminalType).sent == [255, 252, option]
    ensures Run(Data, [255, 252, option], terminalType).sent == [255, 254, option]
  {
    hide Run;
    NegotiationAnswered(253, option, terminalType);
    NegotiationAnswered(251, option, terminalType);
    NegotiationAnswered(254, option, terminalType);
    NegotiationAnswered(252, option, terminalType);
  }

  /** Asked for its terminal type, the client sends it in capitals; every other subnegotiation
      goes without an answer. */
  lemma TypeInNumbers(option: byte, items: seq<Item>, terminalType: seq<byte>)
    requires ValidItems(items)
    ensures var sent := Run(Data, [255, 250, option] + PrintItems(items) + [255, 240], terminalType).sent;
            if option == 24 && Payload(items) != [] && Payload(items)[0] == 1
            then |sent| == |terminalType| + 6 && sent[..4] == [255, 250, 24, 0] && sent[|sent| - 2..] == [255, 240]
                 && forall i :: 0 <= i < |terminalType| ==>
                      sent[4 + i] == if 97 <= terminalType[i] <= 122 then terminalType[i] - 32 else terminalType[i]
            else sent == []
  {
    hide Run, PrintItems, Payload;
    var t := Subnegotiate(option, items);
    PrintedTokensAreObeyed([t], terminalType);
    PrintOneMore([], t);
    ActOneMore([], t, terminalType);
    assert [] + [t] == [t];
    assert PrintAll([t]) == [255, 250, option] + PrintItems(items) + [255, 240];
    assert AllReplies([t], terminalType) == ReplyTo(t, terminalType);
  }

  lemma SendIsAnswered(terminalType: seq<byte>)
    ensures var sent := Run(Data, [255, 250, 24, 1, 255, 240], terminalType).sent;
            |sent| == |terminalType| + 6 && sent[..4] == [255, 250, 24, 0]
  {
    hide Run;
    var items := [Plain(1)];
    assert items[..0] == [];
    assert PrintItems(items) == [1] && Payload(items) == [1];
    assert [255, 250, 24] + [1] + [255, 240] == [255, 250, 24, 1, 255, 240];
    TypeInNumbers(24, items, terminalType);
  }

  // ----- Two such codecs facing each other -----

  /** The message that is under way after so many replies to a first negotiation. */
  function Bounced(command: byte, option: byte, terminalType: seq<byte>, replies: nat): seq<byte> {
    if replies == 0 then [IAC, command, option]
    else Run(Data, Bounced(command, option, terminalType, replies - 1), terminalType).sent
  }

  lemma NegotiationAnswered(command: byte, option: byte, terminalType: seq<byte>)
    requires IsNegotiation(command)
    ensures Run(Data, [IAC, command, option], terminalType).sent == NegotiationReply(command, option)
    ensures |NegotiationReply(command, option)| == 3
  {
    hide Run;
    var t := Negotiate(command, option);
    PrintedTokensAreObeyed([t], terminalType);
    PrintOneMore([], t);
    ActOneMore([], t, terminalType);
    assert [] + [t] == [t];
    assert PrintAll([t]) == [IAC, command, option];
    assert AllReplies([t], terminalType) == NegotiationReply(command, option);
  }

  /** Every negotiation is answered by another one about the same option, for ever. */
  lemma {:induction false} NegotiationNeverEnds(command: byte, option: byte, terminalType: seq<byte>, replies: nat)
    requires IsNegotiation(command)
    ensures exists c: byte :: IsNegotiation(c) && Bounced(command, option, terminalType, replies) == [IAC, c, option]
  {
    hide Run;
    if replies == 0 {
      assert IsNegotiation(command) && Bounced(command, option, terminalType, 0) == [IAC, command, option];
    } else {
      NegotiationNeverEnds(command, option, terminalType, replies - 1);
      var c: byte :| IsNegotiation(c) && Bounced(command, option, terminalType, replies - 1) == [IAC, c, option];
      NegotiationAnswered(c, option, terminalType);
      var reply := NegotiationReply(c, option)[1];
      assert IsNegotiation(reply) && NegotiationReply(c, option) == [IAC, reply, option];
    }
  }
}
