/** Base64, src-tauri/src/commands/http.rs and section 4 of RFC 4648. */
module Base64 {
  import opened Bytes

  type sextet = v: int | 0 <= v < 64

  const PAD: byte := '=' as int

  datatype Base64Error = BadLength | BadPadding | BadPaddingPosition | BadCharacter

  // ----- The alphabet -----

  function Symbol(v: sextet): byte {
    if v < 26 then 'A' as int + v
    else if v < 52 then 'a' as int + (v - 26)
    else if v < 62 then '0' as int + (v - 52)
    else if v == 62 then '+' as int
    else '/' as int
  }

  function Base64Value(b: byte): Result<sextet, Base64Error> {
    if 'A' as int <= b <= 'Z' as int then Ok(b - 'A' as int)
    else if 'a' as int <= b <= 'z' as int then Ok(b - 'a' as int + 26)
    else if '0' as int <= b <= '9' as int then Ok(b - '0' as int + 52)
    else if b == '+' as int then Ok(62)
    else if b == '/' as int then Ok(63)
    else if b == PAD then Err(BadPaddingPosition)
    else Err(BadCharacter)
  }

  predicate InAlphabet(b: byte) {
    Base64Value(b).Ok?
  }

  lemma ValueOfSymbol(v: sextet)
    ensures Base64Value(Symbol(v)) == Ok(v) && Symbol(v) != PAD
  {
  }

  lemma SymbolOfValue(b: byte)
    requires InAlphabet(b)
    ensures Symbol(Base64Value(b).value) == b && b != PAD
  {
  }

  /** Table 1 of RFC 4648, in ASCII. */
  lemma AlphabetInNumbers(v: sextet, b: byte)
    ensures Symbol(v) == b <==> || (65 <= b <= 90 && v == b - 65) || (97 <= b <= 122 && v == b - 71)
                                || (48 <= b <= 57 && v == b + 4) || (b == 43 && v == 62) || (b == 47 && v == 63)
    ensures Base64Value(b) == Ok(v) <==> Symbol(v) == b
    ensures InAlphabet(b) ==> b != 61
    ensures PAD == 61
  {
  }

  // ----- One group -----

  function EncodeGroup(chunk: seq<byte>): (r: seq<byte>)
    requires 1 <= |chunk| <= 3
    ensures |r| == 4
  {
    var b1: int := if |chunk| > 1 then chunk[1] else 0;
    var b2: int := if |chunk| > 2 then chunk[2] else 0;
    var n: int := (chunk[0] as int) * 0x10000 + b1 * 0x100 + b2;
    [ Symbol(n / 0x40000),
      Symbol(n / 0x1000 % 64),
      if |chunk| > 1 then Symbol(n / 64 % 64) else PAD,
      if |chunk| > 2 then Symbol(n % 64) else PAD ]
  }

  function Pads(chunk: seq<byte>): nat {
    if chunk == [] then 0 else (if chunk[0] == PAD then 1 else 0) + Pads(chunk[1..])
  }

  function PaddedValue(b: byte): Result<sextet, Base64Error> {
    if b == PAD then Ok(0) else Base64Value(b)
  }

  function DecodeGroup(chunk: seq<byte>, last: bool): (r: Result<seq<byte>, Base64Error>)
    requires |chunk| == 4
  {
    var padding := Pads(chunk);
    if padding > 2 then Err(BadPadding)
    else if padding > 0 && !last then Err(BadPaddingPosition)
    else if padding == 1 && chunk[3] != PAD then Err(BadPaddingPosition)
    else if padding == 2 && !(chunk[2] == PAD && chunk[3] == PAD) then Err(BadPaddingPosition)
    else
      var n0, n1 := Base64Value(chunk[0]), Base64Value(chunk[1]);
      var n2, n3 := PaddedValue(chunk[2]), PaddedValue(chunk[3]);
      if n0.Err? then Err(n0.error)
      else if n1.Err? then Err(n1.error)
      else if n2.Err? then Err(n2.error)
      else if n3.Err? then Err(n3.error)
      else
        var value: int := n0.value * 0x40000 + n1.value * 0x1000 + n2.value * 64 + n3.value;
        Ok([value / 0x10000 % 256] + (if padding < 2 then [value / 256 % 256] else [])
           + if padding < 1 then [value % 256] else [])
  }

  /** How many pads a group of four ends with, if the rest of it is in the alphabet. */
  predicate PaddedGroup(chunk: seq<byte>, pad: nat)
    requires |chunk| == 4
  {
    && pad <= 2
    && (forall i :: 0 <= i < 4 - pad ==> InAlphabet(chunk[i]))
    && (forall i :: 4 - pad <= i < 4 ==> chunk[i] == PAD)
  }

  lemma PadsOfFour(chunk: seq<byte>)
    requires |chunk| == 4
    ensures Pads(chunk) == (if chunk[0] == PAD then 1 else 0) + (if chunk[1] == PAD then 1 else 0)
                           + (if chunk[2] == PAD then 1 else 0) + if chunk[3] == PAD then 1 else 0
  {
    assert chunk[1..][1..] == chunk[2..] && chunk[2..][1..] == chunk[3..] && chunk[3..][1..] == [];
    assert Pads(chunk[3..]) == if chunk[3] == PAD then 1 else 0;
    assert Pads(chunk[2..]) == (if chunk[2] == PAD then 1 else 0) + Pads(chunk[3..]);
    assert Pads(chunk[1..]) == (if chunk[1] == PAD then 1 else 0) + Pads(chunk[2..]);
  }

  lemma GroupAccepted(chunk: seq<byte>, last: bool)
    requires |chunk| == 4
    ensures DecodeGroup(chunk, last).Ok? <==> exists pad :: PaddedGroup(chunk, pad) && (pad == 0 || last)
  {
    PadsOfFour(chunk);
    if DecodeGroup(chunk, last).Ok? {
      assert PaddedGroup(chunk, Pads(chunk));
    }
    if pad :| PaddedGroup(chunk, pad) && (pad == 0 || last) {
      GroupPads(chunk, pad);
    }
  }

  lemma ValueErrors(b: byte)
    ensures Base64Value(b).Err? ==> Base64Value(b).error == if b == 61 then BadPaddingPosition else BadCharacter
    ensures PaddedValue(b).Err? ==> PaddedValue(b).error == BadCharacter
  {
  }

  /** Why a group is refused: three pads or more, a pad elsewhere than at the end of the text, or
      otherwise a byte outside the alphabet. */
  lemma GroupErrors(chunk: seq<byte>, last: bool, pads: nat)
    requires |chunk| == 4
    requires pads == (if chunk[0] == 61 then 1 else 0) + (if chunk[1] == 61 then 1 else 0)
                     + (if chunk[2] == 61 then 1 else 0) + if chunk[3] == 61 then 1 else 0
    requires DecodeGroup(chunk, last).Err?
    ensures DecodeGroup(chunk, last).error
            == if pads > 2 then BadPadding
               else if pads == 0 || (last && chunk[3] == 61 && (pads == 1 || chunk[2] == 61)) then BadCharacter
               else BadPaddingPosition
  {
    hide Base64Value, PaddedValue, Pads;
    PadsOfFour(chunk);
    ValueErrors(chunk[0]);
    ValueErrors(chunk[1]);
    ValueErrors(chunk[2]);
    ValueErrors(chunk[3]);
  }

  lemma GroupPads(chunk: seq<byte>, pad: nat)
    requires |chunk| == 4 && PaddedGroup(chunk, pad)
    ensures Pads(chunk) == pad
  {
    PadsOfFour(chunk);
    assert forall i :: 0 <= i < 4 - pad ==> chunk[i] != PAD;
  }

  /** The bits of the last symbol that no byte uses are zero. */
  predicate SpareBitsZero(chunk: seq<byte>, pad: nat)
    requires |chunk| == 4 && PaddedGroup(chunk, pad)
  {
    match pad
    case 0 => true
    case 1 => Base64Value(chunk[2]).value % 4 == 0
    case _ => Base64Value(chunk[1]).value % 16 == 0
  }

  lemma Quartet(a: sextet, b: sextet, c: sextet, d: sextet)
    ensures var n: int := a * 0x40000 + b * 0x1000 + c * 64 + d;
            && 0 <= n < 0x1000000
            && n / 0x40000 == a && n / 0x1000 % 64 == b && n / 64 % 64 == c && n % 64 == d
  {
    var n: int := a * 0x40000 + b * 0x1000 + c * 64 + d;
    assert n / 64 == a * 0x1000 + b * 64 + c;
    assert n / 0x1000 == a * 64 + b;
  }

  lemma Triple(x: byte, y: byte, z: byte)
    ensures var n: int := x * 0x10000 + y * 0x100 + z;
            && 0 <= n < 0x1000000
            && n / 0x10000 % 256 == x && n / 256 % 256 == y && n % 256 == z
  {
    var n: int := x * 0x10000 + y * 0x100 + z;
    assert n / 256 == x * 256 + y;
    assert n / 0x10000 == x;
  }

  lemma SplitsIntoSextets(n: int)
    requires 0 <= n < 0x1000000
    ensures n == n / 0x40000 * 0x40000 + n / 0x1000 % 64 * 0x1000 + n / 64 % 64 * 64 + n % 64
    ensures 0 <= n / 0x40000 < 64
  {
    assert n / 64 / 64 == n / 0x1000 && n / 0x1000 / 64 == n / 0x40000;
  }

  lemma SplitsIntoBytes(n: int)
    requires 0 <= n < 0x1000000
    ensures n == n / 0x10000 % 256 * 0x10000 + n / 256 % 256 * 256 + n % 256
  {
  }

  function GroupNumber(chunk: seq<byte>): nat
    requires 1 <= |chunk| <= 3
  {
    (chunk[0] as int) * 0x10000 + (if |chunk| > 1 then chunk[1] as int else 0) * 0x100
    + if |chunk| > 2 then chunk[2] as int else 0
  }

  lemma EndsInZeros(chunk: seq<byte>)
    requires 1 <= |chunk| <= 3
    ensures |chunk| <= 2 ==> GroupNumber(chunk) % 64 == 0
    ensures |chunk| == 1 ==> GroupNumber(chunk) / 64 % 64 == 0
  {
    if |chunk| == 1 {
      assert GroupNumber(chunk) / 64 == (chunk[0] as int) * 0x400;
    }
  }

  /** The number a padded group stands for. */
  function GroupValue(chunk: seq<byte>, pad: nat): int
    requires |chunk| == 4 && PaddedGroup(chunk, pad)
  {
    Base64Value(chunk[0]).value * 0x40000 + Base64Value(chunk[1]).value * 0x1000
    + (if pad < 2 then Base64Value(chunk[2]).value * 64 else 0) + if pad < 1 then Base64Value(chunk[3]).value else 0
  }

  function BytesOf(n: int, k: nat): (r: seq<byte>)
    requires 0 <= n < 0x1000000 && 1 <= k <= 3
    ensures |r| == k
  {
    [n / 0x10000 % 256] + (if k > 1 then [n / 256 % 256] else []) + if k > 2 then [n % 256] else []
  }

  lemma GroupValueBounds(chunk: seq<byte>, pad: nat)
    requires |chunk| == 4 && PaddedGroup(chunk, pad)
    ensures 0 <= GroupValue(chunk, pad) < 0x1000000
  {
  }

  lemma GroupDecoded(chunk: seq<byte>, pad: nat, last: bool)
    requires |chunk| == 4 && PaddedGroup(chunk, pad) && (pad == 0 || last)
    ensures 0 <= GroupValue(chunk, pad) < 0x1000000
    ensures DecodeGroup(chunk, last) == Ok(BytesOf(GroupValue(chunk, pad), 3 - pad))
  {
    hide Base64Value, Pads;
    GroupPads(chunk, pad);
    GroupValueBounds(chunk, pad);
    ValuesExist(chunk, pad);
  }

  lemma ValuesExist(chunk: seq<byte>, pad: nat)
    requires |chunk| == 4 && PaddedGroup(chunk, pad)
    ensures Base64Value(chunk[0]).Ok? && Base64Value(chunk[1]).Ok?
    ensures if pad < 2 then chunk[2] != PAD && Base64Value(chunk[2]).Ok? else chunk[2] == PAD
    ensures if pad < 1 then chunk[3] != PAD && Base64Value(chunk[3]).Ok? else chunk[3] == PAD
  {
  }

  lemma GroupEncoded(chunk: seq<byte>)
    requires 1 <= |chunk| <= 3
    ensures PaddedGroup(EncodeGroup(chunk), 3 - |chunk|)
    ensures GroupValue(EncodeGroup(chunk), 3 - |chunk|) == GroupNumber(chunk)
  {
    hide Symbol, Base64Value;
    var n := GroupNumber(chunk);
    SplitsIntoSextets(n);
    ValueOfSymbol(n / 0x40000);
    ValueOfSymbol(n / 0x1000 % 64);
    ValueOfSymbol(n / 64 % 64);
    ValueOfSymbol(n % 64);
    EndsInZeros(chunk);
  }

  lemma GroupRoundTrip(chunk: seq<byte>, last: bool)
    requires 1 <= |chunk| <= 3 && (|chunk| == 3 || last)
    ensures PaddedGroup(EncodeGroup(chunk), 3 - |chunk|)
    ensures DecodeGroup(EncodeGroup(chunk), last) == Ok(chunk)
  {
    hide GroupValue, DecodeGroup, EncodeGroup, PaddedGroup;
    GroupEncoded(chunk);
    GroupDecoded(EncodeGroup(chunk), 3 - |chunk|, last);
    Triple(chunk[0], if |chunk| > 1 then chunk[1] else 0, if |chunk| > 2 then chunk[2] else 0);
    assert BytesOf(GroupNumber(chunk), |chunk|) == chunk;
  }

  /** The symbols of a group, from its number. */
  lemma GroupSymbols(chunk: seq<byte>, pad: nat)
    requires |chunk| == 4 && PaddedGroup(chunk, pad)
    ensures 0 <= GroupValue(chunk, pad) < 0x1000000
    ensures var n := GroupValue(chunk, pad);
            && chunk[0] == Symbol(n / 0x40000) && Base64Value(chunk[1]) == Ok(n / 0x1000 % 64)
            && chunk[1] == Symbol(n / 0x1000 % 64)
            && (pad < 2 ==> chunk[2] == Symbol(n / 64 % 64) && Base64Value(chunk[2]) == Ok(n / 64 % 64))
            && (pad < 1 ==> chunk[3] == Symbol(n % 64))
            && (pad == 1 ==> n % 64 == 0) && (pad == 2 ==> n % 0x1000 == 0)
  {
    hide Base64Value, Symbol;
    ValuesExist(chunk, pad);
    GroupValueBounds(chunk, pad);
    var v0, v1 := Base64Value(chunk[0]).value, Base64Value(chunk[1]).value;
    var v2 := if pad < 2 then Base64Value(chunk[2]).value else 0;
    var v3 := if pad < 1 then Base64Value(chunk[3]).value else 0;
    Quartet(v0, v1, v2, v3);
    SymbolOfValue(chunk[0]);
    SymbolOfValue(chunk[1]);
    if pad < 2 {
      SymbolOfValue(chunk[2]);
    }
    if pad < 1 {
      SymbolOfValue(chunk[3]);
    }
    ZerosBelow(v0, v1);
  }

  lemma ZerosBelow(a: sextet, b: sextet)
    ensures (a * 0x40000 + b * 0x1000) % 0x1000 == 0
  {
  }

  lemma SymbolsDiffer(a: sextet, b: sextet)
    ensures Symbol(a) == Symbol(b) <==> a == b
  {
  }

  lemma LowBytes(q: int, r: int, size: int)
    requires size == 256 || size == 0x10000
    requires 0 <= r < size
    ensures (q * size + r) % size == r
  {
  }

  lemma SixtyFour(n: int, a: int, b: int)
    requires 0 <= n && n / 0x40000 == a && n / 0x1000 % 64 == b
    ensures n / 0x1000 == a * 64 + b
  {
  }

  lemma MultipleOfPage(n: int)
    requires 0 <= n && n % 0x1000 == 0
    ensures n % 64 == 0 && n / 64 % 64 == 0
  {
    assert n == n / 0x1000 * 0x1000;
    assert n / 64 == n / 0x1000 * 64;
  }

  /** Dropping the low bytes keeps the symbols unless spare bits were set. */
  lemma DroppedByte(n: int)
    requires 0 <= n < 0x1000000 && n % 64 == 0
    ensures var m := n - n % 256;
            && m / 0x40000 == n / 0x40000 && m / 0x1000 == n / 0x1000
            && (m / 64 % 64 == n / 64 % 64 <==> n / 64 % 64 % 4 == 0)
  {
    SplitsIntoSextets(n);
    var a, b, c := n / 0x40000, n / 0x1000 % 64, n / 64 % 64;
    Quartet(a, b, c - c % 4, 0);
    LowBytes(0x400 * a + 0x10 * b + c / 4, 64 * (c % 4), 256);
    var m := n - n % 256;
    assert m == a * 0x40000 + b * 0x1000 + (c - c % 4) * 64 + 0;
    SplitsIntoSextets(m);
    SixtyFour(m, a, b);
    SixtyFour(n, a, b);
  }

  lemma DroppedBytes(n: int)
    requires 0 <= n < 0x1000000 && n % 0x1000 == 0
    ensures var m := n - n % 0x10000;
            && m / 0x40000 == n / 0x40000
            && (m / 0x1000 % 64 == n / 0x1000 % 64 <==> n / 0x1000 % 64 % 16 == 0)
  {
    SplitsIntoSextets(n);
    var a, b := n / 0x40000, n / 0x1000 % 64;
    MultipleOfPage(n);
    Quartet(a, b - b % 16, 0, 0);
    LowBytes(4 * a + b / 16, 0x1000 * (b % 16), 0x10000);
    assert n - n % 0x10000 == a * 0x40000 + (b - b % 16) * 0x1000 + 0 * 64 + 0;
  }

  lemma GroupCanonical(chunk: seq<byte>, pad: nat, last: bool)
    requires |chunk| == 4 && PaddedGroup(chunk, pad) && (pad == 0 || last)
    ensures DecodeGroup(chunk, last).Ok?
    ensures var b := DecodeGroup(chunk, last).value;
            |b| == 3 - pad && (EncodeGroup(b) == chunk <==> SpareBitsZero(chunk, pad))
  {
    hide GroupValue, DecodeGroup, PaddedGroup, Symbol, Base64Value, EncodeGroup, BytesOf;
    PadsAtEnd(chunk, pad);
    GroupDecoded(chunk, pad, last);
    GroupSymbols(chunk, pad);
    var n := GroupValue(chunk, pad);
    var b := BytesOf(n, 3 - pad);
    match pad
    case 0 => SameNumber(b, chunk, n);
    case 1 => OnePad(b, chunk, n);
    case _ => TwoPads(b, chunk, n);
  }

  lemma PadsAtEnd(chunk: seq<byte>, pad: nat)
    requires |chunk| == 4 && PaddedGroup(chunk, pad)
    ensures pad <= 2 && (pad >= 1 ==> chunk[3] == PAD) && (pad == 2 ==> chunk[2] == PAD)
  {
  }

  lemma SameNumber(b: seq<byte>, chunk: seq<byte>, n: int)
    requires |chunk| == 4 && 0 <= n < 0x1000000 && b == BytesOf(n, 3)
    requires chunk == [Symbol(n / 0x40000), Symbol(n / 0x1000 % 64), Symbol(n / 64 % 64), Symbol(n % 64)]
    ensures EncodeGroup(b) == chunk
  {
    hide Symbol;
    SplitsIntoBytes(n);
    assert GroupNumber(b) == n;
  }

  lemma OnePad(b: seq<byte>, chunk: seq<byte>, n: int)
    requires |chunk| == 4 && 0 <= n < 0x1000000 && n % 64 == 0 && b == BytesOf(n, 2)
    requires chunk == [Symbol(n / 0x40000), Symbol(n / 0x1000 % 64), Symbol(n / 64 % 64), PAD]
    ensures EncodeGroup(b) == chunk <==> n / 64 % 64 % 4 == 0
  {
    hide Symbol;
    SplitsIntoBytes(n);
    var m := n - n % 256;
    assert GroupNumber(b) == m;
    DroppedByte(n);
    SymbolsDiffer(m / 64 % 64, n / 64 % 64);
    assert EncodeGroup(b) == [chunk[0], chunk[1], Symbol(m / 64 % 64), PAD];
  }

  lemma TwoPads(b: seq<byte>, chunk: seq<byte>, n: int)
    requires |chunk| == 4 && 0 <= n < 0x1000000 && n % 0x1000 == 0 && b == BytesOf(n, 1)
    requires chunk == [Symbol(n / 0x40000), Symbol(n / 0x1000 % 64), PAD, PAD]
    ensures EncodeGroup(b) == chunk <==> n / 0x1000 % 64 % 16 == 0
  {
    hide Symbol;
    SplitsIntoBytes(n);
    var m := n - n % 0x10000;
    assert GroupNumber(b) == m by {
      assert n / 256 % 256 * 256 + n % 256 == n % 0x10000;
    }
    DroppedBytes(n);
    SymbolsDiffer(m / 0x1000 % 64, n / 0x1000 % 64);
    assert EncodeGroup(b) == [chunk[0], Symbol(m / 0x1000 % 64), PAD, PAD];
  }

  // ----- Whole texts -----

  function Encode(bytes: seq<byte>): (r: seq<byte>)
    ensures |r| == (|bytes| + 2) / 3 * 4
    decreases |bytes|
  {
    if bytes == [] then []
    else if |bytes| <= 3 then EncodeGroup(bytes)
    else EncodeGroup(bytes[..3]) + Encode(bytes[3..])
  }

  function DecodeGroups(text: seq<byte>): Result<seq<byte>, Base64Error>
    requires |text| % 4 == 0
    decreases |text|
  {
    if text == [] then Ok([])
    else
      var first := DecodeGroup(text[..4], |text| == 4);
      if first.Err? then first
      else
        var rest := DecodeGroups(text[4..]);
        if rest.Err? then rest else Ok(first.value + rest.value)
  }

  function Decode(text: seq<byte>): Result<seq<byte>, Base64Error> {
    if |text| % 4 != 0 then Err(BadLength) else DecodeGroups(text)
  }

  function GroupAt(text: seq<byte>, k: nat): seq<byte>
    requires 4 * k + 4 <= |text|
  {
    text[4 * k..4 * k + 4]
  }

  lemma NextGroup(text: seq<byte>, k: nat)
    requires 4 * k + 8 <= |text|
    ensures GroupAt(text[4..], k) == GroupAt(text, k + 1)
  {
  }

  /** The first group that is refused decides the error. */
  lemma {:induction false} FirstBadGroup(text: seq<byte>, k: nat)
    requires |text| % 4 == 0 && 4 * k + 4 <= |text|
    requires forall j: nat :: j < k ==> DecodeGroup(GroupAt(text, j), false).Ok?
    requires DecodeGroup(GroupAt(text, k), 4 * k + 4 == |text|).Err?
    ensures Decode(text) == Err(DecodeGroup(GroupAt(text, k), 4 * k + 4 == |text|).error)
    decreases k
  {
    hide DecodeGroup;
    assert GroupAt(text, 0) == text[..4];
    if k > 0 {
      forall j: nat | j < k
        ensures GroupAt(text[4..], j) == GroupAt(text, j + 1)
      {
        NextGroup(text, j);
      }
      FirstBadGroup(text[4..], k - 1);
    }
  }

  predicate IsAsciiWhitespace(b: byte) {
    b == 9 || b == 10 || b == 12 || b == 13 || b == 32
  }

  function Compact(input: seq<byte>): (r: seq<byte>)
    ensures |r| <= |input|
  {
    if input == [] then [] else (if IsAsciiWhitespace(input[0]) then [] else [input[0]]) + Compact(input[1..])
  }

  /** Text in the alphabet with nothing but `pad` pads at its end. */
  predicate WellPadded(text: seq<byte>, pad: nat) {
    && |text| % 4 == 0 && pad <= 2 && pad <= |text|
    && (forall i :: 0 <= i < |text| - pad ==> InAlphabet(text[i]))
    && (forall i :: |text| - pad <= i < |text| ==> text[i] == PAD)
  }

  predicate PadBitsZero(text: seq<byte>, pad: nat)
    requires WellPadded(text, pad)
  {
    match pad
    case 0 => true
    case 1 => Base64Value(text[|text| - 2]).value % 4 == 0
    case _ => Base64Value(text[|text| - 3]).value % 16 == 0
  }

  lemma WellPaddedIsGroup(text: seq<byte>, pad: nat)
    requires |text| == 4
    ensures WellPadded(text, pad) <==> PaddedGroup(text, pad)
    ensures WellPadded(text, pad) ==> PadBitsZero(text, pad) == SpareBitsZero(text, pad)
  {
  }

  lemma WellPaddedRest(text: seq<byte>, pad: nat)
    requires |text| > 4 && |text| % 4 == 0
    ensures WellPadded(text, pad) <==> PaddedGroup(text[..4], 0) && WellPadded(text[4..], pad)
    ensures WellPadded(text, pad) ==> PadBitsZero(text, pad) == PadBitsZero(text[4..], pad)
  {
  }

  lemma NothingIsWellPadded()
    ensures WellPadded([], 0)
  {
  }

  /** Decoding gives back every byte string. */
  lemma {:induction false} DecodeOfEncode(bytes: seq<byte>)
    ensures Decode(Encode(bytes)) == Ok(bytes)
    decreases |bytes|
  {
    hide DecodeGroup, EncodeGroup;
    if bytes == [] {
    } else if |bytes| <= 3 {
      GroupRoundTrip(bytes, true);
      assert Encode(bytes)[..4] == Encode(bytes) && Encode(bytes)[4..] == [];
      assert DecodeGroups([]) == Ok([]);
      assert bytes + [] == bytes;
    } else {
      var first, rest := EncodeGroup(bytes[..3]), Encode(bytes[3..]);
      GroupRoundTrip(bytes[..3], false);
      DecodeOfEncode(bytes[3..]);
      assert (first + rest)[..4] == first && (first + rest)[4..] == rest;
      assert bytes[..3] + bytes[3..] == bytes;
    }
  }

  /** Accepted is exactly well-padded text. */
  lemma {:induction false} AcceptsWellPadded(text: seq<byte>)
    ensures Decode(text).Ok? <==> exists pad :: WellPadded(text, pad)
    decreases |text|
  {
    hide DecodeGroup, PaddedGroup, WellPadded;
    if |text| % 4 != 0 {
      NeedsWholeGroups(text);
    } else if text == [] {
      NothingIsWellPadded();
    } else if |text| == 4 {
      assert text[..4] == text && text[4..] == [];
      assert DecodeGroups([]) == Ok([]);
      GroupAccepted(text, true);
      forall pad: nat
        ensures WellPadded(text, pad) <==> PaddedGroup(text, pad)
      {
        WellPaddedIsGroup(text, pad);
      }
    } else {
      var head, rest := text[..4], text[4..];
      GroupAccepted(head, false);
      AcceptsWellPadded(rest);
      forall pad: nat
        ensures WellPadded(text, pad) <==> PaddedGroup(head, 0) && WellPadded(rest, pad)
      {
        WellPaddedRest(text, pad);
      }
    }
  }

  lemma NeedsWholeGroups(text: seq<byte>)
    requires |text| % 4 != 0
    ensures forall pad :: !WellPadded(text, pad)
  {
  }

  /** Encoding a decoded text restores it exactly when its spare bits are zero; its length tells
      how many bytes there are. */
  lemma {:induction false} EncodeOfDecode(text: seq<byte>, pad: nat)
    requires WellPadded(text, pad)
    ensures Decode(text).Ok?
    ensures |Decode(text).value| == |text| / 4 * 3 - pad
    ensures Encode(Decode(text).value) == text <==> PadBitsZero(text, pad)
    decreases |text|
  {
    hide DecodeGroup, EncodeGroup, PaddedGroup, InAlphabet, SpareBitsZero;
    if text == [] {
    } else if |text| == 4 {
      assert text[..4] == text && text[4..] == [];
      assert DecodeGroups([]) == Ok([]);
      WellPaddedIsGroup(text, pad);
      GroupCanonical(text, pad, true);
      var b := DecodeGroup(text, true).value;
      assert b + [] == b;
    } else {
      var head, rest := text[..4], text[4..];
      WellPaddedRest(text, pad);
      GroupCanonical(head, 0, false);
      EncodeOfDecode(rest, pad);
      var b, more := DecodeGroup(head, false).value, DecodeGroups(rest).value;
      FullGroupIsCanonical(head);
      EncodeMore(b, more);
      assert head + rest == text;
      assert Encode(b + more)[4..] == Encode(more);
    }
  }

  lemma FullGroupIsCanonical(chunk: seq<byte>)
    requires |chunk| == 4 && PaddedGroup(chunk, 0)
    ensures SpareBitsZero(chunk, 0)
  {
  }

  lemma EncodeMore(chunk: seq<byte>, more: seq<byte>)
    requires |chunk| == 3
    ensures Encode(chunk + more) == EncodeGroup(chunk) + Encode(more)
  {
  }

  // ----- The number behind the text -----

  function BytesNumber(acc: nat, bytes: seq<byte>): nat
    decreases |bytes|
  {
    if bytes == [] then acc else BytesNumber(acc * 256 + bytes[0], bytes[1..])
  }

  /** The symbols up to the first pad, as digits to base 64. */
  function SymbolsNumber(acc: nat, text: seq<byte>): nat
    decreases |text|
  {
    if text == [] || !InAlphabet(text[0]) then acc
    else SymbolsNumber(acc * 64 + Base64Value(text[0]).value, text[1..])
  }

  function Surplus(length: nat): nat {
    match length % 3
    case 0 => 1
    case 1 => 16
    case _ => 4
  }

  lemma GroupDigits(acc: nat, chunk: seq<byte>, more: seq<byte>)
    requires |chunk| == 4 && PaddedGroup(chunk, 0)
    ensures SymbolsNumber(acc, chunk + more) == SymbolsNumber(acc * 0x1000000 + GroupValue(chunk, 0), more)
  {
    hide Base64Value;
    var t := chunk + more;
    assert t[1..][1..] == t[2..] && t[2..][1..] == t[3..] && t[3..][1..] == t[4..] && t[4..] == more;
    var v0, v1 := Base64Value(chunk[0]).value, Base64Value(chunk[1]).value;
    var v2, v3 := Base64Value(chunk[2]).value, Base64Value(chunk[3]).value;
    assert InAlphabet(t[0]) && InAlphabet(t[1]) && InAlphabet(t[2]) && InAlphabet(t[3]);
    assert SymbolsNumber(acc, t) == SymbolsNumber(acc * 64 + v0, t[1..]);
    assert SymbolsNumber(acc * 64 + v0, t[1..]) == SymbolsNumber((acc * 64 + v0) * 64 + v1, t[2..]);
    assert SymbolsNumber((acc * 64 + v0) * 64 + v1, t[2..]) == SymbolsNumber(((acc * 64 + v0) * 64 + v1) * 64 + v2, t[3..]);
  }

  lemma TwoDigits(acc: nat, t: seq<byte>)
    requires |t| == 4 && PaddedGroup(t, 2)
    ensures SymbolsNumber(acc, t) * 0x1000 == acc * 0x1000000 + GroupValue(t, 2)
  {
    hide Base64Value;
    PadIsNoSymbol();
    ValuesExist(t, 2);
    assert t[1..][1..] == t[2..] && t[2..][0] == PAD;
    var v0, v1 := Base64Value(t[0]).value, Base64Value(t[1]).value;
    assert SymbolsNumber(acc, t) == SymbolsNumber(acc * 64 + v0, t[1..]);
    assert SymbolsNumber(acc * 64 + v0, t[1..]) == SymbolsNumber((acc * 64 + v0) * 64 + v1, t[2..]);
  }

  lemma ThreeDigits(acc: nat, t: seq<byte>)
    requires |t| == 4 && PaddedGroup(t, 1)
    ensures SymbolsNumber(acc, t) * 64 == acc * 0x1000000 + GroupValue(t, 1)
  {
    hide Base64Value;
    PadIsNoSymbol();
    ValuesExist(t, 1);
    assert t[1..][1..] == t[2..] && t[2..][1..] == t[3..] && t[3..][0] == PAD;
    var v0, v1, v2 := Base64Value(t[0]).value, Base64Value(t[1]).value, Base64Value(t[2]).value;
    assert SymbolsNumber(acc, t) == SymbolsNumber(acc * 64 + v0, t[1..]);
    assert SymbolsNumber(acc * 64 + v0, t[1..]) == SymbolsNumber((acc * 64 + v0) * 64 + v1, t[2..]);
    assert SymbolsNumber((acc * 64 + v0) * 64 + v1, t[2..]) == SymbolsNumber(((acc * 64 + v0) * 64 + v1) * 64 + v2, t[3..]);
  }

  lemma LastGroupDigits(acc: nat, chunk: seq<byte>)
    requires 1 <= |chunk| <= 2
    ensures SymbolsNumber(acc, EncodeGroup(chunk)) == BytesNumber(acc, chunk) * Surplus(|chunk|)
  {
    hide SymbolsNumber, EncodeGroup, PaddedGroup, GroupValue;
    GroupEncoded(chunk);
    if |chunk| == 1 {
      TwoDigits(acc, EncodeGroup(chunk));
      assert chunk[1..] == [];
      assert BytesNumber(acc, chunk) == acc * 256 + chunk[0];
    } else {
      ThreeDigits(acc, EncodeGroup(chunk));
      assert chunk[1..][1..] == [];
      assert BytesNumber(acc, chunk) == BytesNumber(acc * 256 + chunk[0], chunk[1..]);
      assert BytesNumber(acc, chunk) == (acc * 256 + chunk[0]) * 256 + chunk[1];
    }
  }

  lemma PadIsNoSymbol()
    ensures !InAlphabet(PAD)
  {
  }

  /** The text spells the number that the bytes spell, shifted by the bits of the pads. */
  lemma {:induction false} EncodingKeepsTheNumber(acc: nat, bytes: seq<byte>)
    ensures SymbolsNumber(acc, Encode(bytes)) == BytesNumber(acc, bytes) * Surplus(|bytes|)
    decreases |bytes|
  {
    hide EncodeGroup, SymbolsNumber, GroupValue, PaddedGroup, BytesNumber, Surplus, GroupNumber;
    if bytes == [] {
      NoDigits(acc);
    } else if |bytes| < 3 {
      LastGroupDigits(acc, bytes);
    } else {
      var chunk, more := bytes[..3], bytes[3..];
      assert bytes == chunk + more;
      EncodeMore(chunk, more);
      GroupEncoded(chunk);
      GroupDigits(acc, EncodeGroup(chunk), Encode(more));
      EncodingKeepsTheNumber(acc * 0x1000000 + GroupNumber(chunk), more);
      ThreeBytes(acc, bytes);
      SurplusRepeats(|more|);
    }
  }

  lemma NoDigits(acc: nat)
    ensures SymbolsNumber(acc, []) == acc == BytesNumber(acc, []) * Surplus(0)
  {
  }

  lemma SurplusRepeats(n: nat)
    ensures Surplus(n + 3) == Surplus(n)
  {
  }

  lemma ThreeBytes(acc: nat, bytes: seq<byte>)
    requires |bytes| >= 3
    ensures BytesNumber(acc, bytes) == BytesNumber(acc * 0x1000000 + GroupNumber(bytes[..3]), bytes[3..])
  {
    assert bytes[1..][1..] == bytes[2..] && bytes[2..][1..] == bytes[3..];
    assert BytesNumber(acc, bytes) == BytesNumber(acc * 256 + bytes[0], bytes[1..]);
    assert BytesNumber(acc * 256 + bytes[0], bytes[1..]) == BytesNumber((acc * 256 + bytes[0]) * 256 + bytes[1], bytes[2..]);
  }

  // ----- The operations -----

  method EncodeBase64(bytes: seq<byte>) returns (output: seq<byte>)
    ensures output == Encode(bytes)
  {
    hide EncodeGroup, Encode;
    output := [];
    var i := 0;
    EncodeFrom(bytes, 0);
    while i < |bytes|
      invariant 0 <= i <= |bytes|
      invariant output + Encode(bytes[i..]) == Encode(bytes)
    {
      var end := if i + 3 <= |bytes| then i + 3 else |bytes|;
      EncodeFrom(bytes, i);
      var group := EncodeGroup(bytes[i..end]);
      assert output + (group + Encode(bytes[end..])) == output + group + Encode(bytes[end..]);
      output, i := output + group, end;
    }
    EncodeFrom(bytes, |bytes|);
  }

  lemma EncodeFrom(bytes: seq<byte>, i: nat)
    requires i <= |bytes|
    ensures bytes[0..] == bytes
    ensures var end := if i + 3 <= |bytes| then i + 3 else |bytes|;
            Encode(bytes[i..]) == if i < |bytes| then EncodeGroup(bytes[i..end]) + Encode(bytes[end..]) else []
  {
  }

  method DecodeBase64(input: seq<byte>) returns (r: Result<seq<byte>, Base64Error>)
    ensures r == Decode(Compact(input))
  {
    hide DecodeGroup, DecodeGroups, Compact, Prepend;
    var bytes := Compact(input);
    NoGroups();
    if bytes == [] {
      return Ok([]);
    }
    if |bytes| % 4 != 0 {
      return Err(BadLength);
    }
    var output: seq<byte> := [];
    ghost var all := DecodeGroups(bytes);
    assert bytes[4 * 0..] == bytes;
    PrependNothing(all);
    for g := 0 to |bytes| / 4
      invariant all == Prepend(output, DecodeGroups(bytes[4 * g..]))
    {
      var chunk := bytes[4 * g..4 * g + 4];
      assert bytes[4 * g..][..4] == chunk && bytes[4 * g..][4..] == bytes[4 * (g + 1)..];
      var group := DecodeGroup(chunk, g == |bytes| / 4 - 1);
      GroupStep(output, bytes[4 * g..]);
      if group.Err? {
        return Err(group.error);
      }
      output := output + group.value;
    }
    assert bytes[4 * (|bytes| / 4)..] == [];
    PrependToNothing(output);
    r := Ok(output);
  }

  lemma NoGroups()
    ensures DecodeGroups([]) == Ok([])
  {
  }

  lemma GroupStep(output: seq<byte>, text: seq<byte>)
    requires text != [] && |text| % 4 == 0
    ensures var group := DecodeGroup(text[..4], |text| == 4);
            Prepend(output, DecodeGroups(text))
            == if group.Err? then group else Prepend(output + group.value, DecodeGroups(text[4..]))
  {
    hide DecodeGroup;
    var group := DecodeGroup(text[..4], |text| == 4);
    if group.Ok? {
      PrependTwice(output, group.value, DecodeGroups(text[4..]));
    }
  }

  lemma PrependToNothing(output: seq<byte>)
    ensures Prepend(output, Ok([])) == Ok(output)
  {
    assert output + [] == output;
  }

  function Prepend(done: seq<byte>, rest: Result<seq<byte>, Base64Error>): Result<seq<byte>, Base64Error> {
    if rest.Err? then rest else Ok(done + rest.value)
  }

  lemma PrependNothing(rest: Result<seq<byte>, Base64Error>)
    ensures Prepend([], rest) == rest
  {
    if rest.Ok? {
      assert [] + rest.value == rest.value;
    }
  }

  lemma PrependTwice(a: seq<byte>, b: seq<byte>, rest: Result<seq<byte>, Base64Error>)
    ensures Prepend(a, Prepend(b, rest)) == Prepend(a + b, rest)
  {
    if rest.Ok? {
      assert a + (b + rest.value) == a + b + rest.value;
    }
  }

  /** The size allowed for before decoding is never too small, and at most two bytes too large. */
  lemma EstimateCovers(input: seq<byte>)
    requires Decode(Compact(input)).Ok?
    ensures var n := |Decode(Compact(input)).value|;
            n <= |Compact(input)| / 4 * 3 <= n + 2
  {
    hide *;
    AcceptsWellPadded(Compact(input));
    var pad :| WellPadded(Compact(input), pad);
    EncodeOfDecode(Compact(input), pad);
    PadIsSmall(Compact(input), pad);
  }

  lemma PadIsSmall(text: seq<byte>, pad: nat)
    requires WellPadded(text, pad)
    ensures pad <= 2
  {
  }

  /** White space may stand anywhere. */
  lemma {:induction false} CompactDropsWhitespace(a: seq<byte>, space: seq<byte>, b: seq<byte>)
    requires forall i :: 0 <= i < |space| ==> space[i] in {9, 10, 12, 13, 32}
    ensures Compact(a + space + b) == Compact(a + b)
    decreases |a| + |space|
  {
    if a != [] {
      assert (a + space + b)[1..] == a[1..] + space + b && (a + b)[1..] == a[1..] + b;
      CompactDropsWhitespace(a[1..], space, b);
    } else if space != [] {
      assert (a + space + b)[1..] == a + space[1..] + b;
      CompactDropsWhitespace(a, space[1..], b);
    } else {
      assert a + space + b == a + b;
    }
  }

  /** And nothing else is dropped. */
  lemma {:induction false} CompactKeepsTheRest(text: seq<byte>)
    requires forall i :: 0 <= i < |text| ==> text[i] !in {9, 10, 12, 13, 32}
    ensures Compact(text) == text
  {
    if text != [] {
      CompactKeepsTheRest(text[1..]);
    }
  }
}
