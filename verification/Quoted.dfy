/** Quoted-printable as the parser decodes it (crates/s2l-mail/src/qp.rs). */
module Quoted {
  import opened Octets
  import opened Wrappers

  function HexValue(b: Byte): Option<nat> {
    if 48 <= b <= 57 then Some(b - 48)
    else if 97 <= b <= 102 then Some(b - 97 + 10)
    else if 65 <= b <= 70 then Some(b - 65 + 10)
    else None
  }

  /** What the first bytes stand for, and how many they are: an escape, a line break that
      does not count, or one byte. */
  function Token(rest: Bytes, underscoreIsSpace: bool): (t: (Bytes, nat))
    requires rest != []
    ensures |t.0| <= 1 <= t.1 <= |rest|
  {
    if rest[0] == 95 && underscoreIsSpace then ([32], 1)
    else if rest[0] != 61 then ([rest[0]], 1)
    else if StartsAt(rest, 1, CRLF) then ([], 3)
    else if StartsAt(rest, 1, [LF]) then ([], 2)
    else if |rest| >= 3 && HexValue(rest[1]).Some? && HexValue(rest[2]).Some? then
      ([HexByte(HexValue(rest[1]).value, HexValue(rest[2]).value)], 3)
    else ([rest[0]], 1)
  }

  function HexByte(high: nat, low: nat): Byte {
    (high % 16) * 16 + low % 16
  }

  function Decoded(input: Bytes, underscoreIsSpace: bool): Bytes {
    if input == [] then []
    else
      var t := Token(input, underscoreIsSpace);
      t.0 + Decoded(input[t.1..], underscoreIsSpace)
  }

  method Decode(input: Bytes, underscoreIsSpace: bool) returns (out: Bytes)
    ensures out == Decoded(input, underscoreIsSpace)
  {
    out := [];
    var i := 0;
    assert input[0..] == input;
    while i < |input|
      invariant i <= |input|
      invariant out + Decoded(input[i..], underscoreIsSpace) == Decoded(input, underscoreIsSpace)
      decreases |input| - i
    {
      var t := Token(input[i..], underscoreIsSpace);
      Shift(out, t.0, Decoded(input[i + t.1..], underscoreIsSpace));
      assert input[i..][t.1..] == input[i + t.1..];
      out := out + t.0;
      i := i + t.1;
    }
    assert input[i..] == [];
  }

  lemma {:induction false} NeverGrows(input: Bytes, underscoreIsSpace: bool)
    ensures |Decoded(input, underscoreIsSpace)| <= |input|
    decreases |input|
  {
    if input != [] {
      NeverGrows(input[Token(input, underscoreIsSpace).1..], underscoreIsSpace);
    }
  }

  // ----- what the encoding means -----

  /** A hexadecimal digit, in either letter case. */
  function HexDigit(d: nat, upper: bool): Byte
    requires d < 16
  {
    if d < 10 then 48 + d else if upper then 65 + (d - 10) else 97 + (d - 10)
  }

  /** What quoted-printable text is made of (section 6.7 of RFC 2045 and section 4.2 of
      RFC 2047): a byte that stands for itself, one written as two digits, a line break that
      does not count, and in headers the underscore. */
  datatype Piece =
    | Itself(b: Byte)
    | Escaped(b: Byte, upperHigh: bool, upperLow: bool)
    | SoftBreak(withReturn: bool)
    | Underscore

  function Written(p: Piece): Bytes {
    match p
    case Itself(b) => [b]
    case Escaped(b, upperHigh, upperLow) => [61, HexDigit(b / 16, upperHigh), HexDigit(b % 16, upperLow)]
    case SoftBreak(withReturn) => if withReturn then [61, 13, 10] else [61, 10]
    case Underscore => [95]
  }

  function Meant(p: Piece): Bytes {
    match p
    case Itself(b) => [b]
    case Escaped(b, _, _) => [b]
    case SoftBreak(_) => []
    case Underscore => [32]
  }

  predicate Proper(p: Piece, underscoreIsSpace: bool) {
    match p
    case Itself(b) => b != 61 && (b == 95 ==> !underscoreIsSpace)
    case Underscore => underscoreIsSpace
    case _ => true
  }

  function AllWritten(pieces: seq<Piece>): Bytes {
    if pieces == [] then [] else Written(pieces[0]) + AllWritten(pieces[1..])
  }

  function AllMeant(pieces: seq<Piece>): Bytes {
    if pieces == [] then [] else Meant(pieces[0]) + AllMeant(pieces[1..])
  }

  lemma HexDigitIsRead(d: nat, upper: bool)
    requires d < 16
    ensures HexValue(HexDigit(d, upper)) == Some(d)
  {
  }

  /** And nothing else is a digit. */
  lemma DigitIff(b: Byte)
    ensures HexValue(b).Some? <==> exists d: nat, upper: bool :: d < 16 && b == HexDigit(d, upper)
  {
    var d := HexValue(b);
    if d.Some? {
      assert b == HexDigit(d.value, b < 97);
    }
  }

  lemma BreakFollowsIff(input: Bytes)
    ensures StartsAt(input, 1, CRLF) <==> |input| >= 3 && input[1] == 13 && input[2] == 10
    ensures StartsAt(input, 1, [LF]) <==> |input| >= 2 && input[1] == 10
  {
    if |input| >= 3 {
      assert input[1..3] == [input[1], input[2]];
    }
    if |input| >= 2 {
      assert input[1..2] == [input[1]];
    }
  }

  lemma EscapeIsRead(b: Byte, upperHigh: bool, upperLow: bool, rest: Bytes, underscoreIsSpace: bool)
    ensures var input := Written(Escaped(b, upperHigh, upperLow)) + rest;
      Token(input, underscoreIsSpace) == ([b], 3)
  {
    var high, low := HexDigit(b / 16, upperHigh), HexDigit(b % 16, upperLow);
    HexDigitIsRead(b / 16, upperHigh);
    HexDigitIsRead(b % 16, upperLow);
    BreakFollowsIff([61, high, low] + rest);
  }

  lemma BreakIsRead(withReturn: bool, rest: Bytes, underscoreIsSpace: bool)
    ensures var p := SoftBreak(withReturn);
      Token(Written(p) + rest, underscoreIsSpace) == ([], |Written(p)|)
  {
    BreakFollowsIff(Written(SoftBreak(withReturn)) + rest);
  }

  lemma PieceIsRead(p: Piece, rest: Bytes, underscoreIsSpace: bool)
    requires Proper(p, underscoreIsSpace)
    ensures Decoded(Written(p) + rest, underscoreIsSpace) == Meant(p) + Decoded(rest, underscoreIsSpace)
  {
    var input := Written(p) + rest;
    match p {
      case Escaped(b, upperHigh, upperLow) => EscapeIsRead(b, upperHigh, upperLow, rest, underscoreIsSpace);
      case SoftBreak(withReturn) => BreakIsRead(withReturn, rest, underscoreIsSpace);
      case Itself(_) =>
      case Underscore =>
    }
    assert input[|Written(p)|..] == rest;
  }

  /** Decoding reads every such text as what it means. */
  lemma {:induction false} TextIsRead(pieces: seq<Piece>, underscoreIsSpace: bool)
    requires forall p :: p in pieces ==> Proper(p, underscoreIsSpace)
    ensures Decoded(AllWritten(pieces), underscoreIsSpace) == AllMeant(pieces)
  {
    if pieces != [] {
      assert pieces[0] in pieces;
      PieceIsRead(pieces[0], AllWritten(pieces[1..]), underscoreIsSpace);
      TextIsRead(pieces[1..], underscoreIsSpace);
    }
  }

  /** An equals sign that begins neither an escape nor a break stands for itself. */
  lemma StrayEqualsIsKept(rest: Bytes, underscoreIsSpace: bool)
    requires |rest| < 2 || HexValue(rest[0]) == None || HexValue(rest[1]) == None
    requires rest == [] || rest[0] != LF
    requires |rest| < 2 || rest[0] != CR || rest[1] != LF
    ensures Decoded([61] + rest, underscoreIsSpace) == [61] + Decoded(rest, underscoreIsSpace)
  {
    var input := [61] + rest;
    BreakFollowsIff(input);
    assert input[1..] == rest;
  }
}
