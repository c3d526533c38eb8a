/** UTF-8 (section 3 of RFC 3629): the encoding itself, and what is assumed of decoders. */
module Utf8 {
  import opened Octets
  import opened Texts
  import opened Wrappers

  function EncodeChar(c: char): (b: Bytes)
    ensures 1 <= |b| <= 4
    ensures c as int < 128 ==> b == [c as int]
    ensures c as int >= 128 ==> forall i :: 0 <= i < |b| ==> b[i] >= 128
  {
    var n := c as int;
    if n < 0x80 then [n]
    else if n < 0x800 then [0xC0 + n / 64, 0x80 + n % 64]
    else if n < 0x10000 then [0xE0 + n / 4096, 0x80 + n / 64 % 64, 0x80 + n % 64]
    else [0xF0 + n / 262144, 0x80 + n / 4096 % 64, 0x80 + n / 64 % 64, 0x80 + n % 64]
  }

  function Encode(s: string): Bytes {
    if s == "" then [] else Encode(s[..|s| - 1]) + EncodeChar(Last(s))
  }

  lemma {:induction false} EncodeOf(first: string, second: string)
    ensures Encode(first + second) == Encode(first) + Encode(second)
  {
    if second == "" {
      assert first + second == first;
    } else {
      EncodeOf(first, second[..|second| - 1]);
      EncodeSnoc(first + second[..|second| - 1], Last(second));
      assert first + second[..|second| - 1] + [Last(second)] == first + second;
      Shift(Encode(first), Encode(second[..|second| - 1]), EncodeChar(Last(second)));
    }
  }

  lemma EncodeSnoc(s: string, c: char)
    ensures Encode(s + [c]) == Encode(s) + EncodeChar(c)
  {
    assert (s + [c])[..|s|] == s;
  }

  /** The code point that the bytes of one character spell (table 3-6 of the Unicode
      Standard): the low bits of the first byte, and six bits of each other one. */
  function CodePoint(b: Bytes): int
    requires 1 <= |b| <= 4
  {
    if |b| == 1 then b[0]
    else if |b| == 2 then (b[0] - 0xC0) * 64 + Low(b[1])
    else if |b| == 3 then ((b[0] - 0xE0) * 64 + Low(b[1])) * 64 + Low(b[2])
    else (((b[0] - 0xF0) * 64 + Low(b[1])) * 64 + Low(b[2])) * 64 + Low(b[3])
  }

  function Low(b: Byte): int {
    b - 0x80
  }

  lemma Digits64(n: nat)
    ensures n == n / 64 * 64 + n % 64
    ensures n / 64 / 64 == n / 4096 && n / 4096 / 64 == n / 262144
  {
  }

  lemma ThreeDigits(n: nat)
    requires 0x800 <= n < 0x10000
    ensures ((n / 4096) * 64 + n / 64 % 64) * 64 + n % 64 == n
  {
    Digits64(n);
    Digits64(n / 64);
  }

  lemma FourDigits(n: nat)
    requires 0x10000 <= n < 0x110000
    ensures ((n / 262144 * 64 + n / 4096 % 64) * 64 + n / 64 % 64) * 64 + n % 64 == n
  {
    Digits64(n);
    Digits64(n / 64);
    Digits64(n / 4096);
  }

  /** Each character is encoded as its code point. */
  lemma EncodedIsCodePoint(c: char)
    ensures CodePoint(EncodeChar(c)) == c as int
  {
    var n := c as int;
    if 0x800 <= n < 0x10000 {
      ThreeDigits(n);
    } else if n >= 0x10000 {
      FourDigits(n);
    }
  }

  /** And in as few bytes as that takes, the first telling how many there are. */
  lemma EncodedIsShort(c: char)
    ensures var b, n := EncodeChar(c), c as int;
      && |b| == (if n < 0x80 then 1 else if n < 0x800 then 2 else if n < 0x10000 then 3 else 4)
      && (|b| == 2 ==> 0xC2 <= b[0] < 0xE0) && (|b| == 3 ==> 0xE0 <= b[0] < 0xF0) && (|b| == 4 ==> 0xF0 <= b[0] <= 0xF4)
      && forall i :: 1 <= i < |b| ==> 0x80 <= b[i] < 0xC0
  {
  }

  predicate Ascii(s: string) {
    forall i :: 0 <= i < |s| ==> s[i] as int < 128
  }

  /** The bytes of an ASCII text, one for each character. */
  function Plain(s: string): (b: Bytes)
    requires Ascii(s)
    ensures |b| == |s|
    ensures forall i :: 0 <= i < |s| ==> b[i] == s[i] as int
  {
    seq(|s|, i requires 0 <= i < |s| => s[i] as int)
  }

  lemma {:induction false} AsciiIsPlain(s: string)
    requires Ascii(s)
    ensures Encode(s) == Plain(s)
  {
    if s != "" {
      AsciiIsPlain(s[..|s| - 1]);
      assert Plain(s) == Plain(s[..|s| - 1]) + [Last(s) as int];
    }
  }

  /** An ASCII byte in the encoding comes from that character. */
  lemma {:induction false} AsciiBytesAreCharacters(s: string, b: Byte)
    requires b < 128 && b in Encode(s)
    ensures b as char in s
  {
    var init := s[..|s| - 1];
    if b in Encode(init) {
      AsciiBytesAreCharacters(init, b);
    } else {
      assert b in EncodeChar(Last(s));
    }
    assert s == init + [Last(s)];
  }

  const BOM: char := '\U{FEFF}'

  /** The decoders of the standard library and of the character-set tables: strict UTF-8,
      lossy UTF-8, decoding under a label, and the guess for bytes that are not UTF-8. */
  datatype Codec = Codec(
    strict: Bytes -> Option<string>,
    lossy: Bytes -> string,
    labelled: (string, Bytes) -> string,
    guess: Bytes -> string)

  /** A text without one byte-order mark in front. */
  function DropBom(s: string): string {
    if s != "" && s[0] == BOM then s[1..] else s
  }

  /** They undo the encoding, but that the labelled decoder drops a byte-order mark in front. */
  predicate Reads(codec: Codec, s: string) {
    && codec.strict(Encode(s)) == Some(s)
    && codec.lossy(Encode(s)) == s
    && codec.labelled("UTF-8", Encode(s)) == DropBom(s)
    && codec.labelled("utf-8", Encode(s)) == DropBom(s)
  }

  /** And no label makes more characters than there are bytes. */
  predicate Bounded(codec: Codec, name: string, b: Bytes) {
    |codec.labelled(name, b)| <= |b|
  }

  ghost predicate Lawful(codec: Codec) {
    && (forall s: string :: Reads(codec, s))
    && (forall name: string, b: Bytes :: Bounded(codec, name, b))
  }

  function Sniff(codec: Codec, bytes: Bytes): string {
    match codec.strict(bytes)
    case Some(s) => s
    case None => codec.guess(bytes)
  }
}
