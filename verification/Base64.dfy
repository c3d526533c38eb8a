/** Base64 with the standard alphabet and padding (section 4 of RFC 4648). */
module Base64 {
  import opened Octets
  import opened Wrappers

  const PAD: Byte := 61

  type Sextet = v: int | 0 <= v < 64 witness 0

  function Letter(v: Sextet): Byte {
    if v < 26 then 65 + v
    else if v < 52 then 97 + (v - 26)
    else if v < 62 then 48 + (v - 52)
    else if v == 62 then 43
    else 47
  }

  function Sextets(c: Byte): Option<Sextet> {
    if 65 <= c <= 90 then Some(c - 65)
    else if 97 <= c <= 122 then Some(c - 97 + 26)
    else if 48 <= c <= 57 then Some(c - 48 + 52)
    else if c == 43 then Some(62)
    else if c == 47 then Some(63)
    else None
  }

  function Quad(a: Byte, b: Byte, c: Byte): (Sextet, Sextet, Sextet, Sextet) {
    (a / 4, a % 4 * 16 + b / 16, b % 16 * 4 + c / 64, c % 64)
  }

  function Encode(data: Bytes): Bytes {
    if data == [] then []
    else if |data| == 1 then
      var q := Quad(data[0], 0, 0);
      [Letter(q.0), Letter(q.1), PAD, PAD]
    else if |data| == 2 then
      var q := Quad(data[0], data[1], 0);
      [Letter(q.0), Letter(q.1), Letter(q.2), PAD]
    else
      var q := Quad(data[0], data[1], data[2]);
      [Letter(q.0), Letter(q.1), Letter(q.2), Letter(q.3)] + Encode(data[3..])
  }

  function Triple(p: Sextet, q: Sextet, r: Sextet, s: Sextet): (Byte, Byte, Byte) {
    (p * 4 + q / 16, q % 16 * 16 + r / 4, r % 4 * 64 + s)
  }

  /** Up to two pad characters at the end, which the decoder does not insist on. */
  predicate OnlyPads(text: Bytes) {
    forall i :: 0 <= i < |text| ==> text[i] == PAD
  }

  /** The decoder the parser uses: padding optional, leftover bits ignored. */
  function Decode(text: Bytes): Option<Bytes> {
    if text == [] then Some([])
    else if |text| < 2 then None
    else
      var p, q := Sextets(text[0]), Sextets(text[1]);
      if p.None? || q.None? then None
      else if |text| >= 4 && Sextets(text[2]).Some? && Sextets(text[3]).Some? then
        var t := Triple(p.value, q.value, Sextets(text[2]).value, Sextets(text[3]).value);
        var rest := Decode(text[4..]);
        if rest.Some? then Some([t.0, t.1, t.2] + rest.value) else None
      else if |text| > 4 then None
      else if |text| > 2 && Sextets(text[2]).Some? then
        if OnlyPads(text[3..]) then
          var t := Triple(p.value, q.value, Sextets(text[2]).value, 0);
          Some([t.0, t.1])
        else None
      else if OnlyPads(text[2..]) then Some([Triple(p.value, q.value, 0, 0).0])
      else None
  }

  lemma LetterHasItsSextet(v: Sextet)
    ensures Sextets(Letter(v)) == Some(v)
  {
  }

  lemma Rejoined(n: nat, low: nat, k: nat, m: nat)
    requires (k == 4 && m == 16) || (k == 16 && m == 4)
    requires low < m
    ensures (n % k * m + low) / m == n % k && (n % k * m + low) % m == low
  {
  }

  lemma TripleOfQuad(a: Byte, b: Byte, c: Byte)
    ensures var q := Quad(a, b, c);
      Triple(q.0, q.1, q.2, q.3) == (a, b, c)
  {
    Rejoined(a, b / 16, 4, 16);
    Rejoined(b, c / 64, 16, 4);
  }

  /** Four characters decode to three bytes. */
  lemma FourLetters(p: Sextet, q: Sextet, r: Sextet, s: Sextet, rest: Bytes, decoded: Bytes)
    requires Decode(rest) == Some(decoded)
    ensures var t := Triple(p, q, r, s);
      Decode([Letter(p), Letter(q), Letter(r), Letter(s)] + rest) == Some([t.0, t.1, t.2] + decoded)
  {
    var text := [Letter(p), Letter(q), Letter(r), Letter(s)] + rest;
    assert text[4..] == rest;
    LetterHasItsSextet(p);
    LetterHasItsSextet(q);
    LetterHasItsSextet(r);
    LetterHasItsSextet(s);
  }

  lemma ThreeLetters(p: Sextet, q: Sextet, r: Sextet)
    ensures var t := Triple(p, q, r, 0);
      Decode([Letter(p), Letter(q), Letter(r), PAD]) == Some([t.0, t.1])
  {
    LetterHasItsSextet(p);
    LetterHasItsSextet(q);
    LetterHasItsSextet(r);
    assert [Letter(p), Letter(q), Letter(r), PAD][3..] == [PAD];
  }

  lemma TwoLetters(p: Sextet, q: Sextet)
    ensures Decode([Letter(p), Letter(q), PAD, PAD]) == Some([Triple(p, q, 0, 0).0])
  {
    LetterHasItsSextet(p);
    LetterHasItsSextet(q);
    assert [Letter(p), Letter(q), PAD, PAD][2..] == [PAD, PAD];
  }

  /** Decoding undoes encoding. */
  lemma {:induction false} DecodeUndoesEncode(data: Bytes)
    ensures Decode(Encode(data)) == Some(data)
  {
    if |data| == 1 {
      var q := Quad(data[0], 0, 0);
      TripleOfQuad(data[0], 0, 0);
      TwoLetters(q.0, q.1);
      assert data == [data[0]];
    } else if |data| == 2 {
      var q := Quad(data[0], data[1], 0);
      TripleOfQuad(data[0], data[1], 0);
      ThreeLetters(q.0, q.1, q.2);
      assert data == [data[0], data[1]];
    } else if |data| > 2 {
      var q := Quad(data[0], data[1], data[2]);
      DecodeUndoesEncode(data[3..]);
      TripleOfQuad(data[0], data[1], data[2]);
      FourLetters(q.0, q.1, q.2, q.3, Encode(data[3..]), data[3..]);
      assert data == [data[0], data[1], data[2]] + data[3..];
    }
  }

  predicate IsBase64(c: Byte) {
    c == PAD || Sextets(c).Some?
  }

  /** What an encoding looks like: four characters for every three bytes begun, all from
      the alphabet. */
  lemma {:induction false} EncodingShape(data: Bytes)
    ensures |Encode(data)| == (|data| + 2) / 3 * 4
    ensures forall i :: 0 <= i < |Encode(data)| ==> IsBase64(Encode(data)[i])
  {
    if |data| > 2 {
      EncodingShape(data[3..]);
      var q := Quad(data[0], data[1], data[2]);
      var first := [Letter(q.0), Letter(q.1), Letter(q.2), Letter(q.3)];
      forall i | 0 <= i < |Encode(data)|
        ensures IsBase64(Encode(data)[i])
      {
        if i >= 4 {
          assert Encode(data)[i] == Encode(data[3..])[i - 4];
        }
      }
    }
  }

  /** The characters that are not ASCII white space. */
  function Cleaned(text: Bytes): Bytes {
    if text == [] then []
    else (if IsSpace(text[0]) then [] else [text[0]]) + Cleaned(text[1..])
  }

  lemma {:induction false} CleanedOf(first: Bytes, second: Bytes)
    ensures Cleaned(first + second) == Cleaned(first) + Cleaned(second)
  {
    if first == [] {
      assert first + second == second;
    } else {
      var head := if IsSpace(first[0]) then [] else [first[0]];
      calc {
        Cleaned(first + second);
        { assert (first + second)[1..] == first[1..] + second; }
        head + Cleaned(first[1..] + second);
        { CleanedOf(first[1..], second); }
        head + (Cleaned(first[1..]) + Cleaned(second));
        { Shift(head, Cleaned(first[1..]), Cleaned(second)); }
        head + Cleaned(first[1..]) + Cleaned(second);
        Cleaned(first) + Cleaned(second);
      }
    }
  }

  lemma {:induction false} NothingToClean(text: Bytes)
    requires forall i :: 0 <= i < |text| ==> IsBase64(text[i])
    ensures Cleaned(text) == text
  {
    if text != [] {
      NothingToClean(text[1..]);
    }
  }

  // ----- what the encoding means -----

  /** The alphabet (table 1 of RFC 4648): capitals, small letters, digits, plus and slash. */
  lemma AlphabetIs(v: Sextet)
    ensures v <= 25 ==> 'A' <= Letter(v) as char <= 'Z' && Letter(v) == Letter(0) + v
    ensures 26 <= v <= 51 ==> 'a' <= Letter(v) as char <= 'z' && Letter(v) == Letter(26) + v - 26
    ensures 52 <= v <= 61 ==> '0' <= Letter(v) as char <= '9' && Letter(v) == Letter(52) + v - 52
    ensures Letter(62) as char == '+' && Letter(63) as char == '/'
    ensures forall c: Byte :: Sextets(c) == Some(v) ==> c == Letter(v)
  {
  }

  /** What a letter counts, and nothing for padding. */
  function Worth(c: Byte): nat {
    if Sextets(c).Some? then Sextets(c).value else 0
  }

  /** Four letters as one number. */
  function LettersWorth(text: Bytes, i: nat): nat
    requires i + 4 <= |text|
  {
    ((Worth(text[i]) * 64 + Worth(text[i + 1])) * 64 + Worth(text[i + 2])) * 64 + Worth(text[i + 3])
  }

  /** Three bytes as one number, with zeros for those behind the end. */
  function BytesWorth(data: Bytes, i: nat): nat {
    (ByteAt(data, i) * 256 + ByteAt(data, i + 1)) * 256 + ByteAt(data, i + 2)
  }

  function ByteAt(data: Bytes, i: nat): nat {
    if i < |data| then data[i] else 0
  }

  lemma QuadKeepsWorth(a: Byte, b: Byte, c: Byte)
    ensures var q := Quad(a, b, c);
      ((q.0 * 64 + q.1) * 64 + q.2) * 64 + q.3 == (a * 256 + b) * 256 + c
  {
  }

  lemma WorthOfLetter(v: Sextet)
    ensures Worth(Letter(v)) == v && Worth(PAD) == 0
  {
  }

  lemma FirstGroup(data: Bytes)
    requires data != []
    ensures |Encode(data)| >= 4 && LettersWorth(Encode(data), 0) == BytesWorth(data, 0)
    ensures Encode(data)[3] == PAD <==> |data| < 3
    ensures Encode(data)[2] == PAD <==> |data| < 2
  {
    var a, b, c := ByteAt(data, 0), ByteAt(data, 1), ByteAt(data, 2);
    var q := Quad(a, b, c);
    QuadKeepsWorth(a, b, c);
    WorthOfLetter(q.0);
    WorthOfLetter(q.1);
    WorthOfLetter(q.2);
    WorthOfLetter(q.3);
  }

  /** The letters from `j` on are the number that the bytes from `i` on are. */
  predicate GroupAt(data: Bytes, i: nat, j: nat) {
    var text := Encode(data);
    && j + 4 <= |text|
    && LettersWorth(text, j) == BytesWorth(data, i)
    && (text[j + 3] == PAD <==> |data| < i + 3)
    && (text[j + 2] == PAD <==> |data| < i + 2)
  }

  lemma {:induction false} GroupsFrom(data: Bytes, i: nat, j: nat)
    requires i < |data| && i % 3 == 0 && 3 * j == 4 * i
    ensures GroupAt(data, i, j)
  {
    if i == 0 {
      FirstGroup(data);
    } else {
      GroupsFrom(data[3..], i - 3, j - 4);
      OneGroupOn(data, i - 3, j - 4);
    }
  }

  /** Each four letters are the number that their three bytes are (section 4 of RFC 4648),
      and padding stands exactly for the bytes that are missing. */
  lemma GroupsAreNumbers(data: Bytes, group: nat)
    requires 3 * group < |data|
    ensures var text := Encode(data);
      && 4 * group + 4 <= |text|
      && LettersWorth(text, 4 * group) == BytesWorth(data, 3 * group)
      && (text[4 * group + 3] == PAD <==> |data| < 3 * group + 3)
      && (text[4 * group + 2] == PAD <==> |data| < 3 * group + 2)
  {
    GroupsFrom(data, 3 * group, 4 * group);
  }

  lemma OneGroupOn(data: Bytes, i: nat, j: nat)
    requires |data| > 3 && j + 4 <= |Encode(data[3..])|
    ensures |Encode(data)| == |Encode(data[3..])| + 4
    ensures BytesWorth(data, i + 3) == BytesWorth(data[3..], i)
    ensures LettersWorth(Encode(data), j + 4) == LettersWorth(Encode(data[3..]), j)
    ensures Encode(data)[j + 7] == Encode(data[3..])[j + 3] && Encode(data)[j + 6] == Encode(data[3..])[j + 2]
  {
    var q := Quad(data[0], data[1], data[2]);
    var first := [Letter(q.0), Letter(q.1), Letter(q.2), Letter(q.3)];
    assert Encode(data) == first + Encode(data[3..]);
  }

  // ----- what is accepted -----

  /** Letters, and behind them at most as much padding as their number allows. */
  predicate Accepted(text: Bytes, letters: nat) {
    && letters <= |text| && letters % 4 != 1
    && (forall i :: 0 <= i < letters ==> Sextets(text[i]).Some?)
    && (forall i :: letters <= i < |text| ==> text[i] == PAD)
    && |text| - letters <= (if letters % 4 == 0 then 0 else 4 - letters % 4)
  }

  /** The decoder takes exactly such texts: padding is optional. */
  lemma {:induction false} DecodesIff(text: Bytes)
    ensures Decode(text).Some? <==> exists n: nat :: Accepted(text, n)
  {
    if |text| >= 4 && AllLetters(text[..4]) {
      DecodesIff(text[4..]);
      LettersInFront(text);
    } else {
      ShortText(text);
    }
  }

  predicate AllLetters(text: Bytes) {
    forall i :: 0 <= i < |text| ==> Sextets(text[i]).Some?
  }

  lemma LettersInFront(text: Bytes)
    requires |text| >= 4 && AllLetters(text[..4])
    ensures (exists n: nat :: Accepted(text, n)) <==> exists n: nat :: Accepted(text[4..], n)
    ensures Decode(text).Some? <==> Decode(text[4..]).Some?
  {
    var rest := text[4..];
    assert forall i :: 0 <= i < 4 ==> text[i] == text[..4][i];
    if n: nat :| Accepted(text, n) {
      assert n >= 4;
      assert forall i :: 0 <= i < n - 4 ==> rest[i] == text[i + 4];
      assert Accepted(rest, n - 4);
    }
    if n: nat :| Accepted(rest, n) {
      assert forall i :: 4 <= i < |text| ==> text[i] == rest[i - 4];
      assert Accepted(text, n + 4);
    }
  }

  lemma ShortText(text: Bytes)
    requires |text| < 4 || !AllLetters(text[..4])
    ensures Decode(text).Some? <==> exists n: nat :: Accepted(text, n)
  {
    if Decode(text).Some? {
      ShortIsAccepted(text);
    }
    if n: nat :| Accepted(text, n) {
      AcceptedIsDecoded(text, n);
    }
  }

  lemma FirstFour(text: Bytes)
    requires |text| >= 4
    ensures AllLetters(text[..4]) <==>
      Sextets(text[0]).Some? && Sextets(text[1]).Some? && Sextets(text[2]).Some? && Sextets(text[3]).Some?
  {
    assert forall i :: 0 <= i < 4 ==> text[i] == text[..4][i];
  }

  lemma TwoAreAccepted(text: Bytes)
    requires 2 <= |text| <= 4 && Sextets(text[0]).Some? && Sextets(text[1]).Some? && OnlyPads(text[2..])
    ensures Accepted(text, 2)
  {
    assert forall i :: 2 <= i < |text| ==> text[i] == text[2..][i - 2];
  }

  lemma ThreeAreAccepted(text: Bytes)
    requires 3 <= |text| <= 4 && OnlyPads(text[3..])
    requires Sextets(text[0]).Some? && Sextets(text[1]).Some? && Sextets(text[2]).Some?
    ensures Accepted(text, 3)
  {
    assert forall i :: 3 <= i < |text| ==> text[i] == text[3..][i - 3];
  }

  lemma ShortIsAccepted(text: Bytes)
    requires |text| < 4 || !AllLetters(text[..4])
    requires Decode(text).Some?
    ensures exists n: nat :: Accepted(text, n)
  {
    if |text| >= 4 {
      FirstFour(text);
    }
    if text == [] {
      assert Accepted(text, 0);
    } else if |text| > 2 && Sextets(text[2]).Some? {
      ThreeAreAccepted(text);
    } else {
      TwoAreAccepted(text);
    }
  }

  lemma AcceptedIsDecoded(text: Bytes, n: nat)
    requires |text| < 4 || !AllLetters(text[..4])
    requires Accepted(text, n)
    ensures Decode(text).Some?
  {
    if |text| >= 4 {
      FirstFour(text);
    }
    assert n < 4 && |text| <= 4;
    if n == 2 {
      assert forall i :: 0 <= i < |text| - 2 ==> text[2..][i] == text[i + 2];
    } else if n == 3 {
      assert forall i :: 0 <= i < |text| - 3 ==> text[3..][i] == text[i + 3];
    }
  }
}
