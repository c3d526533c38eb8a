/** What any header value with encoded words means (crates/s2l-mail/src/word.rs), against
    section 2 and section 6.2 of RFC 2047. */
module HeaderTexts {
  import opened EncodedWords
  import opened Octets
  import opened TextLaws
  import opened Texts
  import opened Wrappers
  import Base64
  import Quoted
  import Utf8

  datatype Coding = ByBase64 | ByQuoted

  /** A stretch of a header value: an encoded word, with the bytes it stands for, or text. */
  datatype Part =
    | Coded(charset: string, language: string, coding: Coding, upper: bool, payload: Bytes, meant: Bytes)
    | Text(text: string)

  function Letter(coding: Coding, upper: bool): Byte {
    match coding
    case ByBase64 => if upper then 66 else 98
    case ByQuoted => if upper then 81 else 113
  }

  const OPEN: Bytes := [61, 63]
  const CLOSE: Bytes := [63, 61]

  function PartBytes(p: Part): Bytes {
    match p
    case Coded(charset, language, coding, upper, payload, _) =>
      OPEN + (Utf8.Encode(charset + language) + [63] + ([Letter(coding, upper), 63] + (payload + CLOSE)))
    case Text(text) => Utf8.Encode(text)
  }

  /** The closing mark is not in the payload. */
  predicate Closed(payload: Bytes) {
    forall i :: 0 <= i < |payload| - 1 ==> payload[i] != 63 || payload[i + 1] != 61
  }

  predicate Unmarked(b: Bytes) {
    forall i :: 0 <= i < |b| ==> !MarkAt(b, i)
  }

  predicate ProperPart(p: Part) {
    match p
    case Coded(charset, language, coding, _, payload, meant) =>
      && '?' !in charset && '*' !in charset && '?' !in language && (language == "" || language[0] == '*')
      && Closed(payload)
      && (match coding
          case ByBase64 => Base64.Cleaned(payload) == Base64.Encode(meant)
          case ByQuoted => Quoted.Decoded(payload, true) == meant)
    case Text(text) => text != "" && Unmarked(Utf8.Encode(text))
  }

  /** Parts behind one another; what is between two words is one text. */
  predicate Proper(parts: seq<Part>) {
    && (forall i :: 0 <= i < |parts| ==> ProperPart(parts[i]))
    && (forall i :: 0 <= i < |parts| - 1 ==> parts[i].Text? ==> parts[i + 1].Coded?)
  }

  function AllBytes(parts: seq<Part>): Bytes {
    if parts == [] then [] else PartBytes(parts[0]) + AllBytes(parts[1..])
  }

  /** Words mean their bytes under their charset. Text means itself, but blanks between two words
      mean nothing. */
  function Meaning(codec: Utf8.Codec, parts: seq<Part>, behindWord: bool): string {
    if parts == [] then ""
    else
      match parts[0]
      case Coded(charset, _, _, _, _, meant) => codec.labelled(charset, meant) + Meaning(codec, parts[1..], true)
      case Text(text) =>
        if AllWhite(text) && |parts| > 1 then
          (if behindWord then "" else text) + Meaning(codec, parts[1..], behindWord)
        else text + Meaning(codec, parts[1..], false)
  }

  // ----- one word -----

  lemma NoQuestion(s: string)
    requires '?' !in s
    ensures 63 !in Utf8.Encode(s)
  {
    if 63 in Utf8.Encode(s) {
      Utf8.AsciiBytesAreCharacters(s, 63);
    }
  }

  lemma PositionIs(before: Bytes, b: Byte, rest: Bytes)
    requires b !in before
    ensures var v := before + [b] + rest;
      Position(v, b) == |before| && v[..|before|] == before && v[|before| + 1..] == rest
  {
    var v := before + [b] + rest;
    assert v[|before|] == b;
    assert forall k :: 0 <= k < |before| ==> v[k] == before[k] && before[k] in before;
  }

  lemma ClosingIs(payload: Bytes, rest: Bytes)
    requires Closed(payload)
    ensures var v := payload + CLOSE + rest;
      Closing(v) == |payload| && v[..|payload|] == payload
  {
    var v := payload + CLOSE + rest;
    assert v[|payload|] == 63 && v[|payload| + 1] == 61;
    assert forall k :: 0 <= k < |payload| ==> v[k] == payload[k];
  }

  lemma CharsetIs(charset: string, language: string)
    requires '*' !in charset && (language == "" || language[0] == '*')
    ensures var name := charset + language; name[..Find(name, '*')] == charset
  {
    var name := charset + language;
    assert forall k :: 0 <= k < |charset| ==> name[k] == charset[k] && charset[k] in charset;
    assert language != "" ==> name[|charset|] == '*';
    assert Find(name, '*') == |charset|;
  }

  lemma PayloadIs(codec: Utf8.Codec, p: Part)
    requires p.Coded? && ProperPart(p)
    ensures Payload(codec, Letter(p.coding, p.upper), p.payload) == Some(p.meant)
  {
    Base64.DecodeUndoesEncode(p.meant);
  }

  /** A word is read by its parts. */
  lemma ByParts(codec: Utf8.Codec, b: Bytes, k: nat, name: string, after: Bytes, letter: Byte, payload: Bytes, n: nat, raw: Bytes)
    requires |b| >= 2 && Position(b[2..], 63) == k < |b| - 2
    requires codec.strict(b[2..][..k]) == Some(name) && b[2..][k + 1..] == after
    requires |after| >= 2 && after[0] == letter && after[1] == 63 && after[2..] == payload
    requires Closing(payload) == n < |payload| && Payload(codec, letter, payload[..n]) == Some(raw)
    ensures ParseWord(codec, b) == Some((codec.labelled(name[..Find(name, '*')], raw), k + n + 7))
  {
    assert |after| == |b| - 3 - k;
  }

  lemma WordSplits(open: Bytes, named: Bytes, mark: Bytes, payload: Bytes, rest: Bytes)
    ensures open + (named + [63] + (mark + (payload + CLOSE))) + rest
         == open + (named + [63] + (mark + (payload + CLOSE + rest)))
  {
  }

  lemma WordLayout(p: Part, rest: Bytes)
    requires p.Coded? && ProperPart(p)
    ensures var named := Utf8.Encode(p.charset + p.language);
      var after := [Letter(p.coding, p.upper), 63] + (p.payload + CLOSE + rest);
      var b := PartBytes(p) + rest;
      && MarkAt(b, 0) && b[2..] == named + [63] + after
      && |PartBytes(p)| == |named| + |p.payload| + 7
  {
    var named := Utf8.Encode(p.charset + p.language);
    var after := [Letter(p.coding, p.upper), 63] + (p.payload + CLOSE + rest);
    WordSplits(OPEN, named, [Letter(p.coding, p.upper), 63], p.payload, rest);
    assert PartBytes(p) + rest == OPEN + (named + [63] + after);
  }

  lemma NameIsRead(codec: Utf8.Codec, p: Part, after: Bytes)
    requires Utf8.Lawful(codec) && p.Coded? && ProperPart(p)
    ensures var name := p.charset + p.language;
      var v := Utf8.Encode(name) + [63] + after;
      var k := Position(v, 63);
      && k == |Utf8.Encode(name)| && v[k + 1..] == after
      && codec.strict(v[..k]) == Some(name) && name[..Find(name, '*')] == p.charset
  {
    var name := p.charset + p.language;
    NoQuestion(name);
    PositionIs(Utf8.Encode(name), 63, after);
    assert Utf8.Reads(codec, name);
    CharsetIs(p.charset, p.language);
  }

  lemma WordBegins(codec: Utf8.Codec, p: Part, rest: Bytes) returns (k: nat, name: string, after: Bytes)
    requires Utf8.Lawful(codec) && p.Coded? && ProperPart(p)
    ensures var b := PartBytes(p) + rest;
      && MarkAt(b, 0) && Position(b[2..], 63) == k < |b| - 2
      && codec.strict(b[2..][..k]) == Some(name) && b[2..][k + 1..] == after
    ensures after == [Letter(p.coding, p.upper), 63] + (p.payload + CLOSE + rest)
    ensures name[..Find(name, '*')] == p.charset && |PartBytes(p)| == k + |p.payload| + 7
  {
    name := p.charset + p.language;
    k := |Utf8.Encode(name)|;
    after := [Letter(p.coding, p.upper), 63] + (p.payload + CLOSE + rest);
    WordLayout(p, rest);
    NameIsRead(codec, p, after);
  }

  lemma WordEnds(codec: Utf8.Codec, p: Part, after: Bytes, rest: Bytes) returns (payload: Bytes)
    requires p.Coded? && ProperPart(p)
    requires after == [Letter(p.coding, p.upper), 63] + (p.payload + CLOSE + rest)
    ensures |after| >= 2 && after[0] == Letter(p.coding, p.upper) && after[1] == 63 && after[2..] == payload
    ensures Closing(payload) == |p.payload| < |payload|
    ensures Payload(codec, after[0], payload[..|p.payload|]) == Some(p.meant)
  {
    payload := p.payload + CLOSE + rest;
    assert after[2..] == payload;
    ClosingIs(p.payload, rest);
    PayloadIs(codec, p);
  }

  /** An encoded word is read as its bytes under its charset, whatever stands behind it; a
      language behind the charset does not count. */
  lemma WordIsRead(codec: Utf8.Codec, p: Part, rest: Bytes)
    requires Utf8.Lawful(codec) && p.Coded? && ProperPart(p)
    ensures var b := PartBytes(p) + rest;
      && MarkAt(b, 0)
      && ParseWord(codec, b) == Some((codec.labelled(p.charset, p.meant), |PartBytes(p)|))
  {
    var k, name, after := WordBegins(codec, p, rest);
    var payload := WordEnds(codec, p, after, rest);
    Assembled(codec, PartBytes(p) + rest, k, name, after, payload, |p.payload|, p.meant, p.charset, |PartBytes(p)|);
  }

  lemma Assembled(codec: Utf8.Codec, b: Bytes, k: nat, name: string, after: Bytes, payload: Bytes, n: nat, meant: Bytes,
                  charset: string, length: nat)
    requires |b| >= 2 && Position(b[2..], 63) == k < |b| - 2
    requires codec.strict(b[2..][..k]) == Some(name) && b[2..][k + 1..] == after
    requires |after| >= 2 && after[1] == 63 && after[2..] == payload
    requires Closing(payload) == n < |payload| && Payload(codec, after[0], payload[..n]) == Some(meant)
    requires name[..Find(name, '*')] == charset && length == k + n + 7
    ensures ParseWord(codec, b) == Some((codec.labelled(charset, meant), length))
  {
    ByParts(codec, b, k, name, after, after[0], payload, n, meant);
  }

  // ----- text between words -----

  /** Nothing, or something that begins with the mark of a word. */
  predicate WordOrEnd(rest: Bytes) {
    rest == [] || MarkAt(rest, 0)
  }

  lemma TextEnds(b: Bytes, rest: Bytes)
    requires b != [] && Unmarked(b) && WordOrEnd(rest)
    ensures var v := b + rest;
      !MarkAt(v, 0) && NextMark(v, 1) == |b| && v[..|b|] == b && v[|b|..] == rest
  {
    var v := b + rest;
    forall i | 0 <= i < |b|
      ensures !MarkAt(v, i)
    {
      assert !MarkAt(b, i);
      if i == |b| - 1 && rest != [] {
        assert v[i + 1] == rest[0] == 61;
      }
    }
    assert rest != [] ==> MarkAt(v, |b|) by {
      if rest != [] {
        assert v[|b|] == rest[0] && v[|b| + 1] == rest[1];
      }
    }
    var j := NextMark(v, 1);
  }

  lemma TextIsNotEmpty(text: string)
    requires text != ""
    ensures Utf8.Encode(text) != []
  {
  }

  lemma TextStep(codec: Utf8.Codec, text: string, rest: Bytes, behindWord: bool)
    requires Utf8.Lawful(codec) && ProperPart(Text(text)) && WordOrEnd(rest)
    ensures DecodeFrom(codec, Utf8.Encode(text) + rest, None, behindWord) ==
      if AllWhite(text) && rest != [] then DecodeFrom(codec, rest, Some(text), behindWord)
      else text + DecodeFrom(codec, rest, None, false)
  {
    var b := Utf8.Encode(text);
    TextIsNotEmpty(text);
    TextEnds(b, rest);
    assert Utf8.Reads(codec, text);
    BlankIsBlank(text);
    StepChunkTo(codec, b + rest, None, behindWord, |b|, text, rest);
    assert Held(None) + text == text;
  }

  lemma WordStep(codec: Utf8.Codec, p: Part, rest: Bytes, gap: Option<string>, behindWord: bool)
    requires Utf8.Lawful(codec) && p.Coded? && ProperPart(p)
    ensures DecodeFrom(codec, PartBytes(p) + rest, gap, behindWord)
         == (if behindWord then "" else Held(gap)) + codec.labelled(p.charset, p.meant) + DecodeFrom(codec, rest, None, true)
  {
    var b := PartBytes(p) + rest;
    WordIsRead(codec, p, rest);
    StepWord(codec, b, gap, behindWord, codec.labelled(p.charset, p.meant), |PartBytes(p)|);
    assert b[|PartBytes(p)|..] == rest;
  }

  lemma RestBegins(codec: Utf8.Codec, parts: seq<Part>)
    requires Utf8.Lawful(codec) && Proper(parts) && (parts == [] || parts[0].Coded?)
    ensures WordOrEnd(AllBytes(parts)) && (AllBytes(parts) == [] <==> parts == [])
  {
    if parts != [] {
      WordIsRead(codec, parts[0], AllBytes(parts[1..]));
    }
  }

  lemma ProperTail(parts: seq<Part>)
    requires Proper(parts) && parts != []
    ensures Proper(parts[1..]) && ProperPart(parts[0])
  {
    var rest := parts[1..];
    forall i | 0 <= i < |rest| - 1
      ensures rest[i].Text? ==> rest[i + 1].Coded?
    {
      assert rest[i] == parts[i + 1] && rest[i + 1] == parts[i + 2];
      assert parts[i + 1].Text? ==> parts[i + 1 + 1].Coded?;
    }
  }

  /** Values of any such parts are decoded to what they mean. */
  lemma {:induction false} PartsAreRead(codec: Utf8.Codec, parts: seq<Part>, behindWord: bool)
    requires Utf8.Lawful(codec) && Proper(parts)
    ensures DecodeFrom(codec, AllBytes(parts), None, behindWord) == Meaning(codec, parts, behindWord)
    decreases |parts|
  {
    if parts != [] {
      ProperTail(parts);
      var rest := AllBytes(parts[1..]);
      match parts[0] {
        case Coded(charset, _, _, _, _, meant) =>
          WordStep(codec, parts[0], rest, None, behindWord);
          PartsAreRead(codec, parts[1..], true);
          assert "" + codec.labelled(charset, meant) == codec.labelled(charset, meant);
        case Text(text) =>
          assert |parts| > 1 ==> parts[0 + 1].Coded?;
          RestBegins(codec, parts[1..]);
          TextStep(codec, text, rest, behindWord);
          if AllWhite(text) && |parts| > 1 {
            BlankThenWord(codec, parts, behindWord);
          } else {
            PartsAreRead(codec, parts[1..], false);
          }
      }
    }
  }

  /** Blanks in front of a word. */
  lemma {:induction false} BlankThenWord(codec: Utf8.Codec, parts: seq<Part>, behindWord: bool)
    requires Utf8.Lawful(codec) && Proper(parts) && |parts| > 1 && parts[0].Text? && parts[1].Coded?
    ensures DecodeFrom(codec, AllBytes(parts[1..]), Some(parts[0].text), behindWord)
         == (if behindWord then "" else parts[0].text) + Meaning(codec, parts[1..], behindWord)
    decreases |parts| - 1
  {
    var p, more, later := parts[1], parts[1..], parts[1..][1..];
    ProperTail(parts);
    ProperTail(more);
    WordStep(codec, p, AllBytes(later), Some(parts[0].text), behindWord);
    PartsAreRead(codec, later, true);
    Shift(if behindWord then "" else parts[0].text, codec.labelled(p.charset, p.meant), Meaning(codec, later, true));
  }

  lemma WordsHaveMarks(codec: Utf8.Codec, parts: seq<Part>)
    requires Utf8.Lawful(codec) && Proper(parts) && parts != [] && (|parts| > 1 || parts[0].Coded?)
    ensures HasMark(AllBytes(parts))
  {
    ProperTail(parts);
    var rest := AllBytes(parts[1..]);
    var all := PartBytes(parts[0]) + rest;
    if parts[0].Coded? {
      WordIsRead(codec, parts[0], rest);
      assert MarkAt(all, 0);
    } else {
      assert parts[0 + 1].Coded?;
      RestBegins(codec, parts[1..]);
      var n := |PartBytes(parts[0])|;
      assert all[n] == rest[0] && all[n + 1] == rest[1];
      assert MarkAt(all, n);
    }
  }

  lemma TextAlone(codec: Utf8.Codec, text: string)
    requires Utf8.Lawful(codec)
    ensures Utf8.Sniff(codec, AllBytes([Text(text)])) == text == Meaning(codec, [Text(text)], false)
  {
    assert Utf8.Reads(codec, text);
    var parts := [Text(text)];
    assert parts[1..] == [];
    assert AllBytes(parts) == Utf8.Encode(text) + [] == Utf8.Encode(text);
    assert Meaning(codec, parts, false) == text + "";
  }

  /** A header value is decoded to what its words and texts mean. */
  lemma ValueIsRead(codec: Utf8.Codec, parts: seq<Part>)
    requires Utf8.Lawful(codec) && Proper(parts)
    ensures Decoded(codec, AllBytes(parts)) == Meaning(codec, parts, false)
  {
    if HasMark(AllBytes(parts)) {
      PartsAreRead(codec, parts, false);
    } else if parts == [] {
      assert Utf8.Reads(codec, "") && Utf8.Encode("") == [];
    } else {
      if |parts| > 1 || parts[0].Coded? {
        WordsHaveMarks(codec, parts);
      }
      assert parts == [Text(parts[0].text)];
      TextAlone(codec, parts[0].text);
    }
  }
}
