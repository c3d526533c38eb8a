/** What the parser makes of any message with a single text part: which header counts, how the
    body is decoded, and line endings (crates/s2l-mail/src/parse.rs). */
module MailReading {
  import opened Octets
  import opened TextLaws
  import opened Texts
  import opened Wrappers
  import opened MailHeaders
  import opened MailParse
  import Base64
  import EncodedWords
  import MailDate
  import Quoted
  import Utf8

  // ----- header lines -----

  /** Nothing but white space, and a text that does not start with any. */
  predicate Gap(b: Bytes) {
    forall i :: 0 <= i < |b| ==> IsSpace(b[i])
  }

  predicate Begun(b: Bytes) {
    b == [] || !IsSpace(b[0])
  }

  lemma {:induction false} GapIsTrimmed(gap: Bytes, text: Bytes)
    requires Gap(gap) && Begun(text)
    ensures TrimStartOf(gap + text) == text
  {
    if gap == [] {
      assert gap + text == text;
    } else {
      assert (gap + text)[1..] == gap[1..] + text;
      GapIsTrimmed(gap[1..], text);
    }
  }

  lemma NoReturn(line: Bytes)
    requires NoBreak(line)
    ensures TrimCr(line) == line && TrimCr(line + [CR]) == line
  {
    if line != [] {
      assert line[|line| - 1] in line;
    }
    assert (line + [CR])[..|line|] == line;
  }

  predicate NameBytes(name: string) {
    ':' !in name && NoBreak(Utf8.Encode(name)) && (name == "" || (name[0] != ' ' && name[0] != '\t'))
  }

  lemma NameEnds(name: string, rest: Bytes)
    requires NameBytes(name)
    ensures var line := Utf8.Encode(name) + ([58] + rest);
      Colon(line) == |Utf8.Encode(name)| && line[0] != 32 && line[0] != 9
  {
    var b := Utf8.Encode(name);
    var line := b + ([58] + rest);
    assert forall k :: 0 <= k < |b| ==> line[k] == b[k];
    if 58 in b {
      Utf8.AsciiBytesAreCharacters(name, 58);
    }
    assert line[|b|] == 58;
    if b != [] {
      assert b[0] in b;
      FirstByte(name);
    }
  }

  lemma {:induction false} FirstByte(s: string)
    requires s != ""
    ensures Utf8.Encode(s) != [] && (Utf8.Encode(s)[0] < 128 ==> Utf8.Encode(s)[0] == s[0] as int)
  {
    var init := s[..|s| - 1];
    if init == "" {
      assert Utf8.Encode(init) == [];
    } else {
      FirstByte(init);
    }
  }

  lemma FieldLine(codec: Utf8.Codec, out: seq<Header>, line: Bytes, b: Bytes, rest: Bytes)
    requires line == b + ([58] + rest) && NoBreak(line) && Colon(line) == |b| && line[0] != 32 && line[0] != 9
    ensures var h := Header(Trim(codec.lossy(b)), TrimStartOf(rest));
      Taken(codec, out, line) == out + [h] && Taken(codec, out, line + [CR]) == out + [h]
  {
    NoReturn(line);
    assert line[..|b|] == b && line[|b| + 1..] == rest;
  }

  /** A line with a colon is a header: its name trimmed, its value without the blanks in
      front. */
  lemma FieldIsTaken(codec: Utf8.Codec, out: seq<Header>, name: string, gap: Bytes, value: Bytes)
    requires Utf8.Lawful(codec) && NameBytes(name) && Gap(gap) && NoBreak(gap) && Begun(value) && NoBreak(value)
    ensures var line := Utf8.Encode(name) + ([58] + (gap + value));
      && Taken(codec, out, line) == out + [Header(Trim(name), value)]
      && Taken(codec, out, line + [CR]) == out + [Header(Trim(name), value)]
  {
    var b, rest := Utf8.Encode(name), gap + value;
    NameEnds(name, rest);
    assert Utf8.Reads(codec, name);
    GapIsTrimmed(gap, value);
    FieldLine(codec, out, b + ([58] + rest), b, rest);
  }

  /** A line that begins with a blank or a tab continues the value of the header before it,
      with one blank between, and is dropped where there is none. */
  lemma ContinuationIsTaken(codec: Utf8.Codec, out: seq<Header>, h: Header, lead: Byte, gap: Bytes, text: Bytes)
    requires (lead == 32 || lead == 9) && Gap(gap) && NoBreak(gap) && Begun(text) && NoBreak(text)
    ensures var line := [lead] + gap + text;
      && Taken(codec, out + [h], line) == out + [h.(value := h.value + [32] + text)]
      && Taken(codec, out + [h], line + [CR]) == out + [h.(value := h.value + [32] + text)]
      && Taken(codec, [], line) == []
  {
    var line := [lead] + gap + text;
    assert NoBreak(line);
    NoReturn(line);
    GapIsTrimmed([lead] + gap, text);
    assert (out + [h])[..|out|] == out;
  }

  /** A line that is empty, or has neither a colon nor a blank in front, is dropped. */
  lemma OtherLinesAreDropped(codec: Utf8.Codec, out: seq<Header>, line: Bytes)
    requires NoBreak(line) && 58 !in line && (line == [] || (line[0] != 32 && line[0] != 9))
    ensures Taken(codec, out, line) == out && Taken(codec, out, line + [CR]) == out
  {
    NoReturn(line);
    assert forall k :: 0 <= k < |line| ==> line[k] in line;
    assert Colon(line) == |line|;
  }

  /** A whole message with either line ending: its headers are those of its header lines, one
      after the other, and its body is what stands behind the first empty line. */
  lemma MessageIsSplit(tools: Tools, lines: seq<Bytes>, body: Bytes, eol: Bytes)
    requires lines != [] && Solid(lines) && IsEol(eol)
    ensures Parsed(tools, Block(lines, eol) + (eol + eol + body)) == MailOf(tools, Unfolded(tools.codec, lines), body)
  {
    SplitOfMessage(lines, body, eol);
    HeadersOfBlock(tools.codec, lines, eol);
  }

  // ----- which header counts -----

  /** No header has this name, in any letter case. */
  predicate NoneNamed(headers: seq<Header>, name: string) {
    forall i :: 0 <= i < |headers| ==> Lower(headers[i].name) != name
  }

  lemma {:induction false} NothingFound(headers: seq<Header>, role: Role)
    requires forall i :: 0 <= i < |headers| ==> RoleOf(headers[i].name) != role
    ensures Found(headers, role) == None
  {
    if headers != [] {
      NothingFound(headers[..|headers| - 1], role);
    }
  }

  lemma {:induction false} LastIsFound(before: seq<Header>, h: Header, after: seq<Header>, role: Role)
    requires RoleOf(h.name) == role && forall i :: 0 <= i < |after| ==> RoleOf(after[i].name) != role
    ensures Found(before + [h] + after, role) == Some(h.value)
  {
    var all := before + [h] + after;
    if after == [] {
      assert all == before + [h] && all[..|all| - 1] == before;
    } else {
      LastIsFound(before, h, after[..|after| - 1], role);
      assert all[..|all| - 1] == before + [h] + after[..|after| - 1];
      assert Last(all) == Last(after);
    }
  }

  /** Of the headers with the same name the last one counts. */
  lemma LastHeaderCounts(tools: Tools, before: seq<Header>, h: Header, after: seq<Header>, body: Bytes)
    requires NoneNamed(after, Lower(h.name))
    ensures var mail := MailOf(tools, before + [h] + after, body);
      && (Lower(h.name) == "subject" ==> mail.subject == EncodedWords.Decoded(tools.codec, h.value))
      && (Lower(h.name) == "date" ==> mail.date == MailDate.Parse(tools.codec.lossy(h.value)))
  {
    var headers := before + [h] + after;
    if Lower(h.name) == "subject" {
      LastIsFound(before, h, after, Subject);
    }
    if Lower(h.name) == "date" {
      LastIsFound(before, h, after, Date);
    }
  }

  /** Without such a header the subject is empty and there is no date. */
  lemma MissingHeaders(tools: Tools, headers: seq<Header>, body: Bytes)
    ensures NoneNamed(headers, "subject") ==> MailOf(tools, headers, body).subject == ""
    ensures NoneNamed(headers, "date") ==> MailOf(tools, headers, body).date == None
  {
    if NoneNamed(headers, "subject") {
      NothingFound(headers, Subject);
    }
    if NoneNamed(headers, "date") {
      NothingFound(headers, Date);
    }
  }

  // ----- how the body is decoded -----

  /** The transfer encoding of a header with this value. */
  lemma EncodingIs(codec: Utf8.Codec, gap: string, name: string, tail: string)
    requires Utf8.Lawful(codec) && AllWhite(gap) && AllWhite(tail) && IsWord(name)
    ensures var e := EncodingOf(codec, Some(Utf8.Encode(gap + name + tail)));
      && (Lower(name) == "base64" ==> e == InBase64)
      && (Lower(name) == "quoted-printable" ==> e == InQuoted)
      && (Lower(name) != "base64" && Lower(name) != "quoted-printable" ==> e == AsIs)
  {
    assert Utf8.Reads(codec, gap + name + tail);
    TrimBetween(gap, name, tail);
  }

  /** The bytes of a body: base64 decoded if it is base64, whatever white space is in it,
      quoted-printable decoded, and anything else as it is. */
  lemma BodyIsDecoded(codec: Utf8.Codec, body: Bytes, data: Bytes, pieces: seq<Quoted.Piece>)
    ensures Base64.Cleaned(body) == Base64.Encode(data) ==> BodyBytes(codec, body, InBase64) == data
    ensures !(exists n: nat :: Base64.Accepted(Base64.Cleaned(body), n)) ==> BodyBytes(codec, body, InBase64) == body
    ensures body == Quoted.AllWritten(pieces) && (forall p :: p in pieces ==> Quoted.Proper(p, false)) ==>
      BodyBytes(codec, body, InQuoted) == Quoted.AllMeant(pieces)
    ensures BodyBytes(codec, body, AsIs) == body
  {
    Base64.DecodeUndoesEncode(data);
    Base64.DecodesIff(Base64.Cleaned(body));
    if forall p :: p in pieces ==> Quoted.Proper(p, false) {
      Quoted.TextIsRead(pieces, false);
    }
  }

  // ----- line endings -----

  datatype Ending = CrLf | Cr | Lf

  function EndText(e: Ending): string {
    match e
    case CrLf => "\r\n"
    case Cr => "\r"
    case Lf => "\n"
  }

  datatype EndedLine = EndedLine(text: string, end: Ending)

  /** Lines, each with its ending, and an unfinished one behind them. */
  function Joined(lines: seq<EndedLine>, tail: string): string {
    if lines == [] then tail else lines[0].text + (EndText(lines[0].end) + Joined(lines[1..], tail))
  }

  function JoinedByFeeds(lines: seq<EndedLine>, tail: string): string {
    if lines == [] then tail else lines[0].text + ("\n" + JoinedByFeeds(lines[1..], tail))
  }

  predicate Unbroken(s: string) {
    '\r' !in s && '\n' !in s
  }

  /** A return that ends a line is not followed by a feed, which would belong to it. */
  predicate WellEnded(lines: seq<EndedLine>) {
    && (forall i :: 0 <= i < |lines| ==> Unbroken(lines[i].text))
    && (forall i :: 0 <= i < |lines| - 1 ==> lines[i].end.Cr? ==> lines[i + 1] != EndedLine("", Lf))
  }

  function Normal(s: string): string {
    ReplaceCr(ReplaceCrLf(s))
  }

  lemma {:induction false} NothingToReplace(s: string)
    requires '\r' !in s
    ensures ReplaceCrLf(s) == s && Normal(s) == s
  {
    if |s| >= 2 {
      NothingToReplace(s[1..]);
      assert s[0] in s;
      assert s == [s[0]] + s[1..];
    }
    assert forall i :: 0 <= i < |s| ==> s[i] in s;
  }

  lemma NormalIsNormalized(s: string)
    ensures NormalizedEol(s) == Normal(s)
  {
    if '\r' !in s {
      NothingToReplace(s);
    }
  }

  lemma {:induction false} TextInFront(text: string, rest: string)
    requires Unbroken(text)
    ensures ReplaceCrLf(text + rest) == text + ReplaceCrLf(rest)
  {
    if text == "" {
      assert text + rest == rest;
    } else {
      var s := text + rest;
      assert text[0] in text;
      assert s[1..] == text[1..] + rest;
      if |s| < 2 {
        assert rest == "" && s == text + "";
      } else {
        TextInFront(text[1..], rest);
        assert text == [text[0]] + text[1..];
      }
    }
  }

  lemma EndInFront(e: Ending, rest: string)
    requires e.Cr? ==> rest == "" || rest[0] != '\n'
    ensures Normal(EndText(e) + rest) == "\n" + Normal(rest)
  {
    var s := EndText(e) + rest;
    match e {
      case CrLf => assert s[2..] == rest && ReplaceCrLf(s) == "\n" + ReplaceCrLf(rest);
      case Cr => assert s[1..] == rest && ReplaceCrLf(s) == "\r" + ReplaceCrLf(rest);
      case Lf => assert s[1..] == rest && ReplaceCrLf(s) == "\n" + ReplaceCrLf(rest);
    }
  }

  lemma ReplaceCrOf(s: string, t: string)
    ensures ReplaceCr(s + t) == ReplaceCr(s) + ReplaceCr(t)
  {
  }

  lemma LineInFront(text: string, e: Ending, rest: string)
    requires Unbroken(text) && (e.Cr? ==> rest == "" || rest[0] != '\n')
    ensures Normal(text + (EndText(e) + rest)) == text + ("\n" + Normal(rest))
  {
    var behind := EndText(e) + rest;
    calc {
      Normal(text + behind);
      { TextInFront(text, behind); }
      ReplaceCr(text + ReplaceCrLf(behind));
      { ReplaceCrOf(text, ReplaceCrLf(behind)); }
      ReplaceCr(text) + Normal(behind);
      { NothingToReplace(text); EndInFront(e, rest); }
      text + ("\n" + Normal(rest));
    }
  }

  lemma {:induction false} LinesAreNormal(lines: seq<EndedLine>, tail: string)
    requires WellEnded(lines) && Unbroken(tail)
    ensures Normal(Joined(lines, tail)) == JoinedByFeeds(lines, tail)
  {
    if lines == [] {
      NothingToReplace(tail);
    } else {
      if lines[0].end.Cr? {
        RestBegins(lines, tail);
      }
      LinesAreNormal(lines[1..], tail);
      LineInFront(lines[0].text, lines[0].end, Joined(lines[1..], tail));
    }
  }

  /** Every line ending becomes a line feed, and nothing else changes. */
  lemma EndingsAreFeeds(lines: seq<EndedLine>, tail: string)
    requires WellEnded(lines) && Unbroken(tail)
    ensures NormalizedEol(Joined(lines, tail)) == JoinedByFeeds(lines, tail)
  {
    NormalIsNormalized(Joined(lines, tail));
    LinesAreNormal(lines, tail);
  }

  lemma RestBegins(lines: seq<EndedLine>, tail: string)
    requires WellEnded(lines) && Unbroken(tail) && lines != [] && lines[0].end.Cr?
    ensures var rest := Joined(lines[1..], tail); rest == "" || rest[0] != '\n'
  {
    if |lines| > 1 {
      assert lines[1..][0] == lines[1] && lines[0 + 1] != EndedLine("", Lf);
      if lines[1].text != "" {
        assert lines[1].text[0] in lines[1].text;
      }
    } else if tail != "" {
      assert tail[0] in tail;
    }
  }

  /** The text of a message with one text part: its bytes decoded under the charset, with line
      feeds, and nothing if that is only white space. */
  lemma TextIs(tools: Tools, body: Bytes, ctype: Option<Bytes>, cte: Option<Bytes>, charset: Option<string>,
               lines: seq<EndedLine>, tail: string)
    requires tools.media(ctype) == TextPart(charset) && WellEnded(lines) && Unbroken(tail)
    requires Joined(lines, tail)
          == CharsetText(tools.codec, charset, BodyBytes(tools.codec, body, EncodingOf(tools.codec, cte)))
    ensures var text := JoinedByFeeds(lines, tail);
      TextOf(tools, body, ctype, cte) == if AllWhite(text) then "" else text
  {
    EndingsAreFeeds(lines, tail);
    BlankIsBlank(JoinedByFeeds(lines, tail));
  }
}
