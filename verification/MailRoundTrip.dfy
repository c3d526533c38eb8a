/** From the client through the server's reader to the parser: what was meant is what is
    read. */
module MailRoundTrip {
  import opened Compose
  import opened HeaderRoundTrip
  import opened MailFraming
  import opened Octets
  import opened Texts
  import opened Wrappers
  import Base64
  import Calendar
  import DataReader
  import EncodedWords
  import MailDate
  import MailHeaders
  import MailParse
  import SubjectRoundTrip
  import Utf8

  ghost predicate Lawful(tools: MailParse.Tools) {
    && Utf8.Lawful(tools.codec)
    && tools.media(Some(Utf8.Encode(FixedValue(ContentType)))) == MailParse.TextPart(Some("utf-8"))
  }

  // ----- finding the headers -----

  function RoleFor(l: Label): MailParse.Role {
    match l
    case Subject => MailParse.Subject
    case Date => MailParse.Date
    case ContentType => MailParse.ContentType
    case TransferEncoding => MailParse.TransferEncoding
    case _ => MailParse.Unread
  }

  lemma LowerNames()
    ensures Lower("Subject") == "subject"
    ensures Lower("Date") == "date"
    ensures Lower("Content-Type") == "content-type"
  {
  }

  lemma LowerLongName()
    ensures Lower("Content-Transfer-Encoding") == "content-transfer-encoding"
  {
  }

  lemma RoleIsFor(l: Label)
    ensures MailParse.RoleOf(Name(l)) == RoleFor(l)
  {
    LowerNames();
    LowerLongName();
    if RoleFor(l).Unread? {
      assert Lower(Name(l))[0] == LowerChar(Name(l)[0]);
    }
  }

  lemma {:induction false} FoundField(fields: seq<Field>, i: nat, role: MailParse.Role)
    requires i < |fields| && RoleFor(fields[i].kind) == role
    requires forall j :: i < j < |fields| ==> RoleFor(fields[j].kind) != role
    ensures MailParse.Found(HeadersOf(fields), role) == Some(FoldValue(fields[i].items, fields[i].glue))
  {
    RoleIsFor(Last(fields).kind);
    var init := fields[..|fields| - 1];
    var headers := HeadersOf(fields);
    assert headers[..|headers| - 1] == HeadersOf(init);
    if i < |fields| - 1 {
      FoundField(init, i, role);
    }
  }

  // ----- the values -----

  lemma {:induction false} FirstByte(s: string)
    requires s != ""
    ensures Utf8.Encode(s) != [] && Utf8.Encode(s)[0] == Utf8.EncodeChar(s[0])[0]
  {
    var init := s[..|s| - 1];
    if init != "" {
      FirstByte(init);
    } else {
      assert Utf8.Encode(init) == [];
    }
  }

  /** A text that does not start with a blank keeps its start. */
  lemma StartStays(s: string)
    requires s == "" || !IsWhite(s[0])
    ensures MailHeaders.TrimStartOf(Utf8.Encode(s)) == Utf8.Encode(s)
  {
    if s != "" {
      FirstByte(s);
    }
  }

  lemma SingleValue(l: Label, value: string)
    requires value == "" || !IsWhite(value[0])
    ensures FoldValue(Single(l, value).items, Single(l, value).glue) == Utf8.Encode(value)
  {
    StartStays(value);
  }

  lemma {:induction false} ContinuedWords(pieces: seq<string>)
    ensures pieces != [] ==>
      Continued(Words(pieces), []) == SubjectRoundTrip.BLANK + Join(Words(pieces), SubjectRoundTrip.BLANK)
  {
    if pieces != [] {
      var words := Words(pieces);
      assert words[1..] == Words(pieces[1..]);
      assert words[0][0] == 61;
      assert words[0] + [] == words[0];
      ContinuedWords(pieces[1..]);
    }
  }

  /** Folded words are words with a blank between them. */
  lemma WordsUnfold(pieces: seq<string>)
    requires pieces != []
    ensures FoldValue(Words(pieces), []) == Join(Words(pieces), SubjectRoundTrip.BLANK)
  {
    var words := Words(pieces);
    assert words[1..] == Words(pieces[1..]);
    assert words[0][0] == 61;
    assert words[0] + [] == words[0];
    ContinuedWords(pieces[1..]);
  }

  /** The subjects that come back: plain ones that do not start with a blank and hold no
      encoded word, and encoded ones of which no piece starts with a byte-order mark. */
  predicate Readable(codec: Utf8.Codec, subject: string) {
    var s := Spaced(subject);
    if Printable(s) then (s == "" || s[0] != ' ') && SubjectRoundTrip.NoWord(codec, Utf8.Encode(s))
    else SubjectRoundTrip.NoBom(Pieces(s))
  }

  /** The subject that is read. */
  function SubjectRead(codec: Utf8.Codec, subject: string): string {
    EncodedWords.Decoded(codec, FoldValue(SubjectItems(subject), []))
  }

  /** Blanks at the start of a plain value are dropped. */
  lemma {:induction false} PlainStart(s: string)
    requires Printable(s)
    ensures Utf8.Ascii(s) && Printable(TrimStart(s))
    ensures MailHeaders.TrimStartOf(Utf8.Plain(s)) == Utf8.Plain(TrimStart(s))
    ensures |TrimStart(s)| <= |s| && (|TrimStart(s)| == |s| <==> s == "" || s[0] != ' ')
  {
    if s != "" && s[0] == ' ' {
      PlainStart(s[1..]);
      assert Utf8.Plain(s)[1..] == Utf8.Plain(s[1..]);
    }
  }

  lemma PlainSubjectComesBackIff(codec: Utf8.Codec, s: string)
    requires Utf8.Lawful(codec) && Printable(s)
    ensures EncodedWords.Decoded(codec, MailHeaders.TrimStartOf(Utf8.Encode(s))) == s
       <==> (s == "" || s[0] != ' ') && SubjectRoundTrip.NoWord(codec, Utf8.Encode(s))
  {
    var t := TrimStart(s);
    PlainStart(s);
    Utf8.AsciiIsPlain(s);
    Utf8.AsciiIsPlain(t);
    SubjectRoundTrip.PlainComesBackIff(codec, t);
    if |t| == |s| {
      assert t == s;
    }
  }

  /** A subject comes back with its line breaks as blanks if and only if it is readable. */
  lemma SubjectComesBackIff(codec: Utf8.Codec, subject: string)
    requires Utf8.Lawful(codec)
    ensures SubjectRead(codec, subject) == Spaced(subject) <==> Readable(codec, subject)
  {
    var s := Spaced(subject);
    if Printable(s) {
      PlainSubjectComesBackIff(codec, s);
    } else {
      PiecesAreExact(s);
      assert Pieces(s) != [] by {
        assert Flat([]) == "";
      }
      WordsUnfold(Pieces(s));
      SubjectRoundTrip.EncodedSubjectComesBackIff(codec, s);
    }
  }

  lemma DateStartsWithName(nowMs: int)
    ensures Rfc5322Date(nowMs) != "" && !IsWhite(Rfc5322Date(nowMs)[0])
  {
    var secs := nowMs / 1000;
    var date := Calendar.CivilFromDays(secs / 86400);
    var name := DAYS_OF_WEEK[secs / 86400 % 7];
    MailDate.DayNamesAndMonths(secs / 86400 % 7, 1);
    NameFirst(name, date.day, MONTHS[Clamped(date.month) - 1], date.year, Clock(secs % 86400));
  }

  lemma NameFirst(name: string, day: int, month: string, year: int, clock: string)
    requires MailDate.PlainWord(name)
    ensures var text := Spoken(DateWords(name, day, month, year, clock));
      text != "" && !IsWhite(text[0])
  {
    var words := DateWords(name, day, month, year, clock);
    assert words[0][0] == name[0];
    assert Spoken(words)[0] == words[0][0];
  }

  // ----- the body -----

  lemma {:induction false} CleanedChunks(text: Bytes)
    requires AllBase64(text)
    ensures Base64.Cleaned(DataReader.Text(Chunks(text))) == text
    decreases |text|
  {
    if text != [] {
      var n := if |text| < LINE_CHARS then |text| else LINE_CHARS;
      var first, rest := text[..n], text[n..];
      NextChunk(text, n);
      CleanedChunks(rest);
      Base64.CleanedOf(first + CRLF, DataReader.Text(Chunks(rest)));
      Base64.CleanedOf(first, CRLF);
      Base64.NothingToClean(first);
      CleanedCrLf();
      assert first + rest == text;
    }
  }

  lemma CleanedCrLf()
    ensures Base64.Cleaned(CRLF) == []
  {
    assert CRLF[1..] == [10] && [10][1..] == [];
  }

  /** The body's lines decode to its bytes. */
  lemma BodyComesBack(data: Bytes)
    ensures MailParse.Lenient(DataReader.Text(BodyLines(data))) == data
  {
    var enc := Base64.Encode(data);
    Base64.EncodingShape(data);
    Base64.DecodeUndoesEncode(data);
    if data == [] {
      assert DataReader.Text([[]]) == CRLF;
      CleanedCrLf();
    } else {
      CleanedChunks(enc);
    }
  }

  lemma NameOfBase64()
    ensures Lower(Trim("base64")) == "base64"
  {
    assert Trim("base64") == "base64";
    assert Lower("base64") == "base64";
  }

  lemma EncodingNamed(codec: Utf8.Codec, value: string)
    requires Utf8.Lawful(codec) && Lower(Trim(value)) == "base64"
    ensures MailParse.EncodingOf(codec, Some(Utf8.Encode(value))) == MailParse.InBase64
  {
    assert Utf8.Reads(codec, value);
  }

  lemma Base64IsNamed(codec: Utf8.Codec)
    requires Utf8.Lawful(codec)
    ensures MailParse.EncodingOf(codec, Some(Utf8.Encode(FixedValue(TransferEncoding)))) == MailParse.InBase64
  {
    NameOfBase64();
    EncodingNamed(codec, FixedValue(TransferEncoding));
  }

  /** Line endings normalized; a blank text is no text. */
  function ReadText(body: string): string {
    var s := MailParse.NormalizedEol(body);
    if Trim(s) == "" then "" else s
  }

  lemma TextIsRead(tools: MailParse.Tools, body: string)
    requires Lawful(tools)
    ensures MailParse.TextOf(tools, DataReader.Text(BodyLines(Utf8.Encode(body))),
                             Some(Utf8.Encode(FixedValue(ContentType))), Some(Utf8.Encode(FixedValue(TransferEncoding))))
         == ReadText(Utf8.DropBom(body))
  {
    BodyComesBack(Utf8.Encode(body));
    Base64IsNamed(tools.codec);
    assert Utf8.Reads(tools.codec, body);
  }

  predicate StartsWithBom(s: string) {
    s != "" && s[0] == Utf8.BOM
  }

  lemma NormalizedBehind(c: char, s: string)
    requires c != '\r'
    ensures MailParse.NormalizedEol([c] + s) == [c] + MailParse.NormalizedEol(s)
  {
    var t := [c] + s;
    assert '\r' in t <==> '\r' in s by {
      assert t[1..] == s;
    }
    if '\r' in s {
      assert t[1..] == s;
      assert MailParse.ReplaceCrLf(t) == [c] + MailParse.ReplaceCrLf(s);
      assert MailParse.ReplaceCr([c] + MailParse.ReplaceCrLf(s)) == [c] + MailParse.ReplaceCr(MailParse.ReplaceCrLf(s));
    }
  }

  lemma NotBlank(c: char, s: string)
    requires !IsWhite(c)
    ensures Trim([c] + s) != ""
  {
  }

  /** A text loses nothing but a byte-order mark in front. */
  lemma TextComesBackIff(body: string)
    ensures ReadText(Utf8.DropBom(body)) == ReadText(body) <==> !StartsWithBom(body)
  {
    if StartsWithBom(body) {
      var rest := body[1..];
      assert body == [Utf8.BOM] + rest;
      NormalizedBehind(Utf8.BOM, rest);
      NotBlank(Utf8.BOM, MailParse.NormalizedEol(rest));
      assert |ReadText(body)| == 1 + |MailParse.NormalizedEol(rest)|;
    }
  }

  // ----- the whole message -----

  /** Where the headers that are read stand. */
  predicate Shaped(fields: seq<Field>) {
    && |fields| == 10
    && fields[2].kind == Subject && fields[3].kind == Date
    && fields[6].kind == ContentType && fields[7].kind == TransferEncoding
    && forall i :: 0 <= i < 10 && i != 2 && i != 3 && i != 6 && i != 7 ==> RoleFor(fields[i].kind).Unread?
  }

  lemma FiveAreShaped(a: Field, b: Field, c: Field, d: Field, e: Field)
    requires a.kind == From && b.kind == To && c.kind == Subject && d.kind == Date && e.kind == MessageId
    ensures var fields := [a, b, c, d, e] + FixedFields();
      && Shaped(fields) && fields[2] == c && fields[3] == d
      && fields[6] == Fixed(ContentType) && fields[7] == Fixed(TransferEncoding)
  {
  }

  function ValueAt(fields: seq<Field>, i: nat): Bytes
    requires i < |fields|
  {
    FoldValue(fields[i].items, fields[i].glue)
  }

  lemma FieldAt(fields: seq<Field>, i: nat, role: MailParse.Role)
    requires Shaped(fields) && (i == 2 || i == 3 || i == 6 || i == 7) && RoleFor(fields[i].kind) == role
    ensures MailParse.Found(HeadersOf(fields), role) == Some(ValueAt(fields, i))
  {
    assert forall j :: i < j < 10 ==> RoleFor(fields[j].kind) != role;
    FoundField(fields, i, role);
  }

  lemma MailByValues(tools: MailParse.Tools, headers: seq<MailHeaders.Header>, body: Bytes,
                     subject: Bytes, date: Bytes, ctype: Bytes, cte: Bytes)
    requires MailParse.Found(headers, MailParse.Subject) == Some(subject)
    requires MailParse.Found(headers, MailParse.Date) == Some(date)
    requires MailParse.Found(headers, MailParse.ContentType) == Some(ctype)
    requires MailParse.Found(headers, MailParse.TransferEncoding) == Some(cte)
    ensures MailParse.MailOf(tools, headers, body) == MailParse.Mail(
      EncodedWords.Decoded(tools.codec, subject), MailDate.Parse(tools.codec.lossy(date)),
      MailParse.TextOf(tools, body, Some(ctype), Some(cte)))
  {
  }

  /** The mail that such fields make. */
  lemma ShapedMail(tools: MailParse.Tools, fields: seq<Field>, body: Bytes)
    requires Shaped(fields)
    ensures MailParse.MailOf(tools, HeadersOf(fields), body) == MailParse.Mail(
      EncodedWords.Decoded(tools.codec, ValueAt(fields, 2)),
      MailDate.Parse(tools.codec.lossy(ValueAt(fields, 3))),
      MailParse.TextOf(tools, body, Some(ValueAt(fields, 6)), Some(ValueAt(fields, 7))))
  {
    FieldAt(fields, 2, MailParse.Subject);
    FieldAt(fields, 3, MailParse.Date);
    FieldAt(fields, 6, MailParse.ContentType);
    FieldAt(fields, 7, MailParse.TransferEncoding);
    MailByValues(tools, HeadersOf(fields), body,
                 ValueAt(fields, 2), ValueAt(fields, 3), ValueAt(fields, 6), ValueAt(fields, 7));
  }

  lemma DateValue(codec: Utf8.Codec, fields: seq<Field>, nowMs: int)
    requires Utf8.Lawful(codec)
    requires |fields| > 3 && fields[3] == Single(Date, Rfc5322Date(nowMs))
    ensures codec.lossy(ValueAt(fields, 3)) == Rfc5322Date(nowMs)
  {
    DateStartsWithName(nowMs);
    SingleValue(Date, Rfc5322Date(nowMs));
    assert Utf8.Reads(codec, Rfc5322Date(nowMs));
  }

  lemma TextValue(tools: MailParse.Tools, fields: seq<Field>, body: string)
    requires Lawful(tools)
    requires |fields| > 7 && fields[6] == Fixed(ContentType) && fields[7] == Fixed(TransferEncoding)
    ensures MailParse.TextOf(tools, DataReader.Text(BodyLines(Utf8.Encode(body))),
                             Some(ValueAt(fields, 6)), Some(ValueAt(fields, 7))) == ReadText(Utf8.DropBom(body))
  {
    FixedAt(fields, 6, ContentType);
    FixedAt(fields, 7, TransferEncoding);
    TextIsRead(tools, body);
  }

  lemma FixedAt(fields: seq<Field>, i: nat, l: Label)
    requires i < |fields| && fields[i] == Fixed(l)
    ensures ValueAt(fields, i) == Utf8.Encode(FixedValue(l))
  {
    SingleValue(l, FixedValue(l));
  }

  lemma ParsedBySplit(tools: MailParse.Tools, raw: Bytes, headers: seq<MailHeaders.Header>, body: Bytes)
    requires var (head, rest) := MailHeaders.Split(raw);
      rest == body && MailHeaders.Unfolded(tools.codec, MailHeaders.SplitLines(head)) == headers
    ensures MailParse.Parsed(tools, raw) == MailParse.MailOf(tools, headers, body)
  {
  }

  /** What the parser reads in a composed message. */
  lemma MessageIsRead(tools: MailParse.Tools, from: string, to: seq<string>, subject: string, body: string,
                      nowMs: int, messageId: string)
    requires Lawful(tools)
    requires OneLineText(from) && OneLineEach(to) && OneLineText(messageId)
    ensures MailParse.Parsed(tools, Message(from, to, subject, body, nowMs, messageId))
         == MailParse.Mail(SubjectRead(tools.codec, subject), MailDate.Parse(Rfc5322Date(nowMs)),
                           ReadText(Utf8.DropBom(body)))
  {
    var fields := Fields(from, to, subject, nowMs, messageId);
    var text := DataReader.Text(BodyLines(Utf8.Encode(body)));
    calc {
      MailParse.Parsed(tools, Message(from, to, subject, body, nowMs, messageId));
      MailParse.Parsed(tools, AllPrinted(fields) + CRLF + text);
      {
        FieldsAreSound(from, to, subject, nowMs, messageId);
        MessageSplits(tools.codec, fields, text);
        ParsedBySplit(tools, AllPrinted(fields) + CRLF + text, HeadersOf(fields), text);
      }
      MailParse.MailOf(tools, HeadersOf(fields), text);
    }
    FiveAreShaped(Single(From, from), Field(To, EncodeAll(to), COMMA), Field(Subject, SubjectItems(subject), []),
                  Single(Date, Rfc5322Date(nowMs)), Single(MessageId, messageId));
    ShapedMail(tools, fields, text);
    DateValue(tools.codec, fields, nowMs);
    TextValue(tools, fields, body);
  }

  /** The way of an alert: composed, sent without dot-stuffing, read by the server,
      parsed. The server has exactly the composed bytes and is where the next command
      starts. The parser has the subject with line breaks as blanks exactly if it is readable,
      the body with its line endings normalized exactly if it starts with no byte-order mark,
      and the time to the second exactly if its year has more than two digits. */
  lemma MailComesBack(tools: MailParse.Tools, from: string, to: seq<string>, subject: string, body: string,
                      nowMs: int, messageId: string, rest: Bytes, maxSize: nat)
    requires Lawful(tools)
    requires OneLineText(from) && OneLineEach(to) && OneLineText(messageId)
    requires |Message(from, to, subject, body, nowMs, messageId)| <= maxSize
    ensures var input := OnTheWire(Message(from, to, subject, body, nowMs, messageId)) + rest;
      var data := DataReader.Data(input, maxSize);
      && DataReader.AfterData(input) == rest
      && data.Some?
      && var mail := MailParse.Parsed(tools, data.value);
        && (mail.subject == Spaced(subject) <==> Readable(tools.codec, subject))
        && (mail.text == ReadText(body) <==> !StartsWithBom(body))
        && (mail.date == Some(nowMs / 1000)
            <==> !(0 <= Calendar.CivilFromDays(nowMs / 1000 / 86400).year < 100))
  {
    MessageArrives(from, to, subject, body, nowMs, messageId, rest, maxSize);
    MessageIsRead(tools, from, to, subject, body, nowMs, messageId);
    SubjectComesBackIff(tools.codec, subject);
    TextComesBackIff(body);
    MailDate.DateReadsBackIff(nowMs);
  }
}
