/** A composed message reaches the server whole, although the client stuffs no dots. */
module MailFraming {
  import opened Compose
  import opened Octets
  import opened Texts
  import opened Wrappers
  import Base64
  import Calendar
  import DataReader
  import Utf8

  predicate OneLineText(s: string) {
    '\r' !in s && '\n' !in s
  }

  lemma TextBreaksNowhere(s: string)
    requires OneLineText(s)
    ensures NoBreak(Utf8.Encode(s))
  {
    if CR in Utf8.Encode(s) {
      Utf8.AsciiBytesAreCharacters(s, CR);
    }
    if LF in Utf8.Encode(s) {
      Utf8.AsciiBytesAreCharacters(s, LF);
    }
  }

  // ----- the body -----

  predicate AllBase64(text: Bytes) {
    forall i :: 0 <= i < |text| ==> Base64.IsBase64(text[i])
  }

  lemma {:induction false} ChunksAreSafe(text: Bytes)
    requires AllBase64(text)
    ensures AllSafe(Chunks(text))
    ensures forall i :: 0 <= i < |Chunks(text)| ==> |Chunks(text)[i]| <= LINE_CHARS
    decreases |text|
  {
    if text != [] {
      var first := if |text| <= LINE_CHARS then text else text[..LINE_CHARS];
      assert AllBase64(first);
      Base64IsSafe(first);
      if |text| > LINE_CHARS {
        ChunksAreSafe(text[LINE_CHARS..]);
      }
    }
  }

  lemma Base64IsSafe(text: Bytes)
    requires AllBase64(text)
    ensures Safe(text)
  {
    if text != [] {
      assert Base64.IsBase64(text[0]);
    }
    if |text| >= 2 {
      assert text[0..2][0] == text[0];
    }
  }

  lemma BodyLinesAreSafe(data: Bytes)
    ensures AllSafe(BodyLines(data))
    ensures forall i :: 0 <= i < |BodyLines(data)| ==> |BodyLines(data)[i]| <= LINE_CHARS
  {
    Base64.EncodingShape(data);
    ChunksAreSafe(Base64.Encode(data));
  }

  // ----- the subject -----

  function Flat(pieces: seq<string>): string {
    if pieces == [] then "" else Flat(pieces[..|pieces| - 1]) + Last(pieces)
  }

  predicate Small(piece: string) {
    1 <= Size(piece) <= PIECE_BYTES
  }

  lemma FlatMore(pieces: seq<string>, piece: string)
    ensures Flat(pieces + [piece]) == Flat(pieces) + piece
  {
    assert (pieces + [piece])[..|pieces|] == pieces;
  }

  lemma {:induction false} CutJoins(s: string)
    ensures Flat(Cut(s).0) + Cut(s).1 == s
    ensures Cut(s).1 == "" <==> s == ""
  {
    if s != "" {
      var init, c := s[..|s| - 1], Last(s);
      CutJoins(init);
      var done, piece := Cut(init).0, Cut(init).1;
      CutMore(init, c);
      assert init + [c] == s;
      if Fits(piece, c) {
        Shift(Flat(done), piece, [c]);
      } else {
        FlatMore(done, piece);
      }
    }
  }

  predicate AllSmall(pieces: seq<string>) {
    forall i :: 0 <= i < |pieces| ==> Small(pieces[i])
  }

  lemma OneMoreChar(piece: string, c: char)
    ensures Size(piece + [c]) == Size(piece) + |Utf8.EncodeChar(c)|
    ensures Size([c]) == |Utf8.EncodeChar(c)|
  {
    Utf8.EncodeSnoc(piece, c);
    Utf8.EncodeSnoc("", c);
    assert "" + [c] == [c];
  }

  lemma {:induction false} CutIsSmall(s: string)
    ensures AllSmall(Cut(s).0)
    ensures Cut(s).1 == "" || Small(Cut(s).1)
  {
    if s != "" {
      CutIsSmall(s[..|s| - 1]);
      OneMoreChar(Cut(s[..|s| - 1]).1, Last(s));
    }
  }

  /** Cutting loses nothing, and every encoded word stays within the 75 characters of
      section 2 of RFC 2047. */
  lemma PiecesAreExact(s: string)
    ensures Flat(Pieces(s)) == s
    ensures forall i :: 0 <= i < |Pieces(s)| ==> Small(Pieces(s)[i]) && |Word(Pieces(s)[i])| <= 75
  {
    CutJoins(s);
    CutIsSmall(s);
    var (done, piece) := Cut(s);
    var pieces := Pieces(s);
    if piece != "" {
      assert pieces[..|pieces| - 1] == done;
    }
    forall i | 0 <= i < |pieces|
      ensures Small(pieces[i]) && |Word(pieces[i])| <= 75
    {
      assert Small(pieces[i]) by {
        if i < |done| {
          assert pieces[i] == done[i];
        }
      }
      Base64.EncodingShape(Utf8.Encode(pieces[i]));
    }
  }

  lemma WordIsSafe(piece: string)
    ensures NoBreak(Word(piece))
  {
    Base64.EncodingShape(Utf8.Encode(piece));
    var enc := Base64.Encode(Utf8.Encode(piece));
    assert AllBase64(enc);
    assert NoBreak(OPENING) && NoBreak(CLOSING);
  }

  lemma SubjectIsSafe(subject: string)
    ensures forall i :: 0 <= i < |SubjectItems(subject)| ==> NoBreak(SubjectItems(subject)[i])
  {
    var s := Spaced(subject);
    if Printable(s) {
      TextBreaksNowhere(s);
    } else {
      forall i | 0 <= i < |Pieces(s)|
        ensures NoBreak(Word(Pieces(s)[i]))
      {
        WordIsSafe(Pieces(s)[i]);
      }
    }
  }

  // ----- the date -----

  lemma {:induction false} SpokenIsOneLine(words: seq<string>)
    requires forall i :: 0 <= i < |words| ==> OneLineText(words[i])
    ensures OneLineText(Spoken(words))
  {
    if |words| > 1 {
      SpokenIsOneLine(words[1..]);
    }
  }

  lemma DigitsAreOneLine(s: string)
    requires AllDigits(s)
    ensures OneLineText(s)
  {
  }

  lemma NumbersAreOneLine(n: int)
    ensures OneLineText(Signed(n))
    ensures n >= 0 ==> OneLineText(TwoDigits(n))
  {
    DigitsAreOneLine(Decimal(if n < 0 then -n else n));
  }

  lemma ClockIsOneLine(rem: nat)
    ensures OneLineText(Clock(rem))
  {
    NumbersAreOneLine(rem / 3600);
    NumbersAreOneLine(rem % 3600 / 60);
    NumbersAreOneLine(rem % 60);
  }

  lemma TablesAreOneLine(dow: nat, month: nat)
    requires dow < 7 && month < 12
    ensures OneLineText(DAYS_OF_WEEK[dow]) && OneLineText(MONTHS[month])
  {
  }

  lemma WordsAreOneLine(dayName: string, day: int, month: string, year: int, clock: string)
    requires OneLineText(dayName) && OneLineText(month) && OneLineText(clock)
    ensures OneLineText(Spoken(DateWords(dayName, day, month, year, clock)))
  {
    NumbersAreOneLine(day);
    NumbersAreOneLine(year);
    assert OneLineText("+0000");
    SpokenIsOneLine(DateWords(dayName, day, month, year, clock));
  }

  lemma DateIsOneLine(nowMs: int)
    ensures OneLineText(Rfc5322Date(nowMs))
  {
    var secs := nowMs / 1000;
    var date := Calendar.CivilFromDays(secs / 86400);
    TablesAreOneLine(secs / 86400 % 7, Clamped(date.month) - 1);
    ClockIsOneLine(secs % 86400);
    WordsAreOneLine(
      DAYS_OF_WEEK[secs / 86400 % 7], date.day, MONTHS[Clamped(date.month) - 1], date.year, Clock(secs % 86400));
  }

  // ----- the whole message -----

  lemma SingleIsSound(kind: Label, value: string)
    requires OneLineText(value)
    ensures Sound(Single(kind, value))
  {
    TextBreaksNowhere(value);
  }

  lemma FixedIsSound(l: Label)
    ensures Sound(Fixed(l))
  {
    assert OneLineText(FixedValue(l));
    SingleIsSound(l, FixedValue(l));
  }

  lemma FixedFieldsAreSound()
    ensures forall i :: 0 <= i < |FixedFields()| ==> Sound(FixedFields()[i])
  {
    FixedIsSound(MimeVersion);
    FixedIsSound(ContentType);
    FixedIsSound(TransferEncoding);
    FixedIsSound(AutoSubmitted);
    FixedIsSound(Mailer);
  }

  lemma ToIsSound(to: seq<string>)
    requires OneLineEach(to)
    ensures Sound(Field(To, EncodeAll(to), COMMA))
  {
    forall i | 0 <= i < |to|
      ensures NoBreak(Utf8.Encode(to[i]))
    {
      TextBreaksNowhere(to[i]);
    }
  }

  predicate OneLineEach(texts: seq<string>) {
    forall i :: 0 <= i < |texts| ==> OneLineText(texts[i])
  }

  predicate AllSound(fields: seq<Field>) {
    forall i :: 0 <= i < |fields| ==> Sound(fields[i])
  }

  lemma FiveMoreAreSound(a: Field, b: Field, c: Field, d: Field, e: Field)
    requires Sound(a) && Sound(b) && Sound(c) && Sound(d) && Sound(e)
    ensures AllSound([a, b, c, d, e] + FixedFields())
  {
    FixedFieldsAreSound();
    var five := [a, b, c, d, e];
    assert AllSound(five);
  }

  lemma FieldsAreSound(from: string, to: seq<string>, subject: string, nowMs: int, messageId: string)
    requires OneLineText(from) && OneLineEach(to) && OneLineText(messageId)
    ensures AllSound(Fields(from, to, subject, nowMs, messageId))
  {
    SingleIsSound(From, from);
    ToIsSound(to);
    SubjectIsSafe(subject);
    DateIsOneLine(nowMs);
    SingleIsSound(Date, Rfc5322Date(nowMs));
    SingleIsSound(MessageId, messageId);
    FiveMoreAreSound(
      Single(From, from), Field(To, EncodeAll(to), COMMA), Field(Subject, SubjectItems(subject), []),
      Single(Date, Rfc5322Date(nowMs)), Single(MessageId, messageId));
  }

  /** For addresses without line breaks, whatever subject and body: the server's reader
      gets exactly the composed bytes when they fit, and stops behind the terminator. */
  lemma MessageArrives(from: string, to: seq<string>, subject: string, body: string, nowMs: int,
                       messageId: string, rest: Bytes, maxSize: nat)
    requires OneLineText(from) && OneLineEach(to) && OneLineText(messageId)
    ensures var message := Message(from, to, subject, body, nowMs, messageId);
      var input := OnTheWire(message) + rest;
      && DataReader.Data(input, maxSize) == (if |message| > maxSize then None else Some(message))
      && DataReader.AfterData(input) == rest
  {
    var fields := Fields(from, to, subject, nowMs, messageId);
    var lines := MessageLines(fields, body);
    MessageIsLines(from, to, subject, body, nowMs, messageId);
    FieldsAreSound(from, to, subject, nowMs, messageId);
    AllLinesAreSafe(fields);
    BodyLinesAreSafe(Utf8.Encode(body));
    LinesArrive(AllLines(fields), BodyLines(Utf8.Encode(body)), rest, maxSize);
  }

  lemma LinesArrive(head: seq<Bytes>, tail: seq<Bytes>, rest: Bytes, maxSize: nat)
    requires AllSafe(head) && AllSafe(tail)
    ensures var text := DataReader.Text(head + ([[]] + tail));
      var input := text + DataReader.TERMINATOR + rest;
      && DataReader.Data(input, maxSize) == (if |text| > maxSize then None else Some(text))
      && DataReader.AfterData(input) == rest
  {
    var lines := head + ([[]] + tail);
    forall l | l in lines
      ensures DataReader.OneLine(l) && DataReader.Survives(l)
    {
      var i :| 0 <= i < |lines| && lines[i] == l;
      assert Safe(l);
    }
    SafeLinesArrive(lines, rest);
  }

  lemma SafeLinesArrive(lines: seq<Bytes>, rest: Bytes)
    requires forall l :: l in lines ==> DataReader.OneLine(l) && DataReader.Survives(l)
    ensures var input := DataReader.Text(lines) + DataReader.TERMINATOR + rest;
      DataReader.DataLines(input) == lines && DataReader.AfterData(input) == rest
  {
    DataReader.ReadsLines(lines, DataReader.TERMINATOR + rest);
    DataReader.ReadsTerminator(rest);
    DataReader.EachIsSameIff(lines);
    Shift(DataReader.Text(lines), DataReader.TERMINATOR, rest);
    assert lines + [] == lines;
  }
}
