/** Composing an alert as a mail message (crates/s2l-notify/src/smtp.rs). */
module Compose {
  import opened Octets
  import opened Texts
  import opened Wrappers
  import Base64
  import Calendar
  import DataReader
  import Utf8

  const LINE_CHARS: nat := 76
  const PIECE_BYTES: nat := 45

  // ----- the subject -----

  function Spaced(s: string): (t: string)
    ensures |t| == |s|
    ensures forall i :: 0 <= i < |s| ==> t[i] == if s[i] == '\r' || s[i] == '\n' then ' ' else s[i]
  {
    seq(|s|, i requires 0 <= i < |s| => if s[i] == '\r' || s[i] == '\n' then ' ' else s[i])
  }

  /** ASCII without control characters: sent as it is. */
  predicate Printable(s: string) {
    forall i :: 0 <= i < |s| ==> 32 <= s[i] as int < 127
  }

  function Size(s: string): nat {
    |Utf8.Encode(s)|
  }

  predicate Fits(piece: string, c: char) {
    Size(piece) + |Utf8.EncodeChar(c)| <= PIECE_BYTES
  }

  /** The pieces a subject is cut into: the finished ones, and the one still growing. */
  function Cut(s: string): (seq<string>, string) {
    if s == "" then ([], "")
    else
      var (done, piece) := Cut(s[..|s| - 1]);
      if Fits(piece, Last(s)) then (done, piece + [Last(s)]) else (done + [piece], [Last(s)])
  }

  function Pieces(s: string): seq<string> {
    var (done, piece) := Cut(s);
    if piece == "" then done else done + [piece]
  }

  const OPENING: Bytes := [61, 63, 85, 84, 70, 45, 56, 63, 66, 63]
  const CLOSING: Bytes := [63, 61]

  /** An encoded word of section 2 of RFC 2047: `=?UTF-8?B?` the text `?=`. */
  function Word(piece: string): Bytes {
    OPENING + Base64.Encode(Utf8.Encode(piece)) + CLOSING
  }

  function Words(pieces: seq<string>): (w: seq<Bytes>)
    ensures |w| == |pieces|
    ensures forall i :: 0 <= i < |w| ==> w[i] == Word(pieces[i])
  {
    seq(|pieces|, i requires 0 <= i < |pieces| => Word(pieces[i]))
  }

  function Join(items: seq<Bytes>, glue: Bytes): Bytes {
    if items == [] then []
    else if |items| == 1 then items[0]
    else items[0] + glue + Join(items[1..], glue)
  }

  const FOLD: Bytes := [13, 10, 32]

  function SubjectItems(subject: string): seq<Bytes> {
    var s := Spaced(subject);
    if Printable(s) then [Utf8.Encode(s)] else Words(Pieces(s))
  }

  function EncodeWord(subject: string): Bytes {
    Join(SubjectItems(subject), FOLD)
  }

  method Encoded(subject: string) returns (out: Bytes)
    ensures out == EncodeWord(subject)
  {
    var s := Spaced(subject);
    if Printable(s) {
      return Utf8.Encode(s);
    }
    var words: seq<Bytes> := [];
    var piece := "";
    ghost var done: seq<string> := [];
    for i := 0 to |s|
      invariant (done, piece) == Cut(s[..i])
      invariant words == Words(done)
    {
      assert s[..i + 1] == s[..i] + [s[i]];
      CutMore(s[..i], s[i]);
      if Size(piece) + |Utf8.EncodeChar(s[i])| > PIECE_BYTES {
        WordsOfMore(done, piece);
        words := words + [Word(piece)];
        done := done + [piece];
        piece := "";
        assert piece + [s[i]] == [s[i]];
      }
      piece := piece + [s[i]];
    }
    assert s[..|s|] == s;
    if piece != "" {
      WordsOfMore(done, piece);
      words := words + [Word(piece)];
    }
    out := Join(words, FOLD);
  }

  lemma CutMore(init: string, c: char)
    ensures var (done, piece) := Cut(init);
      Cut(init + [c]) == if Fits(piece, c) then (done, piece + [c]) else (done + [piece], [c])
  {
    assert (init + [c])[..|init|] == init;
  }

  lemma WordsOfMore(pieces: seq<string>, piece: string)
    ensures Words(pieces + [piece]) == Words(pieces) + [Word(piece)]
  {
  }

  // ----- the body -----

  /** Runs of `LINE_CHARS`, the last one shorter. */
  function Chunks(text: Bytes): seq<Bytes> {
    if text == [] then []
    else if |text| <= LINE_CHARS then [text]
    else [text[..LINE_CHARS]] + Chunks(text[LINE_CHARS..])
  }

  function BodyLines(data: Bytes): seq<Bytes> {
    if data == [] then [[]] else Chunks(Base64.Encode(data))
  }

  method Base64Lines(data: Bytes) returns (out: Bytes)
    ensures out == DataReader.Text(BodyLines(data))
  {
    var enc := Base64.Encode(data);
    out := [];
    var rest := enc;
    while rest != []
      invariant out + DataReader.Text(Chunks(rest)) == DataReader.Text(Chunks(enc))
      invariant out == [] ==> rest == enc
      decreases |rest|
    {
      var n := if |rest| < LINE_CHARS then |rest| else LINE_CHARS;
      NextChunk(rest, n);
      Shift(out, rest[..n] + CRLF, DataReader.Text(Chunks(rest[n..])));
      out := out + (rest[..n] + CRLF);
      rest := rest[n..];
    }
    if out == [] {
      out := CRLF;
    }
    Base64.EncodingShape(data);
  }

  lemma TextOfOne(line: Bytes, more: seq<Bytes>)
    ensures DataReader.Text([line] + more) == line + CRLF + DataReader.Text(more)
  {
    assert ([line] + more)[1..] == more;
  }

  lemma NextChunk(rest: Bytes, n: nat)
    requires rest != [] && n == if |rest| < LINE_CHARS then |rest| else LINE_CHARS
    ensures DataReader.Text(Chunks(rest)) == rest[..n] + CRLF + DataReader.Text(Chunks(rest[n..]))
  {
    var first, more := rest[..n], Chunks(rest[n..]);
    calc {
      DataReader.Text(Chunks(rest));
      { ChunksSplit(rest, n); }
      DataReader.Text([first] + more);
      { TextOfOne(first, more); }
      first + CRLF + DataReader.Text(more);
    }
  }

  lemma ChunksSplit(rest: Bytes, n: nat)
    requires rest != [] && n == if |rest| < LINE_CHARS then |rest| else LINE_CHARS
    ensures Chunks(rest) == [rest[..n]] + Chunks(rest[n..])
  {
    if |rest| <= LINE_CHARS {
      ShortChunk(rest);
      assert rest[..n] == rest && rest[n..] == [];
    }
  }

  lemma ShortChunk(rest: Bytes)
    requires 0 < |rest| <= LINE_CHARS
    ensures Chunks(rest) == [rest] && Chunks([]) == []
  {
  }

  // ----- the date -----

  const DAYS_OF_WEEK: seq<string> := ["Thu", "Fri", "Sat", "Sun", "Mon", "Tue", "Wed"]
  const MONTHS: seq<string> := ["Jan", "Feb", "Mar", "Apr", "May", "Jun", "Jul", "Aug", "Sep", "Oct", "Nov", "Dec"]

  function TwoDigits(n: nat): string {
    if n < 10 then "0" + Decimal(n) else Decimal(n)
  }

  function Signed(n: int): string {
    if n < 0 then "-" + Decimal(-n) else Decimal(n)
  }

  function Clamped(month: int): (m: nat)
    ensures 1 <= m <= 12
  {
    if month < 1 then 1 else if month > 12 then 12 else month
  }

  function ClockOf(h: nat, m: nat, s: nat): string {
    TwoDigits(h) + ":" + TwoDigits(m) + ":" + TwoDigits(s)
  }

  function Clock(rem: nat): string {
    ClockOf(rem / 3600, rem % 3600 / 60, rem % 60)
  }

  /** The words of a date: day of week, day, month, year, time, zone. */
  function DateWords(dayName: string, day: int, month: string, year: int, clock: string): seq<string> {
    [dayName + ",", Signed(day), month, Signed(year), clock, "+0000"]
  }

  function Spoken(words: seq<string>): string {
    if words == [] then ""
    else if |words| == 1 then words[0]
    else words[0] + " " + Spoken(words[1..])
  }

  function DateText(dayName: string, month: string, date: Calendar.Date, rem: nat): string {
    Spoken(DateWords(dayName, date.day, month, date.year, Clock(rem)))
  }

  function Rfc5322Date(nowMs: int): string {
    var secs := nowMs / 1000;
    var date := Calendar.CivilFromDays(secs / 86400);
    DateText(DAYS_OF_WEEK[secs / 86400 % 7], MONTHS[Clamped(date.month) - 1], date, secs % 86400)
  }

  // ----- the message -----

  datatype Label =
    | From | To | Subject | Date | MessageId | MimeVersion | ContentType | TransferEncoding
    | AutoSubmitted | Mailer

  function Name(l: Label): string {
    match l
    case From => "From"
    case To => "To"
    case Subject => "Subject"
    case Date => "Date"
    case MessageId => "Message-ID"
    case MimeVersion => "MIME-Version"
    case ContentType => "Content-Type"
    case TransferEncoding => "Content-Transfer-Encoding"
    case AutoSubmitted => "Auto-Submitted"
    case Mailer => "X-Mailer"
  }

  /** A header: its name, and the items of its value, each but the last with the glue and a
      line fold behind it. */
  datatype Field = Field(kind: Label, items: seq<Bytes>, glue: Bytes)

  function Single(kind: Label, value: string): Field {
    Field(kind, [Utf8.Encode(value)], [])
  }

  const COMMA: Bytes := [44]
  const COLON: Bytes := [58, 32]

  function EncodeAll(texts: seq<string>): (e: seq<Bytes>)
    ensures |e| == |texts|
    ensures forall i :: 0 <= i < |e| ==> e[i] == Utf8.Encode(texts[i])
  {
    seq(|texts|, i requires 0 <= i < |texts| => Utf8.Encode(texts[i]))
  }

  function FixedValue(l: Label): string {
    match l
    case MimeVersion => "1.0"
    case ContentType => "text/plain; charset=utf-8"
    case TransferEncoding => "base64"
    case AutoSubmitted => "auto-generated"
    case Mailer => "stmp2log"
    case _ => ""
  }

  function Fixed(l: Label): Field {
    Single(l, FixedValue(l))
  }

  function FixedFields(): seq<Field> {
    [Fixed(MimeVersion), Fixed(ContentType), Fixed(TransferEncoding), Fixed(AutoSubmitted), Fixed(Mailer)]
  }

  function Fields(from: string, to: seq<string>, subject: string, nowMs: int, messageId: string): seq<Field> {
    [ Single(From, from),
      Field(To, EncodeAll(to), COMMA),
      Field(Subject, SubjectItems(subject), []),
      Single(Date, Rfc5322Date(nowMs)),
      Single(MessageId, messageId) ] + FixedFields()
  }

  function Start(l: Label): Bytes {
    Utf8.Encode(Name(l)) + COLON
  }

  function Printed(f: Field): Bytes {
    Start(f.kind) + Join(f.items, f.glue + FOLD) + CRLF
  }

  function AllPrinted(fields: seq<Field>): Bytes {
    if fields == [] then [] else AllPrinted(fields[..|fields| - 1]) + Printed(Last(fields))
  }

  /** The message as the client builds it. */
  function Message(from: string, to: seq<string>, subject: string, body: string, nowMs: int, messageId: string): Bytes {
    AllPrinted(Fields(from, to, subject, nowMs, messageId)) + CRLF + DataReader.Text(BodyLines(Utf8.Encode(body)))
  }

  /** What goes over the connection: the message as it is, then the terminator. */
  function OnTheWire(message: Bytes): Bytes {
    message + DataReader.TERMINATOR
  }

  // ----- a message is a list of lines -----

  /** The lines a header takes up. */
  function FoldLines(start: Bytes, items: seq<Bytes>, glue: Bytes): seq<Bytes>
    decreases |items|
  {
    if |items| == 0 then [start]
    else if |items| == 1 then [start + items[0]]
    else [start + items[0] + glue] + FoldLines([32], items[1..], glue)
  }

  function FieldLines(f: Field): seq<Bytes> {
    FoldLines(Start(f.kind), f.items, f.glue)
  }

  function AllLines(fields: seq<Field>): seq<Bytes> {
    if fields == [] then [] else AllLines(fields[..|fields| - 1]) + FieldLines(Last(fields))
  }

  lemma {:induction false} FoldedText(start: Bytes, items: seq<Bytes>, glue: Bytes)
    ensures DataReader.Text(FoldLines(start, items, glue)) == start + Join(items, glue + FOLD) + CRLF
    decreases |items|
  {
    if |items| <= 1 {
      var line := if items == [] then start else start + items[0];
      assert DataReader.Text([line]) == line + CRLF + DataReader.Text([]);
    } else {
      var line := start + items[0] + glue;
      var rest := FoldLines([32], items[1..], glue);
      var join := Join(items[1..], glue + FOLD);
      FoldedText([32], items[1..], glue);
      assert ([line] + rest)[1..] == rest;
      assert DataReader.Text([line] + rest) == line + CRLF + DataReader.Text(rest);
      assert FOLD == CRLF + [32];
      assert line + CRLF + ([32] + join + CRLF) == start + (items[0] + (glue + FOLD) + join) + CRLF;
    }
  }

  lemma {:induction false} TextOf(first: seq<Bytes>, second: seq<Bytes>)
    ensures DataReader.Text(first + second) == DataReader.Text(first) + DataReader.Text(second)
  {
    if first == [] {
      assert first + second == second;
    } else {
      TextOf(first[1..], second);
      assert (first + second)[1..] == first[1..] + second;
      Shift(first[0] + CRLF, DataReader.Text(first[1..]), DataReader.Text(second));
    }
  }

  lemma {:induction false} PrintedIsLines(fields: seq<Field>)
    ensures AllPrinted(fields) == DataReader.Text(AllLines(fields))
  {
    if fields != [] {
      var f := Last(fields);
      PrintedIsLines(fields[..|fields| - 1]);
      FoldedText(Start(f.kind), f.items, f.glue);
      TextOf(AllLines(fields[..|fields| - 1]), FieldLines(f));
    }
  }

  function MessageLines(fields: seq<Field>, body: string): seq<Bytes> {
    AllLines(fields) + ([[]] + BodyLines(Utf8.Encode(body)))
  }

  lemma MessageIsLines(from: string, to: seq<string>, subject: string, body: string, nowMs: int, messageId: string)
    ensures var fields := Fields(from, to, subject, nowMs, messageId);
      Message(from, to, subject, body, nowMs, messageId) == DataReader.Text(MessageLines(fields, body))
  {
    var fields := Fields(from, to, subject, nowMs, messageId);
    var lines := BodyLines(Utf8.Encode(body));
    PrintedIsLines(fields);
    TextOf(AllLines(fields), [[]] + lines);
    assert ([[]] + lines)[1..] == lines;
    assert DataReader.Text([[]] + lines) == CRLF + DataReader.Text(lines);
    Shift(AllPrinted(fields), CRLF, DataReader.Text(lines));
  }

  // ----- every line survives the trip without dot-stuffing -----

  /** A header name: printable ASCII without a colon, not starting with a dot. */
  predicate IsName(name: string) {
    && name != "" && name[0] != '.'
    && forall i :: 0 <= i < |name| ==> 33 <= name[i] as int < 127 && name[i] != ':'
  }

  predicate Sound(f: Field) {
    && NoBreak(f.glue)
    && forall i :: 0 <= i < |f.items| ==> NoBreak(f.items[i])
  }

  /** A line that a message can hold: no break in it, nothing the reader would change. */
  predicate Safe(line: Bytes) {
    NoBreak(line) && DataReader.Survives(line)
  }

  predicate AllSafe(lines: seq<Bytes>) {
    forall i :: 0 <= i < |lines| ==> Safe(lines[i])
  }

  lemma {:induction false} FoldLinesAreSafe(start: Bytes, items: seq<Bytes>, glue: Bytes)
    requires NoBreak(start) && NoBreak(glue) && start != [] && start[0] != DOT
    requires forall i :: 0 <= i < |items| ==> NoBreak(items[i])
    ensures AllSafe(FoldLines(start, items, glue))
    ensures forall i :: 0 <= i < |FoldLines(start, items, glue)| ==> FoldLines(start, items, glue)[i] != []
    decreases |items|
  {
    if |items| > 1 {
      FoldLinesAreSafe([32], items[1..], glue);
      SafeStart(start, items[0] + glue);
      assert start + (items[0] + glue) == start + items[0] + glue;
    } else if |items| == 1 {
      SafeStart(start, items[0]);
    } else {
      SafeStart(start, []);
      assert start + [] == start;
    }
  }

  lemma SafeStart(start: Bytes, more: Bytes)
    requires NoBreak(start) && NoBreak(more) && start != [] && start[0] != DOT
    ensures Safe(start + more)
  {
    assert (start + more)[0] == start[0];
    if |start + more| >= 2 {
      assert (start + more)[0..2][0] == start[0];
    }
  }

  lemma LabelIsName(l: Label)
    ensures IsName(Name(l))
  {
    if l.MessageId? || l.MimeVersion? || l.ContentType? || l.TransferEncoding? || l.AutoSubmitted? {
      LongLabelIsName(l);
    }
  }

  lemma LongLabelIsName(l: Label)
    requires l.MessageId? || l.MimeVersion? || l.ContentType? || l.TransferEncoding? || l.AutoSubmitted?
    ensures IsName(Name(l))
  {
  }

  lemma LabelStarts(l: Label)
    ensures Start(l) != [] && NoBreak(Start(l)) && Start(l)[0] != DOT
  {
    LabelIsName(l);
    NameStarts(Name(l));
  }

  lemma NameStarts(name: string)
    requires IsName(name)
    ensures Utf8.Ascii(name) && Utf8.Encode(name) == Utf8.Plain(name)
    ensures var start := Utf8.Encode(name) + COLON;
      NoBreak(start) && start[0] != DOT
  {
    Utf8.AsciiIsPlain(name);
    var start := Utf8.Encode(name) + COLON;
    assert forall i :: 0 <= i < |name| ==> start[i] == name[i] as int;
  }

  lemma {:induction false} AllLinesAreSafe(fields: seq<Field>)
    requires forall i :: 0 <= i < |fields| ==> Sound(fields[i])
    ensures AllSafe(AllLines(fields))
    ensures forall i :: 0 <= i < |AllLines(fields)| ==> AllLines(fields)[i] != []
  {
    if fields != [] {
      AllLinesAreSafe(fields[..|fields| - 1]);
      var f := Last(fields);
      assert Sound(f);
      LabelStarts(f.kind);
      FoldLinesAreSafe(Start(f.kind), f.items, f.glue);
    }
  }
}
