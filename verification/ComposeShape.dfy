/** What a composed alert looks like to any reader of mail: its headers by name, the lines of
    its body, the pieces of its subject and the parts of its date
    (crates/s2l-notify/src/smtp.rs). */
module ComposeShape {
  import opened Compose
  import opened HeaderRoundTrip
  import opened MailHeaders
  import opened Octets
  import opened Texts
  import opened Wrappers
  import Calendar
  import MailFraming
  import Utf8

  // ----- the headers -----

  function Plain(name: string, value: string): Header {
    Header(name, Utf8.Encode(value))
  }

  /** A text that does not start with white space. */
  predicate Begun(s: string) {
    s == "" || !IsWhite(s[0])
  }

  lemma {:induction false} FirstByte(s: string)
    requires s != ""
    ensures Utf8.Encode(s) != [] && (Utf8.Encode(s)[0] < 128 ==> Utf8.Encode(s)[0] == s[0] as int)
  {
    var init := s[..|s| - 1];
    if init == "" {
      assert Utf8.Encode(init) == [];
    } else {
      FirstByte(init);
    }
  }

  lemma BegunStays(s: string)
    requires Begun(s)
    ensures TrimStartOf(Utf8.Encode(s)) == Utf8.Encode(s)
  {
    if s != "" {
      FirstByte(s);
    }
  }

  lemma SingleIs(kind: Label, value: string)
    requires Begun(value)
    ensures HeaderOf(Single(kind, value)) == Plain(Name(kind), value)
  {
    BegunStays(value);
  }

  lemma FieldsAre(from: string, to: seq<string>, subject: string, nowMs: int, messageId: string)
    ensures var f := Fields(from, to, subject, nowMs, messageId);
      && |f| == 10 && f[0] == Single(From, from) && f[1].kind == To && f[2].kind == Subject
      && f[3] == Single(Date, Rfc5322Date(nowMs)) && f[4] == Single(MessageId, messageId)
      && f[5] == Fixed(MimeVersion) && f[6] == Fixed(ContentType) && f[7] == Fixed(TransferEncoding)
      && f[8] == Fixed(AutoSubmitted) && f[9] == Fixed(Mailer)
  {
    TenFields(Single(From, from), Field(To, EncodeAll(to), COMMA), Field(Subject, SubjectItems(subject), []),
              Single(Date, Rfc5322Date(nowMs)), Single(MessageId, messageId), FixedFields());
  }

  lemma TenFields(a: Field, b: Field, c: Field, d: Field, e: Field, more: seq<Field>)
    requires |more| == 5
    ensures var f := [a, b, c, d, e] + more;
      && |f| == 10 && f[0] == a && f[1] == b && f[2] == c && f[3] == d && f[4] == e
      && f[5] == more[0] && f[6] == more[1] && f[7] == more[2] && f[8] == more[3] && f[9] == more[4]
  {
  }

  lemma SingleHeaders(f: seq<Field>, from: string, date: string, messageId: string)
    requires |f| == 10 && Begun(from) && Begun(date) && Begun(messageId)
    requires f[0] == Single(From, from) && f[3] == Single(Date, date) && f[4] == Single(MessageId, messageId)
    ensures HeaderOf(f[0]) == Plain("From", from)
    ensures HeaderOf(f[3]) == Plain("Date", date)
    ensures HeaderOf(f[4]) == Plain("Message-ID", messageId)
  {
    SingleIs(From, from);
    SingleIs(Date, date);
    SingleIs(MessageId, messageId);
  }

  /** Any reader finds these headers in a composed message, in this order, each once: who sends
      it and to whom, its subject and date, its own id, and that it is a plain text in base64
      that nobody need answer. */
  lemma HeadersOfMessage(from: string, to: seq<string>, subject: string, nowMs: int, messageId: string)
    requires Begun(from) && Begun(messageId)
    ensures var h := HeadersOf(Fields(from, to, subject, nowMs, messageId));
      && |h| == 10
      && h[0] == Plain("From", from)
      && h[1].name == "To" && h[2].name == "Subject"
      && h[3] == Plain("Date", Rfc5322Date(nowMs))
      && h[4] == Plain("Message-ID", messageId)
      && h[5] == Plain("MIME-Version", "1.0")
      && h[6] == Plain("Content-Type", "text/plain; charset=utf-8")
      && h[7] == Plain("Content-Transfer-Encoding", "base64")
      && h[8] == Plain("Auto-Submitted", "auto-generated")
      && h[9] == Plain("X-Mailer", "stmp2log")
  {
    var f := Fields(from, to, subject, nowMs, messageId);
    FieldsAre(from, to, subject, nowMs, messageId);
    DateIsBegun(nowMs);
    SingleHeaders(f, from, Rfc5322Date(nowMs), messageId);
    FixedAre();
  }

  lemma DateIsBegun(nowMs: int)
    ensures Begun(Rfc5322Date(nowMs))
  {
    DayNameIsBegun(nowMs / 1000 / 86400 % 7);
  }

  lemma DayNameIsBegun(dow: nat)
    requires dow < 7
    ensures DAYS_OF_WEEK[dow] != "" && !IsWhite(DAYS_OF_WEEK[dow][0])
  {
  }

  lemma FixedAre()
    ensures HeaderOf(Fixed(MimeVersion)) == Plain("MIME-Version", "1.0")
    ensures HeaderOf(Fixed(ContentType)) == Plain("Content-Type", "text/plain; charset=utf-8")
    ensures HeaderOf(Fixed(TransferEncoding)) == Plain("Content-Transfer-Encoding", "base64")
    ensures HeaderOf(Fixed(AutoSubmitted)) == Plain("Auto-Submitted", "auto-generated")
    ensures HeaderOf(Fixed(Mailer)) == Plain("X-Mailer", "stmp2log")
  {
    SingleIs(MimeVersion, "1.0");
    SingleIs(ContentType, "text/plain; charset=utf-8");
    SingleIs(TransferEncoding, "base64");
    SingleIs(AutoSubmitted, "auto-generated");
    SingleIs(Mailer, "stmp2log");
  }

  /** The recipients are listed with a comma and a blank between them. */
  lemma {:induction false} RecipientsAreListed(to: seq<string>)
    requires forall i :: 0 <= i < |to| ==> to[i] != "" && Begun(to[i])
    ensures FoldValue(EncodeAll(to), COMMA) == Join(EncodeAll(to), [44, 32])
    ensures |to| > 0 ==> Continued(EncodeAll(to), COMMA) == [32] + Join(EncodeAll(to), [44, 32])
  {
    var items := EncodeAll(to);
    if |to| == 1 {
      BegunStays(to[0]);
    } else if |to| > 1 {
      var first := items[0] + COMMA;
      FirstByte(to[0]);
      assert TrimStartOf(first) == first;
      assert items[1..] == EncodeAll(to[1..]);
      RecipientsAreListed(to[1..]);
      var more := Join(items[1..], [44, 32]);
      assert items[0] + [44, 32] + more == first + ([32] + more);
      Shift([32], first, [32] + more);
    }
  }

  // ----- the body and the subject -----

  function FlatBytes(lines: seq<Bytes>): Bytes {
    if lines == [] then [] else lines[0] + FlatBytes(lines[1..])
  }

  /** The lines of the body hold the base64 text, 76 characters in each but the last. */
  lemma {:induction false} ChunksAreFull(text: Bytes)
    ensures var c := Chunks(text);
      && FlatBytes(c) == text
      && (forall i :: 0 <= i < |c| - 1 ==> |c[i]| == 76)
      && (c != [] ==> 0 < |Last(c)| <= 76)
  {
    if |text| > 76 {
      ChunksAreFull(text[76..]);
      var first, rest := text[..76], Chunks(text[76..]);
      assert Chunks(text) == [first] + rest;
      assert ([first] + rest)[1..] == rest;
      assert rest != [] && Last([first] + rest) == Last(rest);
    } else if text != [] {
      assert Chunks(text)[1..] == [];
      assert text + [] == text;
    }
  }

  /** The next piece begins with a character that did not fit into this one any more. */
  predicate NoRoom(piece: string, next: string) {
    next != "" && Size(piece) + |Utf8.EncodeChar(next[0])| > 45
  }

  predicate AllFull(pieces: seq<string>) {
    forall i, j :: 0 <= i < |pieces| && j == i + 1 < |pieces| ==> NoRoom(pieces[i], pieces[j])
  }

  lemma AllFullMore(pieces: seq<string>, piece: string)
    requires AllFull(pieces) && (pieces != [] ==> NoRoom(Last(pieces), piece))
    ensures AllFull(pieces + [piece])
  {
  }

  lemma EmptyHasRoom(c: char)
    ensures Fits("", c)
  {
    assert Size("") == 0;
  }

  lemma {:induction false} CutIsGreedy(s: string)
    ensures var (done, piece) := Cut(s);
      && AllFull(done) && (done != [] ==> NoRoom(Last(done), piece))
      && (s != "" ==> piece != "")
  {
    if s != "" {
      CutIsGreedy(s[..|s| - 1]);
      var (done, piece) := Cut(s[..|s| - 1]);
      EmptyHasRoom(Last(s));
      if Fits(piece, Last(s)) {
        assert piece != "" ==> (piece + [Last(s)])[0] == piece[0];
      } else {
        AllFullMore(done, piece);
      }
    }
  }

  /** The subject is cut as late as it can be. */
  lemma PiecesAreGreedy(s: string)
    ensures AllFull(Pieces(s))
  {
    CutIsGreedy(s);
    AllFullMore(Cut(s).0, Cut(s).1);
  }

  /** A subject of printable ASCII, line breaks as blanks, is sent as it is, and every other one
      in encoded words, folded between them. */
  lemma SubjectIsPlainIff(subject: string)
    ensures (forall c :: c in subject ==> ' ' <= c <= '~' || c == '\r' || c == '\n') ==>
      EncodeWord(subject) == Utf8.Encode(Spaced(subject))
    ensures (exists c :: c in subject && !(' ' <= c <= '~') && c != '\r' && c != '\n') ==>
      EncodeWord(subject) == Join(Words(Pieces(Spaced(subject))), [13, 10, 32])
  {
    var s := Spaced(subject);
    assert forall i :: 0 <= i < |subject| ==> subject[i] in subject;
    if c :| c in subject && !(' ' <= c <= '~') && c != '\r' && c != '\n' {
      var i :| 0 <= i < |subject| && subject[i] == c;
      assert s[i] == c && !Printable(s);
    }
  }

  // ----- the date -----

  /** Days and years are plain digits. */
  lemma NumbersShow(n: nat)
    ensures AllDigits(Signed(n)) && Value(Signed(n)) == n
  {
    ValueOfDecimal(n);
  }

  const WEEK: seq<string> := ["Mon", "Tue", "Wed", "Thu", "Fri", "Sat", "Sun"]

  /** The name of the day: 1 January 1970 was a Thursday, and each day has the next name. */
  lemma DaysAreNamed(days: int)
    ensures DAYS_OF_WEEK[days % 7] == WEEK[(days + 3) % 7]
  {
  }

  /** The clock shows two digits for each of hours, minutes and seconds. */
  lemma ClockShows(rem: nat, h: nat, m: nat, s: nat)
    requires h < 24 && m < 60 && s < 60 && rem == 3600 * h + 60 * m + s
    ensures var c := Clock(rem);
      && |c| == 8 && c[2] == ':' && c[5] == ':'
      && AllDigits(c[..2]) && AllDigits(c[3..5]) && AllDigits(c[6..])
      && Value(c[..2]) == h && Value(c[3..5]) == m && Value(c[6..]) == s
  {
    assert rem / 3600 == h && rem % 3600 / 60 == m && rem % 60 == s;
    TwoDigitsShow(h);
    TwoDigitsShow(m);
    TwoDigitsShow(s);
    ClockParts(TwoDigits(h), TwoDigits(m), TwoDigits(s));
  }

  lemma ClockParts(h: string, m: string, s: string)
    requires |h| == |m| == |s| == 2
    ensures var c := h + ":" + m + ":" + s;
      |c| == 8 && c[2] == ':' && c[5] == ':' && c[..2] == h && c[3..5] == m && c[6..] == s
  {
  }

  lemma TwoDigitsShow(n: nat)
    requires n < 100
    ensures var t := TwoDigits(n); |t| == 2 && AllDigits(t) && Value(t) == n
  {
    ValueOfDecimal(n);
    if n < 10 {
      var t := "0" + Decimal(n);
      assert t == ['0', Digit(n)] && t[..1] == "0" && "0"[..0] == "";
      assert Value("0") == 0;
    } else {
      assert Decimal(n / 10) == [Digit(n / 10)];
    }
  }
}
