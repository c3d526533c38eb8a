/** What the bytes of the peer mean to the SMTP session: command lines, addresses, and the
    credentials inside AUTH, from the lines as they are sent. */
module SessionInput {
  import opened Octets
  import opened TextLaws
  import opened Texts
  import opened Wrappers
  import opened SmtpSession
  import Base64
  import DataReader
  import Utf8

  /** Lossy decoding reads UTF-8 as what was encoded. */
  ghost predicate ReadsText(cfg: Config) {
    forall s: string :: TextOf(cfg, s) == s
  }

  function TextOf(cfg: Config, s: string): string {
    cfg.text(Utf8.Encode(s))
  }

  /** The characters of an encoding in base64. */
  function Base64Text(data: Bytes): (s: string)
    ensures |s| == |Base64.Encode(data)|
  {
    var b := Base64.Encode(data);
    seq(|b|, i requires 0 <= i < |b| => b[i] as char)
  }

  /** The base64 decoder of AUTH undoes the encoding. */
  ghost predicate ReadsBase64(cfg: Config) {
    forall data: Bytes :: Payload(cfg, data) == data
  }

  function Payload(cfg: Config, data: Bytes): Bytes {
    cfg.unbase64(Base64Text(data))
  }

  // ----- the command word -----

  /** White space in the ASCII range, where a command word ends. */
  predicate EndsWord(c: char) {
    c as int < 128 && IsSpace(c as int)
  }

  /** A command word and what follows it. */
  predicate SpokenLine(verb: string, argument: string) {
    && verb != "" && (forall i :: 0 <= i < |verb| ==> !EndsWord(verb[i]))
    && (argument == "" || EndsWord(argument[0]))
  }

  lemma {:induction false} VerbEndIs(line: Bytes, e: nat)
    requires e <= |line| && forall i :: 0 <= i < e ==> !IsSpace(line[i])
    requires e < |line| ==> IsSpace(line[e])
    ensures VerbEnd(line) == e
  {
    if e > 0 {
      VerbEndIs(line[1..], e - 1);
    }
  }

  lemma NoSpaceInside(verb: string)
    requires forall i :: 0 <= i < |verb| ==> !EndsWord(verb[i])
    ensures var b := Utf8.Encode(verb); forall i :: 0 <= i < |b| ==> !IsSpace(b[i])
  {
    var b := Utf8.Encode(verb);
    forall i | 0 <= i < |b| ensures !IsSpace(b[i]) {
      if IsSpace(b[i]) {
        assert b[i] in b;
        Utf8.AsciiBytesAreCharacters(verb, b[i]);
      }
    }
  }

  lemma {:induction false} FirstByteOf(s: string)
    requires s != "" && s[0] as int < 128
    ensures Utf8.Encode(s) != [] && Utf8.Encode(s)[0] == s[0] as int
  {
    var init := s[..|s| - 1];
    if init == "" {
      assert Utf8.Encode(init) == [];
    } else {
      FirstByteOf(init);
    }
  }

  /** A line is cut at the first white space, and both parts are decoded. */
  lemma LineSplits(cfg: Config, verb: string, argument: string)
    requires ReadsText(cfg) && SpokenLine(verb, argument)
    ensures var line := Utf8.Encode(verb + argument); var e := VerbEnd(line);
      cfg.text(line[..e]) == verb && cfg.text(line[e..]) == argument
  {
    var head, tail := Utf8.Encode(verb), Utf8.Encode(argument);
    Utf8.EncodeOf(verb, argument);
    NoSpaceInside(verb);
    if argument != "" {
      FirstByteOf(argument);
    } else {
      assert tail == [];
    }
    var line := head + tail;
    assert forall i :: 0 <= i < |head| ==> line[i] == head[i];
    VerbEndIs(line, |head|);
    assert line[..|head|] == head && line[|head|..] == tail;
    assert TextOf(cfg, verb) == verb && TextOf(cfg, argument) == argument;
  }

  /** What the command words mean, in any letter case; every other word is unknown. */
  lemma CommandWords(cfg: Config, verb: string, argument: string)
    requires ReadsText(cfg) && SpokenLine(verb, argument)
    ensures var word, c := Upper(verb), Parse(cfg, Utf8.Encode(verb + argument));
      && (word == "EHLO" ==> c == Ehlo(Trim(argument)))
      && (word == "HELO" ==> c == Helo(Trim(argument)))
      && (word == "STARTTLS" ==> c == Tls)
      && (word == "AUTH" ==> c.Auth?)
      && (word == "MAIL" ==> c.From?)
      && (word == "RCPT" ==> c.To?)
      && (word == "DATA" ==> c == Data)
      && (word == "RSET" ==> c == Rset)
      && (word == "NOOP" ==> c == Noop)
      && (word == "VRFY" || word == "EXPN" ==> c == Vrfy)
      && (word == "HELP" ==> c == Help)
      && (word == "QUIT" ==> c == Quit)
      && (c.Blank? <==> word == "")
      && (c.Unknown? ==> c == Unknown(word))
      && (c.Ehlo? ==> word == "EHLO") && (c.Helo? ==> word == "HELO") && (c.Tls? ==> word == "STARTTLS")
      && (c.Auth? ==> word == "AUTH") && (c.From? ==> word == "MAIL") && (c.To? ==> word == "RCPT")
      && (c.Data? ==> word == "DATA") && (c.Rset? ==> word == "RSET") && (c.Noop? ==> word == "NOOP")
      && (c.Vrfy? ==> word == "VRFY" || word == "EXPN") && (c.Help? ==> word == "HELP")
      && (c.Quit? ==> word == "QUIT")
  {
    LineSplits(cfg, verb, argument);
  }

  // ----- addresses -----

  lemma FindBehind(s: string, c: char, rest: string)
    requires c !in s
    ensures Find(s + [c] + rest, c) == |s|
  {
    var whole := s + [c] + rest;
    assert whole[|s|] == c;
    assert forall k :: 0 <= k < |s| ==> whole[k] == s[k] && s[k] in s;
  }

  lemma FindNone(s: string, c: char)
    requires c !in s
    ensures Find(s, c) == |s|
  {
    assert forall k :: 0 <= k < |s| ==> s[k] in s;
  }

  lemma {:induction false} NotInTrimmed(s: string, c: char)
    requires c !in s
    ensures c !in TrimStart(s) && c !in TrimEnd(s)
    decreases |s|
  {
    if s != "" && IsWhite(s[0]) {
      NotInTrimmed(s[1..], c);
    }
  }

  lemma AddressBetween(text: string, open: nat, close: nat, addr: string)
    requires Find(text, '<') == open < |text| && Find(text[open..], '>') == close < |text[open..]|
    requires 0 < close && text[open + 1..open + close] == addr
    ensures AddressIn(text) == Some(Trim(addr))
  {
  }

  /** An address in angle brackets is what they enclose, trimmed. */
  lemma BracketedAddress(before: string, addr: string, tail: string)
    requires '<' !in before && '>' !in addr
    ensures AddressIn(before + ['<'] + (addr + ['>'] + tail)) == Some(Trim(addr))
  {
    var inner := addr + ['>'] + tail;
    var text := before + ['<'] + inner;
    FindBehind(before, '<', inner);
    var inside := ['<'] + addr + ['>'] + tail;
    assert text[|before|..] == inside;
    FindBehind(['<'] + addr, '>', tail);
    SliceOfDrop(text, |before|, 1, 1 + |addr|);
    assert inside[1..1 + |addr|] == addr;
    AddressBetween(text, |before|, 1 + |addr|, addr);
  }

  lemma UnclosedAddress(before: string, open: string)
    requires '<' !in before && '>' !in open
    ensures AddressIn(before + ['<'] + open) == None
  {
    var text := before + ['<'] + open;
    FindBehind(before, '<', open);
    assert text[|before|..] == ['<'] + open;
    FindNone(['<'] + open, '>');
  }

  /** Without brackets the address is the first word, or nothing. */
  lemma BareAddress(word: string, tail: string)
    requires IsWord(word) && '<' !in word && '<' !in tail && (tail == "" || IsWhite(tail[0]))
    ensures AddressIn(word + tail) == Some(word)
  {
    FindNone(word + tail, '<');
    NextWordOf(word, tail);
    TrimKeeps(word);
  }

  /** A mark that is not white space stays where it is between what is trimmed. */
  lemma TrimAround(before: string, mark: string, after: string)
    requires mark != "" && !IsWhite(mark[0]) && !IsWhite(Last(mark))
    ensures Trim(before + (mark + after)) == TrimStart(before) + mark + TrimEnd(after)
  {
    var whole := mark + after;
    assert TrimStart(before + whole) == TrimStart(before) + whole by {
      TrimStartOfBoth(before, whole);
      assert whole[0] == mark[0];
    }
    var head := TrimStart(before) + mark;
    assert TrimStart(before) + whole == head + after;
    assert Last(head) == Last(mark);
    TrimEndBefore(head, after);
  }

  /** The keyword is found in any letter case, behind blanks. */
  lemma ParamIsBehind(gap: string, keyword: string, behind: string, prefix: string)
    requires AllWhite(gap) && keyword != "" && !IsWhite(keyword[0]) && Upper(keyword) == prefix
    ensures ParamAfter(gap + (keyword + behind), prefix) == AddressIn(Trim(behind))
  {
    var t := keyword + behind;
    TrimStartBehind(gap, t);
    assert t[0] == keyword[0];
    UpperOf(keyword, behind);
    assert t[|keyword|..] == behind;
  }

  /** Without the keyword there is no address. */
  lemma NoKeyword(gap: string, text: string, prefix: string)
    requires AllWhite(gap) && (text == "" || !IsWhite(text[0]))
    requires !StartsWith(Upper(text), prefix)
    ensures ParamAfter(gap + text, prefix) == None
  {
    TrimStartBehind(gap, text);
  }

  /** What the text behind the keyword can be: an address in brackets, one without, a
      bracket that is not closed, or nothing. */
  datatype Param =
    | Bracketed(before: string, addr: string, tail: string)
    | Bare(space: string, word: string, tail: string)
    | Unclosed(before: string, open: string)
    | Nothing(space: string)

  function Written(p: Param): string {
    match p
    case Bracketed(before, addr, tail) => before + (['<'] + addr + ['>'] + tail)
    case Bare(space, word, tail) => space + (word + tail)
    case Unclosed(before, open) => before + (['<'] + open)
    case Nothing(space) => space
  }

  predicate Proper(p: Param) {
    match p
    case Bracketed(before, addr, _) => '<' !in before && '>' !in addr
    case Bare(space, word, tail) =>
      && AllWhite(space) && IsWord(word) && '<' !in word && '<' !in tail
      && (tail == "" || IsWhite(tail[0]))
    case Unclosed(before, open) => '<' !in before && '>' !in open
    case Nothing(space) => AllWhite(space)
  }

  function Meant(p: Param): Option<string> {
    match p
    case Bracketed(_, addr, _) => Some(Trim(addr))
    case Bare(_, word, _) => Some(word)
    case Unclosed(_, _) => None
    case Nothing(_) => Some("")
  }

  lemma BracketedIsRead(before: string, addr: string, tail: string)
    requires '<' !in before && '>' !in addr
    ensures AddressIn(Trim(before + (['<'] + addr + ['>'] + tail))) == Some(Trim(addr))
  {
    var mark := ['<'] + addr + ['>'];
    TrimAround(before, mark, tail);
    var head, end := TrimStart(before), TrimEnd(tail);
    assert head + mark + end == head + ['<'] + (addr + ['>'] + end);
    NotInTrimmed(before, '<');
    BracketedAddress(head, addr, end);
  }

  lemma UnclosedIsRead(before: string, open: string)
    requires '<' !in before && '>' !in open
    ensures AddressIn(Trim(before + (['<'] + open))) == None
  {
    TrimAround(before, ['<'], open);
    NotInTrimmed(before, '<');
    NotInTrimmed(open, '>');
    UnclosedAddress(TrimStart(before), TrimEnd(open));
  }

  lemma BareIsRead(space: string, word: string, tail: string)
    requires Proper(Bare(space, word, tail))
    ensures AddressIn(Trim(space + (word + tail))) == Some(word)
  {
    TrimAround(space, word, tail);
    TrimStartBehind(space, "");
    assert space + "" == space && "" + word + TrimEnd(tail) == word + TrimEnd(tail);
    NotInTrimmed(tail, '<');
    BareAddress(word, TrimEnd(tail));
  }

  lemma NothingIsRead(space: string)
    requires AllWhite(space)
    ensures AddressIn(Trim(space)) == Some("")
  {
    TrimOfBlank(space);
    NoNextWord("");
  }

  lemma ParamIsRead(p: Param)
    requires Proper(p)
    ensures AddressIn(Trim(Written(p))) == Meant(p)
  {
    match p
    case Bracketed(before, addr, tail) => BracketedIsRead(before, addr, tail);
    case Bare(space, word, tail) => BareIsRead(space, word, tail);
    case Unclosed(before, open) => UnclosedIsRead(before, open);
    case Nothing(space) => NothingIsRead(space);
  }

  /** Every text is one of them. */
  lemma EveryTextIsAParam(text: string) returns (p: Param)
    ensures Proper(p) && Written(p) == text
  {
    var open := Find(text, '<');
    if open < |text| {
      p := OpenParam(text[..open], text[open + 1..]);
      assert text == text[..open] + (['<'] + text[open + 1..]);
    } else {
      assert '<' !in text;
      p := PlainParam(text);
    }
  }

  lemma OpenParam(before: string, inner: string) returns (p: Param)
    requires '<' !in before
    ensures Proper(p) && Written(p) == before + (['<'] + inner)
  {
    var close := Find(inner, '>');
    if close < |inner| {
      p := Bracketed(before, inner[..close], inner[close + 1..]);
      assert ['<'] + inner == ['<'] + inner[..close] + ['>'] + inner[close + 1..];
    } else {
      p := Unclosed(before, inner);
    }
  }

  lemma PlainParam(text: string) returns (p: Param)
    requires '<' !in text
    ensures Proper(p) && Written(p) == text
  {
    var k := FirstBlack(text);
    var space, rest := text[..k], text[k..];
    assert text == space + rest;
    if rest == "" {
      assert space + "" == space;
      p := Nothing(space);
    } else {
      p := WordParam(space, rest);
    }
  }

  lemma WordParam(space: string, rest: string) returns (p: Param)
    requires AllWhite(space) && rest != "" && !IsWhite(rest[0]) && '<' !in rest
    ensures Proper(p) && Written(p) == space + rest
  {
    var e := FindWhite(rest);
    assert rest == rest[..e] + rest[e..];
    p := Bare(space, rest[..e], rest[e..]);
  }

  function FirstBlack(s: string): (k: nat)
    ensures k <= |s| && AllWhite(s[..k]) && (k < |s| ==> !IsWhite(s[k]))
  {
    if s != "" && IsWhite(s[0]) then 1 + FirstBlack(s[1..]) else 0
  }

  lemma EnvelopeWords(cfg: Config, verb: string, argument: string)
    requires ReadsText(cfg) && SpokenLine(verb, argument)
    ensures var c := Parse(cfg, Utf8.Encode(verb + argument));
      && (Upper(verb) == "MAIL" ==> c == From(ParamAfter(argument, "FROM:")))
      && (Upper(verb) == "RCPT" ==> c == To(ParamAfter(argument, "TO:")))
  {
    LineSplits(cfg, verb, argument);
  }

  /** MAIL names the sender: the text in the brackets, or the first word where there are none,
      whatever the letter case of verb and keyword and the blanks around them. */
  lemma SenderIsRead(cfg: Config, verb: string, gap: string, keyword: string, p: Param)
    requires ReadsText(cfg) && Proper(p) && AllWhite(gap) && SpokenLine(verb, gap + (keyword + Written(p)))
    requires Upper(verb) == "MAIL" && Upper(keyword) == "FROM:"
    ensures Parse(cfg, Utf8.Encode(verb + (gap + (keyword + Written(p))))) == From(Meant(p))
  {
    assert UpperChar(keyword[0]) == 'F';
    KeywordIsRead(gap, keyword, p);
    EnvelopeWords(cfg, verb, gap + (keyword + Written(p)));
  }

  /** RCPT names a recipient in the same way. */
  lemma RecipientIsRead(cfg: Config, verb: string, gap: string, keyword: string, p: Param)
    requires ReadsText(cfg) && Proper(p) && AllWhite(gap) && SpokenLine(verb, gap + (keyword + Written(p)))
    requires Upper(verb) == "RCPT" && Upper(keyword) == "TO:"
    ensures Parse(cfg, Utf8.Encode(verb + (gap + (keyword + Written(p))))) == To(Meant(p))
  {
    assert UpperChar(keyword[0]) == 'T';
    KeywordIsRead(gap, keyword, p);
    EnvelopeWords(cfg, verb, gap + (keyword + Written(p)));
  }

  lemma KeywordIsRead(gap: string, keyword: string, p: Param)
    requires Proper(p) && AllWhite(gap) && keyword != "" && !IsWhite(keyword[0])
    ensures ParamAfter(gap + (keyword + Written(p)), Upper(keyword)) == Meant(p)
  {
    ParamIsBehind(gap, keyword, Written(p), Upper(keyword));
    ParamIsRead(p);
  }

  lemma BracketedLine(cfg: Config, verb: string, keyword: string, addr: string)
    requires ReadsText(cfg) && IsWord(addr) && '>' !in addr && verb != ""
    requires forall i :: 0 <= i < |verb| ==> !EndsWord(verb[i])
    ensures var line := verb + ([' '] + (keyword + (['<'] + addr + ['>'])));
      && (Upper(verb) == "MAIL" && Upper(keyword) == "FROM:" ==> Parse(cfg, Utf8.Encode(line)) == From(Some(addr)))
      && (Upper(verb) == "RCPT" && Upper(keyword) == "TO:" ==> Parse(cfg, Utf8.Encode(line)) == To(Some(addr)))
  {
    var p := Bracketed("", addr, "");
    assert Written(p) == ['<'] + addr + ['>'];
    TrimKeeps(addr);
    if Upper(verb) == "MAIL" && Upper(keyword) == "FROM:" {
      SenderIsRead(cfg, verb, [' '], keyword, p);
    }
    if Upper(verb) == "RCPT" && Upper(keyword) == "TO:" {
      RecipientIsRead(cfg, verb, [' '], keyword, p);
    }
  }

  lemma Regroup(verb: string, keyword: string, addr: string)
    ensures verb + [' '] + keyword + ['<'] + addr + ['>'] == verb + ([' '] + (keyword + (['<'] + addr + ['>'])))
  {
  }

  lemma SenderWords()
    ensures Upper("MAIL") == "MAIL" && Upper("FROM:") == "FROM:"
    ensures Upper("RCPT") == "RCPT" && Upper("TO:") == "TO:"
  {
  }

  lemma SenderStart()
    ensures "MAIL" + [' '] + "FROM:" + ['<'] == "MAIL FROM:<"
    ensures "RCPT" + [' '] + "TO:" + ['<'] == "RCPT TO:<"
  {
  }

  /** In the plainest form of section 4.1.1 of RFC 5321. */
  lemma PlainSenderIsRead(cfg: Config, addr: string)
    requires ReadsText(cfg) && IsWord(addr) && '<' !in addr && '>' !in addr
    ensures Parse(cfg, Utf8.Encode("MAIL FROM:<" + addr + ">")) == From(Some(addr))
  {
    SenderWords();
    SenderStart();
    Regroup("MAIL", "FROM:", addr);
    BracketedLine(cfg, "MAIL", "FROM:", addr);
  }

  lemma PlainRecipientIsRead(cfg: Config, addr: string)
    requires ReadsText(cfg) && IsWord(addr) && '<' !in addr && '>' !in addr
    ensures Parse(cfg, Utf8.Encode("RCPT TO:<" + addr + ">")) == To(Some(addr))
  {
    SenderWords();
    SenderStart();
    Regroup("RCPT", "TO:", addr);
    BracketedLine(cfg, "RCPT", "TO:", addr);
  }

  // ----- the argument of AUTH -----

  /** How a client writes a response on the AUTH line itself. */
  function InitialText(data: Bytes): string {
    if data == [] then "=" else Base64Text(data)
  }

  lemma InitialIsWord(data: Bytes)
    ensures IsWord(InitialText(data)) && (InitialText(data) == "=" <==> data == [])
  {
    Base64.EncodingShape(data);
    var b := Base64.Encode(data);
    forall i | 0 <= i < |b|
      ensures !IsWhite(Base64Text(data)[i])
    {
      assert Base64.IsBase64(b[i]);
    }
  }

  lemma AuthWord(cfg: Config, verb: string, argument: string)
    requires ReadsText(cfg) && SpokenLine(verb, argument) && Upper(verb) == "AUTH"
    ensures Parse(cfg, Utf8.Encode(verb + argument)) == Auth(Mechanism(argument), InitialResponse(cfg, argument))
  {
    LineSplits(cfg, verb, argument);
  }

  /** AUTH with nothing but white space behind it names no mechanism. */
  lemma AuthNamesNothing(cfg: Config, verb: string, gap: string)
    requires ReadsText(cfg) && SpokenLine(verb, gap) && Upper(verb) == "AUTH" && AllWhite(gap)
    ensures Parse(cfg, Utf8.Encode(verb + gap)) == Auth("", None)
  {
    AuthWord(cfg, verb, gap);
    NoNextWord(gap);
  }

  /** The first word names the mechanism, in any letter case. */
  lemma AuthNamesMechanism(cfg: Config, verb: string, gap: string, mech: string, tail: string)
    requires ReadsText(cfg) && SpokenLine(verb, gap + mech + tail) && Upper(verb) == "AUTH"
    requires AllWhite(gap) && IsWord(mech) && AllWhite(tail)
    ensures Parse(cfg, Utf8.Encode(verb + (gap + mech + tail))) == Auth(Upper(mech), None)
  {
    AuthWord(cfg, verb, gap + mech + tail);
    NextWordBehind(gap, mech, tail);
    NoNextWord(tail);
  }

  predicate GivesResponse(gap: string, mech: string, space: string, data: Bytes, tail: string) {
    && AllWhite(gap) && IsWord(mech) && AllWhite(space) && space != ""
    && (tail == "" || IsWhite(tail[0]))
  }

  lemma ResponseIsRead(cfg: Config, gap: string, mech: string, space: string, data: Bytes, tail: string)
    requires ReadsBase64(cfg) && GivesResponse(gap, mech, space, data, tail)
    ensures var argument := gap + mech + (space + InitialText(data) + tail);
      Mechanism(argument) == Upper(mech) && InitialResponse(cfg, argument) == Some(data)
  {
    var given := InitialText(data);
    var rest := space + given + tail;
    assert rest[0] == space[0];
    InitialIsWord(data);
    NextWordBehind(gap, mech, rest);
    NextWordBehind(space, given, tail);
    assert Payload(cfg, data) == data;
  }

  /** The second word is the response in base64, or `=` for an empty one. */
  lemma AuthGivesResponse(cfg: Config, verb: string, gap: string, mech: string, space: string, data: Bytes, tail: string)
    requires ReadsText(cfg) && ReadsBase64(cfg) && Upper(verb) == "AUTH"
    requires GivesResponse(gap, mech, space, data, tail)
    requires SpokenLine(verb, gap + mech + (space + InitialText(data) + tail))
    ensures Parse(cfg, Utf8.Encode(verb + (gap + mech + (space + InitialText(data) + tail))))
         == Auth(Upper(mech), Some(data))
  {
    AuthWord(cfg, verb, gap + mech + (space + InitialText(data) + tail));
    ResponseIsRead(cfg, gap, mech, space, data, tail);
  }

  // ----- the lines inside AUTH -----

  /** A line of base64 is heard as what it encodes. */
  lemma LineIsHeard(cfg: Config, data: Bytes, rest: Bytes)
    requires ReadsText(cfg) && ReadsBase64(cfg) && |Base64.Encode(data)| + 2 <= MAX_LINE
    ensures Hear(cfg, Base64.Encode(data) + CRLF + rest) == (Line(data), rest)
  {
    var line := Base64.Encode(data);
    Base64.EncodingShape(data);
    forall i | 0 <= i < |line|
      ensures line[i] != LF && line[i] < 128
    {
      assert Base64.IsBase64(line[i]);
    }
    LineLengthOf(line, rest);
    assert line != [42];
    TextIsLine(data);
    assert TextOf(cfg, Base64Text(data)) == Base64Text(data);
    assert Payload(cfg, data) == data;
  }

  lemma TextIsLine(data: Bytes)
    ensures Utf8.Encode(Base64Text(data)) == Base64.Encode(data)
  {
    Base64.EncodingShape(data);
    var b := Base64.Encode(data);
    forall i | 0 <= i < |b|
      ensures b[i] < 128
    {
      assert Base64.IsBase64(b[i]);
    }
    Utf8.AsciiIsPlain(Base64Text(data));
  }

  /** A lone asterisk calls the exchange off. */
  lemma AsteriskCancels(cfg: Config, rest: Bytes)
    ensures Hear(cfg, [42] + CRLF + rest) == (Cancelled, rest)
  {
    LineLengthOf([42], rest);
  }

  // ----- credentials -----

  lemma {:induction false} FieldAlone(field: Bytes)
    requires 0 !in field
    ensures Fields(field) == [field]
  {
    if field != [] {
      assert field[0] in field;
      FieldAlone(field[1..]);
      assert field == [field[0]] + field[1..];
    }
  }

  /** Zero bytes separate the fields of a PLAIN response. */
  lemma {:induction false} FieldBehind(field: Bytes, more: Bytes)
    requires 0 !in field
    ensures Fields(field + [0] + more) == [field] + Fields(more)
  {
    var payload := field + [0] + more;
    if field == [] {
      assert payload[1..] == more;
    } else {
      assert field[0] in field;
      FieldBehind(field[1..], more);
      assert payload[1..] == field[1..] + [0] + more;
      assert field == [field[0]] + field[1..];
    }
  }

  lemma NoZero(s: string)
    requires '\0' !in s
    ensures 0 !in Utf8.Encode(s)
  {
    if 0 in Utf8.Encode(s) {
      Utf8.AsciiBytesAreCharacters(s, 0);
    }
  }

  /** What a client puts into a PLAIN response: who it acts for, its user and its password
      (section 2 of RFC 4616). */
  function PlainPayload(authz: Bytes, user: string, pass: string): Bytes {
    authz + [0] + (Utf8.Encode(user) + [0] + Utf8.Encode(pass))
  }

  predicate PlainFields(authz: Bytes, user: string, pass: string) {
    0 !in authz && '\0' !in user && '\0' !in pass
  }

  /** The second field is the user and the third the password; what follows a further zero
      byte does not count. */
  lemma PlainGives(cfg: Config, authz: Bytes, user: string, pass: string, more: Bytes)
    requires ReadsText(cfg) && PlainFields(authz, user, pass)
    ensures PlainCreds(cfg, PlainPayload(authz, user, pass)) == Creds(user, Some(pass))
    ensures PlainCreds(cfg, PlainPayload(authz, user, pass) + [0] + more) == Creds(user, Some(pass))
  {
    var u, p := Utf8.Encode(user), Utf8.Encode(pass);
    NoZero(user);
    NoZero(pass);
    assert TextOf(cfg, user) == user && TextOf(cfg, pass) == pass;
    FieldBehind(authz, u + [0] + p);
    FieldBehind(u, p);
    FieldAlone(p);
    var rest := u + [0] + (p + [0] + more);
    assert PlainPayload(authz, user, pass) + [0] + more == authz + [0] + rest;
    FieldBehind(authz, rest);
    FieldBehind(u, p + [0] + more);
    FieldBehind(p, more);
  }

  /** A response with too few fields has no password, and with one field no user either. */
  lemma ShortPlainGives(cfg: Config, authz: Bytes, user: string)
    requires ReadsText(cfg) && 0 !in authz && '\0' !in user
    ensures PlainCreds(cfg, authz) == Creds("", None)
    ensures PlainCreds(cfg, authz + [0] + Utf8.Encode(user)) == Creds(user, None)
  {
    NoZero(user);
    assert TextOf(cfg, user) == user;
    FieldAlone(authz);
    FieldAlone(Utf8.Encode(user));
    FieldBehind(authz, Utf8.Encode(user));
  }

  /** The first word of a CRAM-MD5 response is the user; there is no password in it. */
  lemma CramGives(cfg: Config, gap: string, user: string, digest: string)
    requires ReadsText(cfg) && AllWhite(gap) && IsWord(user) && (digest == "" || IsWhite(digest[0]))
    ensures CramCreds(cfg, Utf8.Encode(gap + user + digest)) == Creds(user, None)
  {
    NextWordBehind(gap, user, digest);
    assert TextOf(cfg, gap + user + digest) == gap + user + digest;
  }

  lemma EmptyCramGives(cfg: Config, gap: string)
    requires ReadsText(cfg) && AllWhite(gap)
    ensures CramCreds(cfg, Utf8.Encode(gap)) == Creds("", None)
  {
    NoNextWord(gap);
    assert TextOf(cfg, gap) == gap;
  }
}
