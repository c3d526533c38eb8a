/** Reading a Date header (crates/s2l-mail/src/date.rs), and when it reads back what the
    client wrote. */
module MailDate {
  import opened TextLaws
  import opened Texts
  import opened Wrappers
  import opened Calendar
  import Compose

  function Words(s: string): seq<string>
    decreases |s|
  {
    match NextWord(s)
    case Some((word, rest)) => [word] + Words(rest)
    case None => []
  }

  function Split(s: string, c: char): (parts: seq<string>)
    ensures parts != []
    decreases |s|
  {
    var i := Find(s, c);
    if i == |s| then [s] else [s[..i]] + Split(s[i + 1..], c)
  }

  /** A decimal number with an optional sign. */
  function Number(s: string): Option<int> {
    if s == "" then None
    else if s[0] == '-' || s[0] == '+' then
      var digits := s[1..];
      if digits == "" || !AllDigits(digits) then None
      else Some(if s[0] == '-' then -(Value(digits) as int) else Value(digits))
    else if AllDigits(s) then Some(Value(s))
    else None
  }

  predicate IsDayName(s: string) {
    || (s != "" && Last(s) == ',')
    || s == "Mon" || s == "Tue" || s == "Wed" || s == "Thu" || s == "Fri" || s == "Sat" || s == "Sun"
  }

  /** The three letters a month's name starts with. */
  function MonthName(m: nat): (n: string)
    requires 1 <= m <= 12
    ensures |n| == 3
  {
    match m
    case 1 => "jan" case 2 => "feb" case 3 => "mar" case 4 => "apr" case 5 => "may" case 6 => "jun"
    case 7 => "jul" case 8 => "aug" case 9 => "sep" case 10 => "oct" case 11 => "nov" case _ => "dec"
  }

  function MonthFrom(l: string, m: nat): Option<int>
    requires 1 <= m <= 13
    decreases 13 - m
  {
    if m == 13 then None
    else if MonthName(m) <= l then Some(m)
    else MonthFrom(l, m + 1)
  }

  function MonthNum(s: string): Option<int> {
    MonthFrom(Lower(s), 1)
  }

  /** The zones that have names. */
  function NamedOffset(name: string): Option<int> {
    if name == "UT" || name == "UTC" || name == "GMT" || name == "Z" then Some(0)
    else if name == "EST" then Some(-5 * 3600)
    else if name == "EDT" then Some(-4 * 3600)
    else if name == "CST" then Some(-6 * 3600)
    else if name == "CDT" then Some(-5 * 3600)
    else if name == "MST" then Some(-7 * 3600)
    else if name == "MDT" then Some(-6 * 3600)
    else if name == "PST" then Some(-8 * 3600)
    else if name == "PDT" then Some(-7 * 3600)
    else None
  }

  function ZoneOffset(word: string): Option<int> {
    var z := Trim(word);
    if z != "" && (z[0] == '+' || z[0] == '-') then
      var rest := z[1..];
      if |rest| < 4 then None
      else
        var h, m := Number(rest[..2]), Number(rest[2..4]);
        if h.None? || m.None? then None
        else
          var mag := h.value * 3600 + m.value * 60;
          Some(if z[0] == '-' then -mag else mag)
    else NamedOffset(Upper(z))
  }

  /** Two-digit years belong to the years around 2000. */
  function FullYear(y: int): int {
    if 0 <= y <= 49 then 2000 + y else if 50 <= y <= 99 then 1900 + y else y
  }

  /** A date and the seconds since its midnight, in universal time. */
  datatype Stamp = Stamp(date: Date, seconds: int)

  /** The parts put together, as far as they make sense. */
  function Timed(day: int, month: int, year: int, parts: seq<string>, offset: int): Option<Stamp> {
    if |parts| < 2 then None
    else
      var hour, min := Number(parts[0]), Number(parts[1]);
      var sec := if |parts| > 2 then Number(parts[2]) else None;
      if hour.None? || min.None? then None
      else
        var s := if sec.Some? then sec.value else 0;
        if !(1 <= day <= 31) || hour.value > 24 || min.value > 59 || s > 60 then None
        else Some(Stamp(Date(FullYear(year), month, day), hour.value * 3600 + min.value * 60 + s - offset))
  }

  function Assembled(day: Option<int>, month: Option<int>, year: Option<int>, time: string, offset: int): Option<Stamp> {
    if day.None? || month.None? || year.None? then None
    else Timed(day.value, month.value, year.value, Split(time, ':'), offset)
  }

  function ParseWords(words: seq<string>): Option<Stamp> {
    if words == [] then None
    else
      var w := if IsDayName(words[0]) then words[1..] else words;
      if |w| < 4 then None
      else
        var zone := if |w| > 4 then ZoneOffset(w[4]) else None;
        Assembled(Number(w[0]), MonthNum(w[1]), Number(w[2]), w[3], if zone.Some? then zone.value else 0)
  }

  /** The words in front of a comment. */
  function WordsIn(value: string): seq<string> {
    Words(value[..Find(value, '(')])
  }

  function ParseStamp(value: string): Option<Stamp> {
    ParseWords(WordsIn(value))
  }

  function Epoch(stamp: Stamp): int {
    DaysFromCivil(stamp.date.year, stamp.date.month, stamp.date.day) * 86400 + stamp.seconds
  }

  /** The time in seconds since the epoch. */
  function Parse(value: string): Option<int> {
    match ParseStamp(value)
    case Some(stamp) => Some(Epoch(stamp))
    case None => None
  }

  // ----- reading what was written -----

  predicate PlainWord(s: string) {
    IsWord(s) && '(' !in s
  }

  predicate AllWords(words: seq<string>) {
    forall i :: 0 <= i < |words| ==> IsWord(words[i])
  }

  lemma LeadingBlank(s: string)
    ensures Words(" " + s) == Words(s)
  {
    assert (" " + s)[1..] == s;
    assert TrimStart(" " + s) == TrimStart(s);
  }

  /** The words spoken are the words heard. */
  lemma {:induction false} WordsOfSpoken(words: seq<string>)
    requires AllWords(words)
    ensures Words(Compose.Spoken(words)) == words
  {
    if |words| == 1 {
      NextWordOf(words[0], "");
      assert words[0] + "" == words[0];
      assert Words("") == [];
    } else if |words| > 1 {
      assert AllWords(words[1..]);
      var rest := Compose.Spoken(words[1..]);
      WordsOfSpoken(words[1..]);
      NextWordOf(words[0], " " + rest);
      assert words[0] + " " + rest == words[0] + (" " + rest);
      LeadingBlank(rest);
    }
  }

  lemma {:induction false} NoParenthesis(words: seq<string>)
    requires forall i :: 0 <= i < |words| ==> '(' !in words[i]
    ensures '(' !in Compose.Spoken(words)
  {
    if |words| > 1 {
      NoParenthesis(words[1..]);
    }
  }

  lemma NumberOfSigned(n: int)
    ensures Number(Compose.Signed(n)) == Some(n)
    ensures IsWord(Compose.Signed(n)) && '(' !in Compose.Signed(n)
  {
    var digits := Decimal(if n < 0 then -n else n);
    ValueOfDecimal(if n < 0 then -n else n);
    DigitsAreWord(digits);
    if n < 0 {
      assert Compose.Signed(n) == "-" + digits;
      assert ("-" + digits)[1..] == digits;
    }
  }

  /** A number may have a plus sign. */
  lemma PlusIsAllowed(n: nat)
    ensures Number("+" + Decimal(n)) == Some(n)
  {
    ValueOfDecimal(n);
    assert ("+" + Decimal(n))[1..] == Decimal(n);
  }

  /** The names of the days count as such with a comma and without, and so does any other word
      with a comma. */
  lemma DayNamesCount(dow: nat, word: string)
    requires dow < 7
    ensures IsDayName(Compose.DAYS_OF_WEEK[dow]) && IsDayName(word + ",")
  {
  }

  lemma DigitsAreWord(digits: string)
    requires AllDigits(digits) && digits != ""
    ensures PlainWord(digits) && PlainWord("-" + digits)
    ensures digits[0] != '-' && digits[0] != '+'
  {
  }

  lemma NumberOfTwoDigits(n: nat)
    ensures AllDigits(Compose.TwoDigits(n)) && Compose.TwoDigits(n) != ""
    ensures Number(Compose.TwoDigits(n)) == Some(n)
  {
    ValueOfDecimal(n);
    if n < 10 {
      var s := "0" + Decimal(n);
      assert s[..1] == "0";
      assert s == ['0', Digit(n)];
      assert Value("0") == 0;
    }
  }

  lemma {:induction false} SplitOfParts(part: string, rest: string)
    requires AllDigits(part)
    ensures Split(part + ":" + rest, ':') == [part] + Split(rest, ':')
    ensures Split(part, ':') == [part]
  {
    var s := part + ":" + rest;
    var i := Find(s, ':');
    assert s[|part|] == ':';
    assert forall k :: 0 <= k < |part| ==> s[k] == part[k] && part[k] != ':';
    assert i == |part|;
    assert s[..i] == part && s[i + 1..] == rest;
  }

  lemma PartsOf(h: string, m: string, s: string)
    requires AllDigits(h) && AllDigits(m) && AllDigits(s)
    ensures Split(h + ":" + m + ":" + s, ':') == [h, m, s]
  {
    assert h + ":" + m + ":" + s == h + ":" + (m + ":" + s);
    SplitOfParts(h, m + ":" + s);
    SplitOfParts(m, s);
    SplitOfParts(s, "");
  }

  lemma ClockParts(h: nat, m: nat, s: nat)
    ensures Split(Compose.ClockOf(h, m, s), ':') == [Compose.TwoDigits(h), Compose.TwoDigits(m), Compose.TwoDigits(s)]
  {
    NumberOfTwoDigits(h);
    NumberOfTwoDigits(m);
    NumberOfTwoDigits(s);
    PartsOf(Compose.TwoDigits(h), Compose.TwoDigits(m), Compose.TwoDigits(s));
  }

  lemma DigitsAreWords(h: string, m: string, s: string)
    requires AllDigits(h) && AllDigits(m) && AllDigits(s)
    ensures IsWord(h + ":" + m + ":" + s) && '(' !in h + ":" + m + ":" + s
  {
  }

  lemma ClockIsWord(h: nat, m: nat, s: nat)
    ensures IsWord(Compose.ClockOf(h, m, s)) && '(' !in Compose.ClockOf(h, m, s)
  {
    NumberOfTwoDigits(h);
    NumberOfTwoDigits(m);
    NumberOfTwoDigits(s);
    DigitsAreWords(Compose.TwoDigits(h), Compose.TwoDigits(m), Compose.TwoDigits(s));
  }

  lemma MonthsDiffer(l: string, m: nat, k: nat)
    requires 1 <= k <= m <= 12 && MonthName(m) <= l
    ensures MonthFrom(l, k) == Some(m)
    decreases m - k
  {
    if k < m {
      assert MonthName(k) != MonthName(m);
      PrefixIs(MonthName(k), l);
      PrefixIs(MonthName(m), l);
      MonthsDiffer(l, m, k + 1);
    }
  }

  lemma PrefixIs(prefix: string, l: string)
    ensures prefix <= l <==> |prefix| <= |l| && l[..|prefix|] == prefix
  {
  }

  lemma {:induction false} MonthFound(l: string, k: nat)
    requires 1 <= k <= 13
    ensures var r := MonthFrom(l, k); r.Some? ==> k <= r.value <= 12 && MonthName(r.value) <= l
    decreases 13 - k
  {
    if k < 13 {
      MonthFound(l, k + 1);
    }
  }

  lemma MonthNamesAreLower(m: nat)
    requires 1 <= m <= 12
    ensures Lower(Compose.MONTHS[m - 1]) == MonthName(m)
  {
  }

  /** A word is a month by its first three letters, whatever their case. */
  lemma MonthIsReadIff(word: string, m: nat)
    requires 1 <= m <= 12
    ensures MonthNum(word) == Some(m) <==> |word| >= 3 && Lower(word[..3]) == Lower(Compose.MONTHS[m - 1])
  {
    var l := Lower(word);
    MonthNamesAreLower(m);
    MonthFound(l, 1);
    assert |word| >= 3 ==> l[..3] == Lower(word[..3]);
    if MonthName(m) <= l {
      MonthsDiffer(l, m, 1);
    }
  }

  lemma MonthReadsBack(m: nat)
    requires 1 <= m <= 12
    ensures MonthNum(Compose.MONTHS[m - 1]) == Some(m)
  {
    var word := Compose.MONTHS[m - 1];
    assert |word| == 3;
    assert word[..3] == word;
    MonthIsReadIff(word, m);
  }

  // ----- zones -----

  /** Seconds east of Greenwich; a zone that is missing or unknown counts as none. */
  function OffsetOf(zone: string): int {
    if zone != "" && ZoneOffset(zone).Some? then ZoneOffset(zone).value else 0
  }

  /** Hours and minutes ahead of universal time or behind it (section 3.3 of RFC 5322). */
  function ZoneText(ahead: bool, h: nat, m: nat): string {
    [if ahead then '+' else '-'] + Compose.TwoDigits(h) + Compose.TwoDigits(m)
  }

  lemma TwoDigitsAreTwo(n: nat)
    requires n < 100
    ensures |Compose.TwoDigits(n)| == 2
  {
    if n >= 10 {
      assert Decimal(n / 10) == [Digit(n / 10)];
    }
  }

  /** A numeric zone is read as what it says. */
  lemma NumericZone(ahead: bool, h: nat, m: nat)
    requires h < 100 && m < 100
    ensures var zone := ZoneText(ahead, h, m);
      && PlainWord(zone)
      && OffsetOf(zone) == if ahead then 3600 * h + 60 * m else -3600 * h - 60 * m
  {
    NumberOfTwoDigits(h);
    NumberOfTwoDigits(m);
    TwoDigitsAreTwo(h);
    TwoDigitsAreTwo(m);
    DigitsAreWord(Compose.TwoDigits(h) + Compose.TwoDigits(m));
    SignedZone(if ahead then '+' else '-', Compose.TwoDigits(h), Compose.TwoDigits(m), h, m);
  }

  lemma SignedZone(sign: char, hours: string, minutes: string, h: nat, m: nat)
    requires (sign == '+' || sign == '-') && |hours| == |minutes| == 2
    requires AllDigits(hours) && AllDigits(minutes)
    requires Number(hours) == Some(h) && Number(minutes) == Some(m)
    ensures var zone := [sign] + hours + minutes;
      && PlainWord(zone)
      && ZoneOffset(zone) == Some(if sign == '+' then 3600 * h + 60 * m else -3600 * h - 60 * m)
  {
    var zone := [sign] + hours + minutes;
    assert PlainWord(zone);
    TrimKeeps(zone);
    assert zone[1..] == hours + minutes;
    var digits := hours + minutes;
    assert digits[..2] == hours && digits[2..4] == minutes;
  }

  /** The named zones, in any letter case, are numeric ones: hours behind universal time. */
  function HoursBehind(name: string): Option<nat> {
    if name == "UT" || name == "UTC" || name == "GMT" || name == "Z" then Some(0)
    else if name == "EDT" then Some(4)
    else if name == "EST" || name == "CDT" then Some(5)
    else if name == "CST" || name == "MDT" then Some(6)
    else if name == "MST" || name == "PDT" then Some(7)
    else if name == "PST" then Some(8)
    else None
  }

  predicate Unsigned(zone: string) {
    zone == "" || (zone[0] != '+' && zone[0] != '-')
  }

  lemma NameOffset(name: string)
    ensures NamedOffset(name) ==
      match HoursBehind(name)
      case Some(h) => Some(-3600 * h)
      case None => None
  {
  }

  lemma NamedZone(zone: string)
    requires IsWord(zone) && Unsigned(zone)
    ensures OffsetOf(zone) ==
      match HoursBehind(Upper(zone))
      case Some(h) => -3600 * h
      case None => 0
  {
    TrimKeeps(zone);
    NameOffset(Upper(zone));
  }

  /** A sign without four digits behind it says nothing. */
  lemma BrokenZone(sign: char, rest: string)
    requires sign == '+' || sign == '-'
    requires IsWord([sign] + rest)
    requires |rest| < 4 || Number(rest[..2]) == None || Number(rest[2..4]) == None
    ensures OffsetOf([sign] + rest) == 0
  {
    var zone := [sign] + rest;
    TrimKeeps(zone);
    assert zone[1..] == rest;
  }

  /** A zone as a date can name it: hours and minutes, a name, something with a sign that is
      neither, or nothing. */
  datatype Zone =
    | Numeric(ahead: bool, h: nat, m: nat)
    | Named(name: string)
    | Broken(sign: char, rest: string)
    | NoZone

  function ZoneWord(z: Zone): string {
    match z
    case Numeric(ahead, h, m) => ZoneText(ahead, h, m)
    case Named(name) => name
    case Broken(sign, rest) => [sign] + rest
    case NoZone => ""
  }

  predicate ProperZone(z: Zone) {
    match z
    case Numeric(_, h, m) => h < 100 && m < 100
    case Named(name) => PlainWord(name) && Unsigned(name)
    case Broken(sign, rest) =>
      && (sign == '+' || sign == '-') && PlainWord([sign] + rest)
      && (|rest| < 4 || Number(rest[..2]) == None || Number(rest[2..4]) == None)
    case NoZone => true
  }

  /** The seconds its clocks are ahead of universal time. */
  function Ahead(z: Zone): int {
    match z
    case Numeric(ahead, h, m) => if ahead then 3600 * h + 60 * m else -3600 * h - 60 * m
    case Named(name) =>
      (match HoursBehind(Upper(name))
       case Some(h) => -3600 * h
       case None => 0)
    case Broken(_, _) => 0
    case NoZone => 0
  }

  lemma ZoneIsRead(z: Zone)
    requires ProperZone(z)
    ensures OffsetOf(ZoneWord(z)) == Ahead(z)
    ensures ZoneWord(z) == "" || PlainWord(ZoneWord(z))
  {
    match z
    case Numeric(ahead, h, m) => NumericZone(ahead, h, m);
    case Named(name) => NamedZone(name);
    case Broken(sign, rest) => BrokenZone(sign, rest);
    case NoZone =>
  }

  // ----- dates in words -----

  /** A date in words. The name of the day and the comment can be empty. */
  datatype Wording = Wording(
    dayName: string,
    day: string,
    month: string,
    year: string,
    clock: string,
    zone: Zone,
    comment: string)

  function Optional(word: string): seq<string> {
    if word == "" then [] else [word]
  }

  function Spelled(w: Wording): seq<string> {
    Optional(w.dayName) + [w.day, w.month, w.year, w.clock] + Optional(ZoneWord(w.zone))
  }

  /** The text of the header. */
  function TextOf(w: Wording): string {
    Compose.Spoken(Spelled(w)) + if w.comment == "" then "" else " (" + w.comment
  }

  predicate WellWorded(w: Wording) {
    && (w.dayName == "" || (PlainWord(w.dayName) && IsDayName(w.dayName)))
    && PlainWord(w.day) && PlainWord(w.month) && PlainWord(w.year) && PlainWord(w.clock)
    && (w.dayName == "" ==> !IsDayName(w.day))
    && ProperZone(w.zone)
  }

  lemma {:induction false} WordsIgnoreBlank(s: string)
    ensures Words(s + " ") == Words(s)
    decreases |s|
  {
    TrimStartOfBoth(s, " ");
    assert TrimStart(" ") == TrimStart(" "[1..]) == "";
    var t := TrimStart(s);
    if t != "" {
      var e := FindWhite(t);
      var u := t + " ";
      assert TrimStart(s + " ") == u;
      NextWordOf(t[..e], t[e..] + " ");
      assert t[..e] + (t[e..] + " ") == u;
      assert NextWord(s) == Some((t[..e], t[e..]));
      assert u[..FindWhite(u)] == t[..e] && u[FindWhite(u)..] == t[e..] + " " by {
        assert u[0] == t[0];
        assert TrimStart(u) == u;
      }
      assert NextWord(s + " ") == Some((t[..e], t[e..] + " "));
      WordsIgnoreBlank(t[e..]);
    }
  }

  lemma CommentIsDropped(s: string, comment: string)
    requires '(' !in s
    ensures WordsIn(s + " (" + comment) == Words(s) == WordsIn(s)
  {
    var text := s + " (" + comment;
    assert text[|s| + 1] == '(';
    assert forall k :: 0 <= k < |s| ==> text[k] == s[k] && s[k] in s;
    assert Find(text, '(') == |s| + 1;
    assert text[..|s| + 1] == s + " ";
    WordsIgnoreBlank(s);
    assert Find(s, '(') == |s| && s[..|s|] == s;
  }

  lemma WordsOfWording(w: Wording)
    requires WellWorded(w)
    ensures WordsIn(TextOf(w)) == Spelled(w)
  {
    var words := Spelled(w);
    ZoneIsRead(w.zone);
    assert forall i :: 0 <= i < |words| ==> PlainWord(words[i]);
    var text := Compose.Spoken(words);
    NoParenthesis(words);
    WordsOfSpoken(words);
    CommentIsDropped(text, w.comment);
    if w.comment == "" {
      assert TextOf(w) == text;
    } else {
      assert TextOf(w) == text + " (" + w.comment;
    }
  }

  lemma WordsAssembled(dayName: string, day: string, month: string, year: string, clock: string, zone: string)
    requires dayName == "" || IsDayName(dayName)
    requires dayName == "" ==> !IsDayName(day)
    ensures ParseWords(Optional(dayName) + [day, month, year, clock] + Optional(zone))
         == Assembled(Number(day), MonthNum(month), Number(year), clock, OffsetOf(zone))
  {
    var w := [day, month, year, clock] + Optional(zone);
    var words := Optional(dayName) + [day, month, year, clock] + Optional(zone);
    if dayName == "" {
      assert words == w;
    } else {
      assert words[0] == dayName && words[1..] == w;
    }
  }

  /** What is read from a date in words: its numbers, its month and its clock, and the offset
      of its zone. The name of the day and a comment do not count. */
  lemma WordingIsRead(w: Wording)
    requires WellWorded(w)
    ensures ParseStamp(TextOf(w))
         == Assembled(Number(w.day), MonthNum(w.month), Number(w.year), w.clock, Ahead(w.zone))
  {
    WordsOfWording(w);
    WordsAssembled(w.dayName, w.day, w.month, w.year, w.clock, ZoneWord(w.zone));
    ZoneIsRead(w.zone);
  }

  lemma ParseByStamp(value: string, stamp: Option<Stamp>)
    requires ParseStamp(value) == stamp
    ensures Parse(value) == match stamp case Some(st) => Some(Epoch(st)) case None => None
  {
  }

  /** Only what the clocks of the zone are ahead counts: a named zone reads as the numeric one,
      and one that is missing, unknown or broken as universal time. */
  lemma ZonesReadAlike(w: Wording, zone: Zone)
    requires WellWorded(w) && ProperZone(zone) && Ahead(zone) == Ahead(w.zone)
    ensures Parse(TextOf(w)) == Parse(TextOf(w.(zone := zone)))
  {
    WordingIsRead(w);
    WordingIsRead(w.(zone := zone));
  }

  // ----- numbers and clocks -----

  lemma TimedByParts(day: int, month: int, year: int, parts: seq<string>, h: nat, m: nat, s: nat, offset: int)
    requires |parts| >= 2 && Number(parts[0]) == Some(h) && Number(parts[1]) == Some(m)
    requires s == if |parts| > 2 && Number(parts[2]).Some? then Number(parts[2]).value else 0
    ensures Timed(day, month, year, parts, offset) ==
      if 1 <= day <= 31 && h <= 24 && m <= 59 && s <= 60
      then Some(Stamp(Date(FullYear(year), month, day), h * 3600 + m * 60 + s - offset))
      else None
  {
  }

  /** Numbers in words are put together as they are, and refused exactly if the day, the hour,
      the minute or the second is none. */
  lemma NumbersAssembled(day: int, month: int, year: int, h: nat, m: nat, s: nat, offset: int)
    ensures Assembled(Some(day), Some(month), Some(year), Compose.ClockOf(h, m, s), offset) ==
      if 1 <= day <= 31 && h <= 24 && m <= 59 && s <= 60
      then Some(Stamp(Date(FullYear(year), month, day), h * 3600 + m * 60 + s - offset))
      else None
  {
    var parts := [Compose.TwoDigits(h), Compose.TwoDigits(m), Compose.TwoDigits(s)];
    ClockParts(h, m, s);
    NumberOfTwoDigits(h);
    NumberOfTwoDigits(m);
    NumberOfTwoDigits(s);
    TimedByParts(day, month, year, parts, h, m, s, offset);
  }

  /** Without seconds it is the full minute. */
  lemma SecondsAreOptional(day: int, month: int, year: int, h: nat, m: nat, offset: int)
    ensures Assembled(Some(day), Some(month), Some(year), Compose.TwoDigits(h) + ":" + Compose.TwoDigits(m), offset)
         == Assembled(Some(day), Some(month), Some(year), Compose.ClockOf(h, m, 0), offset)
  {
    var hours, minutes := Compose.TwoDigits(h), Compose.TwoDigits(m);
    NumberOfTwoDigits(h);
    NumberOfTwoDigits(m);
    SplitOfParts(hours, minutes);
    SplitOfParts(minutes, "");
    TimedByParts(day, month, year, [hours, minutes], h, m, 0, offset);
    NumbersAssembled(day, month, year, h, m, 0, offset);
  }

  /** A year of two digits is the one of 1950 to 2049 that ends with them. */
  lemma TwoDigitYears(year: int)
    ensures 0 <= year < 100 ==> 1950 <= FullYear(year) <= 2049 && FullYear(year) % 100 == year
    ensures !(0 <= year < 100) ==> FullYear(year) == year
  {
  }

  lemma DayNamesAndMonths(dow: nat, m: nat)
    requires dow < 7 && 1 <= m <= 12
    ensures PlainWord(Compose.DAYS_OF_WEEK[dow]) && PlainWord(Compose.MONTHS[m - 1])
  {
  }

  function Later(date: Date): Date {
    Date(FullYear(date.year), date.month, date.day)
  }

  lemma Seconds(rem: nat)
    requires rem < 86400
    ensures rem / 3600 < 24 && rem % 3600 / 60 < 60 && rem % 60 < 60
    ensures rem / 3600 * 3600 + rem % 3600 / 60 * 60 + rem % 60 == rem
  {
  }

  // ----- local times -----

  lemma DayIsNoName(day: nat)
    ensures PlainWord(Compose.Signed(day)) && !IsDayName(Compose.Signed(day))
  {
    NumberOfSigned(day);
    var digits := Decimal(day);
    assert '0' <= digits[0] <= '9' && '0' <= Last(digits) <= '9';
  }

  predicate IsName(word: string) {
    word == "" || (PlainWord(word) && IsDayName(word))
  }

  /** A date and the seconds since its midnight, in words. */
  predicate Tells(w: Wording, date: Date, rem: nat) {
    && WellWorded(w)
    && Number(w.day) == Some(date.day) && MonthNum(w.month) == Some(date.month) && Number(w.year) == Some(date.year)
    && w.clock == Compose.Clock(rem)
  }

  lemma LocalTells(dayName: string, month: string, date: Date, rem: nat, zone: Zone, comment: string)
    requires IsName(dayName) && PlainWord(month) && MonthNum(month) == Some(date.month)
    requires 1 <= date.day && ProperZone(zone)
    ensures Tells(Wording(dayName, Compose.Signed(date.day), month, Compose.Signed(date.year), Compose.Clock(rem), zone, comment),
                  date, rem)
  {
    DayIsNoName(date.day);
    NumberOfSigned(date.day);
    NumberOfSigned(date.year);
    ClockIsWord(rem / 3600, rem % 3600 / 60, rem % 60);
  }

  lemma ClockText(rem: nat, h: nat, m: nat, s: nat)
    requires h == rem / 3600 && m == rem % 3600 / 60 && s == rem % 60
    ensures Compose.Clock(rem) == Compose.ClockOf(h, m, s)
  {
  }

  lemma ClockIsAssembled(date: Date, rem: nat, offset: int)
    requires 1 <= date.day <= 31 && rem < 86400
    ensures Assembled(Some(date.day), Some(date.month), Some(date.year), Compose.Clock(rem), offset)
         == Some(Stamp(Later(date), rem - offset))
  {
    var h, m, s := rem / 3600, rem % 3600 / 60, rem % 60;
    Seconds(rem);
    ClockText(rem, h, m, s);
    NumbersAssembled(date.day, date.month, date.year, h, m, s, offset);
  }

  lemma ToldIsRead(w: Wording, date: Date, rem: nat, offset: int)
    requires Tells(w, date, rem) && 1 <= date.day <= 31 && rem < 86400 && Ahead(w.zone) == offset
    ensures ParseStamp(TextOf(w)) == Some(Stamp(Later(date), rem - offset))
  {
    calc {
      ParseStamp(TextOf(w));
      { WordingIsRead(w); }
      Assembled(Number(w.day), MonthNum(w.month), Number(w.year), w.clock, offset);
      Assembled(Some(date.day), Some(date.month), Some(date.year), Compose.Clock(rem), offset);
      { ClockIsAssembled(date, rem, offset); }
      Some(Stamp(Later(date), rem - offset));
    }
  }

  /** Adding centuries to a two-digit year gives another day. */
  lemma FullYearIsLater(date: Date)
    requires Valid(date)
    ensures DaysFromCivil(FullYear(date.year), date.month, date.day) == DaysFromCivil(date.year, date.month, date.day)
       <==> !(0 <= date.year < 100)
  {
    if 0 <= date.year < 100 {
      assert Leap(date.year) ==> Leap(FullYear(date.year));
      assert Valid(Later(date));
      DateRoundTrip(date);
      DateRoundTrip(Later(date));
    }
  }

  lemma LaterEpoch(days: int, rem: int, date: Date)
    requires Valid(date) && DaysFromCivil(date.year, date.month, date.day) == days
    ensures Epoch(Stamp(Later(date), rem)) == days * 86400 + rem <==> !(0 <= date.year < 100)
  {
    FullYearIsLater(date);
  }

  lemma ToldIsParsed(w: Wording, date: Date, rem: nat, stamp: Stamp)
    requires Tells(w, date, rem) && 1 <= date.day <= 31 && rem < 86400
    requires stamp == Stamp(Later(date), rem - Ahead(w.zone))
    ensures Parse(TextOf(w)) == Some(Epoch(stamp))
  {
    ToldIsRead(w, date, rem, Ahead(w.zone));
    ParseByStamp(TextOf(w), Some(stamp));
  }

  lemma DayEpoch(days: int, local: int, date: Date, stamp: Stamp)
    requires date == CivilFromDays(days) && stamp == Stamp(Later(date), local)
    ensures 1 <= date.day <= 31
    ensures Epoch(stamp) == days * 86400 + local <==> !(0 <= date.year < 100)
  {
    DayRoundTrip(days);
    LaterEpoch(days, local, date);
  }

  lemma DayIsReadIff(w: Wording, days: int, date: Date, rem: nat)
    requires Tells(w, date, rem) && rem < 86400 && date == CivilFromDays(days)
    ensures Parse(TextOf(w)) == Some(days * 86400 + rem - Ahead(w.zone)) <==> !(0 <= date.year < 100)
  {
    var stamp := Stamp(Later(date), rem - Ahead(w.zone));
    DayEpoch(days, rem - Ahead(w.zone), date, stamp);
    ToldIsParsed(w, date, rem, stamp);
  }

  /** An instant in words, as the local time of any zone, with or without the name of the day
      and a comment, is read as that instant, exactly if the local year has no two digits. */
  lemma LocalTimeIsReadIff(w: Wording, instant: int, local: int, date: Date)
    requires local == instant + Ahead(w.zone)
    requires date == CivilFromDays(local / 86400) && Tells(w, date, local % 86400)
    ensures Parse(TextOf(w)) == Some(instant) <==> !(0 <= date.year < 100)
  {
    assert local / 86400 * 86400 + local % 86400 == local;
    DayIsReadIff(w, local / 86400, date, local % 86400);
  }

  // ----- what the client writes -----

  /** The client writes the name of the day, and universal time. */
  function ClientWording(dayName: string, month: string, date: Date, rem: nat): Wording {
    Wording(dayName + ",", Compose.Signed(date.day), month, Compose.Signed(date.year), Compose.Clock(rem),
            Numeric(true, 0, 0), "")
  }

  lemma UniversalTime()
    ensures ZoneWord(Numeric(true, 0, 0)) == "+0000"
  {
    assert Decimal(0) == "0";
  }

  lemma WrittenWording(dayName: string, month: string, date: Date, rem: nat)
    ensures Compose.DateText(dayName, month, date, rem) == TextOf(ClientWording(dayName, month, date, rem))
  {
    var w := ClientWording(dayName, month, date, rem);
    UniversalTime();
    assert Spelled(w) == Compose.DateWords(dayName, date.day, month, date.year, Compose.Clock(rem));
    assert Compose.Spoken(Spelled(w)) + "" == Compose.Spoken(Spelled(w));
  }

  lemma NamedDay(dayName: string)
    requires PlainWord(dayName)
    ensures IsName(dayName + ",")
  {
  }

  lemma ClientTells(dayName: string, month: string, date: Date, rem: nat) returns (w: Wording)
    requires PlainWord(dayName) && PlainWord(month) && MonthNum(month) == Some(date.month) && 1 <= date.day
    ensures Tells(w, date, rem) && Ahead(w.zone) == 0
    ensures Compose.DateText(dayName, month, date, rem) == TextOf(w)
  {
    NamedDay(dayName);
    LocalTells(dayName + ",", month, date, rem, Numeric(true, 0, 0), "");
    WrittenWording(dayName, month, date, rem);
    w := ClientWording(dayName, month, date, rem);
  }

  lemma WrittenText(nowMs: int, days: int, rem: nat, date: Date)
    requires days == nowMs / 1000 / 86400 && rem == nowMs / 1000 % 86400 && date == CivilFromDays(days) && Valid(date)
    ensures Compose.Rfc5322Date(nowMs)
         == Compose.DateText(Compose.DAYS_OF_WEEK[days % 7], Compose.MONTHS[date.month - 1], date, rem)
  {
  }

  lemma ClientWrites(nowMs: int, days: int, rem: nat, date: Date) returns (w: Wording)
    requires days == nowMs / 1000 / 86400 && rem == nowMs / 1000 % 86400 && date == CivilFromDays(days) && Valid(date)
    ensures Compose.Rfc5322Date(nowMs) == TextOf(w)
    ensures Tells(w, date, rem) && Ahead(w.zone) == 0
  {
    DayNamesAndMonths(days % 7, date.month);
    MonthReadsBack(date.month);
    WrittenText(nowMs, days, rem, date);
    w := ClientTells(Compose.DAYS_OF_WEEK[days % 7], Compose.MONTHS[date.month - 1], date, rem);
  }

  /** The time that was written comes back to the second, exactly if its year has no two
      digits. */
  lemma DateReadsBackIff(nowMs: int)
    ensures Parse(Compose.Rfc5322Date(nowMs)) == Some(nowMs / 1000)
       <==> !(0 <= CivilFromDays(nowMs / 1000 / 86400).year < 100)
  {
    var secs := nowMs / 1000;
    var date := CivilFromDays(secs / 86400);
    assert Valid(date) by {
      DayRoundTrip(secs / 86400);
    }
    var w := ClientWrites(nowMs, secs / 86400, secs % 86400, date);
    LocalTimeIsReadIff(w, secs, secs, date);
  }
}
