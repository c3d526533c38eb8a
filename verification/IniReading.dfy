/** How any line of an ini text is read, and what a rewrite leaves of it
    (crates/stmp2log/src/config.rs). */
module IniReading {
  import opened IniText
  import opened TextLaws
  import opened Texts
  import opened Wrappers
  import IniSettings

  predicate AllBom(s: string) {
    forall i :: 0 <= i < |s| ==> s[i] == BOM
  }

  predicate AllQuotes(s: string) {
    forall i :: 0 <= i < |s| ==> IsQuote(s[i])
  }

  predicate Uncommented(s: string) {
    '#' !in s && ';' !in s
  }

  /** A text without blanks around it that is not empty. */
  predicate Core(s: string) {
    s != "" && !IsWhite(s[0]) && !IsWhite(Last(s))
  }

  // ----- bare lines -----

  lemma {:induction false} BomsAreTrimmed(boms: string, s: string)
    requires AllBom(boms) && (s == "" || s[0] != BOM)
    ensures TrimBom(boms + s) == s
  {
    if boms == "" {
      assert boms + s == s;
    } else {
      assert (boms + s)[1..] == boms[1..] + s;
      BomsAreTrimmed(boms[1..], s);
    }
  }

  lemma BomIsNoBlank()
    ensures !IsWhite(BOM)
  {
  }

  /** Byte-order marks in front and blanks around do not count. */
  lemma BareIs(boms: string, gap: string, s: string, tail: string)
    requires AllBom(boms) && AllWhite(gap) && AllWhite(tail) && Core(s)
    requires gap == "" ==> s[0] != BOM
    ensures Bare(boms + (gap + s + tail)) == s
  {
    var rest := gap + s + tail;
    BomIsNoBlank();
    assert rest[0] == if gap == "" then s[0] else gap[0];
    BomsAreTrimmed(boms, rest);
    TrimBetween(gap, s, tail);
  }

  // ----- values -----

  lemma {:induction false} QuotesBefore(quotes: string, s: string)
    requires AllQuotes(quotes) && (s == "" || !IsQuote(s[0]))
    ensures TrimQuotesStart(quotes + s) == s
  {
    if quotes == "" {
      assert quotes + s == s;
    } else {
      assert (quotes + s)[1..] == quotes[1..] + s;
      QuotesBefore(quotes[1..], s);
    }
  }

  lemma {:induction false} QuotesBehind(s: string, quotes: string)
    requires AllQuotes(quotes) && (s == "" || !IsQuote(Last(s)))
    ensures TrimQuotesEnd(s + quotes) == s
  {
    if quotes == "" {
      assert s + quotes == s;
    } else {
      assert (s + quotes)[..|s + quotes| - 1] == s + quotes[..|quotes| - 1];
      QuotesBehind(s, quotes[..|quotes| - 1]);
    }
  }

  /** A value in quotes or without, blanks around the quotes, and a comment or nothing. */
  datatype Value = Value(gap: string, open: string, text: string, close: string, tail: string, comment: string)

  function Spelled(v: Value): string {
    v.gap + (v.open + v.text + v.close) + v.tail
  }

  function ValueText(v: Value): string {
    Spelled(v) + v.comment
  }

  predicate StartsComment(s: string) {
    s == "" || s[0] == '#' || s[0] == ';'
  }

  predicate ProperValue(v: Value) {
    && AllWhite(v.gap) && AllWhite(v.tail) && AllQuotes(v.open) && AllQuotes(v.close)
    && Uncommented(v.text) && v.text != "" && !IsQuote(v.text[0]) && !IsQuote(Last(v.text))
    && (v.open == "" ==> !IsWhite(v.text[0])) && (v.close == "" ==> !IsWhite(Last(v.text)))
    && StartsComment(v.comment)
  }

  lemma NoSigns(v: Value)
    requires ProperValue(v)
    ensures Uncommented(Spelled(v))
  {
  }

  lemma CommentBegins(s: string, comment: string)
    requires Uncommented(s) && StartsComment(comment)
    ensures CommentAt(s + comment) == |s| && (s + comment)[..|s|] == s && (s + comment)[|s|..] == comment
  {
    var rest := s + comment;
    assert forall k :: 0 <= k < |s| ==> rest[k] == s[k] && s[k] in s;
    assert comment != "" ==> rest[|s|] == comment[0];
  }

  lemma QuotedCore(v: Value)
    requires ProperValue(v)
    ensures Core(v.open + v.text + v.close)
    ensures TrimQuotesEnd(TrimQuotesStart(v.open + v.text + v.close)) == v.text
  {
    var inner := v.text + v.close;
    assert v.open + v.text + v.close == v.open + inner;
    assert inner[0] == v.text[0];
    QuotesBefore(v.open, inner);
    QuotesBehind(v.text, v.close);
  }

  /** A value is the text between its quotes, whose blanks stay, or without the blanks around
      it, and in either case without the comment. */
  lemma ValueIsRead(v: Value)
    requires ProperValue(v)
    ensures StripComment(ValueText(v)) == v.text
  {
    NoSigns(v);
    CommentBegins(Spelled(v), v.comment);
    QuotedCore(v);
    TrimBetween(v.gap, v.open + v.text + v.close, v.tail);
  }

  lemma EmptyValueIsRead(gap: string, quotes: string, tail: string, comment: string)
    requires AllWhite(gap) && AllQuotes(quotes) && AllWhite(tail) && StartsComment(comment)
    ensures StripComment(gap + quotes + tail + comment) == ""
  {
    CommentBegins(gap + quotes + tail, comment);
    QuotesBefore(quotes, "");
    assert quotes + "" == quotes;
    if quotes == "" {
      assert gap + quotes + tail == gap + tail;
      TrimOfBlank(gap + tail);
    } else {
      TrimBetween(gap, quotes, tail);
    }
  }

  // ----- lines -----

  /** A setting as a person writes it: byte-order marks, name and value with blanks around
      them, and a comment or nothing. */
  datatype Line = Line(boms: string, gap: string, name: string, space: string, rest: string, tail: string)

  function LineText(l: Line): string {
    l.boms + (l.gap + (l.name + (l.space + ['='] + l.rest)) + l.tail)
  }

  predicate ProperLine(l: Line) {
    && AllBom(l.boms) && AllWhite(l.gap) && AllWhite(l.space) && AllWhite(l.tail)
    && Core(l.name) && '=' !in l.name && l.name[0] != '#' && l.name[0] != ';' && l.name[0] != BOM && l.name[0] != '['
    && (l.rest == "" || !IsWhite(Last(l.rest)))
  }

  function Middle(l: Line): string {
    l.name + (l.space + ['='] + l.rest)
  }

  lemma MiddleIs(l: Line)
    requires ProperLine(l)
    ensures Core(Middle(l)) && Middle(l)[0] == l.name[0]
    ensures Bare(LineText(l)) == Middle(l)
  {
    var m := Middle(l);
    assert m[0] == l.name[0];
    assert Last(m) == if l.rest == "" then '=' else Last(l.rest);
    BareIs(l.boms, l.gap, m, l.tail);
  }

  lemma NameEnds(l: Line)
    requires ProperLine(l)
    ensures var m := Middle(l);
      && Find(m, '=') == |l.name| + |l.space| < |m|
      && m[..Find(m, '=')] == l.name + l.space
      && m[Find(m, '=') + 1..] == l.rest
      && KeyIn(m) == Lower(l.name)
  {
    var head := l.name + l.space;
    var m := Middle(l);
    assert m == head + ['='] + l.rest;
    assert '=' !in head by {
      assert forall i :: 0 <= i < |l.space| ==> l.space[i] != '=';
    }
    FindBehind(head, '=', l.rest);
    assert m[..|head|] == head && m[|head| + 1..] == l.rest;
    TrimBetween("", l.name, l.space);
    assert "" + l.name + l.space == head;
  }

  lemma FindBehind(s: string, c: char, rest: string)
    requires c !in s
    ensures Find(s + [c] + rest, c) == |s|
  {
    var whole := s + [c] + rest;
    assert whole[|s|] == c;
    assert forall k :: 0 <= k < |s| ==> whole[k] == s[k] && s[k] in s;
  }

  lemma LineParts(l: Line) returns (line: string)
    requires ProperLine(l)
    ensures Bare(LineText(l)) == line && !IsComment(line) && line[0] != '['
    ensures Find(line, '=') < |line| && KeyIn(line) == Lower(l.name) && line[Find(line, '=') + 1..] == l.rest
  {
    MiddleIs(l);
    NameEnds(l);
    line := Middle(l);
  }

  /** Such a line is an entry of its name, in small letters, and of its value. */
  lemma LineIsRead(l: Line)
    requires ProperLine(l)
    ensures EntryOf(LineText(l)) == Some(Entry(Lower(l.name), StripComment(l.rest)))
  {
    var line := LineParts(l);
  }

  /** Blank lines, comments, sections and lines without an equals sign are no entries. */
  lemma OtherLinesAreNot(raw: string)
    ensures Bare(raw) == "" ==> EntryOf(raw) == None
    ensures Bare(raw) != "" && Bare(raw)[0] in "#;" ==> EntryOf(raw) == None
    ensures Bare(raw) != "" && Bare(raw)[0] == '[' && Last(Bare(raw)) == ']' ==> EntryOf(raw) == None
    ensures '=' !in Bare(raw) ==> EntryOf(raw) == None
  {
    var line := Bare(raw);
    assert Find(line, '=') < |line| ==> line[Find(line, '=')] in line;
  }

  // ----- what a rewrite leaves of a line -----

  /** A line that no change names stays as it is, to the last character. */
  lemma OtherLinesStay(raw: string, changes: Changes)
    requires var line := Bare(raw);
      || line == "" || line[0] == '#' || line[0] == ';' || '=' !in line
      || ChangeFor(changes, KeyIn(line)) == None
    ensures NewLine(raw, changes) == raw
  {
    var line := Bare(raw);
    assert Find(line, '=') < |line| ==> line[Find(line, '=')] in line;
  }

  /** The first change of a name is the one that counts. */
  lemma {:induction false} FirstChangeCounts(before: Changes, change: (string, string), after: Changes)
    requires forall i :: 0 <= i < |before| ==> before[i].0 != change.0
    ensures ChangeFor(before + [change] + after, change.0) == Some(change)
  {
    var changes := before + [change] + after;
    if before == [] {
      assert changes[0] == change;
    } else {
      assert changes[0] == before[0] && changes[1..] == before[1..] + [change] + after;
      FirstChangeCounts(before[1..], change, after);
    }
  }

  lemma {:induction false} NoChange(changes: Changes, key: string)
    ensures ChangeFor(changes, key) == None <==> forall i :: 0 <= i < |changes| ==> changes[i].0 != key
  {
    if changes != [] {
      NoChange(changes[1..], key);
    }
  }

  lemma CommentIsKept(plain: string, comment: string)
    requires Uncommented(plain) && StartsComment(comment) && (comment == "" || !IsWhite(Last(comment)))
    ensures CommentIn(plain + comment) == if comment == "" then "" else " " + comment
  {
    CommentBegins(plain, comment);
  }

  /** The line of a changed setting becomes the setting, and keeps its comment behind one
      blank. */
  lemma ChangedLineIs(l: Line, plain: string, comment: string, changes: Changes, change: (string, string))
    requires ProperLine(l) && l.rest == plain + comment && Uncommented(plain) && StartsComment(comment)
    requires ChangeFor(changes, Lower(l.name)) == Some(change)
    ensures NewLine(LineText(l), changes)
         == Setting(change) + (if comment == "" then "" else " " + comment)
  {
    assert comment != "" ==> Last(comment) == Last(l.rest);
    CommentIsKept(plain, comment);
    LineIsHit(l, changes);
  }

  lemma LineIsHit(l: Line, changes: Changes)
    requires ProperLine(l)
    ensures Hit(LineText(l), changes) == ChangeFor(changes, Lower(l.name))
    ensures Find(Bare(LineText(l)), '=') < |Bare(LineText(l))|
    ensures Remark(Bare(LineText(l))) == CommentIn(l.rest)
  {
    var line := LineParts(l);
    HitIs(LineText(l), line, changes);
  }

  lemma HitIs(raw: string, line: string, changes: Changes)
    requires Bare(raw) == line && !IsComment(line) && Find(line, '=') < |line|
    ensures Hit(raw, changes) == ChangeFor(changes, KeyIn(line))
    ensures Remark(line) == CommentIn(line[Find(line, '=') + 1..])
  {
  }

  /** In the rewritten text every old line is in its place, changed or as it was. */
  lemma LinesKeepTheirPlaces(lines: seq<string>, changes: Changes, i: nat)
    requires i < |lines|
    ensures |UpdatedLines(lines, changes)| >= |lines|
    ensures UpdatedLines(lines, changes)[i] == NewLine(lines[i], changes)
  {
  }

  /** Settings that no line had come last, in their order, under a comment line, which is set
      off by an empty line from any text before it. */
  lemma MissingAreAppended(out: seq<string>, missing: Changes)
    requires missing != []
    ensures var added, k := Added(out, missing), if out == [] || AllWhite(Last(out)) then 0 else 1;
      && |added| == k + 1 + |missing|
      && (k == 1 ==> added[0] == "")
      && added[k] == Note()
      && forall i :: 0 <= i < |missing| ==> added[k + 1 + i] == Setting(missing[i])
  {
    if out != [] {
      BlankIsBlank(Last(out));
    }
  }

  // ----- what values mean -----

  /** The names of the settings in the file. */
  lemma KeysAreNamed(name: string)
    ensures IniSettings.KeyOf(name) ==
      if name == "max_entries" then Some(IniSettings.MaxEntries)
      else if name == "max_days" then Some(IniSettings.MaxDays)
      else if name == "keep_raw" then Some(IniSettings.KeepRaw)
      else if name == "keep_attachments" then Some(IniSettings.KeepAttachments)
      else if name == "retry_queue" then Some(IniSettings.RetryQueue)
      else if name == "web_url" then Some(IniSettings.WebUrl)
      else if name == "push_url" then Some(IniSettings.PushUrl)
      else if name == "stmp_hostname" then Some(IniSettings.Hostname)
      else if name == "stmp_user" then Some(IniSettings.User)
      else if name == "stmp_pass" then Some(IniSettings.Pass)
      else if name == "stmp_maxsize" then Some(IniSettings.MaxSize)
      else None
  {
    KeysFrom(name, 8);
    KeysFrom(name, 5);
    KeysFrom(name, 2);
    KeysFrom(name, 0);
  }

  lemma KeysFrom(name: string, i: nat)
    requires i + 3 <= 11
    ensures IniSettings.KeyFrom(name, i) ==
      if name == IniSettings.Name(IniSettings.KeyAt(i)) then Some(IniSettings.KeyAt(i))
      else if name == IniSettings.Name(IniSettings.KeyAt(i + 1)) then Some(IniSettings.KeyAt(i + 1))
      else if name == IniSettings.Name(IniSettings.KeyAt(i + 2)) then Some(IniSettings.KeyAt(i + 2))
      else IniSettings.KeyFrom(name, i + 3)
  {
  }

  lemma SetStaysPositive(c: IniSettings.Config, k: IniSettings.Key, value: string)
    requires c.maxEntries > 0
    ensures IniSettings.Set(c, k, value).maxEntries > 0
  {
  }

  lemma ApplyStaysPositive(c: IniSettings.Config, e: Entry)
    requires c.maxEntries > 0
    ensures IniSettings.Apply(c, e).maxEntries > 0
  {
    var k := IniSettings.KeyOf(e.key);
    if k.Some? {
      SetStaysPositive(c, k.value, e.value);
    }
  }

  lemma {:induction false} AppliedStaysPositive(c: IniSettings.Config, entries: seq<Entry>)
    requires c.maxEntries > 0
    ensures IniSettings.ApplyAll(c, entries).maxEntries > 0
  {
    if entries != [] {
      var init := entries[..|entries| - 1];
      AppliedStaysPositive(c, init);
      ApplyStaysPositive(IniSettings.ApplyAll(c, init), Last(entries));
    }
  }

  /** Whatever a file says, the store keeps at least one entry: a limit of zero, which would
      delete everything, is passed over. */
  lemma LimitStaysPositive(initial: IniSettings.Config, text: string)
    requires initial.maxEntries > 0
    ensures IniSettings.Parsed(initial, text).maxEntries > 0
  {
    AppliedStaysPositive(initial, Entries(Lines(text)));
  }

  /** And so is every number that is none or does not fit. */
  lemma NonsenseIsPassedOver(c: IniSettings.Config, k: IniSettings.Key, value: string)
    requires k.MaxEntries? || k.MaxDays? || k.RetryQueue? || k.MaxSize?
    requires IniSettings.Number(value, IniSettings.U64) == None && IniSettings.ParseSize(value) == None
    ensures IniSettings.Set(c, k, value) == c
  {
  }

  /** A number may have a plus sign. */
  lemma PlusIsAllowed(n: nat, limit: nat)
    ensures IniSettings.Number("+" + Decimal(n), limit) == IniSettings.Number(Decimal(n), limit)
    ensures IniSettings.Number(Decimal(n), limit) == if n < limit then Some(n) else None
  {
    IniSettings.DigitsStay(Decimal(n));
    ValueOfDecimal(n);
    assert ("+" + Decimal(n))[1..] == Decimal(n);
  }

  /** A switch is on for four words, in any letter case, and off for everything else. */
  lemma SwitchIsOnIff(gap: string, word: string, tail: string)
    requires AllWhite(gap) && AllWhite(tail) && Core(word)
    ensures IniSettings.IsTrue(gap + word + tail) <==> Lower(word) in {"1", "true", "yes", "on"}
  {
    TrimBetween(gap, word, tail);
  }

  lemma EmptySwitchIsOff(gap: string)
    requires AllWhite(gap)
    ensures !IniSettings.IsTrue(gap)
  {
    TrimOfBlank(gap);
  }

  lemma {:induction false} SlashesBehind(s: string, slashes: string)
    requires (forall i :: 0 <= i < |slashes| ==> slashes[i] == '/') && (s == "" || Last(s) != '/')
    ensures IniSettings.TrimSlashes(s + slashes) == s
  {
    if slashes == "" {
      assert s + slashes == s;
    } else {
      assert (s + slashes)[..|s + slashes| - 1] == s + slashes[..|slashes| - 1];
      SlashesBehind(s, slashes[..|slashes| - 1]);
    }
  }

  /** A unit in either letter case, or none. */
  predicate Unit(unit: string) {
    unit == "" || (|unit| == 1 && IniSettings.IsUnit(LowerChar(unit[0])))
  }

  function UnitSize(unit: string): nat
    requires Unit(unit)
  {
    if unit == "" then 1
    else if unit[0] == 'k' || unit[0] == 'K' then 1024
    else if unit[0] == 'm' || unit[0] == 'M' then 1024 * 1024
    else 1024 * 1024 * 1024
  }

  predicate Letters(b: string) {
    b == "" || (|b| == 1 && LowerChar(b[0]) == 'b')
  }

  /** A number of bytes, KiB, MiB or GiB, the unit in either letter case, with or without a
      `b`; a product beyond the machine word wraps around. */
  lemma SizeIsRead(n: nat, gap: string, unit: string, b: string, tail: string)
    requires n < IniSettings.U64 && AllWhite(gap) && AllWhite(tail) && Unit(unit) && Letters(b)
    ensures IniSettings.ParseSize(gap + (Decimal(n) + unit + b) + tail) == Some(n * UnitSize(unit) % IniSettings.U64)
  {
    SizeTextIs(Decimal(n), gap, unit, b, tail);
    NumberWithUnit(n, unit);
  }

  lemma UnitInAnyCase(unit: string, small: char)
    requires Unit(unit) && unit != "" && small == LowerChar(unit[0])
    ensures Unit([small]) && UnitSize([small]) == UnitSize(unit)
  {
  }

  lemma NumberWithUnit(n: nat, unit: string)
    requires n < IniSettings.U64 && Unit(unit)
    ensures IniSettings.ParseSizeText(Decimal(n) + Lower(unit)) == Some(n * UnitSize(unit) % IniSettings.U64)
  {
    var digits := Decimal(n);
    if unit == "" {
      assert digits + Lower(unit) == digits;
      NumberAlone(n);
    } else {
      var small := LowerChar(unit[0]);
      assert Lower(unit) == [small];
      UnitInAnyCase(unit, small);
      NumberIsScaled(n, small);
    }
  }

  lemma SizeTextIs(digits: string, gap: string, unit: string, b: string, tail: string)
    requires AllDigits(digits) && digits != "" && AllWhite(gap) && AllWhite(tail) && Unit(unit) && Letters(b)
    ensures IniSettings.SizeText(gap + (digits + unit + b) + tail) == digits + Lower(unit)
  {
    SizeIsCore(digits, unit, b);
    TrimBetween(gap, digits + unit + b, tail);
    LowerOfSize(digits, unit, b);
    WithoutB(digits + Lower(unit), Lower(b));
  }

  lemma SizeIsCore(digits: string, unit: string, b: string)
    requires AllDigits(digits) && digits != "" && Unit(unit) && Letters(b)
    ensures Core(digits + unit + b)
    ensures Core(digits + Lower(unit)) && Last(digits + Lower(unit)) != 'b'
  {
    IniSettings.DigitsStay(digits);
    var s, t := digits + unit + b, digits + Lower(unit);
    assert s[0] == digits[0] && t[0] == digits[0];
    assert Last(s) == if b != "" then b[0] else if unit != "" then unit[0] else Last(digits);
    assert Last(t) == if unit == "" then Last(digits) else LowerChar(unit[0]);
  }

  lemma LowerOfSize(digits: string, unit: string, b: string)
    requires AllDigits(digits) && digits != ""
    ensures Lower(digits + unit + b) == digits + Lower(unit) + Lower(b)
  {
    IniSettings.DigitsStay(digits);
    assert forall i :: 0 <= i < |digits| ==> Lower(digits)[i] == digits[i];
  }

  lemma WithoutB(text: string, b: string)
    requires Core(text) && Last(text) != 'b' && (b == "" || (|b| == 1 && b[0] == 'b'))
    ensures var lower := text + b;
      Trim(if lower != "" && Last(lower) == 'b' then lower[..|lower| - 1] else lower) == text
  {
    TrimKeeps(text);
    var lower := text + b;
    if b == "" {
      assert lower == text;
    } else {
      assert lower[..|lower| - 1] == text;
    }
  }

  lemma NumberAlone(n: nat)
    requires n < IniSettings.U64
    ensures IniSettings.ParseSizeText(Decimal(n)) == Some(n)
  {
    IniSettings.DigitsStay(Decimal(n));
    IniSettings.NumberOfDecimal(n, IniSettings.U64);
  }

  lemma NumberIsScaled(n: nat, unit: char)
    requires n < IniSettings.U64 && IniSettings.IsUnit(unit)
    ensures IniSettings.ParseSizeText(Decimal(n) + [unit]) == Some(n * UnitSize([unit]) % IniSettings.U64)
  {
    var digits := Decimal(n);
    var v := digits + [unit];
    IniSettings.DigitsStay(digits);
    IniSettings.NumberOfDecimal(n, IniSettings.U64);
    assert v[..|v| - 1] == digits;
    Wraps(n * UnitSize([unit]));
  }

  lemma Wraps(n: nat)
    ensures IniSettings.Word(n) == n % IniSettings.U64
  {
  }
}
