/** What `update` does to what `parse` reads, for every text. */
module IniLaws {
  import opened IniText
  import opened TextLaws
  import opened Texts
  import opened Wrappers

  predicate IsNameChar(c: char) {
    'a' <= c <= 'z' || c == '_'
  }

  predicate SafeName(name: string) {
    name != "" && forall i :: 0 <= i < |name| ==> IsNameChar(name[i])
  }

  predicate IsEdge(c: char) {
    !IsWhite(c) && !IsQuote(c)
  }

  /** A value without comment signs or line feeds, and without blanks or quotes at its
      ends. */
  predicate SafeValue(value: string) {
    && NoLf(value)
    && (forall i :: 0 <= i < |value| ==> value[i] != '#' && value[i] != ';')
    && (value == "" || (IsEdge(value[0]) && IsEdge(Last(value))))
  }

  predicate NoLf(line: string) {
    forall i :: 0 <= i < |line| ==> line[i] != '\n'
  }

  predicate AllNamed(changes: Changes) {
    forall i :: 0 <= i < |changes| ==> SafeName(changes[i].0)
  }

  /** At least one change, and each name once; the values may be anything. */
  predicate WellNamed(changes: Changes) {
    && changes != []
    && AllNamed(changes)
    && (forall i, j :: 0 <= i < j < |changes| ==> changes[i].0 != changes[j].0)
  }

  predicate Safe(change: (string, string)) {
    SafeName(change.0) && SafeValue(change.1)
  }

  predicate AllSafe(changes: Changes) {
    forall i :: 0 <= i < |changes| ==> Safe(changes[i])
  }

  predicate SafeChanges(changes: Changes) {
    WellNamed(changes) && AllSafe(changes)
  }

  // ----- trimming -----

  lemma {:induction false} TrimBomIgnoresEnd(s: string, w: char)
    requires w != BOM
    ensures TrimBom(s + [w]) == TrimBom(s) + [w]
  {
    if s == "" {
      assert s + [w] == [w];
    } else if s[0] == BOM {
      TrimBomIgnoresEnd(s[1..], w);
      assert (s + [w])[1..] == s[1..] + [w];
    }
  }

  lemma BareIgnoresCr(raw: string)
    ensures Bare(DropCr(raw)) == Bare(raw)
  {
    if raw != "" && Last(raw) == '\r' {
      var s := raw[..|raw| - 1];
      assert raw == s + ['\r'];
      TrimBomIgnoresEnd(s, '\r');
      TrimIgnoresEnd(TrimBom(s), '\r');
    }
  }

  // ----- a written setting -----

  lemma BareSetting(change: (string, string), remark: string)
    requires Safe(change) && IsRemark(remark)
    ensures var line := Setting(change) + remark;
      Bare(line) == line && line != "" && line[0] == change.0[0]
  {
    var line := Setting(change) + remark;
    assert line[0] == change.0[0] && IsNameChar(line[0]);
    var setting := Setting(change);
    assert Last(setting) == if change.1 == "" then '=' else Last(change.1);
    assert Last(line) == if remark == "" then Last(setting) else Last(remark);
    TrimKeeps(line);
  }

  lemma FindAt(name: string, c: char, rest: string)
    requires c !in name
    ensures Find(name + [c] + rest, c) == |name|
  {
    var s := name + [c] + rest;
    assert s[|name|] == c;
    assert forall k :: 0 <= k < |name| ==> s[k] == name[k];
  }

  lemma KeyOfSetting(name: string, rest: string)
    requires SafeName(name)
    ensures var line := name + "=" + rest;
      && Find(line, '=') == |name| < |line|
      && line[|name| + 1..] == rest
      && KeyIn(line) == name
  {
    var line := name + "=" + rest;
    assert line == name + ['='] + rest;
    FindAt(name, '=', rest);
    assert line[..|name|] == name;
    TrimKeeps(name);
    assert Lower(name) == name;
  }

  lemma CommentBehind(value: string, remark: string)
    requires SafeValue(value) && IsRemark(remark)
    ensures var rest := value + remark;
      && CommentAt(rest) == (if remark == "" then |value| else |value| + 1)
      && (remark != "" ==> rest[CommentAt(rest)..] == remark[1..])
  {
    var rest := value + remark;
    var cut := if remark == "" then |value| else |value| + 1;
    assert forall k :: 0 <= k < |value| ==> rest[k] == value[k];
    if remark != "" {
      assert rest[|value|] == ' ' && rest[|value| + 1] == remark[1];
    }
    assert CommentAt(rest) == cut;
  }

  /** What the parser makes of a value that stands alone. */
  lemma StripKeeps(value: string)
    requires SafeValue(value)
    ensures StripComment(value) == value
  {
    assert CommentAt(value) == |value| && value[..|value|] == value;
    TrimKeeps(value);
  }

  lemma QuotesShorten(s: string)
    ensures |TrimQuotesStart(s)| <= |s| && |TrimQuotesEnd(s)| <= |s|
    ensures |TrimQuotesStart(s)| == |s| ==> TrimQuotesStart(s) == s && (s == "" || !IsQuote(s[0]))
    ensures |TrimQuotesEnd(s)| == |s| ==> TrimQuotesEnd(s) == s && (s == "" || !IsQuote(Last(s)))
  {
  }

  lemma TrimShortens(s: string)
    ensures |TrimStart(s)| <= |s| && |TrimEnd(s)| <= |s|
    ensures |TrimStart(s)| == |s| ==> TrimStart(s) == s
    ensures |TrimEnd(s)| == |s| ==> TrimEnd(s) == s
  {
  }

  /** The parser only ever cuts a value down. */
  lemma StripShortens(value: string)
    ensures |StripComment(value)| <= |value|
    ensures |StripComment(value)| == |value| ==>
      StripComment(value) == value && CommentAt(value) == |value| && Trim(value) == value
      && (value == "" || (IsEdge(value[0]) && IsEdge(Last(value))))
  {
    var cut := value[..CommentAt(value)];
    TrimShortens(cut);
    TrimShortens(TrimStart(cut));
    QuotesShorten(Trim(cut));
    QuotesShorten(TrimQuotesStart(Trim(cut)));
    if |StripComment(value)| == |value| {
      assert cut == value;
    }
  }

  /** The values that the parser leaves alone are exactly the safe ones. */
  lemma SafeIff(value: string)
    ensures SafeValue(value) <==> NoLf(value) && StripComment(value) == value
  {
    if SafeValue(value) {
      StripKeeps(value);
    }
    StripShortens(value);
  }

  /** White space at the end of a value makes no difference to the parser. */
  lemma StripIgnoresEnd(s: string)
    ensures StripComment(TrimEnd(s)) == StripComment(s)
  {
    var t := TrimEnd(s);
    var i := CommentAt(s);
    TrimEndKeeps(s, i);
    if i < |s| {
      assert t[i] == s[i] && forall k :: 0 <= k < i ==> t[k] == s[k];
      assert CommentAt(t) == i && t[..i] == s[..i];
    } else {
      assert forall k :: 0 <= k < |t| ==> t[k] == s[k];
      assert CommentAt(t) == |t| && t[..|t|] == t && s[..i] == s;
      calc {
        Trim(t);
        TrimEnd(TrimStart(TrimEnd(s)));
        { TrimStartOfTrimmed(s); }
        TrimEnd(TrimEnd(TrimStart(s)));
        { TrimTwice(TrimStart(s)); }
        Trim(s);
      }
    }
  }

  lemma {:induction false} TrimEndKeeps(s: string, i: nat)
    requires i < |s| ==> !IsWhite(s[i])
    ensures i < |s| ==> i < |TrimEnd(s)|
  {
    if i < |s| && IsWhite(Last(s)) {
      TrimEndKeeps(s[..|s| - 1], i);
    }
  }

  lemma StripIgnoresBlank(value: string)
    requires CommentAt(value) == |value|
    ensures StripComment(value) == TrimQuotesEnd(TrimQuotesStart(Trim(value + " ")))
  {
    assert value[..|value|] == value;
    TrimIgnoresEnd(value, ' ');
  }

  /** A comment behind a value makes no difference to the parser. */
  lemma StripSetting(value: string, remark: string)
    requires IsRemark(remark)
    ensures StripComment(value + remark) == StripComment(value)
  {
    var rest := value + remark;
    var i := CommentAt(value);
    if remark == "" {
      assert rest == value;
    } else if i < |value| {
      CommentIs(rest, i);
      assert rest[..i] == value[..i];
    } else {
      assert rest == value + " " + remark[1..];
      CommentIs(rest, |value| + 1);
      assert rest[..|value| + 1] == value + " ";
      StripIgnoresBlank(value);
    }
  }

  lemma CommentIs(s: string, i: nat)
    requires i < |s| && (s[i] == '#' || s[i] == ';')
    requires forall k :: 0 <= k < i ==> s[k] != '#' && s[k] != ';'
    ensures CommentAt(s) == i
  {
  }

  lemma BareOfSetting(name: string, rest: string)
    requires SafeName(name)
    ensures Bare(name + "=" + rest) == name + "=" + TrimEnd(rest)
  {
    var line := name + "=" + rest;
    assert line[0] == name[0] && IsNameChar(line[0]);
    assert TrimStart(TrimBom(line)) == line;
    assert Last(name + "=") == '=';
    TrimEndBefore(name + "=", rest);
  }

  lemma EntryByParts(raw: string, name: string, rest: string)
    requires SafeName(name) && Bare(raw) == name + "=" + rest
    ensures EntryOf(raw) == Some(Entry(name, StripComment(rest)))
  {
    var line := Bare(raw);
    KeyOfSetting(name, rest);
    assert line[0] == name[0] && IsNameChar(line[0]);
  }

  /** A written setting, with or without a comment, is read as what the parser leaves of
      the value that was written: the value itself if and only if that is safe. */
  lemma SettingIsRead(change: (string, string), remark: string)
    requires SafeName(change.0) && IsRemark(remark)
    ensures EntryOf(Setting(change) + remark) == Some(Entry(change.0, StripComment(change.1)))
    ensures NoLf(change.1) ==> (StripComment(change.1) == change.1 <==> SafeValue(change.1))
  {
    var rest := change.1 + remark;
    var line := Setting(change) + remark;
    assert line == change.0 + "=" + rest;
    BareOfSetting(change.0, rest);
    EntryByParts(line, change.0, TrimEnd(rest));
    StripIgnoresEnd(rest);
    StripSetting(change.1, remark);
    SafeIff(change.1);
  }

  lemma CommentStays(value: string, remark: string)
    requires SafeValue(value) && IsRemark(remark)
    ensures CommentIn(value + remark) == remark
  {
    CommentBehind(value, remark);
    if remark != "" {
      assert TrimEnd(remark[1..]) == remark[1..];
      assert " " + remark[1..] == remark;
    }
  }

  lemma RemarkOfSetting(change: (string, string), remark: string)
    requires Safe(change) && IsRemark(remark)
    ensures Find(Setting(change) + remark, '=') < |Setting(change) + remark|
    ensures KeyIn(Setting(change) + remark) == change.0
    ensures Remark(Setting(change) + remark) == remark
  {
    KeyOfSetting(change.0, change.1 + remark);
    var line := Setting(change) + remark;
    assert line == change.0 + "=" + (change.1 + remark);
    calc {
      Remark(line);
      CommentIn(line[Find(line, '=') + 1..]);
      CommentIn(change.1 + remark);
      { CommentStays(change.1, remark); }
      remark;
    }
  }

  lemma {:induction false} ChangeIsFound(changes: Changes, key: string)
    ensures var c := ChangeFor(changes, key);
      && (c.Some? ==> c.value in changes && c.value.0 == key)
      && (c.None? ==> forall i :: 0 <= i < |changes| ==> changes[i].0 != key)
  {
    if changes != [] && changes[0].0 != key {
      ChangeIsFound(changes[1..], key);
      if ChangeFor(changes, key).None? {
        forall i | 0 <= i < |changes|
          ensures changes[i].0 != key
        {
          if i > 0 {
            assert changes[i] == changes[1..][i - 1];
          }
        }
      }
    }
  }

  /** Each name has its own change. */
  lemma OwnChange(changes: Changes, k: nat)
    requires WellNamed(changes) && k < |changes|
    ensures ChangeFor(changes, changes[k].0) == Some(changes[k])
  {
    ChangeIsFound(changes, changes[k].0);
  }

  lemma HitIsNamed(raw: string, changes: Changes)
    requires WellNamed(changes) && Hit(raw, changes).Some?
    ensures var change := Hit(raw, changes).value;
      change in changes && SafeName(change.0) && change.0 == KeyIn(Bare(raw))
  {
    ChangeIsFound(changes, KeyIn(Bare(raw)));
  }

  lemma HitIsSafe(raw: string, changes: Changes)
    requires SafeChanges(changes) && Hit(raw, changes).Some?
    ensures Safe(Hit(raw, changes).value)
  {
    HitIsNamed(raw, changes);
  }

  /** A replaced line is read as its change; its old entry had that key. */
  lemma ReplacedIsRead(raw: string, changes: Changes)
    requires WellNamed(changes) && Hit(raw, changes).Some?
    ensures var change := Hit(raw, changes).value;
      EntryOf(NewLine(raw, changes)) == Some(AsEntry(change))
  {
    HitIsNamed(raw, changes);
    SettingIsRead(Hit(raw, changes).value, Remark(Bare(raw)));
  }

  /** A written change as the parser reads it. */
  function AsEntry(change: (string, string)): Entry {
    Entry(change.0, StripComment(change.1))
  }

  lemma HitSetting(change: (string, string), remark: string, changes: Changes)
    requires SafeChanges(changes) && Safe(change) && IsRemark(remark)
    requires ChangeFor(changes, change.0) == Some(change)
    ensures Hit(Setting(change) + remark, changes) == Some(change)
    ensures NewLine(Setting(change) + remark, changes) == Setting(change) + remark
  {
    BareSetting(change, remark);
    RemarkOfSetting(change, remark);
  }

  /** Replacing a second time changes nothing. */
  lemma NewLineStays(raw: string, changes: Changes)
    requires SafeChanges(changes)
    ensures NewLine(NewLine(raw, changes), changes) == NewLine(raw, changes)
    ensures Hit(NewLine(raw, changes), changes) == Hit(raw, changes)
  {
    if Hit(raw, changes).Some? {
      HitIsNamed(raw, changes);
      HitIsSafe(raw, changes);
      HitSetting(Hit(raw, changes).value, Remark(Bare(raw)), changes);
    }
  }

  // ----- what is read of the new lines -----

  predicate IsNamed(changes: Changes, e: Entry) {
    ChangeFor(changes, e.key).Some?
  }

  /** The entries of other keys. */
  function Others(entries: seq<Entry>, changes: Changes): seq<Entry> {
    if entries == [] then []
    else
      Others(entries[..|entries| - 1], changes)
      + if IsNamed(changes, Last(entries)) then [] else [Last(entries)]
  }

  /** Entries of changed keys all have the changed value, as the parser reads it. */
  predicate Changed(changes: Changes, e: Entry) {
    ChangeFor(changes, e.key).Some? ==> e == AsEntry(ChangeFor(changes, e.key).value)
  }

  lemma EntriesMore(lines: seq<string>, raw: string)
    ensures Entries(lines + [raw]) == Entries(lines) + OneEntry(raw)
  {
    assert (lines + [raw])[..|lines|] == lines;
  }

  function OneEntry(raw: string): seq<Entry> {
    match EntryOf(raw)
    case Some(e) => [e]
    case None => []
  }

  lemma {:induction false} EntriesOf(first: seq<string>, second: seq<string>)
    ensures Entries(first + second) == Entries(first) + Entries(second)
  {
    if second == [] {
      assert first + second == first;
    } else {
      var init, raw := second[..|second| - 1], Last(second);
      assert init + [raw] == second;
      calc {
        Entries(first + second);
        { Shift(first, init, [raw]); }
        Entries(first + init + [raw]);
        { EntriesMore(first + init, raw); }
        Entries(first + init) + OneEntry(raw);
        { EntriesOf(first, init); }
        Entries(first) + Entries(init) + OneEntry(raw);
        { Shift(Entries(first), Entries(init), OneEntry(raw)); }
        Entries(first) + (Entries(init) + OneEntry(raw));
        { EntriesMore(init, raw); }
        Entries(first) + Entries(second);
      }
    }
  }

  /** A replaced line held the key that it holds now. */
  lemma HitWasNamed(raw: string, changes: Changes)
    requires WellNamed(changes) && Hit(raw, changes).Some?
    ensures EntryOf(raw).Some? && EntryOf(raw).value.key == Hit(raw, changes).value.0
  {
    HitIsNamed(raw, changes);
    var line := Bare(raw);
    if line[0] == '[' {
      KeyStarts(line);
    }
  }

  /** A line in brackets has no safe name for a key. */
  lemma KeyStarts(line: string)
    requires line != "" && line[0] == '['
    ensures !SafeName(KeyIn(line))
  {
    var key := line[..Find(line, '=')];
    if key != "" {
      assert key[0] == '[';
      assert Lower(Trim(key))[0] == LowerChar('[');
    }
  }

  lemma OthersMore(entries: seq<Entry>, e: Entry, changes: Changes)
    ensures Others(entries + [e], changes) == Others(entries, changes) + if IsNamed(changes, e) then [] else [e]
  {
    assert (entries + [e])[..|entries|] == entries;
  }

  /** The other keys read as before, line by line. */
  lemma {:induction false} OthersStay(lines: seq<string>, changes: Changes)
    requires WellNamed(changes)
    ensures Others(Entries(NewLines(lines, changes)), changes) == Others(Entries(lines), changes)
  {
    if lines != [] {
      var init, raw := lines[..|lines| - 1], Last(lines);
      var done, line := NewLines(init, changes), NewLine(raw, changes);
      assert init + [raw] == lines;
      calc {
        Others(Entries(NewLines(lines, changes)), changes);
        { NewLinesMore(init, raw, changes); }
        Others(Entries(done + [line]), changes);
        { EntriesMore(done, line); }
        Others(Entries(done) + OneEntry(line), changes);
        { OthersStay(init, changes); OneOtherStays(Entries(init), Entries(done), raw, changes); }
        Others(Entries(init) + OneEntry(raw), changes);
        { EntriesMore(init, raw); }
        Others(Entries(lines), changes);
      }
    }
  }

  lemma OneOtherStays(before: seq<Entry>, after: seq<Entry>, raw: string, changes: Changes)
    requires WellNamed(changes) && Others(before, changes) == Others(after, changes)
    ensures Others(after + OneEntry(NewLine(raw, changes)), changes) == Others(before + OneEntry(raw), changes)
  {
    if Hit(raw, changes).Some? {
      var change := Hit(raw, changes).value;
      ReplacedIsRead(raw, changes);
      HitWasNamed(raw, changes);
      HitIsNamed(raw, changes);
      ChangeIsFound(changes, change.0);
      OthersMore(before, EntryOf(raw).value, changes);
      OthersMore(after, AsEntry(change), changes);
    } else if EntryOf(raw).Some? {
      OthersMore(before, EntryOf(raw).value, changes);
      OthersMore(after, EntryOf(raw).value, changes);
    } else {
      assert before + [] == before && after + [] == after;
    }
  }

  predicate AllChanged(changes: Changes, entries: seq<Entry>) {
    forall i :: 0 <= i < |entries| ==> Changed(changes, entries[i])
  }

  lemma OneIsChanged(raw: string, changes: Changes)
    requires WellNamed(changes)
    ensures AllChanged(changes, OneEntry(NewLine(raw, changes)))
  {
    if Hit(raw, changes).Some? {
      ReplacedIsRead(raw, changes);
      HitIsNamed(raw, changes);
      var change := Hit(raw, changes).value;
      ChangeIsFound(changes, KeyIn(Bare(raw)));
    }
  }

  /** Every occurrence of a changed key has the new value. */
  lemma {:induction false} ChangesTake(lines: seq<string>, changes: Changes)
    requires WellNamed(changes)
    ensures AllChanged(changes, Entries(NewLines(lines, changes)))
  {
    if lines != [] {
      var init, raw := lines[..|lines| - 1], Last(lines);
      ChangesTake(init, changes);
      assert init + [raw] == lines;
      NewLinesMore(init, raw, changes);
      EntriesMore(NewLines(init, changes), NewLine(raw, changes));
      OneIsChanged(raw, changes);
    }
  }

  /** A name that was seen has an entry in the new lines. */
  lemma {:induction false} SeenIsThere(lines: seq<string>, changes: Changes, change: (string, string))
    requires WellNamed(changes) && ChangeFor(changes, change.0) == Some(change)
    requires change.0 in Seen(lines, changes)
    ensures AsEntry(change) in Entries(NewLines(lines, changes))
  {
    var init, raw := lines[..|lines| - 1], Last(lines);
    assert init + [raw] == lines;
    SeenMore(init, raw, changes);
    NewLinesMore(init, raw, changes);
    EntriesMore(NewLines(init, changes), NewLine(raw, changes));
    if change.0 in Seen(init, changes) {
      SeenIsThere(init, changes, change);
    } else {
      HitIsNamed(raw, changes);
      ReplacedIsRead(raw, changes);
    }
  }

  // ----- the added lines -----

  function AsEntries(changes: Changes): (e: seq<Entry>)
    ensures |e| == |changes|
    ensures forall i :: 0 <= i < |e| ==> e[i] == AsEntry(changes[i])
  {
    seq(|changes|, i requires 0 <= i < |changes| => AsEntry(changes[i]))
  }

  lemma {:induction false} SettingsAreRead(changes: Changes)
    requires AllNamed(changes)
    ensures Entries(Settings(changes)) == AsEntries(changes)
  {
    if changes != [] {
      var init, last := changes[..|changes| - 1], Last(changes);
      calc {
        Entries(Settings(changes));
        { assert Settings(changes) == Settings(init) + [Setting(last)]; }
        Entries(Settings(init) + [Setting(last)]);
        { EntriesMore(Settings(init), Setting(last)); }
        Entries(Settings(init)) + OneEntry(Setting(last));
        { PlainSettingIsRead(last); }
        Entries(Settings(init)) + [AsEntry(last)];
        { assert AllNamed(init); SettingsAreRead(init); }
        AsEntries(init) + [AsEntry(last)];
        { assert AsEntries(changes) == AsEntries(init) + [AsEntry(last)]; }
        AsEntries(changes);
      }
    }
  }

  lemma PlainSettingIsRead(change: (string, string))
    requires SafeName(change.0)
    ensures OneEntry(Setting(change)) == [AsEntry(change)]
  {
    SettingIsRead(change, "");
    assert Setting(change) + "" == Setting(change);
  }

  lemma NoteIsComment()
    ensures Bare(Note()) != "" && Bare(Note())[0] == '#'
    ensures OneEntry(Note()) == [] && OneEntry("") == []
  {
  }

  /** The added lines are read as the missing settings. */
  lemma AddedAreRead(out: seq<string>, missing: Changes)
    requires AllNamed(missing)
    ensures Entries(Added(out, missing)) == AsEntries(missing)
  {
    if missing != [] {
      calc {
        Entries(Added(out, missing));
        Entries(Heading(out) + Settings(missing));
        { EntriesOf(Heading(out), Settings(missing)); }
        Entries(Heading(out)) + Entries(Settings(missing));
        { HeadingIsNothing(out); }
        Entries(Settings(missing));
        { SettingsAreRead(missing); }
        AsEntries(missing);
      }
    }
  }

  lemma HeadingIsNothing(out: seq<string>)
    ensures Entries(Heading(out)) == []
  {
    var blank := if out != [] && Trim(Last(out)) != "" then [""] else [];
    BlankIsNothing(blank);
    EntriesMore(blank, Note());
    NoteIsComment();
  }

  lemma BlankIsNothing(blank: seq<string>)
    requires blank == [] || blank == [""]
    ensures Entries(blank) == []
  {
    if blank != [] {
      NoteIsComment();
      EntriesMore([], "");
      assert [] + [""] == blank;
    }
  }

  /** The changes whose names were not seen. */
  lemma {:induction false} MissingAre(changes: Changes, seen: seq<string>)
    ensures forall i :: 0 <= i < |Missing(changes, seen)| ==> Missing(changes, seen)[i] in changes
    ensures forall c :: c in changes && c.0 !in seen ==> c in Missing(changes, seen)
    ensures (forall c :: c in changes ==> c.0 in seen) ==> Missing(changes, seen) == []
  {
    if changes != [] {
      MissingAre(changes[..|changes| - 1], seen);
      assert changes == changes[..|changes| - 1] + [Last(changes)];
    }
  }

  lemma {:induction false} NoOthers(entries: seq<Entry>, changes: Changes)
    requires forall i :: 0 <= i < |entries| ==> IsNamed(changes, entries[i])
    ensures Others(entries, changes) == []
  {
    if entries != [] {
      NoOthers(entries[..|entries| - 1], changes);
    }
  }

  lemma {:induction false} OthersOf(first: seq<Entry>, second: seq<Entry>, changes: Changes)
    ensures Others(first + second, changes) == Others(first, changes) + Others(second, changes)
  {
    if second == [] {
      assert first + second == first;
    } else {
      var init, e := second[..|second| - 1], Last(second);
      var one := if IsNamed(changes, e) then [] else [e];
      assert init + [e] == second;
      calc {
        Others(first + second, changes);
        { Shift(first, init, [e]); }
        Others(first + init + [e], changes);
        { OthersMore(first + init, e, changes); }
        Others(first + init, changes) + one;
        { OthersOf(first, init, changes); }
        Others(first, changes) + Others(init, changes) + one;
        { Shift(Others(first, changes), Others(init, changes), one); }
        Others(first, changes) + (Others(init, changes) + one);
        { OthersMore(init, e, changes); }
        Others(first, changes) + Others(second, changes);
      }
    }
  }

  predicate Includes(entries: seq<Entry>, change: (string, string)) {
    AsEntry(change) in entries
  }

  /** Each is the change for its own name. */
  predicate AllOwn(changes: Changes, some: Changes) {
    forall i :: 0 <= i < |some| ==> ChangeFor(changes, some[i].0) == Some(some[i])
  }

  lemma MissingAreNamed(changes: Changes, seen: seq<string>)
    requires WellNamed(changes)
    ensures AllNamed(Missing(changes, seen)) && AllOwn(changes, Missing(changes, seen))
  {
    MissingAre(changes, seen);
    var missing := Missing(changes, seen);
    forall i | 0 <= i < |missing|
      ensures SafeName(missing[i].0) && ChangeFor(changes, missing[i].0) == Some(missing[i])
    {
      var k :| 0 <= k < |changes| && changes[k] == missing[i];
      OwnChange(changes, k);
    }
  }

  /** The entries of the updated lines, in two parts. */
  lemma UpdatedEntries(lines: seq<string>, changes: Changes)
    requires WellNamed(changes)
    ensures Entries(UpdatedLines(lines, changes))
         == Entries(NewLines(lines, changes)) + AsEntries(Missing(changes, Seen(lines, changes)))
  {
    var missing := Missing(changes, Seen(lines, changes));
    var out := NewLines(lines, changes);
    MissingAreNamed(changes, Seen(lines, changes));
    calc {
      Entries(UpdatedLines(lines, changes));
      Entries(out + Added(out, missing));
      { EntriesOf(out, Added(out, missing)); }
      Entries(out) + Entries(Added(out, missing));
      { AddedAreRead(out, missing); }
      Entries(out) + AsEntries(missing);
    }
  }

  lemma MissingEntries(changes: Changes, seen: seq<string>)
    requires WellNamed(changes)
    ensures Others(AsEntries(Missing(changes, seen)), changes) == []
    ensures AllChanged(changes, AsEntries(Missing(changes, seen)))
  {
    MissingAreNamed(changes, seen);
    var missing := Missing(changes, seen);
    forall i | 0 <= i < |missing|
      ensures IsNamed(changes, AsEntries(missing)[i]) && Changed(changes, AsEntries(missing)[i])
    {
      assert ChangeFor(changes, missing[i].0) == Some(missing[i]);
    }
    NoOthers(AsEntries(missing), changes);
  }

  lemma EachIsIncluded(lines: seq<string>, changes: Changes, k: nat)
    requires WellNamed(changes) && k < |changes|
    ensures Includes(Entries(NewLines(lines, changes)) + AsEntries(Missing(changes, Seen(lines, changes))), changes[k])
  {
    var seen := Seen(lines, changes);
    OwnChange(changes, k);
    if changes[k].0 in seen {
      SeenIsThere(lines, changes, changes[k]);
    } else {
      MissingAre(changes, seen);
      var missing := Missing(changes, seen);
      var j :| 0 <= j < |missing| && missing[j] == changes[k];
      assert AsEntries(missing)[j] == AsEntry(changes[k]);
    }
  }

  /** What is read of the updated lines: other keys as before, changed keys with their new
      values wherever they stand, and none of them missing. */
  lemma UpdateIsRead(lines: seq<string>, changes: Changes)
    requires WellNamed(changes)
    ensures Others(Entries(UpdatedLines(lines, changes)), changes) == Others(Entries(lines), changes)
    ensures AllChanged(changes, Entries(UpdatedLines(lines, changes)))
    ensures forall k :: 0 <= k < |changes| ==> Includes(Entries(UpdatedLines(lines, changes)), changes[k])
  {
    var done := Entries(NewLines(lines, changes));
    var added := AsEntries(Missing(changes, Seen(lines, changes)));
    UpdatedEntries(lines, changes);
    MissingEntries(changes, Seen(lines, changes));
    ChangesTake(lines, changes);
    OthersOf(done, added, changes);
    OthersStay(lines, changes);
    forall k | 0 <= k < |changes|
      ensures Includes(done + added, changes[k])
    {
      EachIsIncluded(lines, changes, k);
    }
  }
}
