/** Whole ini texts: what a rewritten text is read as, and when a second rewrite leaves it
    alone. */
module IniRewrite {
  import opened IniLaws
  import opened IniText
  import opened TextLaws
  import opened Texts
  import opened Wrappers

  predicate AllNoLf(lines: seq<string>) {
    forall i :: 0 <= i < |lines| ==> NoLf(lines[i])
  }

  predicate EndsInCr(line: string) {
    line != "" && Last(line) == '\r'
  }

  function Dropped(lines: seq<string>): (d: seq<string>)
    ensures |d| == |lines|
    ensures forall i :: 0 <= i < |d| ==> d[i] == DropCr(lines[i])
  {
    seq(|lines|, i requires 0 <= i < |lines| => DropCr(lines[i]))
  }

  lemma {:induction false} LinesHaveNoLf(text: string)
    ensures AllNoLf(Lines(text))
    decreases |text|
  {
    if text != "" {
      var i := Find(text, '\n');
      if i < |text| {
        LinesHaveNoLf(text[i + 1..]);
      }
    }
  }

  lemma FirstLine(line: string, rest: string)
    requires NoLf(line)
    ensures Lines(line + "\n" + rest) == [DropCr(line)] + Lines(rest)
  {
    var text := line + "\n" + rest;
    assert text[|line|] == '\n';
    assert forall k :: 0 <= k < |line| ==> text[k] == line[k];
    var i := Find(text, '\n');
    assert i == |line|;
    assert text[..i] == line && text[i + 1..] == rest;
  }

  /** Lines written with both characters come back as they are. */
  lemma {:induction false} CrLfComesBack(lines: seq<string>)
    requires AllNoLf(lines)
    ensures Lines(Written(lines, "\r\n")) == lines
  {
    if lines != [] {
      assert AllNoLf(lines[1..]);
      CrLfComesBack(lines[1..]);
      var rest := Written(lines[1..], "\r\n");
      var line := lines[0] + "\r";
      assert line + "\n" + rest == lines[0] + "\r\n" + rest;
      FirstLine(line, rest);
      assert DropCr(line) == lines[0];
    }
  }

  /** Lines written with a line feed alone lose a carriage return at their end. */
  lemma {:induction false} LfComesBack(lines: seq<string>)
    requires AllNoLf(lines)
    ensures Lines(Written(lines, "\n")) == Dropped(lines)
  {
    if lines != [] {
      assert AllNoLf(lines[1..]);
      LfComesBack(lines[1..]);
      FirstLine(lines[0], Written(lines[1..], "\n"));
      assert Dropped(lines) == [DropCr(lines[0])] + Dropped(lines[1..]);
    }
  }

  lemma DroppedEntry(raw: string)
    ensures OneEntry(DropCr(raw)) == OneEntry(raw)
  {
    BareIgnoresCr(raw);
  }

  lemma {:induction false} DroppedReadsAlike(lines: seq<string>)
    ensures Entries(Dropped(lines)) == Entries(lines)
  {
    if lines != [] {
      var init, raw := lines[..|lines| - 1], Last(lines);
      assert init + [raw] == lines;
      calc {
        Entries(Dropped(lines));
        { assert Dropped(lines) == Dropped(init) + [DropCr(raw)]; }
        Entries(Dropped(init) + [DropCr(raw)]);
        { EntriesMore(Dropped(init), DropCr(raw)); }
        Entries(Dropped(init)) + OneEntry(DropCr(raw));
        { DroppedReadsAlike(init); DroppedEntry(raw); }
        Entries(init) + OneEntry(raw);
        { EntriesMore(init, raw); }
        Entries(lines);
      }
    }
  }

  // ----- the new lines have no line feeds -----

  lemma {:induction false} TrimKeepsNoLf(s: string)
    requires NoLf(s)
    ensures NoLf(TrimStart(s)) && NoLf(TrimEnd(s)) && NoLf(TrimBom(s))
    decreases |s|
  {
    if s != "" {
      assert NoLf(s[1..]) && NoLf(s[..|s| - 1]);
      TrimKeepsNoLf(s[1..]);
      TrimKeepsNoLf(s[..|s| - 1]);
    }
  }

  lemma BareHasNoLf(raw: string)
    requires NoLf(raw)
    ensures NoLf(Bare(raw))
  {
    TrimKeepsNoLf(raw);
    TrimKeepsNoLf(TrimBom(raw));
    TrimKeepsNoLf(TrimStart(TrimBom(raw)));
  }

  lemma SettingHasNoBreak(change: (string, string))
    requires Safe(change)
    ensures !EndsInCr(Setting(change))
  {
    var s := Setting(change);
    assert Last(s) == if change.1 == "" then '=' else Last(change.1);
  }

  lemma WithRemark(setting: string, remark: string)
    requires setting != "" && !EndsInCr(setting) && IsRemark(remark)
    ensures !EndsInCr(setting + remark)
  {
    var line := setting + remark;
    assert Last(line) == if remark == "" then Last(setting) else Last(remark);
  }

  lemma RemarkHasNoLf(line: string, remark: string)
    requires NoLf(line) && IsRemark(remark)
    requires KeepsChars(remark, line)
    ensures NoLf(remark)
  {
  }

  predicate AllValuesNoLf(changes: Changes) {
    forall i :: 0 <= i < |changes| ==> NoLf(changes[i].1)
  }

  lemma NewLineNoLf(raw: string, changes: Changes)
    requires WellNamed(changes) && AllValuesNoLf(changes) && NoLf(raw)
    ensures NoLf(NewLine(raw, changes))
  {
    if Hit(raw, changes).Some? {
      var change := Hit(raw, changes).value;
      HitIsNamed(raw, changes);
      BareHasNoLf(raw);
      RemarkHasNoLf(Bare(raw), Remark(Bare(raw)));
      SettingHasNoLf(change, Remark(Bare(raw)));
    }
  }

  lemma SettingHasNoLf(change: (string, string), remark: string)
    requires SafeName(change.0) && NoLf(change.1) && NoLf(remark)
    ensures NoLf(Setting(change) + remark)
  {
  }

  /** A replaced line does not end in a carriage return; any other line is as it was. */
  lemma NewLineBreaks(raw: string, changes: Changes)
    requires SafeChanges(changes)
    ensures EndsInCr(NewLine(raw, changes)) <==> EndsInCr(raw) && Hit(raw, changes).None?
  {
    if Hit(raw, changes).Some? {
      var change := Hit(raw, changes).value;
      HitIsNamed(raw, changes);
      HitIsSafe(raw, changes);
      SettingHasNoBreak(change);
      WithRemark(Setting(change), Remark(Bare(raw)));
    }
  }

  lemma NoteHasNoBreak()
    ensures NoLf(Note()) && !EndsInCr(Note())
  {
  }

  predicate NoneEndsInCr(lines: seq<string>) {
    forall i :: 0 <= i < |lines| ==> !EndsInCr(lines[i])
  }

  lemma AddedNoLf(out: seq<string>, missing: Changes)
    requires AllNamed(missing) && AllValuesNoLf(missing)
    ensures AllNoLf(Added(out, missing))
  {
    NoteHasNoBreak();
    assert AllNoLf(Heading(out));
    forall i | 0 <= i < |missing|
      ensures NoLf(Settings(missing)[i])
    {
      assert SafeName(missing[i].0) && NoLf(missing[i].1);
    }
  }

  lemma AddedBreaks(out: seq<string>, missing: Changes)
    requires AllSafe(missing)
    ensures NoneEndsInCr(Added(out, missing))
  {
    NoteHasNoBreak();
    assert NoneEndsInCr(Heading(out));
    forall i | 0 <= i < |missing|
      ensures !EndsInCr(Settings(missing)[i])
    {
      SettingHasNoBreak(missing[i]);
    }
  }

  lemma MissingAreSafe(changes: Changes, seen: seq<string>)
    requires SafeChanges(changes)
    ensures AllSafe(Missing(changes, seen))
  {
    MissingAre(changes, seen);
  }

  lemma SafeHaveNoLf(changes: Changes)
    requires AllSafe(changes)
    ensures AllValuesNoLf(changes)
  {
    forall i | 0 <= i < |changes|
      ensures NoLf(changes[i].1)
    {
      assert Safe(changes[i]);
    }
  }

  /** The updated lines have no line feeds inside. */
  lemma UpdatedLinesNoLf(lines: seq<string>, changes: Changes)
    requires WellNamed(changes) && AllValuesNoLf(changes) && AllNoLf(lines)
    ensures AllNoLf(UpdatedLines(lines, changes))
  {
    var missing := Missing(changes, Seen(lines, changes));
    var out := NewLines(lines, changes);
    MissingAre(changes, Seen(lines, changes));
    AddedNoLf(out, missing);
    forall i | 0 <= i < |out|
      ensures NoLf(out[i])
    {
      assert NoLf(lines[i]);
      NewLineNoLf(lines[i], changes);
    }
  }

  /** An old line that is kept, and with it the carriage return at its end. */
  predicate KeepsCr(lines: seq<string>, changes: Changes, i: nat) {
    i < |lines| && EndsInCr(lines[i]) && Hit(lines[i], changes).None?
  }

  /** The updated lines have carriage returns at the end only where an old line was kept
      that had one. */
  lemma UpdatedLinesBreaks(lines: seq<string>, changes: Changes)
    requires SafeChanges(changes)
    ensures |lines| <= |UpdatedLines(lines, changes)|
    ensures forall i :: 0 <= i < |UpdatedLines(lines, changes)| ==>
      (EndsInCr(UpdatedLines(lines, changes)[i]) <==> KeepsCr(lines, changes, i))
  {
    var missing := Missing(changes, Seen(lines, changes));
    var out := NewLines(lines, changes);
    MissingAreSafe(changes, Seen(lines, changes));
    AddedBreaks(out, missing);
    var all := UpdatedLines(lines, changes);
    forall i | 0 <= i < |all|
      ensures EndsInCr(all[i]) <==> KeepsCr(lines, changes, i)
    {
      if i < |lines| {
        NewLineBreaks(lines[i], changes);
      }
      JoinedBreaks(lines, changes, out, Added(out, missing), i);
    }
  }

  lemma JoinedBreaks(lines: seq<string>, changes: Changes, out: seq<string>, added: seq<string>, i: nat)
    requires |out| == |lines| && i < |out| + |added| && NoneEndsInCr(added)
    requires i < |lines| ==> (EndsInCr(out[i]) <==> KeepsCr(lines, changes, i))
    ensures EndsInCr((out + added)[i]) <==> KeepsCr(lines, changes, i)
  {
    InConcat(out, added, i);
  }

  // ----- reading the rewritten text -----

  lemma UpdatedIsNotEmpty(lines: seq<string>, changes: Changes)
    requires WellNamed(changes)
    ensures UpdatedLines(lines, changes) != []
  {
    if lines == [] {
      MissingAre(changes, []);
      assert changes[0] in changes;
    }
  }

  lemma UpdatedTextLines(text: string, changes: Changes)
    requires WellNamed(changes) && AllValuesNoLf(changes)
    ensures var lines := UpdatedLines(Lines(text), changes);
      Lines(Updated(text, changes)) == if HasCrLf(text) then lines else Dropped(lines)
  {
    LinesHaveNoLf(text);
    UpdatedLinesNoLf(Lines(text), changes);
    UpdatedIsNotEmpty(Lines(text), changes);
    var lines := UpdatedLines(Lines(text), changes);
    if HasCrLf(text) {
      CrLfComesBack(lines);
    } else {
      LfComesBack(lines);
    }
  }

  /** What is read of the rewritten text: other keys as before, in order; changed keys with
      what the parser leaves of their new values wherever they stand, and none of them
      missing. */
  lemma RewriteIsRead(text: string, changes: Changes)
    requires WellNamed(changes) && AllValuesNoLf(changes)
    ensures var before, after := Entries(Lines(text)), Entries(Lines(Updated(text, changes)));
      && Others(after, changes) == Others(before, changes)
      && AllChanged(changes, after)
      && forall k :: 0 <= k < |changes| ==> Includes(after, changes[k])
  {
    UpdatedTextLines(text, changes);
    DroppedReadsAlike(UpdatedLines(Lines(text), changes));
    UpdateIsRead(Lines(text), changes);
  }

  // ----- a second rewrite -----

  lemma {:induction false} SeenOf(first: seq<string>, second: seq<string>, changes: Changes)
    ensures Seen(first + second, changes) == Seen(first, changes) + Seen(second, changes)
  {
    if second == [] {
      assert first + second == first;
    } else {
      var init, raw := second[..|second| - 1], Last(second);
      assert init + [raw] == second;
      calc {
        Seen(first + second, changes);
        { Shift(first, init, [raw]); }
        Seen(first + init + [raw], changes);
        { SeenMore(first + init, raw, changes); }
        Seen(first + init, changes) + Named(Hit(raw, changes));
        { SeenOf(first, init, changes); }
        Seen(first, changes) + Seen(init, changes) + Named(Hit(raw, changes));
        { Shift(Seen(first, changes), Seen(init, changes), Named(Hit(raw, changes))); }
        Seen(first, changes) + (Seen(init, changes) + Named(Hit(raw, changes)));
        { SeenMore(init, raw, changes); }
        Seen(first, changes) + Seen(second, changes);
      }
    }
  }

  /** The same names are seen in the new lines. */
  lemma {:induction false} SeenStays(lines: seq<string>, changes: Changes)
    requires SafeChanges(changes)
    ensures Seen(NewLines(lines, changes), changes) == Seen(lines, changes)
  {
    if lines != [] {
      var init, raw := lines[..|lines| - 1], Last(lines);
      assert init + [raw] == lines;
      calc {
        Seen(NewLines(lines, changes), changes);
        { NewLinesMore(init, raw, changes); }
        Seen(NewLines(init, changes) + [NewLine(raw, changes)], changes);
        { SeenMore(NewLines(init, changes), NewLine(raw, changes), changes); }
        Seen(NewLines(init, changes), changes) + Named(Hit(NewLine(raw, changes), changes));
        { SeenStays(init, changes); NewLineStays(raw, changes); }
        Seen(init, changes) + Named(Hit(raw, changes));
        { SeenMore(init, raw, changes); }
        Seen(lines, changes);
      }
    }
  }

  lemma HitWritten(change: (string, string), changes: Changes)
    requires SafeChanges(changes) && Safe(change) && ChangeFor(changes, change.0) == Some(change)
    ensures Hit(Setting(change), changes) == Some(change)
    ensures NewLine(Setting(change), changes) == Setting(change)
  {
    HitSetting(change, "", changes);
    assert Setting(change) + "" == Setting(change);
  }

  lemma SeenSettingsMore(some: Changes, last: (string, string), changes: Changes)
    requires SafeChanges(changes) && Safe(last) && ChangeFor(changes, last.0) == Some(last)
    ensures Seen(Settings(some + [last]), changes) == Seen(Settings(some), changes) + [last.0]
  {
    calc {
      Seen(Settings(some + [last]), changes);
      { assert Settings(some + [last]) == Settings(some) + [Setting(last)]; }
      Seen(Settings(some) + [Setting(last)], changes);
      { SeenMore(Settings(some), Setting(last), changes); }
      Seen(Settings(some), changes) + Named(Hit(Setting(last), changes));
      { HitWritten(last, changes); }
      Seen(Settings(some), changes) + [last.0];
    }
  }

  function Names(some: Changes): (n: seq<string>)
    ensures |n| == |some|
    ensures forall i :: 0 <= i < |n| ==> n[i] == some[i].0
  {
    seq(|some|, i requires 0 <= i < |some| => some[i].0)
  }

  lemma {:induction false} SettingsAreSeen(some: Changes, changes: Changes)
    requires SafeChanges(changes) && AllSafe(some) && AllOwn(changes, some)
    ensures Seen(Settings(some), changes) == Names(some)
  {
    if some != [] {
      var init, last := some[..|some| - 1], Last(some);
      assert some[|some| - 1] == last;
      calc {
        Seen(Settings(some), changes);
        { assert some == init + [last]; }
        Seen(Settings(init + [last]), changes);
        { SeenSettingsMore(init, last, changes); }
        Seen(Settings(init), changes) + [last.0];
        { assert AllSafe(init) && AllOwn(changes, init); SettingsAreSeen(init, changes); }
        Names(init) + [last.0];
        { assert Names(some) == Names(init) + [last.0]; }
        Names(some);
      }
    }
  }

  lemma NotHit(changes: Changes)
    ensures Hit(Note(), changes).None? && Hit("", changes).None?
  {
    NoteIsComment();
  }

  /** Every name is seen in the updated lines. */
  lemma AllAreSeen(lines: seq<string>, changes: Changes)
    requires SafeChanges(changes)
    ensures Missing(changes, Seen(UpdatedLines(lines, changes), changes)) == []
  {
    var seen := Seen(lines, changes);
    var missing := Missing(changes, seen);
    var out := NewLines(lines, changes);
    var all := Seen(UpdatedLines(lines, changes), changes);
    MissingAreSafe(changes, seen);
    MissingAreNamed(changes, seen);
    SeenOf(out, Added(out, missing), changes);
    SeenStays(lines, changes);
    SettingsAreSeen(missing, changes);
    if missing != [] {
      SeenOf(Heading(out), Settings(missing), changes);
    }
    MissingAre(changes, seen);
    forall c | c in changes
      ensures c.0 in all
    {
      if c.0 !in seen {
        var j :| 0 <= j < |missing| && missing[j] == c;
        assert Names(missing)[j] == c.0;
      }
    }
    MissingAre(changes, all);
  }

  /** No line would be replaced by another. */
  predicate Stay(lines: seq<string>, changes: Changes) {
    forall i :: 0 <= i < |lines| ==> NewLine(lines[i], changes) == lines[i]
  }

  lemma StayTogether(first: seq<string>, second: seq<string>, changes: Changes)
    requires Stay(first, changes) && Stay(second, changes)
    ensures Stay(first + second, changes)
  {
    var all := first + second;
    forall i | 0 <= i < |all|
      ensures NewLine(all[i], changes) == all[i]
    {
      assert all[i] == if i < |first| then first[i] else second[i - |first|];
    }
  }

  lemma NewLinesStay(lines: seq<string>, changes: Changes)
    requires SafeChanges(changes)
    ensures Stay(NewLines(lines, changes), changes)
  {
    forall i | 0 <= i < |lines|
      ensures NewLine(NewLines(lines, changes)[i], changes) == NewLines(lines, changes)[i]
    {
      NewLineStays(lines[i], changes);
    }
  }

  lemma SettingsStay(some: Changes, changes: Changes)
    requires SafeChanges(changes) && AllSafe(some) && AllOwn(changes, some)
    ensures Stay(Settings(some), changes)
  {
    forall i | 0 <= i < |some|
      ensures NewLine(Settings(some)[i], changes) == Settings(some)[i]
    {
      assert Safe(some[i]) && ChangeFor(changes, some[i].0) == Some(some[i]);
      HitWritten(some[i], changes);
    }
  }

  lemma LinesStay(blank: seq<string>, note: string, changes: Changes)
    requires blank == [] || blank == [""]
    requires Hit(note, changes).None? && Hit("", changes).None?
    ensures Stay(blank + [note], changes)
  {
  }

  lemma HeadingStays(out: seq<string>, changes: Changes)
    ensures Stay(Heading(out), changes)
  {
    NotHit(changes);
    LinesStay(if out != [] && Trim(Last(out)) != "" then [""] else [], Note(), changes);
  }

  /** Updating the updated lines changes nothing. */
  lemma UpdatedLinesStay(lines: seq<string>, changes: Changes)
    requires SafeChanges(changes)
    ensures UpdatedLines(UpdatedLines(lines, changes), changes) == UpdatedLines(lines, changes)
  {
    var missing := Missing(changes, Seen(lines, changes));
    var out := NewLines(lines, changes);
    var all := UpdatedLines(lines, changes);
    MissingAreSafe(changes, Seen(lines, changes));
    MissingAreNamed(changes, Seen(lines, changes));
    NewLinesStay(lines, changes);
    HeadingStays(out, changes);
    SettingsStay(missing, changes);
    StayTogether(Heading(out), Settings(missing), changes);
    StayTogether(out, Added(out, missing), changes);
    AllAreSeen(lines, changes);
    assert NewLines(all, changes) == all;
  }

  // ----- line endings -----

  /** Every line feed has a carriage return before it. */
  predicate AllCrLf(text: string) {
    forall i :: 0 <= i < |text| && text[i] == '\n' ==> i > 0 && text[i - 1] == '\r'
  }

  lemma {:induction false} WrittenCrLf(lines: seq<string>)
    requires AllNoLf(lines)
    ensures AllCrLf(Written(lines, "\r\n"))
    ensures lines != [] ==> HasCrLf(Written(lines, "\r\n"))
  {
    if lines != [] {
      assert AllNoLf(lines[1..]);
      WrittenCrLf(lines[1..]);
      var head, rest := lines[0] + "\r\n", Written(lines[1..], "\r\n");
      var text := head + rest;
      assert NoLf(lines[0]);
      assert CrLfAt(text, |lines[0]|);
      assert forall k :: 0 <= k < |lines[0]| ==> text[k] == lines[0][k];
      forall i | 0 <= i < |text| && text[i] == '\n'
        ensures i > 0 && text[i - 1] == '\r'
      {
        if i >= |head| {
          assert text[i] == rest[i - |head|];
          assert rest[i - |head| - 1] == '\r';
        }
      }
    }
  }

  /** Where a line and the text behind it have both characters. */
  lemma CrLfWhere(line: string, rest: string, i: nat)
    requires NoLf(line)
    ensures var n := |line|;
      CrLfAt(line + "\n" + rest, i)
      <==> (i == n - 1 && EndsInCr(line)) || (i > n && CrLfAt(rest, i - n - 1))
  {
    var text := line + "\n" + rest;
    var n := |line|;
    if i + 1 < |text| {
      assert i < n ==> text[i] == line[i];
      assert i + 1 < n ==> text[i + 1] == line[i + 1];
      assert i > n ==> text[i] == rest[i - n - 1] && text[i + 1] == rest[i - n];
    }
  }

  lemma CrBehindLine(line: string, rest: string)
    requires NoLf(line)
    ensures HasCrLf(line + "\n" + rest) <==> EndsInCr(line) || HasCrLf(rest)
  {
    var text := line + "\n" + rest;
    var n := |line|;
    if EndsInCr(line) {
      CrLfWhere(line, rest, n - 1);
    } else if HasCrLf(rest) {
      var i :| 0 <= i < |rest| && CrLfAt(rest, i);
      CrLfWhere(line, rest, n + 1 + i);
      assert CrLfAt(text, n + 1 + i);
    } else if HasCrLf(text) {
      var i :| 0 <= i < |text| && CrLfAt(text, i);
      CrLfWhere(line, rest, i);
    }
  }

  predicate SomeEndsInCr(lines: seq<string>) {
    exists i :: 0 <= i < |lines| && EndsInCr(lines[i])
  }

  lemma {:induction false} WrittenLf(lines: seq<string>)
    requires AllNoLf(lines)
    ensures HasCrLf(Written(lines, "\n")) <==> SomeEndsInCr(lines)
  {
    if lines == [] {
      assert Written(lines, "\n") == "";
    } else {
      assert AllNoLf(lines[1..]);
      WrittenLf(lines[1..]);
      CrBehindLine(lines[0], Written(lines[1..], "\n"));
      if SomeEndsInCr(lines) && !EndsInCr(lines[0]) {
        var i :| 0 <= i < |lines| && EndsInCr(lines[i]);
        assert EndsInCr(lines[1..][i - 1]);
      }
      if SomeEndsInCr(lines[1..]) {
        var i :| 0 <= i < |lines[1..]| && EndsInCr(lines[1..][i]);
        assert EndsInCr(lines[i + 1]);
      }
    }
  }

  /** A line without a carriage return at its end leaves a bare line feed. */
  lemma {:induction false} BareLf(lines: seq<string>, k: nat)
    requires AllNoLf(lines) && k < |lines| && !EndsInCr(lines[k])
    ensures !AllCrLf(Written(lines, "\n"))
  {
    var rest := Written(lines[1..], "\n");
    var text := lines[0] + "\n" + rest;
    var n := |lines[0]|;
    if k == 0 {
      assert text[n] == '\n';
      assert n > 0 ==> text[n - 1] == Last(lines[0]);
    } else {
      assert AllNoLf(lines[1..]);
      BareLf(lines[1..], k - 1);
      var i :| 0 <= i < |rest| && rest[i] == '\n' && !(i > 0 && rest[i - 1] == '\r');
      assert text[n + 1 + i] == '\n' && text[n + i] == if i == 0 then '\n' else rest[i - 1];
    }
  }

  lemma {:induction false} CrOnlyAtEnd(text: string)
    requires !HasCrLf(text)
    ensures forall i :: 0 <= i < |Lines(text)| ==>
      (EndsInCr(Lines(text)[i]) <==> i == |Lines(text)| - 1 && EndsInCr(text))
    decreases |text|
  {
    if text != "" {
      var e := Find(text, '\n');
      if e < |text| {
        var line, rest := text[..e], text[e + 1..];
        assert text == line + "\n" + rest;
        assert NoLf(line);
        CrBehindLine(line, rest);
        CrOnlyAtEnd(rest);
        assert Lines(text) == [DropCr(line)] + Lines(rest);
        assert EndsInCr(text) <==> EndsInCr(rest) by {
          if rest != "" {
            assert Last(text) == Last(rest);
          } else {
            assert Last(text) == '\n';
          }
        }
      }
    }
  }

  /** The text ends in a carriage return alone, has its other line ends without, and its
      last line is one that the changes leave alone. */
  predicate BareCrStays(text: string, changes: Changes) {
    !HasCrLf(text) && EndsInCr(text) && Lines(text) != [] && Hit(Last(Lines(text)), changes).None?
  }

  lemma {:induction false} SeenSomewhere(lines: seq<string>, changes: Changes) returns (i: nat)
    requires Seen(lines, changes) != []
    ensures i < |lines| && Hit(lines[i], changes).Some?
  {
    var init := lines[..|lines| - 1];
    if Seen(init, changes) != [] {
      i := SeenSomewhere(init, changes);
    } else {
      i := |lines| - 1;
    }
  }

  /** Some updated line has no carriage return at its end. */
  lemma PlainSomewhere(lines: seq<string>, changes: Changes) returns (k: nat)
    requires SafeChanges(changes)
    ensures k < |UpdatedLines(lines, changes)| && !EndsInCr(UpdatedLines(lines, changes)[k])
  {
    UpdatedLinesBreaks(lines, changes);
    var seen := Seen(lines, changes);
    if seen == [] {
      MissingAre(changes, seen);
      assert changes[0] in changes;
      k := |lines|;
    } else {
      k := SeenSomewhere(lines, changes);
    }
  }

  lemma WhichEndInCr(text: string, changes: Changes)
    requires SafeChanges(changes) && !HasCrLf(text)
    ensures SomeEndsInCr(UpdatedLines(Lines(text), changes)) <==> BareCrStays(text, changes)
  {
    var lines := Lines(text);
    LinesHaveNoLf(text);
    UpdatedLinesBreaks(lines, changes);
    CrOnlyAtEnd(text);
    var all := UpdatedLines(lines, changes);
    if BareCrStays(text, changes) {
      var last: nat := |lines| - 1;
      assert EndsInCr(lines[last]);
      assert KeepsCr(lines, changes, last);
      assert EndsInCr(all[last]);
    }
    if SomeEndsInCr(all) {
      var i: nat :| i < |all| && EndsInCr(all[i]);
      assert KeepsCr(lines, changes, i);
      assert i == |lines| - 1;
    }
  }

  /** The rewritten text, by its lines. */
  lemma RewrittenIs(text: string, changes: Changes)
    requires SafeChanges(changes)
    ensures var lines := UpdatedLines(Lines(text), changes);
      AllNoLf(lines) && lines != [] && Updated(text, changes) == Written(lines, LineEnd(text))
  {
    LinesHaveNoLf(text);
    SafeHaveNoLf(changes);
    UpdatedLinesNoLf(Lines(text), changes);
    UpdatedIsNotEmpty(Lines(text), changes);
  }

  lemma StableWhen(text: string, changes: Changes)
    requires SafeChanges(changes)
    requires Lines(Updated(text, changes)) == UpdatedLines(Lines(text), changes)
    requires LineEnd(Updated(text, changes)) == LineEnd(text)
    ensures Updated(Updated(text, changes), changes) == Updated(text, changes)
  {
    RewrittenIs(text, changes);
    RewrittenIs(Updated(text, changes), changes);
    UpdatedLinesStay(Lines(text), changes);
  }

  lemma UnstableWhen(text: string, changes: Changes)
    requires SafeChanges(changes) && BareCrStays(text, changes)
    ensures Updated(Updated(text, changes), changes) != Updated(text, changes)
  {
    LinesHaveNoLf(text);
    RewrittenIs(text, changes);
    var lines := UpdatedLines(Lines(text), changes);
    WhichEndInCr(text, changes);
    WrittenLf(lines);
    var k := PlainSomewhere(Lines(text), changes);
    BareLf(lines, k);
    RewrittenIs(Updated(text, changes), changes);
    WrittenCrLf(UpdatedLines(Lines(Updated(text, changes)), changes));
  }

  /** A second rewrite changes nothing, unless a bare carriage return at the very end has
      turned into a line end of both characters: then every line end is written anew. */
  lemma SecondRewriteIff(text: string, changes: Changes)
    requires SafeChanges(changes)
    ensures Updated(Updated(text, changes), changes) == Updated(text, changes) <==> !BareCrStays(text, changes)
  {
    if BareCrStays(text, changes) {
      UnstableWhen(text, changes);
    } else {
      RewrittenIs(text, changes);
      SafeHaveNoLf(changes);
      UpdatedTextLines(text, changes);
      var lines := UpdatedLines(Lines(text), changes);
      if HasCrLf(text) {
        WrittenCrLf(lines);
      } else {
        WhichEndInCr(text, changes);
        WrittenLf(lines);
        assert Dropped(lines) == lines;
      }
      StableWhen(text, changes);
    }
  }

  /** The smallest text for which a second rewrite changes something. */
  lemma BareReturnIsRewritten(changes: Changes)
    requires SafeChanges(changes)
    ensures Updated(Updated("\r", changes), changes) != Updated("\r", changes)
  {
    assert "\r"[1..] == "";
    assert Bare("\r") == "" by {
      TrimIgnoresEnd("", '\r');
      assert "" + "\r" == "\r";
    }
    assert Lines("\r") == ["\r"];
    SecondRewriteIff("\r", changes);
  }
}
