/** Rewriting an ini text (crates/stmp2log/src/config.rs): `update` against the way `parse`
    reads lines. */
module IniText {
  import opened Texts
  import opened Wrappers

  const BOM: char := '\U{FEFF}'

  /** A line as `parse` understands it. */
  datatype Entry = Entry(key: string, value: string)

  /** What to write: names and values. */
  type Changes = seq<(string, string)>

  // ----- lines -----

  function DropCr(line: string): string {
    if line != "" && Last(line) == '\r' then line[..|line| - 1] else line
  }

  /** The lines of a text. A carriage return goes only with the line feed behind it. */
  function Lines(text: string): seq<string>
    decreases |text|
  {
    if text == "" then []
    else
      var i := Find(text, '\n');
      if i == |text| then [text] else [DropCr(text[..i])] + Lines(text[i + 1..])
  }

  /** Lines, each with its line ending. */
  function Written(lines: seq<string>, nl: string): string {
    if lines == [] then "" else lines[0] + nl + Written(lines[1..], nl)
  }

  predicate CrLfAt(text: string, i: nat) {
    i + 1 < |text| && text[i] == '\r' && text[i + 1] == '\n'
  }

  predicate HasCrLf(text: string) {
    exists i :: 0 <= i < |text| && CrLfAt(text, i)
  }

  function LineEnd(text: string): string {
    if HasCrLf(text) then "\r\n" else "\n"
  }

  function TrimBom(s: string): string {
    if s != "" && s[0] == BOM then TrimBom(s[1..]) else s
  }

  /** The line without byte-order marks and blanks around it. */
  function Bare(raw: string): string {
    Trim(TrimBom(raw))
  }

  predicate IsComment(line: string) {
    line == "" || line[0] == '#' || line[0] == ';'
  }

  /** Where a comment starts in a value, or the end. */
  function CommentAt(s: string): (i: nat)
    ensures i <= |s|
    ensures i < |s| ==> s[i] == '#' || s[i] == ';'
    ensures forall k :: 0 <= k < i ==> s[k] != '#' && s[k] != ';'
  {
    if s == "" || s[0] == '#' || s[0] == ';' then 0 else 1 + CommentAt(s[1..])
  }

  predicate IsQuote(c: char) {
    c == '"' || c == '\''
  }

  function TrimQuotesStart(s: string): string {
    if s != "" && IsQuote(s[0]) then TrimQuotesStart(s[1..]) else s
  }

  function TrimQuotesEnd(s: string): string {
    if s != "" && IsQuote(Last(s)) then TrimQuotesEnd(s[..|s| - 1]) else s
  }

  function StripComment(value: string): string {
    TrimQuotesEnd(TrimQuotesStart(Trim(value[..CommentAt(value)])))
  }

  function KeyIn(line: string): string {
    Lower(Trim(line[..Find(line, '=')]))
  }

  function EntryOf(raw: string): Option<Entry> {
    var line := Bare(raw);
    if IsComment(line) then None
    else if line[0] == '[' && Last(line) == ']' then None
    else
      var e := Find(line, '=');
      if e == |line| then None else Some(Entry(KeyIn(line), StripComment(line[e + 1..])))
  }

  function Entries(lines: seq<string>): seq<Entry> {
    if lines == [] then []
    else
      var more := Entries(lines[..|lines| - 1]);
      match EntryOf(Last(lines))
      case Some(entry) => more + [entry]
      case None => more
  }

  // ----- update -----

  /** The first change of that name. */
  function ChangeFor(changes: Changes, key: string): Option<(string, string)> {
    if changes == [] then None
    else if changes[0].0 == key then Some(changes[0])
    else ChangeFor(changes[1..], key)
  }

  /** The change that replaces this line. */
  function Hit(raw: string, changes: Changes): (h: Option<(string, string)>)
    ensures h.Some? ==> Find(Bare(raw), '=') < |Bare(raw)|
  {
    var line := Bare(raw);
    if IsComment(line) || Find(line, '=') == |line| then None else ChangeFor(changes, KeyIn(line))
  }

  /** A comment as it is kept: nothing, or a blank and then the comment sign. */
  predicate IsRemark(remark: string) {
    remark == "" ||
    (|remark| >= 2 && remark[0] == ' ' && (remark[1] == '#' || remark[1] == ';') && !IsWhite(Last(remark)))
  }

  predicate KeepsChars(remark: string, from: string) {
    forall i :: 0 < i < |remark| ==> remark[i] in from
  }

  /** The comment in a value. */
  function CommentIn(rest: string): (remark: string)
    ensures IsRemark(remark)
    ensures KeepsChars(remark, rest)
  {
    var i := CommentAt(rest);
    if i == |rest| then "" else " " + TrimEnd(rest[i..])
  }

  /** The comment kept from a replaced line. */
  function Remark(line: string): (remark: string)
    requires Find(line, '=') < |line|
    ensures IsRemark(remark)
    ensures KeepsChars(remark, line)
  {
    CommentIn(line[Find(line, '=') + 1..])
  }

  function Setting(change: (string, string)): string {
    change.0 + "=" + change.1
  }

  function NewLine(raw: string, changes: Changes): string {
    match Hit(raw, changes)
    case Some(change) => Setting(change) + Remark(Bare(raw))
    case None => raw
  }

  function NewLines(lines: seq<string>, changes: Changes): (n: seq<string>)
    ensures |n| == |lines|
    ensures forall i :: 0 <= i < |n| ==> n[i] == NewLine(lines[i], changes)
  {
    seq(|lines|, i requires 0 <= i < |lines| => NewLine(lines[i], changes))
  }

  /** The names that some line was replaced for. */
  function Seen(lines: seq<string>, changes: Changes): seq<string> {
    if lines == [] then []
    else
      var more := Seen(lines[..|lines| - 1], changes);
      match Hit(Last(lines), changes)
      case Some(change) => more + [change.0]
      case None => more
  }

  function Missing(changes: Changes, seen: seq<string>): Changes {
    if changes == [] then []
    else
      var more := Missing(changes[..|changes| - 1], seen);
      if Last(changes).0 in seen then more else more + [Last(changes)]
  }

  function Settings(changes: Changes): (s: seq<string>)
    ensures |s| == |changes|
    ensures forall i :: 0 <= i < |s| ==> s[i] == Setting(changes[i])
  {
    seq(|changes|, i requires 0 <= i < |changes| => Setting(changes[i]))
  }

  /** The comment line above settings that had none. */
  function Note(): string {
    "# \U{7531} Web \U{754C}\U{9762}\U{5199}\U{5165} / written by the web UI"
  }

  /** The lines above settings that had none: a blank one where needed, and the comment. */
  function Heading(out: seq<string>): seq<string> {
    (if out != [] && Trim(Last(out)) != "" then [""] else []) + [Note()]
  }

  /** What is put behind the old lines for names that had none. */
  function Added(out: seq<string>, missing: Changes): seq<string> {
    if missing == [] then [] else Heading(out) + Settings(missing)
  }

  function UpdatedLines(lines: seq<string>, changes: Changes): seq<string> {
    var out := NewLines(lines, changes);
    out + Added(out, Missing(changes, Seen(lines, changes)))
  }

  function Updated(text: string, changes: Changes): string {
    var lines := UpdatedLines(Lines(text), changes);
    if lines == [] then LineEnd(text) else Written(lines, LineEnd(text))
  }

  function Named(h: Option<(string, string)>): seq<string> {
    match h
    case Some(change) => [change.0]
    case None => []
  }

  lemma NewLinesMore(lines: seq<string>, raw: string, changes: Changes)
    ensures NewLines(lines + [raw], changes) == NewLines(lines, changes) + [NewLine(raw, changes)]
  {
  }

  lemma SeenMore(lines: seq<string>, raw: string, changes: Changes)
    ensures Seen(lines + [raw], changes) == Seen(lines, changes) + Named(Hit(raw, changes))
  {
    assert (lines + [raw])[..|lines|] == lines;
  }

  lemma OneMoreLine(lines: seq<string>, changes: Changes, i: nat)
    requires i < |lines|
    ensures NewLines(lines[..i + 1], changes) == NewLines(lines[..i], changes) + [NewLine(lines[i], changes)]
    ensures Seen(lines[..i + 1], changes) == Seen(lines[..i], changes) + Named(Hit(lines[i], changes))
  {
    var init, raw := lines[..i], lines[i];
    assert lines[..i + 1] == init + [raw];
    NewLinesMore(init, raw, changes);
    SeenMore(init, raw, changes);
  }

  method ReplaceLine(raw: string, changes: Changes) returns (line: string, name: seq<string>)
    ensures line == NewLine(raw, changes)
    ensures name == Named(Hit(raw, changes))
  {
    line, name := raw, [];
    var change := Hit(raw, changes);
    if change.Some? {
      name := [change.value.0];
      line := Setting(change.value) + Remark(Bare(raw));
    }
  }

  method Replace(lines: seq<string>, changes: Changes) returns (out: seq<string>, seen: seq<string>)
    ensures out == NewLines(lines, changes) && seen == Seen(lines, changes)
  {
    seen := [];
    out := [];
    for i := 0 to |lines|
      invariant out == NewLines(lines[..i], changes)
      invariant seen == Seen(lines[..i], changes)
    {
      OneMoreLine(lines, changes, i);
      var line, name := ReplaceLine(lines[i], changes);
      out := out + [line];
      seen := seen + name;
    }
    assert lines[..|lines|] == lines;
  }

  method Update(original: string, changes: Changes) returns (text: string)
    ensures text == Updated(original, changes)
  {
    var out, seen := Replace(Lines(original), changes);
    out := Append(out, Missing(changes, seen));
    text := if out == [] then LineEnd(original) else Written(out, LineEnd(original));
  }

  method Append(lines: seq<string>, missing: Changes) returns (out: seq<string>)
    ensures out == lines + Added(lines, missing)
  {
    out := lines;
    if missing != [] {
      if out != [] && Trim(Last(out)) != "" {
        out := out + [""];
      }
      out := out + [Note()];
      ghost var head := out;
      assert head == lines + Heading(lines);
      for i := 0 to |missing|
        invariant out == head + Settings(missing[..i])
      {
        assert Settings(missing[..i + 1]) == Settings(missing[..i]) + [Setting(missing[i])];
        out := out + [Setting(missing[i])];
      }
      assert missing[..|missing|] == missing;
      assert lines + Heading(lines) + Settings(missing) == lines + (Heading(lines) + Settings(missing));
    }
  }
}
