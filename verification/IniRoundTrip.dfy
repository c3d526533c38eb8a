/** Settings written into any ini text are the settings parsed from it. */
module IniRoundTrip {
  import opened IniLaws
  import opened IniRewrite
  import opened IniSettings
  import opened IniText
  import opened TextLaws
  import opened Texts
  import opened Wrappers

  // ----- names -----

  /** Enough of a name to tell it from the others. */
  function Mark(k: Key): (nat, char) {
    match k
    case MaxEntries => (11, 'n')
    case MaxDays => (8, 'a')
    case KeepRaw => (8, 'r')
    case KeepAttachments => (16, 'a')
    case RetryQueue => (11, '_')
    case WebUrl => (7, 'r')
    case PushUrl => (8, 'u')
    case Hostname => (13, 'h')
    case User => (9, 'u')
    case Pass => (9, 'p')
    case MaxSize => (12, 'm')
  }

  lemma NameHasMark(k: Key)
    ensures |Name(k)| == Mark(k).0 && Name(k)[5] == Mark(k).1
  {
  }

  lemma NamesDiffer(j: Key, k: Key)
    requires Name(j) == Name(k)
    ensures j == k
  {
    NameHasMark(j);
    NameHasMark(k);
  }

  lemma NameIsSafe(k: Key)
    ensures SafeName(Name(k))
  {
  }

  lemma KeyAtIsUnique(i: nat, j: nat)
    requires i < 11 && j < 11 && KeyAt(i) == KeyAt(j)
    ensures i == j
  {
  }

  lemma {:induction false} KeyFromName(i: nat, j: nat)
    requires i <= j < 11
    ensures KeyFrom(Name(KeyAt(j)), i) == Some(KeyAt(j))
    decreases j - i
  {
    if Name(KeyAt(j)) != Name(KeyAt(i)) {
      KeyFromName(i + 1, j);
    } else {
      NamesDiffer(KeyAt(i), KeyAt(j));
    }
  }

  lemma {:induction false} KeyFromIs(name: string, i: nat)
    requires i <= 11
    ensures var k := KeyFrom(name, i);
      && (k.Some? ==> name == Name(k.value))
      && (k.None? ==> forall j :: i <= j < 11 ==> name != Name(KeyAt(j)))
    decreases 11 - i
  {
    if i < 11 && name != Name(KeyAt(i)) {
      KeyFromIs(name, i + 1);
    }
  }

  lemma KeyIsAt(k: Key) returns (i: nat)
    ensures i < 11 && KeyAt(i) == k
  {
    i := if k.MaxEntries? then 0 else if k.MaxDays? then 1 else if k.KeepRaw? then 2
         else if k.KeepAttachments? then 3 else if k.RetryQueue? then 4 else if k.WebUrl? then 5
         else if k.PushUrl? then 6 else if k.Hostname? then 7 else if k.User? then 8
         else if k.Pass? then 9 else 10;
  }

  lemma KeyOfName(k: Key)
    ensures KeyOf(Name(k)) == Some(k)
  {
    var i := KeyIsAt(k);
    KeyFromName(0, i);
  }

  // ----- settings and what is read of them -----

  /** Numbers as their types allow, at least one entry, and a size in its short form; the
      texts may be anything. */
  predicate Ranged(s: Settings) {
    && 1 <= s.maxEntries < U64 && s.maxDays < U32 && s.retryQueue < U64
    && IsShort(s.maxSize)
  }

  /** A size in the form that sizes are shown in. */
  predicate IsShort(size: string) {
    ParseSize(size).Some? && HumanSize(ParseSize(size).value) == size
  }

  predicate TextsNoLf(s: Settings) {
    NoLf(s.webUrl) && NoLf(s.pushUrl) && NoLf(s.hostname) && NoLf(s.user) && NoLf(s.pass)
  }

  /** What the parser makes of the settings; an empty host name is passed over. */
  function AsRead(initial: Config, s: Settings): Settings {
    var hostname := StripComment(s.hostname);
    s.(webUrl := NormalizeUrl(StripComment(s.webUrl)),
       pushUrl := TrimSlashes(StripComment(s.pushUrl)),
       hostname := if hostname == "" then initial.hostname else hostname,
       user := StripComment(s.user),
       pass := StripComment(s.pass))
  }

  /** An address that an ini value can hold: no comment sign, no line feed, no blank or quote
      at its ends, no slash at its end. */
  predicate UrlHolds(url: string) {
    SafeValue(url) && (url == "" || Last(url) != '/')
  }

  /** The settings that survive. A host name that reads as empty must be the one that the
      configuration had before. */
  predicate Holds(initial: Config, s: Settings) {
    && UrlHolds(s.webUrl) && UrlHolds(s.pushUrl) && SafeValue(s.user) && SafeValue(s.pass)
    && (if StripComment(s.hostname) == "" then s.hostname == initial.hostname else SafeValue(s.hostname))
  }

  lemma DecimalIsSafe(n: nat)
    ensures SafeValue(Decimal(n))
  {
    var s := Decimal(n);
    assert AllDigits(s);
  }

  lemma SizeIsSafe(n: nat)
    ensures SafeValue(HumanSize(n))
  {
    if n >= 1073741824 && n % 1073741824 == 0 {
      UnitIsSafe(n / 1073741824, 'G');
    } else if n >= 1048576 && n % 1048576 == 0 {
      UnitIsSafe(n / 1048576, 'M');
    } else if n >= 1024 && n % 1024 == 0 {
      UnitIsSafe(n / 1024, 'k');
    } else {
      DecimalIsSafe(n);
    }
  }

  lemma UnitIsSafe(n: nat, unit: char)
    requires unit == 'G' || unit == 'M' || unit == 'k'
    ensures SafeValue(Decimal(n) + [unit])
  {
    DecimalIsSafe(n);
    assert Last(Decimal(n) + [unit]) == unit;
  }

  lemma ShortIsSafe(size: string)
    requires IsShort(size)
    ensures SafeValue(size)
  {
    SizeIsSafe(ParseSize(size).value);
  }

  lemma BitIsSafe(b: bool)
    ensures SafeValue(Bit(b))
  {
  }

  predicate IsText(k: Key) {
    k.WebUrl? || k.PushUrl? || k.Hostname? || k.User? || k.Pass?
  }

  lemma ValueIsSafe(s: Settings, k: Key)
    requires Ranged(s) && (IsText(k) ==> SafeValue(Shown(s, k)))
    ensures SafeValue(Shown(s, k))
  {
    match k {
      case MaxEntries => DecimalIsSafe(s.maxEntries);
      case MaxDays => DecimalIsSafe(s.maxDays);
      case RetryQueue => DecimalIsSafe(s.retryQueue);
      case MaxSize => ShortIsSafe(s.maxSize);
      case KeepRaw => BitIsSafe(s.keepRaw);
      case KeepAttachments => BitIsSafe(s.keepAttachments);
      case _ =>
    }
  }

  lemma ChangesAreNamed(s: Settings)
    ensures WellNamed(AsIni(s))
  {
    var changes := AsIni(s);
    forall i | 0 <= i < 11
      ensures SafeName(changes[i].0)
    {
      NameIsSafe(KeyAt(i));
    }
    forall i, j | 0 <= i < j < 11
      ensures changes[i].0 != changes[j].0
    {
      if changes[i].0 == changes[j].0 {
        NamesDiffer(KeyAt(i), KeyAt(j));
        KeyAtIsUnique(i, j);
      }
    }
  }

  lemma ValueHasNoLf(s: Settings, k: Key)
    requires Ranged(s) && TextsNoLf(s)
    ensures NoLf(Shown(s, k))
  {
    if !IsText(k) {
      ValueIsSafe(s, k);
    }
  }

  lemma ValuesHaveNoLf(s: Settings)
    requires Ranged(s) && TextsNoLf(s)
    ensures AllValuesNoLf(AsIni(s))
  {
    var changes := AsIni(s);
    forall i | 0 <= i < 11
      ensures NoLf(changes[i].1)
    {
      ValueHasNoLf(s, KeyAt(i));
    }
  }

  /** The texts can all be held, and the host name is not empty. */
  predicate AllSafeTexts(s: Settings) {
    SafeValue(s.webUrl) && SafeValue(s.pushUrl) && SafeValue(s.hostname) && SafeValue(s.user) && SafeValue(s.pass)
  }

  lemma ShownIsSafe(s: Settings, k: Key)
    requires Ranged(s) && AllSafeTexts(s)
    ensures SafeValue(Shown(s, k))
  {
    ValueIsSafe(s, k);
  }

  lemma ChangesAreSafe(s: Settings)
    requires Ranged(s) && AllSafeTexts(s)
    ensures SafeChanges(AsIni(s))
  {
    var changes := AsIni(s);
    ChangesAreNamed(s);
    forall i | 0 <= i < 11
      ensures Safe(changes[i])
    {
      assert SafeName(changes[i].0);
      ShownIsSafe(s, KeyAt(i));
    }
  }

  /** The changes are for the known keys. */
  lemma ChangeByKey(s: Settings, name: string)
    ensures ChangeFor(AsIni(s), name)
         == match KeyOf(name) case Some(k) => Some((Name(k), Shown(s, k))) case None => None
  {
    var changes := AsIni(s);
    ChangesAreNamed(s);
    KeyFromIs(name, 0);
    ChangeIsFound(changes, name);
    match KeyOf(name) {
      case Some(k) =>
        var i := KeyIsAt(k);
        OwnChange(changes, i);
      case None =>
    }
  }

  // ----- parsing the settings -----

  predicate Agrees(c: Config, s: Settings, k: Key) {
    match k
    case MaxEntries => c.maxEntries == s.maxEntries
    case MaxDays => c.maxDays == s.maxDays
    case KeepRaw => c.keepRaw == s.keepRaw
    case KeepAttachments => c.keepAttachments == s.keepAttachments
    case RetryQueue => c.retryQueue == s.retryQueue
    case WebUrl => c.webUrl == s.webUrl
    case PushUrl => c.pushUrl == s.pushUrl
    case Hostname => c.hostname == s.hostname
    case User => c.user == s.user
    case Pass => c.pass == s.pass
    case MaxSize => HumanSize(c.maxSize) == s.maxSize
  }

  lemma BitsAreRead()
    ensures IsTrue("1") && !IsTrue("0")
  {
    TrimKeeps("1");
    TrimKeeps("0");
    assert Lower("1") == "1" && Lower("0") == "0";
  }

  /** Whether an entry with what is shown sets its field. */
  predicate Sets(s: Settings, k: Key) {
    k.Hostname? ==> StripComment(s.hostname) != ""
  }

  /** A value as it is shown sets its field to what is read of it. */
  lemma SetAgrees(c: Config, initial: Config, s: Settings, k: Key)
    requires Ranged(s) && Sets(s, k)
    ensures Agrees(Set(c, k, StripComment(Shown(s, k))), AsRead(initial, s), k)
  {
    if !IsText(k) {
      ValueIsSafe(s, k);
      StripKeeps(Shown(s, k));
    }
    match k {
      case MaxEntries => NumberOfDecimal(s.maxEntries, U64);
      case MaxDays => NumberOfDecimal(s.maxDays, U32);
      case RetryQueue => NumberOfDecimal(s.retryQueue, U64);
      case KeepRaw => BitsAreRead();
      case KeepAttachments => BitsAreRead();
      case _ =>
    }
  }

  lemma SetKeeps(c: Config, s: Settings, k: Key, j: Key, value: string)
    requires j != k
    ensures Agrees(Set(c, j, value), s, k) == Agrees(c, s, k)
    ensures Set(c, j, value).others == c.others
  {
  }

  lemma SetKeepsOthers(c: Config, k: Key, value: string)
    ensures Set(c, k, value).others == c.others
  {
  }

  predicate HasKey(entries: seq<Entry>, k: Key) {
    exists i :: 0 <= i < |entries| && KeyOf(entries[i].key) == Some(k)
  }

  /** An entry of the key sets the field; any other entry leaves it. */
  lemma ApplyAgrees(c: Config, initial: Config, s: Settings, e: Entry, k: Key)
    requires Ranged(s) && Changed(AsIni(s), e)
    requires (KeyOf(e.key) == Some(k) && Sets(s, k)) || Agrees(c, AsRead(initial, s), k)
    ensures Agrees(Apply(c, e), AsRead(initial, s), k)
  {
    ChangeByKey(s, e.key);
    match KeyOf(e.key) {
      case Some(j) =>
        assert e.value == StripComment(Shown(s, j));
        if j != k {
          SetKeeps(c, AsRead(initial, s), k, j, e.value);
        } else if Sets(s, k) {
          SetAgrees(c, initial, s, k);
        }
      case None =>
    }
  }

  lemma KeyBefore(entries: seq<Entry>, k: Key)
    requires HasKey(entries, k) && KeyOf(Last(entries).key) != Some(k)
    ensures HasKey(entries[..|entries| - 1], k)
  {
    var i :| 0 <= i < |entries| && KeyOf(entries[i].key) == Some(k);
    assert entries[..|entries| - 1][i] == entries[i];
  }

  /** Once a key's value was read as shown, and only ever as shown, its field has what is
      read of it; a field that no entry sets keeps what it had. */
  lemma {:induction false} ApplyAllAgrees(c: Config, initial: Config, s: Settings, entries: seq<Entry>, k: Key)
    requires Ranged(s) && AllChanged(AsIni(s), entries)
    requires (HasKey(entries, k) && Sets(s, k)) || Agrees(c, AsRead(initial, s), k)
    ensures Agrees(ApplyAll(c, entries), AsRead(initial, s), k)
  {
    if entries != [] {
      var init, e := entries[..|entries| - 1], Last(entries);
      assert Changed(AsIni(s), e) && AllChanged(AsIni(s), init);
      if !(KeyOf(e.key) == Some(k) && Sets(s, k)) {
        if HasKey(entries, k) && Sets(s, k) {
          KeyBefore(entries, k);
        }
        ApplyAllAgrees(c, initial, s, init, k);
      }
      ApplyAgrees(ApplyAll(c, init), initial, s, e, k);
    }
  }

  /** The rest of the configuration comes from the entries of other keys. */
  lemma {:induction false} OthersAreApplied(c: Config, s: Settings, entries: seq<Entry>)
    ensures ApplyAll(c, entries).others == c.others + Others(entries, AsIni(s))
  {
    if entries != [] {
      var init, e := entries[..|entries| - 1], Last(entries);
      OthersAreApplied(c, s, init);
      ChangeByKey(s, e.key);
      if KeyOf(e.key).Some? {
        SetKeepsOthers(ApplyAll(c, init), KeyOf(e.key).value, e.value);
      }
    }
  }

  lemma AllAgree(c: Config, s: Settings)
    requires forall k :: Agrees(c, s, k)
    ensures SettingsOf(c) == s
  {
    assert Agrees(c, s, MaxEntries) && Agrees(c, s, MaxDays) && Agrees(c, s, KeepRaw);
    assert Agrees(c, s, KeepAttachments) && Agrees(c, s, RetryQueue) && Agrees(c, s, WebUrl);
    assert Agrees(c, s, PushUrl) && Agrees(c, s, Hostname) && Agrees(c, s, User);
    assert Agrees(c, s, Pass) && Agrees(c, s, MaxSize);
  }

  lemma KeyIsThere(entries: seq<Entry>, s: Settings, k: Key)
    requires forall i :: 0 <= i < 11 ==> Includes(entries, AsIni(s)[i])
    ensures HasKey(entries, k)
  {
    var i := KeyIsAt(k);
    assert Includes(entries, AsIni(s)[i]);
    KeyOfName(k);
    var j :| 0 <= j < |entries| && entries[j] == AsEntry((Name(k), Shown(s, k)));
    assert KeyOf(entries[j].key) == Some(k);
  }

  /** For any text and any texts without line feeds: what is parsed from the rewritten text
      is what the parser makes of the settings, and every other key reads as before. */
  lemma SettingsAreRead(initial: Config, text: string, s: Settings)
    requires Ranged(s) && TextsNoLf(s)
    ensures var written := Updated(text, AsIni(s));
      && SettingsOf(Parsed(initial, written)) == AsRead(initial, s)
      && Parsed(initial, written).others == Parsed(initial, text).others
  {
    var changes := AsIni(s);
    var written := Updated(text, changes);
    ChangesAreNamed(s);
    ValuesHaveNoLf(s);
    RewriteIsRead(text, changes);
    var entries := Entries(Lines(written));
    forall k: Key
      ensures Agrees(ApplyAll(initial, entries), AsRead(initial, s), k)
    {
      KeyIsThere(entries, s, k);
      ApplyAllAgrees(initial, initial, s, entries, k);
    }
    AllAgree(ApplyAll(initial, entries), AsRead(initial, s));
    OthersAreApplied(initial, s, entries);
    OthersAreApplied(initial, s, Entries(Lines(text)));
  }

  // ----- nothing that is read has a line feed -----

  lemma {:induction false} QuotesKeepNoLf(s: string)
    requires NoLf(s)
    ensures NoLf(TrimQuotesStart(s)) && NoLf(TrimQuotesEnd(s)) && NoLf(TrimSlashes(s))
    decreases |s|
  {
    if s != "" {
      assert NoLf(s[1..]) && NoLf(s[..|s| - 1]);
      QuotesKeepNoLf(s[1..]);
      QuotesKeepNoLf(s[..|s| - 1]);
    }
  }

  lemma TrimmedHasNoLf(s: string)
    requires NoLf(s)
    ensures NoLf(Trim(s))
  {
    TrimKeepsNoLf(s);
    TrimKeepsNoLf(TrimStart(s));
  }

  lemma StrippedHasNoLf(value: string)
    requires NoLf(value)
    ensures NoLf(StripComment(value)) && NoLf(NormalizeUrl(value))
  {
    var cut := value[..CommentAt(value)];
    TrimmedHasNoLf(cut);
    QuotesKeepNoLf(Trim(cut));
    QuotesKeepNoLf(TrimQuotesStart(Trim(cut)));
  }

  predicate AllEntriesNoLf(entries: seq<Entry>) {
    forall i :: 0 <= i < |entries| ==> NoLf(entries[i].value)
  }

  lemma EntryHasNoLf(raw: string)
    requires NoLf(raw)
    ensures EntryOf(raw).Some? ==> NoLf(EntryOf(raw).value.value)
  {
    BareHasNoLf(raw);
    var line := Bare(raw);
    var e := Find(line, '=');
    if e < |line| {
      StrippedHasNoLf(line[e + 1..]);
    }
  }

  lemma {:induction false} EntriesHaveNoLf(lines: seq<string>)
    requires AllNoLf(lines)
    ensures AllEntriesNoLf(Entries(lines))
  {
    if lines != [] {
      EntriesHaveNoLf(lines[..|lines| - 1]);
      EntryHasNoLf(Last(lines));
    }
  }

  lemma SetHasNoLf(c: Config, k: Key, value: string)
    requires TextsNoLf(SettingsOf(c))
    requires NoLf(value) && NoLf(NormalizeUrl(value)) && NoLf(TrimSlashes(value))
    ensures TextsNoLf(SettingsOf(Set(c, k, value)))
  {
  }

  lemma ApplyHasNoLf(c: Config, e: Entry)
    requires TextsNoLf(SettingsOf(c)) && NoLf(e.value)
    ensures TextsNoLf(SettingsOf(Apply(c, e)))
  {
    match KeyOf(e.key) {
      case Some(k) =>
        StrippedHasNoLf(e.value);
        QuotesKeepNoLf(e.value);
        SetHasNoLf(c, k, e.value);
      case None =>
    }
  }

  lemma {:induction false} ApplyAllHasNoLf(c: Config, entries: seq<Entry>)
    requires TextsNoLf(SettingsOf(c)) && AllEntriesNoLf(entries)
    ensures TextsNoLf(SettingsOf(ApplyAll(c, entries)))
  {
    if entries != [] {
      ApplyAllHasNoLf(c, entries[..|entries| - 1]);
      ApplyHasNoLf(ApplyAll(c, entries[..|entries| - 1]), Last(entries));
    }
  }

  lemma ParsedHasNoLf(c: Config, text: string)
    requires TextsNoLf(SettingsOf(c))
    ensures TextsNoLf(SettingsOf(Parsed(c, text)))
  {
    LinesHaveNoLf(text);
    EntriesHaveNoLf(Lines(text));
    ApplyAllHasNoLf(c, Entries(Lines(text)));
  }

  // ----- exactly the settings that survive -----

  lemma SlashesShorten(s: string)
    ensures |TrimSlashes(s)| <= |s|
    ensures TrimSlashes(s) == s <==> s == "" || Last(s) != '/'
  {
  }

  /** An address comes through the parser as it is exactly if an ini value can hold it. */
  lemma UrlHoldsIff(url: string)
    requires NoLf(url)
    ensures NormalizeUrl(StripComment(url)) == url <==> UrlHolds(url)
    ensures TrimSlashes(StripComment(url)) == url <==> UrlHolds(url)
  {
    var value := StripComment(url);
    var cut := value[..CommentAt(value)];
    SafeIff(url);
    StripShortens(url);
    SlashesShorten(value);
    SlashesShorten(Trim(cut));
    TrimShortens(cut);
    TrimShortens(TrimStart(cut));
    if value == url {
      StripShortens(value);
      assert cut == value;
    }
  }

  lemma HoldsIff(initial: Config, s: Settings)
    requires TextsNoLf(s)
    ensures AsRead(initial, s) == s <==> Holds(initial, s)
  {
    UrlHoldsIff(s.webUrl);
    UrlHoldsIff(s.pushUrl);
    SafeIff(s.hostname);
    SafeIff(s.user);
    SafeIff(s.pass);
  }

  /** For any text and any settings in range, started from a configuration without line feeds
      in its texts: the settings written into the text are parsed from it if and only if an
      ini value can hold every one of their texts. Then every other key reads as before. */
  lemma SettingsComeBackIff(initial: Config, text: string, s: Settings)
    requires Ranged(s) && TextsNoLf(SettingsOf(initial))
    ensures var parsed := Parsed(initial, Updated(text, AsIni(s)));
      && (SettingsOf(parsed) == s <==> Holds(initial, s))
      && (SettingsOf(parsed) == s ==> parsed.others == Parsed(initial, text).others)
  {
    ParsedHasNoLf(initial, Updated(text, AsIni(s)));
    if TextsNoLf(s) {
      SettingsAreRead(initial, text, s);
      HoldsIff(initial, s);
    }
  }

  /** Of the settings that survive, with a host name, a second rewrite changes nothing unless
      the text ended in a bare carriage return. */
  lemma SecondUpdateIff(initial: Config, text: string, s: Settings)
    requires Ranged(s) && Holds(initial, s) && s.hostname != "" && StripComment(s.hostname) != ""
    ensures var changes := AsIni(s);
      Updated(Updated(text, changes), changes) == Updated(text, changes) <==> !BareCrStays(text, changes)
  {
    ChangesAreSafe(s);
    SecondRewriteIff(text, AsIni(s));
  }

  lemma BlankIsStripped()
    ensures StripComment(" a") == "a"
  {
    assert CommentAt(" a") == 2 && " a"[..2] == " a";
    assert " a"[1..] == "a";
    TrimKeeps("a");
  }

  /** The page takes a password with a blank in front, which reads back without it. */
  lemma LeadingBlankIsLost(initial: Config, text: string, s: Settings)
    requires Ranged(s) && TextsNoLf(s) && s.pass == " a"
    ensures SettingsOf(Parsed(initial, Updated(text, AsIni(s)))).pass == "a"
  {
    SettingsAreRead(initial, text, s);
    calc {
      SettingsOf(Parsed(initial, Updated(text, AsIni(s)))).pass;
      AsRead(initial, s).pass;
      StripComment(s.pass);
      { BlankIsStripped(); }
      "a";
    }
  }
}
