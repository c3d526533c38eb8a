/** The settings of the web page in the ini file (crates/stmp2log/src/config.rs): written,
    rewritten into any text, and parsed again. */
module IniSettings {
  import opened IniLaws
  import opened IniText
  import opened TextLaws
  import opened Texts
  import opened Wrappers
  import IniRewrite

  const U64: nat := 0x1_0000_0000_0000_0000
  const U32: nat := 0x1_0000_0000

  // ----- sizes -----

  /** A decimal number of a machine word. */
  function Number(s: string, limit: nat): Option<nat> {
    var digits := if s != "" && s[0] == '+' then s[1..] else s;
    if digits == "" || !AllDigits(digits) || Value(digits) >= limit then None else Some(Value(digits))
  }

  function HumanSize(bytes: nat): string {
    if bytes >= 1073741824 && bytes % 1073741824 == 0 then Decimal(bytes / 1073741824) + "G"
    else if bytes >= 1048576 && bytes % 1048576 == 0 then Decimal(bytes / 1048576) + "M"
    else if bytes >= 1024 && bytes % 1024 == 0 then Decimal(bytes / 1024) + "k"
    else Decimal(bytes)
  }

  predicate IsUnit(c: char) {
    c == 'k' || c == 'm' || c == 'g'
  }

  function Scaled(n: nat, unit: char): nat {
    if unit == 'k' then n * 1024 else if unit == 'm' then n * 1048576 else n * 1073741824
  }

  /** A product that does not fit the machine word wraps around. */
  function Word(n: nat): nat {
    if n < U64 then n else n % U64
  }

  /** A size in lower case, without blanks and without a `b` at its end. */
  function SizeText(value: string): string {
    var lower := Lower(Trim(value));
    Trim(if lower != "" && Last(lower) == 'b' then lower[..|lower| - 1] else lower)
  }

  function ParseSizeText(v: string): Option<nat> {
    if v != "" && IsUnit(Last(v)) then
      var number := Number(Trim(v[..|v| - 1]), U64);
      if number.None? then None else Some(Word(Scaled(number.value, Last(v))))
    else Number(v, U64)
  }

  function ParseSize(value: string): Option<nat> {
    ParseSizeText(SizeText(value))
  }

  lemma DigitsStay(s: string)
    requires AllDigits(s) && s != ""
    ensures Trim(s) == s && Lower(s) == s && s[0] != '+'
    ensures Last(s) != 'b' && !IsUnit(Last(s))
  {
    TrimKeeps(s);
  }

  lemma NumberOfDecimal(n: nat, limit: nat)
    requires n < limit
    ensures Number(Decimal(n), limit) == Some(n)
  {
    DigitsStay(Decimal(n));
    ValueOfDecimal(n);
  }

  lemma TextWithUnit(digits: string, unit: char)
    requires AllDigits(digits) && digits != "" && (unit == 'G' || unit == 'M' || unit == 'k')
    ensures SizeText(digits + [unit]) == digits + [LowerChar(unit)]
  {
    var s, lower := digits + [unit], digits + [LowerChar(unit)];
    DigitsStay(digits);
    TrimKeeps(s);
    assert Lower(s) == lower;
    assert Last(lower) == LowerChar(unit);
    TrimKeeps(lower);
  }

  lemma TextOfSize(digits: string, unit: char, n: nat, bytes: nat)
    requires AllDigits(digits) && digits != "" && IsUnit(unit)
    requires Number(digits, U64) == Some(n) && Scaled(n, unit) == bytes < U64
    ensures ParseSizeText(digits + [unit]) == Some(bytes)
  {
    var v := digits + [unit];
    assert v[..|v| - 1] == digits;
    DigitsStay(digits);
  }

  lemma SizeWithUnit(n: nat, unit: char, bytes: nat)
    requires n < U64 && (unit == 'G' || unit == 'M' || unit == 'k')
    requires Scaled(n, LowerChar(unit)) == bytes < U64
    ensures ParseSize(Decimal(n) + [unit]) == Some(bytes)
  {
    var digits, lower := Decimal(n), LowerChar(unit);
    calc {
      ParseSize(digits + [unit]);
      ParseSizeText(SizeText(digits + [unit]));
      { TextWithUnit(digits, unit); }
      ParseSizeText(digits + [lower]);
      { NumberOfDecimal(n, U64); TextOfSize(digits, lower, n, bytes); }
      Some(bytes);
    }
  }

  lemma SizeWithout(n: nat)
    requires n < U64
    ensures ParseSize(Decimal(n)) == Some(n)
  {
    DigitsStay(Decimal(n));
    NumberOfDecimal(n, U64);
  }

  lemma SizeInUnits(n: nat, q: nat, unit: char)
    requires n < U64 && n == Scaled(q, LowerChar(unit)) && (unit == 'G' || unit == 'M' || unit == 'k')
    ensures ParseSize(Decimal(q) + [unit]) == Some(n)
  {
    SizeWithUnit(q, unit, n);
  }

  /** Every size comes back from its short form. */
  lemma SizeComesBack(n: nat)
    requires n < U64
    ensures ParseSize(HumanSize(n)) == Some(n)
  {
    if n >= 1073741824 && n % 1073741824 == 0 {
      var q := n / 1073741824;
      calc {
        ParseSize(HumanSize(n));
        ParseSize(Decimal(q) + "G");
        { assert n == Scaled(q, 'g'); SizeInUnits(n, q, 'G'); }
        Some(n);
      }
    } else if n >= 1048576 && n % 1048576 == 0 {
      var q := n / 1048576;
      calc {
        ParseSize(HumanSize(n));
        ParseSize(Decimal(q) + "M");
        { assert n == Scaled(q, 'm'); SizeInUnits(n, q, 'M'); }
        Some(n);
      }
    } else if n >= 1024 && n % 1024 == 0 {
      var q := n / 1024;
      calc {
        ParseSize(HumanSize(n));
        ParseSize(Decimal(q) + "k");
        { assert n == Scaled(q, 'k'); SizeInUnits(n, q, 'k'); }
        Some(n);
      }
    } else {
      SizeWithout(n);
    }
  }

  // ----- settings and the parsed configuration -----

  datatype Key =
    | MaxEntries | MaxDays | KeepRaw | KeepAttachments | RetryQueue | WebUrl | PushUrl
    | Hostname | User | Pass | MaxSize

  function Name(k: Key): string {
    match k
    case MaxEntries => "max_entries"
    case MaxDays => "max_days"
    case KeepRaw => "keep_raw"
    case KeepAttachments => "keep_attachments"
    case RetryQueue => "retry_queue"
    case WebUrl => "web_url"
    case PushUrl => "push_url"
    case Hostname => "stmp_hostname"
    case User => "stmp_user"
    case Pass => "stmp_pass"
    case MaxSize => "stmp_maxsize"
  }

  function KeyAt(i: nat): Key
    requires i < 11
  {
    match i
    case 0 => MaxEntries
    case 1 => MaxDays
    case 2 => KeepRaw
    case 3 => KeepAttachments
    case 4 => RetryQueue
    case 5 => WebUrl
    case 6 => PushUrl
    case 7 => Hostname
    case 8 => User
    case 9 => Pass
    case _ => MaxSize
  }

  datatype Settings = Settings(
    maxEntries: nat, maxDays: nat, keepRaw: bool, keepAttachments: bool, retryQueue: nat,
    webUrl: string, pushUrl: string, hostname: string, user: string, pass: string, maxSize: string)

  /** What the page can change, with the size as a number, and the entries of all other
      keys, from which the rest of the configuration comes. */
  datatype Config = Config(
    maxEntries: nat, maxDays: nat, keepRaw: bool, keepAttachments: bool, retryQueue: nat,
    webUrl: string, pushUrl: string, hostname: string, user: string, pass: string, maxSize: nat,
    others: seq<Entry>)

  function Bit(b: bool): string {
    if b then "1" else "0"
  }

  function Shown(s: Settings, k: Key): string {
    match k
    case MaxEntries => Decimal(s.maxEntries)
    case MaxDays => Decimal(s.maxDays)
    case KeepRaw => Bit(s.keepRaw)
    case KeepAttachments => Bit(s.keepAttachments)
    case RetryQueue => Decimal(s.retryQueue)
    case WebUrl => s.webUrl
    case PushUrl => s.pushUrl
    case Hostname => s.hostname
    case User => s.user
    case Pass => s.pass
    case MaxSize => s.maxSize
  }

  function AsIni(s: Settings): (c: Changes)
    ensures |c| == 11
    ensures forall i :: 0 <= i < 11 ==> c[i] == (Name(KeyAt(i)), Shown(s, KeyAt(i)))
  {
    seq(11, i requires 0 <= i < 11 => (Name(KeyAt(i)), Shown(s, KeyAt(i))))
  }

  function SettingsOf(c: Config): Settings {
    Settings(c.maxEntries, c.maxDays, c.keepRaw, c.keepAttachments, c.retryQueue, c.webUrl, c.pushUrl,
             c.hostname, c.user, c.pass, HumanSize(c.maxSize))
  }

  // ----- parsing -----

  function KeyFrom(name: string, i: nat): Option<Key>
    requires i <= 11
    decreases 11 - i
  {
    if i == 11 then None
    else if name == Name(KeyAt(i)) then Some(KeyAt(i))
    else KeyFrom(name, i + 1)
  }

  function KeyOf(name: string): Option<Key> {
    KeyFrom(name, 0)
  }

  predicate IsTrue(value: string) {
    var v := Lower(Trim(value));
    v == "1" || v == "true" || v == "yes" || v == "on"
  }

  function TrimSlashes(s: string): string {
    if s != "" && Last(s) == '/' then TrimSlashes(s[..|s| - 1]) else s
  }

  function NormalizeUrl(value: string): string {
    TrimSlashes(Trim(value[..CommentAt(value)]))
  }

  /** One entry of a known key; a value that makes no sense is passed over. */
  function Set(c: Config, k: Key, value: string): Config {
    match k
    case MaxEntries =>
      var n := Number(value, U64);
      if n.Some? && n.value > 0 then c.(maxEntries := n.value) else c
    case MaxDays =>
      var n := Number(value, U32);
      if n.Some? then c.(maxDays := n.value) else c
    case KeepRaw => c.(keepRaw := IsTrue(value))
    case KeepAttachments => c.(keepAttachments := IsTrue(value))
    case RetryQueue =>
      var n := Number(value, U64);
      if n.Some? then c.(retryQueue := n.value) else c
    case WebUrl => c.(webUrl := NormalizeUrl(value))
    case PushUrl => c.(pushUrl := TrimSlashes(value))
    case Hostname => if value == "" then c else c.(hostname := value)
    case User => c.(user := value)
    case Pass => c.(pass := value)
    case MaxSize =>
      var n := ParseSize(value);
      if n.Some? then c.(maxSize := n.value) else c
  }

  function Apply(c: Config, e: Entry): Config {
    match KeyOf(e.key)
    case Some(k) => Set(c, k, e.value)
    case None => c.(others := c.others + [e])
  }

  function ApplyAll(c: Config, entries: seq<Entry>): Config {
    if entries == [] then c else Apply(ApplyAll(c, entries[..|entries| - 1]), Last(entries))
  }

  function Parsed(initial: Config, text: string): Config {
    ApplyAll(initial, Entries(Lines(text)))
  }

  /** The parser's loop over the lines. */
  method Parse(initial: Config, text: string) returns (c: Config)
    ensures c == Parsed(initial, text)
  {
    c := initial;
    var lines := Lines(text);
    for i := 0 to |lines|
      invariant c == ApplyAll(initial, Entries(lines[..i]))
    {
      assert lines[..i + 1] == lines[..i] + [lines[i]];
      EntriesMore(lines[..i], lines[i]);
      var entry := EntryOf(lines[i]);
      if entry.Some? {
        ApplyMore(initial, Entries(lines[..i]), entry.value);
        c := Apply(c, entry.value);
      }
    }
    assert lines[..|lines|] == lines;
  }

  lemma ApplyMore(c: Config, entries: seq<Entry>, e: Entry)
    ensures ApplyAll(c, entries + [e]) == Apply(ApplyAll(c, entries), e)
  {
    assert (entries + [e])[..|entries|] == entries;
  }
}
