/** Decoding header values with encoded words (crates/s2l-mail/src/word.rs), against the
    words the client writes. */
module EncodedWords {
  import opened Octets
  import opened Texts
  import opened Wrappers
  import Base64
  import Quoted
  import Utf8

  predicate MarkAt(v: Bytes, i: nat) {
    i + 1 < |v| && v[i] == 61 && v[i + 1] == 63
  }

  predicate HasMark(v: Bytes) {
    exists i :: 0 <= i < |v| && MarkAt(v, i)
  }

  /** The next place where a word could begin, or the end. */
  function NextMark(v: Bytes, i: nat): (j: nat)
    requires i <= |v|
    ensures i <= j <= |v|
    ensures forall k :: i <= k < j ==> !MarkAt(v, k)
    ensures j < |v| ==> MarkAt(v, j)
    decreases |v| - i
  {
    if i == |v| || MarkAt(v, i) then i else NextMark(v, i + 1)
  }

  function Position(v: Bytes, b: Byte): (i: nat)
    ensures i <= |v|
    ensures i < |v| ==> v[i] == b
    ensures forall k :: 0 <= k < i ==> v[k] != b
  {
    if v == [] || v[0] == b then 0 else 1 + Position(v[1..], b)
  }

  /** Where `?=` first is, or the end. */
  function Closing(v: Bytes): (i: nat)
    ensures i < |v| ==> i + 1 < |v| && v[i] == 63 && v[i + 1] == 61
    ensures i <= |v|
    ensures forall k :: 0 <= k < i && k + 1 < |v| ==> v[k] != 63 || v[k + 1] != 61
  {
    if v == [] || (|v| >= 2 && v[0] == 63 && v[1] == 61) then 0 else 1 + Closing(v[1..])
  }

  /** What the two encodings say the bytes are. */
  function Payload(codec: Utf8.Codec, encoding: Byte, data: Bytes): Option<Bytes> {
    if encoding == 66 || encoding == 98 then Base64.Decode(Base64.Cleaned(data))
    else if encoding == 81 || encoding == 113 then Some(Quoted.Decoded(data, true))
    else None
  }

  /** An encoded word at the start of the bytes: its text and its length. */
  function ParseWord(codec: Utf8.Codec, b: Bytes): (r: Option<(string, nat)>)
    requires |b| >= 2
    ensures r.Some? ==> 0 < r.value.1 <= |b|
  {
    var rest := b[2..];
    var labelEnd := Position(rest, 63);
    if labelEnd == |rest| then None
    else
      var named := codec.strict(rest[..labelEnd]);
      var after := rest[labelEnd + 1..];
      if named.None? || |after| < 2 || after[1] != 63 then None
      else
        var payload := after[2..];
        var end := Closing(payload);
        if end == |payload| then None
        else
          var raw := Payload(codec, after[0], payload[..end]);
          if raw.None? then None
          else
            var name := named.value[..Find(named.value, '*')];
            Some((codec.labelled(name, raw.value), 2 + labelEnd + 1 + 1 + 1 + end + 2))
  }

  /** The rest of a value, given the blanks held back and whether a word came last. Blanks
      between two words are dropped. */
  function DecodeFrom(codec: Utf8.Codec, rest: Bytes, gap: Option<string>, lastWasWord: bool): string
    decreases |rest|
  {
    var held := if gap.Some? then gap.value else "";
    if rest == [] then if lastWasWord then "" else held
    else
      var word := if MarkAt(rest, 0) then ParseWord(codec, rest) else None;
      if word.Some? then
        (if lastWasWord then "" else held) + word.value.0 + DecodeFrom(codec, rest[word.value.1..], None, true)
      else
        var j := NextMark(rest, 1);
        var chunk := Utf8.Sniff(codec, rest[..j]);
        if Trim(chunk) == "" && j < |rest| then DecodeFrom(codec, rest[j..], Some(held + chunk), lastWasWord)
        else held + chunk + DecodeFrom(codec, rest[j..], None, false)
  }

  function Decoded(codec: Utf8.Codec, value: Bytes): string {
    if !HasMark(value) then Utf8.Sniff(codec, value) else DecodeFrom(codec, value, None, false)
  }

  method FindMark(v: Bytes, from: nat) returns (j: nat)
    requires from <= |v|
    ensures j == NextMark(v, from)
  {
    j := from;
    while j < |v| && !MarkAt(v, j)
      invariant from <= j <= |v|
      invariant NextMark(v, j) == NextMark(v, from)
    {
      j := j + 1;
    }
  }

  lemma MarksShift(v: Bytes, i: nat, j: nat)
    requires i <= j <= |v|
    ensures NextMark(v[i..], j - i) == NextMark(v, j) - i
    decreases |v| - j
  {
    if j < |v| {
      assert MarkAt(v[i..], j - i) == MarkAt(v, j);
      if !MarkAt(v, j) {
        MarksShift(v, i, j + 1);
      }
    }
  }

  function Held(gap: Option<string>): string {
    if gap.Some? then gap.value else ""
  }

  /** The loop's state: the index, the text so far, blanks held back, what came last. */
  datatype Cursor = Cursor(i: nat, out: string, gap: Option<string>, lastWasWord: bool)

  function Remaining(codec: Utf8.Codec, value: Bytes, c: Cursor): string
    requires c.i <= |value|
  {
    c.out + DecodeFrom(codec, value[c.i..], c.gap, c.lastWasWord)
  }

  function WordPassed(c: Cursor, text: string, n: nat): Cursor {
    Cursor(c.i + n, c.out + (if c.lastWasWord then "" else Held(c.gap)) + text, None, true)
  }

  lemma Joins(out: string, held: string, text: string, rest: string)
    ensures out + (held + text + rest) == out + held + text + rest
  {
  }

  lemma StepWord(codec: Utf8.Codec, rest: Bytes, gap: Option<string>, lastWasWord: bool, text: string, n: nat)
    requires MarkAt(rest, 0) && ParseWord(codec, rest) == Some((text, n))
    ensures 0 < n <= |rest|
    ensures DecodeFrom(codec, rest, gap, lastWasWord)
         == (if lastWasWord then "" else Held(gap)) + text + DecodeFrom(codec, rest[n..], None, true)
  {
  }

  lemma RemainingPassed(codec: Utf8.Codec, value: Bytes, c: Cursor, text: string, n: nat)
    requires c.i + n <= |value|
    ensures Remaining(codec, value, WordPassed(c, text, n))
         == c.out + (if c.lastWasWord then "" else Held(c.gap)) + text + DecodeFrom(codec, value[c.i + n..], None, true)
  {
  }

  lemma AfterWord(codec: Utf8.Codec, value: Bytes, c: Cursor, text: string, n: nat)
    requires c.i < |value| && MarkAt(value, c.i)
    requires ParseWord(codec, value[c.i..]).Some?
    requires ParseWord(codec, value[c.i..]).value == (text, n)
    ensures c.i < c.i + n <= |value|
    ensures Remaining(codec, value, WordPassed(c, text, n)) == Remaining(codec, value, c)
  {
    var rest := value[c.i..];
    var held := if c.lastWasWord then "" else Held(c.gap);
    assert MarkAt(rest, 0);
    StepWord(codec, rest, c.gap, c.lastWasWord, text, n);
    assert value[c.i + n..] == rest[n..];
    var later := DecodeFrom(codec, rest[n..], None, true);
    calc {
      Remaining(codec, value, c);
      c.out + DecodeFrom(codec, rest, c.gap, c.lastWasWord);
      c.out + (held + text + later);
      { Joins(c.out, held, text, later); }
      c.out + held + text + later;
      { RemainingPassed(codec, value, c, text, n); }
      Remaining(codec, value, WordPassed(c, text, n));
    }
  }

  lemma StepChunk(codec: Utf8.Codec, rest: Bytes, gap: Option<string>, lastWasWord: bool)
    requires rest != [] && (!MarkAt(rest, 0) || ParseWord(codec, rest).None?)
    ensures var j := NextMark(rest, 1);
      var chunk := Utf8.Sniff(codec, rest[..j]);
      DecodeFrom(codec, rest, gap, lastWasWord)
      == if Trim(chunk) == "" && j < |rest|
         then DecodeFrom(codec, rest[j..], Some(Held(gap) + chunk), lastWasWord)
         else Held(gap) + chunk + DecodeFrom(codec, rest[j..], None, false)
  {
  }

  method Decode(codec: Utf8.Codec, value: Bytes) returns (out: string)
    ensures out == Decoded(codec, value)
  {
    var first := FindMark(value, 0);
    if first == |value| {
      return Utf8.Sniff(codec, value);
    }
    assert MarkAt(value, first);
    out := DecodeMarked(codec, value);
  }

  lemma SameChunk(value: Bytes, i: nat)
    requires i < |value|
    ensures var rest, j := value[i..], NextMark(value, i + 1);
      && MarkAt(rest, 0) == MarkAt(value, i)
      && NextMark(rest, 1) == j - i && rest[..j - i] == value[i..j] && rest[j - i..] == value[j..]
  {
    MarksShift(value, i, i + 1);
  }

  /** The state behind a stretch that is no word. */
  function ChunkPassed(codec: Utf8.Codec, value: Bytes, c: Cursor): (next: Cursor)
    requires c.i < |value|
    ensures c.i < next.i <= |value|
  {
    var j := NextMark(value, c.i + 1);
    var chunk := Utf8.Sniff(codec, value[c.i..j]);
    if Trim(chunk) == "" && j < |value| then Cursor(j, c.out, Some(Held(c.gap) + chunk), c.lastWasWord)
    else Cursor(j, c.out + Held(c.gap) + chunk, None, false)
  }

  lemma AfterChunk(codec: Utf8.Codec, value: Bytes, c: Cursor)
    requires c.i < |value| && (!MarkAt(value, c.i) || ParseWord(codec, value[c.i..]).None?)
    ensures Remaining(codec, value, ChunkPassed(codec, value, c)) == Remaining(codec, value, c)
  {
    var j := NextMark(value, c.i + 1);
    var chunk := Utf8.Sniff(codec, value[c.i..j]);
    ChunkStep(codec, value, c, j, chunk);
    if Trim(chunk) == "" && j < |value| {
      BlankPassed(codec, value, c, j, chunk);
    } else {
      TextPassed(codec, value, c, j, chunk);
    }
  }

  /** One step of the rest of a value, seen from the whole value. */
  lemma ChunkStep(codec: Utf8.Codec, value: Bytes, c: Cursor, j: nat, chunk: string)
    requires c.i < |value| && (!MarkAt(value, c.i) || ParseWord(codec, value[c.i..]).None?)
    requires j == NextMark(value, c.i + 1) && chunk == Utf8.Sniff(codec, value[c.i..j])
    ensures DecodeFrom(codec, value[c.i..], c.gap, c.lastWasWord)
         == if Trim(chunk) == "" && j < |value|
            then DecodeFrom(codec, value[j..], Some(Held(c.gap) + chunk), c.lastWasWord)
            else Held(c.gap) + chunk + DecodeFrom(codec, value[j..], None, false)
  {
    SameChunk(value, c.i);
    StepChunkTo(codec, value[c.i..], c.gap, c.lastWasWord, j - c.i, chunk, value[j..]);
  }

  lemma StepChunkTo(codec: Utf8.Codec, rest: Bytes, gap: Option<string>, lastWasWord: bool,
                    j: nat, chunk: string, tail: Bytes)
    requires rest != [] && (!MarkAt(rest, 0) || ParseWord(codec, rest).None?)
    requires j == NextMark(rest, 1) && chunk == Utf8.Sniff(codec, rest[..j]) && tail == rest[j..]
    ensures DecodeFrom(codec, rest, gap, lastWasWord)
         == if Trim(chunk) == "" && j < |rest| then DecodeFrom(codec, tail, Some(Held(gap) + chunk), lastWasWord)
            else Held(gap) + chunk + DecodeFrom(codec, tail, None, false)
  {
    StepChunk(codec, rest, gap, lastWasWord);
  }

  lemma BlankPassed(codec: Utf8.Codec, value: Bytes, c: Cursor, j: nat, chunk: string)
    requires c.i < j <= |value|
    requires DecodeFrom(codec, value[c.i..], c.gap, c.lastWasWord)
          == DecodeFrom(codec, value[j..], Some(Held(c.gap) + chunk), c.lastWasWord)
    ensures Remaining(codec, value, Cursor(j, c.out, Some(Held(c.gap) + chunk), c.lastWasWord))
         == Remaining(codec, value, c)
  {
  }

  lemma TextPassed(codec: Utf8.Codec, value: Bytes, c: Cursor, j: nat, chunk: string)
    requires c.i < j <= |value|
    requires DecodeFrom(codec, value[c.i..], c.gap, c.lastWasWord)
          == Held(c.gap) + chunk + DecodeFrom(codec, value[j..], None, false)
    ensures Remaining(codec, value, Cursor(j, c.out + Held(c.gap) + chunk, None, false)) == Remaining(codec, value, c)
  {
    Joins(c.out, Held(c.gap), chunk, DecodeFrom(codec, value[j..], None, false));
  }

  method PassChunk(codec: Utf8.Codec, value: Bytes, c: Cursor) returns (next: Cursor)
    requires c.i < |value|
    ensures next == ChunkPassed(codec, value, c)
  {
    var j := FindMark(value, c.i + 1);
    var chunk := Utf8.Sniff(codec, value[c.i..j]);
    if Trim(chunk) == "" && j < |value| {
      next := Cursor(j, c.out, Some(Held(c.gap) + chunk), c.lastWasWord);
    } else {
      next := Cursor(j, c.out + Held(c.gap) + chunk, None, false);
    }
  }

  method DecodeMarked(codec: Utf8.Codec, value: Bytes) returns (out: string)
    ensures out == DecodeFrom(codec, value, None, false)
  {
    var c := Cursor(0, "", None, false);
    assert value[0..] == value;
    while c.i < |value|
      invariant c.i <= |value|
      invariant Remaining(codec, value, c) == DecodeFrom(codec, value, None, false)
      decreases |value| - c.i
    {
      var word := if MarkAt(value, c.i) then ParseWord(codec, value[c.i..]) else None;
      if word.Some? {
        AfterWord(codec, value, c, word.value.0, word.value.1);
        c := WordPassed(c, word.value.0, word.value.1);
      } else {
        AfterChunk(codec, value, c);
        c := PassChunk(codec, value, c);
      }
    }
    out := if c.lastWasWord then c.out else c.out + Held(c.gap);
  }
}
