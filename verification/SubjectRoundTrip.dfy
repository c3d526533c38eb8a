/** What the parser makes of the encoded words the client writes. */
module SubjectRoundTrip {
  import opened Compose
  import opened EncodedWords
  import opened MailFraming
  import opened Octets
  import opened Texts
  import opened Wrappers
  import Base64
  import Quoted
  import Utf8

  lemma PositionOf(prefix: Bytes, b: Byte, rest: Bytes)
    requires b !in prefix
    ensures Position(prefix + [b] + rest, b) == |prefix|
  {
    var v := prefix + [b] + rest;
    var i := Position(v, b);
    assert v[|prefix|] == b;
    assert forall k :: 0 <= k < |prefix| ==> v[k] == prefix[k];
  }

  lemma ClosingOf(prefix: Bytes, rest: Bytes)
    requires 63 !in prefix
    ensures Closing(prefix + [63, 61] + rest) == |prefix|
  {
    var v := prefix + [63, 61] + rest;
    var i := Closing(v);
    assert v[|prefix|] == 63 && v[|prefix| + 1] == 61;
    assert forall k :: 0 <= k < |prefix| ==> v[k] == prefix[k];
  }

  const LABEL: Bytes := [85, 84, 70, 45, 56]

  lemma StrictLabel(codec: Utf8.Codec)
    requires Utf8.Lawful(codec)
    ensures codec.strict(LABEL) == Some("UTF-8") && '*' !in "UTF-8"
  {
    Utf8.AsciiIsPlain("UTF-8");
    assert Utf8.Plain("UTF-8") == LABEL;
    assert Utf8.Reads(codec, "UTF-8");
  }

  lemma Base64HasNoMark(text: Bytes)
    requires AllBase64(text)
    ensures 63 !in text
  {
  }

  lemma NoQuestionMark(data: Bytes)
    ensures 63 !in Base64.Encode(data) && Base64.Cleaned(Base64.Encode(data)) == Base64.Encode(data)
  {
    Base64.EncodingShape(data);
    var enc := Base64.Encode(data);
    assert AllBase64(enc);
    Base64HasNoMark(enc);
    Base64.NothingToClean(enc);
  }

  lemma PayloadOf(codec: Utf8.Codec, piece: string)
    ensures Payload(codec, 66, Base64.Encode(Utf8.Encode(piece))) == Some(Utf8.Encode(piece))
  {
    NoQuestionMark(Utf8.Encode(piece));
    Base64.DecodeUndoesEncode(Utf8.Encode(piece));
  }

  lemma WordLayout(piece: string, rest: Bytes)
    ensures var enc := Base64.Encode(Utf8.Encode(piece));
      var b := Word(piece) + rest;
      && |b| >= 12 && MarkAt(b, 0)
      && b[2..] == LABEL + [63] + ([66, 63] + (enc + CLOSING + rest))
  {
    var enc := Base64.Encode(Utf8.Encode(piece));
    var b := Word(piece) + rest;
    assert OPENING == [61, 63] + (LABEL + [63] + [66, 63]);
    assert b == [61, 63] + (LABEL + [63] + ([66, 63] + (enc + CLOSING + rest)));
  }

  lemma LabelPart(tail: Bytes)
    ensures var after := LABEL + [63] + tail;
      Position(after, 63) == 5 && after[..5] == LABEL && after[6..] == tail
  {
    PositionOf(LABEL, 63, tail);
  }

  lemma PayloadPart(enc: Bytes, rest: Bytes)
    requires 63 !in enc
    ensures var payload := enc + CLOSING + rest;
      Closing(payload) == |enc| && payload[..|enc|] == enc
  {
    ClosingOf(enc, rest);
  }

  /** What a word with these parts is read as. */
  lemma ParseWordByParts(codec: Utf8.Codec, b: Bytes, name: string, k: nat, tail: Bytes, payload: Bytes, n: nat, raw: Bytes)
    requires |b| >= 2 && Position(b[2..], 63) == k < |b| - 2
    requires codec.strict(b[2..][..k]) == Some(name) && '*' !in name
    requires b[2..][k + 1..] == tail && |tail| >= 2 && tail[0] == 66 && tail[1] == 63
    requires tail[2..] == payload && Closing(payload) == n < |payload|
    requires Payload(codec, 66, payload[..n]) == Some(raw)
    ensures ParseWord(codec, b) == Some((codec.labelled(name, raw), k + n + 7))
  {
    WholeName(name);
    PayloadStarts(b, k, tail);
  }

  lemma WholeName(name: string)
    requires '*' !in name
    ensures name[..Find(name, '*')] == name
  {
    assert Find(name, '*') == |name|;
  }

  lemma PayloadStarts(b: Bytes, k: nat, tail: Bytes)
    requires k + 2 < |b| && b[2..][k + 1..] == tail
    ensures |b| - 3 - k == |tail|
  {
  }

  /** The words written are the words read, but for a byte-order mark in front. */
  lemma ParseWordReadsWord(codec: Utf8.Codec, piece: string, rest: Bytes)
    requires Utf8.Lawful(codec)
    ensures |Word(piece) + rest| >= 2 && MarkAt(Word(piece) + rest, 0)
    ensures ParseWord(codec, Word(piece) + rest) == Some((Utf8.DropBom(piece), |Word(piece)|))
  {
    var enc := Base64.Encode(Utf8.Encode(piece));
    WordLayout(piece, rest);
    var payload := enc + CLOSING + rest;
    var tail := [66, 63] + payload;
    LabelPart(tail);
    StrictLabel(codec);
    NoQuestionMark(Utf8.Encode(piece));
    PayloadPart(enc, rest);
    PayloadOf(codec, piece);
    ParseWordByParts(codec, Word(piece) + rest, "UTF-8", 5, tail, payload, |enc|, Utf8.Encode(piece));
    assert Utf8.Reads(codec, piece);
  }

  // ----- words behind one another -----

  function Flow(pieces: seq<string>): string {
    if pieces == [] then "" else pieces[0] + Flow(pieces[1..])
  }

  lemma {:induction false} FlowIsFlat(pieces: seq<string>)
    ensures Flow(pieces) == Flat(pieces)
  {
    if pieces != [] {
      FlowSnoc(pieces[..|pieces| - 1], Last(pieces));
      FlowIsFlat(pieces[..|pieces| - 1]);
      assert pieces[..|pieces| - 1] + [Last(pieces)] == pieces;
    }
  }

  lemma {:induction false} FlowSnoc(pieces: seq<string>, piece: string)
    ensures Flow(pieces + [piece]) == Flow(pieces) + piece
  {
    if pieces == [] {
      assert Flow([piece]) == piece + Flow([]);
    } else {
      FlowSnoc(pieces[1..], piece);
      assert (pieces + [piece])[1..] == pieces[1..] + [piece];
    }
  }

  predicate NoBom(pieces: seq<string>) {
    forall i :: 0 <= i < |pieces| ==> pieces[i] == "" || pieces[i][0] != Utf8.BOM
  }

  /** The pieces as they are read. */
  function Heard(pieces: seq<string>): string {
    if pieces == [] then "" else Utf8.DropBom(pieces[0]) + Heard(pieces[1..])
  }

  lemma {:induction false} HeardIff(pieces: seq<string>)
    ensures |Heard(pieces)| <= |Flow(pieces)|
    ensures Heard(pieces) == Flow(pieces) <==> NoBom(pieces)
  {
    if pieces != [] {
      HeardIff(pieces[1..]);
      assert pieces == [pieces[0]] + pieces[1..];
      if Heard(pieces) == Flow(pieces) {
        assert |Utf8.DropBom(pieces[0])| == |pieces[0]|;
        assert Heard(pieces)[|pieces[0]|..] == Heard(pieces[1..]) && Flow(pieces)[|pieces[0]|..] == Flow(pieces[1..]);
      }
    }
  }

  const BLANK: Bytes := [32]

  lemma SniffBlank(codec: Utf8.Codec)
    requires Utf8.Lawful(codec)
    ensures Utf8.Sniff(codec, BLANK) == " " && Trim(" ") == ""
  {
    BlankIsBlank(" ");
    assert Utf8.Reads(codec, " ");
  }

  lemma BlankIsBlank(s: string)
    requires s == " "
    ensures Utf8.Encode(s) == BLANK && Trim(s) == ""
  {
    assert s[..0] == "" && Utf8.Encode(s[..0]) == [];
    assert TrimStart(s) == TrimStart(s[1..]) == "";
  }

  /** The blank between two words is dropped. */
  lemma BlankIsDropped(codec: Utf8.Codec, rest: Bytes)
    requires Utf8.Lawful(codec) && MarkAt(rest, 0)
    ensures DecodeFrom(codec, BLANK + rest, None, true) == DecodeFrom(codec, rest, Some(" "), true)
  {
    var v := BLANK + rest;
    assert !MarkAt(v, 0);
    assert MarkAt(v, 1);
    assert NextMark(v, 1) == 1;
    assert v[..1] == BLANK && v[1..] == rest;
    SniffBlank(codec);
    assert "" + " " == " ";
  }

  /** What stands behind the first of several joined words. */
  function Behind(pieces: seq<string>): Bytes
    requires pieces != []
  {
    if |pieces| == 1 then [] else BLANK + Join(Words(pieces[1..]), BLANK)
  }

  lemma FirstWord(codec: Utf8.Codec, pieces: seq<string>, gap: Option<string>, lastWasWord: bool)
    requires Utf8.Lawful(codec) && pieces != []
    requires gap.None? || lastWasWord
    ensures DecodeFrom(codec, Join(Words(pieces), BLANK), gap, lastWasWord)
         == Utf8.DropBom(pieces[0]) + DecodeFrom(codec, Behind(pieces), None, true)
  {
    var word, rest, text := Word(pieces[0]), Behind(pieces), Utf8.DropBom(pieces[0]);
    assert Words(pieces)[1..] == Words(pieces[1..]);
    var all := word + rest;
    assert Join(Words(pieces), BLANK) == all;
    ParseWordReadsWord(codec, pieces[0], rest);
    StepWord(codec, all, gap, lastWasWord, text, |word|);
    assert all[|word|..] == rest;
    assert "" + text == text;
  }

  /** Words joined by blanks decode to their texts, joined by nothing. */
  lemma {:induction false} JoinedWordsDecode(codec: Utf8.Codec, pieces: seq<string>, gap: Option<string>, lastWasWord: bool)
    requires Utf8.Lawful(codec)
    requires gap.None? || lastWasWord
    ensures DecodeFrom(codec, Join(Words(pieces), BLANK), gap, lastWasWord) == Heard(pieces)
    decreases |pieces|
  {
    if pieces != [] {
      FirstWord(codec, pieces, gap, lastWasWord);
      if |pieces| == 1 {
        assert pieces[1..] == [];
      } else {
        JoinStarts(pieces[1..]);
        BlankIsDropped(codec, Join(Words(pieces[1..]), BLANK));
        JoinedWordsDecode(codec, pieces[1..], Some(" "), true);
      }
    }
  }

  lemma JoinStarts(pieces: seq<string>)
    requires pieces != []
    ensures MarkAt(Join(Words(pieces), BLANK), 0)
  {
    assert Join(Words(pieces), BLANK)[..|Word(pieces[0])|] == Word(pieces[0]);
    assert Word(pieces[0])[0] == 61 && Word(pieces[0])[1] == 63;
  }

  /** A subject sent in encoded words comes back if and only if none of its pieces starts
      with a byte-order mark. */
  lemma EncodedSubjectComesBackIff(codec: Utf8.Codec, s: string)
    requires Utf8.Lawful(codec) && s != ""
    ensures Decoded(codec, Join(Words(Pieces(s)), BLANK)) == s <==> NoBom(Pieces(s))
  {
    PiecesAreExact(s);
    var pieces := Pieces(s);
    JoinedWordsDecode(codec, pieces, None, false);
    FlowIsFlat(pieces);
    HeardIff(pieces);
    assert pieces != [];
    JoinStarts(pieces);
  }

  // ----- subjects sent as they are -----

  /** Nothing in the bytes is an encoded word. */
  predicate NoWord(codec: Utf8.Codec, v: Bytes) {
    forall i :: 0 <= i < |v| && MarkAt(v, i) ==> ParseWord(codec, v[i..]).None?
  }

  lemma {:induction false} DecodeNeverGrows(text: Bytes)
    ensures Base64.Decode(text).Some? ==> |Base64.Decode(text).value| <= |text|
    ensures |Base64.Cleaned(text)| <= |text|
    decreases |text|
  {
    if |text| >= 4 {
      DecodeNeverGrows(text[4..]);
    }
    if text != [] {
      DecodeNeverGrows(text[1..]);
    }
  }

  lemma PayloadNeverGrows(codec: Utf8.Codec, encoding: Byte, data: Bytes)
    ensures Payload(codec, encoding, data).Some? ==> |Payload(codec, encoding, data).value| <= |data|
  {
    DecodeNeverGrows(data);
    DecodeNeverGrows(Base64.Cleaned(data));
    Quoted.NeverGrows(data, true);
  }

  /** A word is longer than its text. */
  lemma WordShrinks(codec: Utf8.Codec, b: Bytes)
    requires Utf8.Lawful(codec) && |b| >= 2
    ensures ParseWord(codec, b).Some? ==> |ParseWord(codec, b).value.0| < ParseWord(codec, b).value.1
  {
    if ParseWord(codec, b).Some? {
      var rest := b[2..];
      var after := rest[Position(rest, 63) + 1..];
      var payload := after[2..];
      var end := Closing(payload);
      PayloadNeverGrows(codec, after[0], payload[..end]);
      var name := codec.strict(rest[..Position(rest, 63)]).value;
      assert Utf8.Bounded(codec, name[..Find(name, '*')], Payload(codec, after[0], payload[..end]).value);
    }
  }

  lemma AsciiSlice(s: string, j: nat)
    requires Utf8.Ascii(s) && j <= |s|
    ensures Utf8.Ascii(s[..j]) && Utf8.Ascii(s[j..])
    ensures Utf8.Plain(s)[..j] == Utf8.Plain(s[..j]) && Utf8.Plain(s)[j..] == Utf8.Plain(s[j..])
  {
  }

  lemma SniffPlain(codec: Utf8.Codec, s: string)
    requires Utf8.Lawful(codec) && Utf8.Ascii(s)
    ensures Utf8.Sniff(codec, Utf8.Plain(s)) == s
  {
    Utf8.AsciiIsPlain(s);
    assert Utf8.Reads(codec, s);
  }

  /** One stretch without a word, and what is behind it: a blank stretch is held back. */
  lemma PlainChunk(codec: Utf8.Codec, s: string, gap: Option<string>, lastWasWord: bool)
      returns (first: string, rest: string, blank: bool)
    requires Utf8.Lawful(codec) && Utf8.Ascii(s) && s != ""
    requires var v := Utf8.Plain(s); !MarkAt(v, 0) || ParseWord(codec, v).None?
    ensures s == first + rest && first != "" && Utf8.Ascii(rest)
    ensures NoWord(codec, Utf8.Plain(s)) <==> NoWord(codec, Utf8.Plain(rest))
    ensures DecodeFrom(codec, Utf8.Plain(s), gap, lastWasWord) ==
      if blank then DecodeFrom(codec, Utf8.Plain(rest), Some(Held(gap) + first), lastWasWord)
      else Held(gap) + first + DecodeFrom(codec, Utf8.Plain(rest), None, false)
  {
    var v := Utf8.Plain(s);
    var j := NextMark(v, 1);
    first, rest, blank := s[..j], s[j..], Trim(s[..j]) == "" && j < |s|;
    InTwo(s, j);
    assert Utf8.Ascii(rest) && v[j..] == Utf8.Plain(rest) by {
      AsciiSlice(s, j);
    }
    assert NoWord(codec, v) <==> NoWord(codec, Utf8.Plain(rest)) by {
      NoWordBehind(codec, v, j);
    }
    assert Utf8.Sniff(codec, v[..j]) == first by {
      AsciiSlice(s, j);
      SniffPlain(codec, first);
    }
    StepChunk(codec, v, gap, lastWasWord);
  }

  lemma InTwo(s: string, j: nat)
    requires j <= |s|
    ensures s == s[..j] + s[j..]
  {
  }

  lemma NoWordBehind(codec: Utf8.Codec, v: Bytes, j: nat)
    requires 0 < j <= |v| && (!MarkAt(v, 0) || ParseWord(codec, v).None?)
    requires forall k :: 1 <= k < j ==> !MarkAt(v, k)
    ensures NoWord(codec, v) <==> NoWord(codec, v[j..])
  {
    var w := v[j..];
    assert v[0..] == v;
    if NoWord(codec, w) {
      forall i | 0 <= i < |v| && MarkAt(v, i) ensures ParseWord(codec, v[i..]).None? {
        if i > 0 {
          SameMark(v, j, i - j);
        }
      }
    }
    if NoWord(codec, v) {
      forall i | 0 <= i < |w| && MarkAt(w, i) ensures ParseWord(codec, w[i..]).None? {
        SameMark(v, j, i);
      }
    }
  }

  lemma SameMark(v: Bytes, j: nat, i: nat)
    requires j + i <= |v|
    ensures MarkAt(v[j..], i) == MarkAt(v, j + i) && v[j..][i..] == v[j + i..]
  {
  }

  lemma NoWordAtStart(codec: Utf8.Codec, v: Bytes)
    requires NoWord(codec, v) && v != []
    ensures !MarkAt(v, 0) || ParseWord(codec, v).None?
  {
    assert v[0..] == v;
  }

  /** Without a word in it, a plain text is read as it is. */
  lemma {:induction false} PlainReads(codec: Utf8.Codec, s: string, gap: Option<string>)
    requires Utf8.Lawful(codec) && Utf8.Ascii(s) && NoWord(codec, Utf8.Plain(s))
    ensures DecodeFrom(codec, Utf8.Plain(s), gap, false) == Held(gap) + s
    decreases |s|
  {
    if s == "" {
      assert Utf8.Plain(s) == [];
    } else {
      NoWordAtStart(codec, Utf8.Plain(s));
      var first, rest, blank := PlainChunk(codec, s, gap, false);
      PlainReads(codec, rest, if blank then Some(Held(gap) + first) else None);
      Shift(Held(gap), first, rest);
      assert Held(None) + rest == rest;
    }
  }

  /** A plain text never grows, and with a word in it gets shorter. */
  lemma {:induction false} PlainShrinks(codec: Utf8.Codec, s: string, gap: Option<string>, lastWasWord: bool)
    requires Utf8.Lawful(codec) && Utf8.Ascii(s)
    ensures |DecodeFrom(codec, Utf8.Plain(s), gap, lastWasWord)| <= |Held(gap)| + |s|
    ensures !NoWord(codec, Utf8.Plain(s)) ==>
      |DecodeFrom(codec, Utf8.Plain(s), gap, lastWasWord)| < |Held(gap)| + |s|
    decreases |s|
  {
    if s != "" {
      var v := Utf8.Plain(s);
      if MarkAt(v, 0) && ParseWord(codec, v).Some? {
        var (text, n) := ParseWord(codec, v).value;
        WordShrinks(codec, v);
        StepWord(codec, v, gap, lastWasWord, text, n);
        AsciiSlice(s, n);
        PlainShrinks(codec, s[n..], None, true);
      } else {
        var first, rest, blank := PlainChunk(codec, s, gap, lastWasWord);
        PlainShrinks(codec, rest, if blank then Some(Held(gap) + first) else None, blank && lastWasWord);
      }
    }
  }

  /** A plain text is decoded to itself if and only if it holds no encoded word, and never to
      something longer. */
  lemma PlainComesBackIff(codec: Utf8.Codec, s: string)
    requires Utf8.Lawful(codec) && Utf8.Ascii(s)
    ensures Decoded(codec, Utf8.Encode(s)) == s <==> NoWord(codec, Utf8.Encode(s))
    ensures |Decoded(codec, Utf8.Encode(s))| <= |s|
  {
    Utf8.AsciiIsPlain(s);
    var v := Utf8.Plain(s);
    if HasMark(v) {
      PlainShrinks(codec, s, None, false);
      if NoWord(codec, v) {
        PlainReads(codec, s, None);
        assert Held(None) + s == s;
      }
    } else {
      SniffPlain(codec, s);
      assert NoWord(codec, v);
    }
  }
}
