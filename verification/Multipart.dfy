/** Splitting a multipart body (crates/s2l-mail/src/parse.rs) against its assembly as
    in section 5.1.1 of RFC 2046. */
module Multipart {
  import opened Octets
  import opened Wrappers

  /** The delimiter lines from `i` on: where each starts and where the next line does.
      The closing delimiter is the last. */
  function Bounds(body: Bytes, marker: Bytes, i: nat, atLineStart: bool): seq<(nat, nat)>
    decreases |body| - i
  {
    if i >= |body| then []
    else if atLineStart && StartsAt(body, i, marker) then
      var after := i + |marker|;
      var eol := LineFeed(body, after);
      var bound := (i, if eol + 1 < |body| then eol + 1 else |body|);
      if StartsAt(body, after, DASHES) then [bound] else [bound] + Bounds(body, marker, eol + 1, true)
    else Bounds(body, marker, i + 1, body[i] == LF)
  }

  /** What lies between two delimiter lines, without the line break before the second. */
  function Between(body: Bytes, start: nat, end: nat): seq<Bytes>
    requires end <= |body|
  {
    var e1 := if end > start && body[end - 1] == LF then end - 1 else end;
    var e2 := if e1 > start && body[e1 - 1] == CR then e1 - 1 else e1;
    if e2 > start then [body[start..e2]] else []
  }

  predicate InBody(body: Bytes, bounds: seq<(nat, nat)>) {
    forall k :: 0 <= k < |bounds| ==> bounds[k].0 <= |body| && bounds[k].1 <= |body|
  }

  function Contents(body: Bytes, bounds: seq<(nat, nat)>): seq<Bytes>
    requires InBody(body, bounds)
  {
    if |bounds| < 2 then []
    else Between(body, bounds[0].1, bounds[1].0) + Contents(body, bounds[1..])
  }

  lemma {:induction false} BoundsInBody(body: Bytes, marker: Bytes, i: nat, atLineStart: bool)
    ensures InBody(body, Bounds(body, marker, i, atLineStart))
    decreases |body| - i
  {
    if i < |body| {
      if atLineStart && StartsAt(body, i, marker) {
        BoundsInBody(body, marker, LineFeed(body, i + |marker|) + 1, true);
      } else {
        BoundsInBody(body, marker, i + 1, body[i] == LF);
      }
    }
  }

  /** The parts of a multipart body. */
  function Parts(body: Bytes, boundary: Bytes): seq<Bytes> {
    var bounds := Bounds(body, DASHES + boundary, 0, true);
    BoundsInBody(body, DASHES + boundary, 0, true);
    Contents(body, bounds)
  }

  /** One window of two neighbouring delimiter lines. */
  lemma Window(body: Bytes, bounds: seq<(nat, nat)>, w: nat)
    requires InBody(body, bounds) && w + 1 < |bounds|
    ensures InBody(body, bounds[w..]) && InBody(body, bounds[w + 1..])
    ensures Contents(body, bounds[w..])
         == Between(body, bounds[w].1, bounds[w + 1].0) + Contents(body, bounds[w + 1..])
  {
    var rest := bounds[w..];
    assert rest[1..] == bounds[w + 1..];
    assert rest[0] == bounds[w] && rest[1] == bounds[w + 1];
  }

  method SplitParts(body: Bytes, boundary: Bytes) returns (parts: seq<Bytes>)
    ensures parts == Parts(body, boundary)
  {
    var marker := DASHES + boundary;
    var bounds := FindBounds(body, marker);
    BoundsInBody(body, marker, 0, true);
    parts := [];
    var w := 0;
    ghost var all := Contents(body, bounds);
    assert bounds[0..] == bounds;
    while w + 1 < |bounds|
      invariant w == 0 || w < |bounds|
      invariant InBody(body, bounds[w..])
      invariant parts + Contents(body, bounds[w..]) == all
    {
      Window(body, bounds, w);
      Shift(parts, Between(body, bounds[w].1, bounds[w + 1].0), Contents(body, bounds[w + 1..]));
      var piece := Trimmed(body, bounds[w].1, bounds[w + 1].0);
      parts := parts + piece;
      w := w + 1;
    }
    Exhausted(body, bounds, w);
  }

  lemma Exhausted(body: Bytes, bounds: seq<(nat, nat)>, w: nat)
    requires w <= |bounds| <= w + 1
    ensures InBody(body, bounds[w..]) ==> Contents(body, bounds[w..]) == []
  {
  }

  /** The stretch between two delimiter lines, or nothing when it is empty. */
  method Trimmed(body: Bytes, start: nat, stop: nat) returns (piece: seq<Bytes>)
    requires stop <= |body|
    ensures piece == Between(body, start, stop)
  {
    var end := stop;
    if end > start && body[end - 1] == LF {
      end := end - 1;
    }
    if end > start && body[end - 1] == CR {
      end := end - 1;
    }
    piece := if end > start then [body[start..end]] else [];
  }

  method FindBounds(body: Bytes, marker: Bytes) returns (bounds: seq<(nat, nat)>)
    ensures bounds == Bounds(body, marker, 0, true)
  {
    bounds := [];
    var i: nat := 0;
    var atLineStart := true;
    ghost var all := Bounds(body, marker, 0, true);
    while i < |body|
      invariant bounds + Bounds(body, marker, i, atLineStart) == all
      decreases |body| - i
    {
      if atLineStart && StartsAt(body, i, marker) {
        var after := i + |marker|;
        var isClose := StartsAt(body, after, DASHES);
        var eol := FindLineFeed(body, after);
        var bound := (i, if eol + 1 < |body| then eol + 1 else |body|);
        if isClose {
          bounds := bounds + [bound];
          return;
        }
        Shift(bounds, [bound], Bounds(body, marker, eol + 1, true));
        bounds := bounds + [bound];
        i := eol + 1;
        atLineStart := true;
      } else {
        atLineStart := body[i] == LF;
        i := i + 1;
      }
    }
  }

  method FindLineFeed(body: Bytes, after: nat) returns (eol: nat)
    requires after <= |body|
    ensures eol == LineFeed(body, after)
  {
    eol := after;
    while eol < |body| && body[eol] != LF
      invariant after <= eol <= |body|
      invariant LineFeed(body, eol) == LineFeed(body, after)
    {
      eol := eol + 1;
    }
  }

  // ----- assembly -----

  /** A multipart body without its preamble: each part behind a delimiter line, then
      the closing delimiter and whatever follows it. */
  function Assemble(parts: seq<Bytes>, marker: Bytes, epilogue: Bytes): Bytes {
    if parts == [] then marker + DASHES + epilogue
    else marker + CRLF + parts[0] + CRLF + Assemble(parts[1..], marker, epilogue)
  }

  /** No line of the text starts with the delimiter. */
  predicate NoDelimiter(text: Bytes, marker: Bytes) {
    forall j :: 0 <= j < |text| && (j == 0 || text[j - 1] == LF) ==> !StartsAt(text, j, marker)
  }

  function NonEmpty(parts: seq<Bytes>): seq<Bytes> {
    if parts == [] then []
    else (if parts[0] == [] then [] else [parts[0]]) + NonEmpty(parts[1..])
  }

  /** A stretch of the body, ended by a line break, in which no line is a delimiter. */
  lemma {:induction false} SkipText(body: Bytes, marker: Bytes, from: nat, text: Bytes, k: nat)
    requires StartsAt(body, from, text) && k <= |text|
    requires marker != [] && NoBreak(marker) && NoDelimiter(text, marker)
    requires text == [] || text[|text| - 1] == LF
    ensures var atLineStart := k == 0 || text[k - 1] == LF;
      Bounds(body, marker, from + k, atLineStart) == Bounds(body, marker, from + |text|, true)
    decreases |text| - k
  {
    if k < |text| {
      assert body[from + k] == text[k] by {
        assert body[from..from + |text|][k] == text[k];
      }
      if k == 0 || text[k - 1] == LF {
        NotADelimiter(body, marker, from, text, k);
      }
      SkipText(body, marker, from, text, k + 1);
    }
  }

  /** A delimiter that starts inside a known stretch starts there in the stretch itself,
      or covers its last byte. */
  lemma Overlap(body: Bytes, marker: Bytes, from: nat, text: Bytes, k: nat)
    requires StartsAt(body, from, text) && k < |text|
    requires StartsAt(body, from + k, marker)
    ensures k + |marker| <= |text| ==> StartsAt(text, k, marker)
    ensures k + |marker| > |text| ==> marker[|text| - 1 - k] == text[|text| - 1]
  {
    var reach := if k + |marker| <= |text| then |marker| else |text| - k;
    forall e | 0 <= e < reach
      ensures text[k + e] == marker[e]
    {
      ByteOf(body, from + k, marker, e);
      ByteOf(body, from, text, k + e);
    }
    if k + |marker| <= |text| {
      assert text[k..k + |marker|] == marker;
    }
  }

  /** A delimiter cannot reach past the line it starts on. */
  lemma NotADelimiter(body: Bytes, marker: Bytes, from: nat, text: Bytes, k: nat)
    requires StartsAt(body, from, text) && k < |text|
    requires NoBreak(marker) && NoDelimiter(text, marker)
    requires text[|text| - 1] == LF
    requires k == 0 || text[k - 1] == LF
    ensures !StartsAt(body, from + k, marker)
  {
    if StartsAt(body, from + k, marker) {
      Overlap(body, marker, from, text, k);
    }
  }

  lemma DelimiterLine(body: Bytes, marker: Bytes, i: nat)
    requires NoBreak(marker) && StartsAt(body, i, marker + CRLF)
    ensures var next := i + |marker| + 2;
      Bounds(body, marker, i, true) == [(i, next)] + Bounds(body, marker, next, true)
  {
    var line := marker + CRLF;
    assert body[i..i + |line|] == line;
    assert body[i..i + |marker|] == line[..|marker|] == marker;
    var after := i + |marker|;
    assert body[after] == line[|marker|] == CR && body[after + 1] == line[|marker| + 1] == LF;
    assert LineFeed(body, after + 1) == after + 1;
    assert LineFeed(body, after) == after + 1;
    assert !StartsAt(body, after, DASHES) by {
      if after + 2 <= |body| {
        assert body[after..after + 2][0] == CR;
      }
    }
  }

  lemma ClosingLine(body: Bytes, marker: Bytes, i: nat)
    requires StartsAt(body, i, marker + DASHES)
    ensures |Bounds(body, marker, i, true)| == 1 && Bounds(body, marker, i, true)[0].0 == i
  {
    var line := marker + DASHES;
    assert body[i..i + |line|] == line;
    assert body[i..i + |marker|] == line[..|marker|];
    assert body[i + |marker|..i + |marker| + 2] == line[|marker|..];
  }

  lemma StartsWithBoth(body: Bytes, i: nat, first: Bytes, second: Bytes)
    requires StartsAt(body, i, first + second)
    ensures StartsAt(body, i, first) && StartsAt(body, i + |first|, second)
  {
    var both := first + second;
    assert body[i..i + |both|][..|first|] == both[..|first|] == first;
    assert body[i..i + |both|][|first|..] == both[|first|..] == second;
  }

  /** A line break behind a text adds no delimiter line. */
  lemma LineBreakIsHarmless(text: Bytes, marker: Bytes)
    requires NoBreak(marker) && marker != [] && NoDelimiter(text, marker)
    ensures NoDelimiter(text + CRLF, marker)
  {
    var longer := text + CRLF;
    forall j | 0 <= j < |longer| && (j == 0 || longer[j - 1] == LF)
      ensures !StartsAt(longer, j, marker)
    {
      if StartsAt(longer, j, marker) {
        ByteOf(longer, j, marker, 0);
        assert longer[j] != CR && longer[j] != LF;
        assert StartsAt(longer, 0, text) by {
          assert longer[..|text|] == text;
        }
        if j + |marker| <= |text| {
          Overlap(longer, marker, 0, text, j);
        } else {
          ByteOf(longer, j, marker, |text| - j);
        }
      }
    }
  }

  lemma PartBetween(body: Bytes, start: nat, part: Bytes)
    requires StartsAt(body, start, part + CRLF)
    ensures Between(body, start, start + |part| + 2) == if part == [] then [] else [part]
  {
    StartsWithBoth(body, start, part, CRLF);
    ByteOf(body, start + |part|, CRLF, 0);
    ByteOf(body, start + |part|, CRLF, 1);
  }

  lemma StartsWithThree(body: Bytes, i: nat, first: Bytes, second: Bytes, third: Bytes)
    requires StartsAt(body, i, first + (second + third))
    ensures StartsAt(body, i, first)
    ensures StartsAt(body, i + |first|, second)
    ensures StartsAt(body, i + |first| + |second|, third)
  {
    StartsWithBoth(body, i, first, second + third);
    StartsWithBoth(body, i + |first|, second, third);
  }

  lemma SkipPart(body: Bytes, marker: Bytes, start: nat, part: Bytes)
    requires marker != [] && NoBreak(marker) && NoDelimiter(part, marker)
    requires StartsAt(body, start, part + CRLF)
    ensures Bounds(body, marker, start, true) == Bounds(body, marker, start + |part| + 2, true)
  {
    LineBreakIsHarmless(part, marker);
    SkipText(body, marker, start, part + CRLF, 0);
  }

  /** A delimiter line and the part behind it. */
  lemma OnePart(body: Bytes, marker: Bytes, i: nat, part: Bytes)
    requires marker != [] && NoBreak(marker) && NoDelimiter(part, marker)
    requires StartsAt(body, i, marker + CRLF)
    requires StartsAt(body, i + |marker| + 2, part + CRLF)
    ensures Bounds(body, marker, i, true)
         == [(i, i + |marker| + 2)] + Bounds(body, marker, i + |marker| + |part| + 4, true)
  {
    var start := i + |marker| + 2;
    calc {
      Bounds(body, marker, i, true);
      { DelimiterLine(body, marker, i); }
      [(i, start)] + Bounds(body, marker, start, true);
      { SkipPart(body, marker, start, part); }
      [(i, start)] + Bounds(body, marker, start + |part| + 2, true);
    }
  }

  lemma ContentsOfMore(body: Bytes, bound: (nat, nat), later: seq<(nat, nat)>)
    requires bound.0 <= |body| && bound.1 <= |body| && later != [] && InBody(body, later)
    ensures var bounds := [bound] + later;
      InBody(body, bounds)
      && Contents(body, bounds) == Between(body, bound.1, later[0].0) + Contents(body, later)
  {
    assert ([bound] + later)[1..] == later;
  }

  lemma AssembleStep(parts: seq<Bytes>, marker: Bytes, epilogue: Bytes)
    requires parts != []
    ensures Assemble(parts, marker, epilogue)
         == (marker + CRLF) + ((parts[0] + CRLF) + Assemble(parts[1..], marker, epilogue))
  {
  }

  /** One part in front of parts already found. */
  lemma PartInFront(body: Bytes, bounds: seq<(nat, nat)>, i: nat, start: nat, later: seq<(nat, nat)>, piece: seq<Bytes>)
    requires bounds == [(i, start)] + later && i <= |body| && start <= |body|
    requires later != [] && InBody(body, later) && Between(body, start, later[0].0) == piece
    ensures |bounds| > 0 && bounds[0].0 == i && InBody(body, bounds)
    ensures Contents(body, bounds) == piece + Contents(body, later)
  {
    ContentsOfMore(body, (i, start), later);
  }

  /** A delimiter line, a part, and the rest. */
  lemma Peel(body: Bytes, marker: Bytes, i: nat, part: Bytes, rest: Bytes)
    requires StartsAt(body, i, (marker + CRLF) + ((part + CRLF) + rest))
    ensures StartsAt(body, i, marker + CRLF)
    ensures StartsAt(body, i + |marker| + 2, part + CRLF)
    ensures StartsAt(body, i + |marker| + |part| + 4, rest)
  {
    StartsWithThree(body, i, marker + CRLF, part + CRLF, rest);
  }

  /** Bounds that stand for these parts, from this place on. */
  predicate BoundsFor(body: Bytes, bounds: seq<(nat, nat)>, i: nat, parts: seq<Bytes>) {
    |bounds| > 0 && bounds[0].0 == i && InBody(body, bounds) && Contents(body, bounds) == NonEmpty(parts)
  }

  lemma NoParts(body: Bytes, marker: Bytes, i: nat, epilogue: Bytes)
    requires StartsAt(body, i, marker + DASHES + epilogue)
    ensures BoundsFor(body, Bounds(body, marker, i, true), i, [])
  {
    BoundsInBody(body, marker, i, true);
    StartsWithBoth(body, i, marker + DASHES, epilogue);
    ClosingLine(body, marker, i);
  }

  lemma MoreParts(body: Bytes, marker: Bytes, i: nat, part: Bytes, parts: seq<Bytes>)
    requires marker != [] && NoBreak(marker) && NoDelimiter(part, marker)
    requires StartsAt(body, i, marker + CRLF)
    requires StartsAt(body, i + |marker| + 2, part + CRLF)
    requires BoundsFor(body, Bounds(body, marker, i + |marker| + |part| + 4, true), i + |marker| + |part| + 4, parts)
    ensures BoundsFor(body, Bounds(body, marker, i, true), i, [part] + parts)
  {
    var start, next := i + |marker| + 2, i + |marker| + |part| + 4;
    var bounds, later := Bounds(body, marker, i, true), Bounds(body, marker, next, true);
    var piece := if part == [] then [] else [part];
    assert bounds == [(i, start)] + later by {
      OnePart(body, marker, i, part);
    }
    assert Between(body, start, next) == piece by {
      PartBetween(body, start, part);
    }
    PartInFront(body, bounds, i, start, later, piece);
    assert ([part] + parts)[1..] == parts;
  }

  lemma {:induction false} PartsFrom(body: Bytes, marker: Bytes, i: nat, parts: seq<Bytes>, epilogue: Bytes)
    requires marker != [] && NoBreak(marker)
    requires forall p :: p in parts ==> NoDelimiter(p, marker)
    requires StartsAt(body, i, Assemble(parts, marker, epilogue))
    ensures BoundsFor(body, Bounds(body, marker, i, true), i, parts)
    decreases |parts|
  {
    if parts == [] {
      NoParts(body, marker, i, epilogue);
    } else {
      var part, rest := parts[0], Assemble(parts[1..], marker, epilogue);
      AssembleStep(parts, marker, epilogue);
      Peel(body, marker, i, part, rest);
      PartsFrom(body, marker, i + |marker| + |part| + 4, parts[1..], epilogue);
      assert NoDelimiter(part, marker);
      MoreParts(body, marker, i, part, parts[1..]);
      assert [part] + parts[1..] == parts;
    }
  }

  lemma {:induction false} NonEmptyIsAll(parts: seq<Bytes>)
    ensures |NonEmpty(parts)| <= |parts|
    ensures NonEmpty(parts) == parts <==> [] !in parts
  {
    if parts != [] {
      NonEmptyIsAll(parts[1..]);
      if parts[0] != [] {
        assert parts == [parts[0]] + parts[1..];
        assert NonEmpty(parts)[1..] == NonEmpty(parts[1..]);
      }
    }
  }

  lemma Preamble(preamble: Bytes, tail: Bytes, marker: Bytes)
    requires marker != [] && NoBreak(marker) && NoDelimiter(preamble, marker)
    requires preamble == [] || preamble[|preamble| - 1] == LF
    ensures StartsAt(preamble + tail, |preamble|, tail)
    ensures Bounds(preamble + tail, marker, 0, true) == Bounds(preamble + tail, marker, |preamble|, true)
  {
    var body := preamble + tail;
    assert body[..] == body;
    assert StartsAt(body, 0, preamble + tail);
    StartsWithBoth(body, 0, preamble, tail);
    SkipText(body, marker, 0, preamble, 0);
  }

  /** Splitting an assembled body gives back its parts, whatever preamble and epilogue
      surround them. Only empty parts get lost. */
  lemma SplitUndoesAssembly(preamble: Bytes, parts: seq<Bytes>, boundary: Bytes, epilogue: Bytes)
    requires NoBreak(boundary)
    requires NoDelimiter(preamble, DASHES + boundary)
    requires preamble == [] || preamble[|preamble| - 1] == LF
    requires forall p :: p in parts ==> NoDelimiter(p, DASHES + boundary)
    ensures var split := Parts(preamble + Assemble(parts, DASHES + boundary, epilogue), boundary);
      split == NonEmpty(parts) && (split == parts <==> [] !in parts)
  {
    var marker := DASHES + boundary;
    var tail := Assemble(parts, marker, epilogue);
    Preamble(preamble, tail, marker);
    PartsFrom(preamble + tail, marker, |preamble|, parts, epilogue);
    NonEmptyIsAll(parts);
  }
}
