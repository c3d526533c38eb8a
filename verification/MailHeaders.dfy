/** Splitting a message into headers and body (crates/s2l-mail/src/parse.rs). */
module MailHeaders {
  import opened Octets
  import opened Texts
  import opened Wrappers
  import Utf8

  datatype Header = Header(name: string, value: Bytes)

  const BLANK_CRLF: Bytes := [13, 10, 13, 10]
  const BLANK_LF: Bytes := [10, 10]

  /** How long the blank line at the start of these bytes is, with the line break before
      it, or nothing. */
  function BlankHere(raw: Bytes): nat {
    if StartsAt(raw, 0, BLANK_CRLF) then 4 else if StartsAt(raw, 0, BLANK_LF) then 2 else 0
  }

  /** Where the header part ends and where the body starts. */
  function BlankLine(raw: Bytes): (r: Option<(nat, nat)>)
    ensures r.Some? ==> r.value.0 < r.value.1 <= |raw|
  {
    if raw == [] then None
    else if BlankHere(raw) > 0 then Some((0, BlankHere(raw)))
    else Shifted(BlankLine(raw[1..]), 1)
  }

  /** The same place, seen from `n` bytes earlier. */
  function Shifted(r: Option<(nat, nat)>, n: nat): Option<(nat, nat)> {
    if r.Some? then Some((r.value.0 + n, r.value.1 + n)) else None
  }

  lemma OneByteOn(raw: Bytes, i: nat)
    requires i < |raw| && BlankHere(raw[i..]) == 0
    ensures Shifted(BlankLine(raw[i..]), i) == Shifted(BlankLine(raw[i + 1..]), i + 1)
  {
    assert raw[i..][1..] == raw[i + 1..];
  }

  method FindBlankLine(raw: Bytes) returns (r: Option<(nat, nat)>)
    ensures r == BlankLine(raw)
  {
    var i := 0;
    assert raw[0..] == raw;
    while i < |raw|
      invariant i <= |raw|
      invariant BlankLine(raw) == Shifted(BlankLine(raw[i..]), i)
    {
      var gap := BlankHere(raw[i..]);
      if gap > 0 {
        return Some((i, i + gap));
      }
      OneByteOn(raw, i);
      i := i + 1;
    }
    return None;
  }

  /** The bytes between line feeds. */
  function SplitLines(head: Bytes): seq<Bytes> {
    var e := LineFeed(head, 0);
    if e == |head| then [head] else [head[..e]] + SplitLines(head[e + 1..])
  }

  function TrimCr(line: Bytes): Bytes {
    if line != [] && line[|line| - 1] == CR then line[..|line| - 1] else line
  }

  function TrimStartOf(b: Bytes): Bytes {
    if b != [] && IsSpace(b[0]) then TrimStartOf(b[1..]) else b
  }

  function Colon(line: Bytes): (c: nat)
    ensures c <= |line|
    ensures c < |line| ==> line[c] == 58
    ensures forall k :: 0 <= k < c ==> line[k] != 58
  {
    if line == [] || line[0] == 58 then 0 else 1 + Colon(line[1..])
  }

  /** One more line: a new header, a continuation of the last one, or nothing. */
  function Taken(codec: Utf8.Codec, out: seq<Header>, raw: Bytes): seq<Header> {
    var line := TrimCr(raw);
    if line == [] then out
    else if line[0] == 32 || line[0] == 9 then
      if out == [] then out
      else out[..|out| - 1] + [Last(out).(value := Last(out).value + [32] + TrimStartOf(line))]
    else
      var c := Colon(line);
      if c == |line| then out
      else out + [Header(Trim(codec.lossy(line[..c])), TrimStartOf(line[c + 1..]))]
  }

  function Unfolded(codec: Utf8.Codec, lines: seq<Bytes>): seq<Header> {
    if lines == [] then [] else Taken(codec, Unfolded(codec, lines[..|lines| - 1]), Last(lines))
  }

  method Take(codec: Utf8.Codec, before: seq<Header>, raw: Bytes) returns (out: seq<Header>)
    ensures out == Taken(codec, before, raw)
  {
    out := before;
    var line := TrimCr(raw);
    if line == [] {
      return;
    }
    if line[0] == 32 || line[0] == 9 {
      if out != [] {
        var last := Last(out);
        out := out[..|out| - 1] + [last.(value := last.value + [32] + TrimStartOf(line))];
      }
      return;
    }
    var c := Colon(line);
    if c < |line| {
      out := out + [Header(Trim(codec.lossy(line[..c])), TrimStartOf(line[c + 1..]))];
    }
  }

  lemma UnfoldedMore(codec: Utf8.Codec, lines: seq<Bytes>, i: nat)
    requires i < |lines|
    ensures Unfolded(codec, lines[..i + 1]) == Taken(codec, Unfolded(codec, lines[..i]), lines[i])
  {
    assert lines[..i + 1][..i] == lines[..i];
  }

  method Unfold(codec: Utf8.Codec, head: Bytes) returns (out: seq<Header>)
    ensures out == Unfolded(codec, SplitLines(head))
  {
    var lines := SplitLines(head);
    out := [];
    for i := 0 to |lines|
      invariant out == Unfolded(codec, lines[..i])
    {
      UnfoldedMore(codec, lines, i);
      out := Take(codec, out, lines[i]);
    }
    assert lines[..|lines|] == lines;
  }

  /** The header part and the body. */
  function Split(raw: Bytes): (Bytes, Bytes) {
    if StartsAt(raw, 0, CRLF) then ([], raw[2..])
    else if StartsAt(raw, 0, [LF]) then ([], raw[1..])
    else
      match BlankLine(raw)
      case Some((end, body)) => (raw[..end], raw[body..])
      case None => (raw, [])
  }

  // ----- headers written as lines -----

  /** Non-empty lines without line breaks. */
  predicate Solid(lines: seq<Bytes>) {
    forall i :: 0 <= i < |lines| ==> lines[i] != [] && NoBreak(lines[i])
  }

  /** Mail with carriage returns, and mail without them. */
  predicate IsEol(eol: Bytes) {
    eol == CRLF || eol == [LF]
  }

  /** The lines with a line break between them. */
  function Block(lines: seq<Bytes>, eol: Bytes): Bytes {
    if lines == [] then []
    else if |lines| == 1 then lines[0]
    else lines[0] + eol + Block(lines[1..], eol)
  }

  lemma BlankHereIff(raw: Bytes)
    ensures StartsAt(raw, 0, BLANK_CRLF) <==>
      |raw| >= 4 && raw[0] == CR && raw[1] == LF && raw[2] == CR && raw[3] == LF
    ensures StartsAt(raw, 0, BLANK_LF) <==> |raw| >= 2 && raw[0] == LF && raw[1] == LF
  {
    if |raw| >= 4 {
      assert raw[0..4] == [raw[0], raw[1], raw[2], raw[3]];
    }
    if |raw| >= 2 {
      assert raw[0..2] == [raw[0], raw[1]];
    }
  }

  lemma NotBlankHere(line: Bytes, rest: Bytes)
    requires line != [] && NoBreak(line)
    ensures BlankHere(line + rest) == 0
  {
    assert (line + rest)[0] == line[0];
    BlankHereIff(line + rest);
  }

  /** No blank line starts inside a line. */
  lemma {:induction false} SkipLine(line: Bytes, rest: Bytes)
    requires NoBreak(line)
    ensures BlankLine(line + rest) == Shifted(BlankLine(rest), |line|)
  {
    if line == [] {
      assert line + rest == rest;
    } else {
      calc {
        BlankLine(line + rest);
        { NotBlankHere(line, rest); assert (line + rest)[1..] == line[1..] + rest; }
        Shifted(BlankLine(line[1..] + rest), 1);
        { SkipLine(line[1..], rest); }
        Shifted(Shifted(BlankLine(rest), |line| - 1), 1);
        Shifted(BlankLine(rest), |line|);
      }
    }
  }

  /** A line feed with a line behind it is no blank line. */
  lemma SkipFeed(line: Bytes, rest: Bytes)
    requires line != [] && NoBreak(line)
    ensures BlankLine([LF] + line + rest) == Shifted(BlankLine(line + rest), 1)
  {
    var raw := [LF] + line + rest;
    BlankHereIff(raw);
    assert raw[1] == line[0];
    assert raw[1..] == line + rest;
  }

  lemma SkipReturn(line: Bytes, rest: Bytes)
    requires line != [] && NoBreak(line)
    ensures BlankLine([CR] + ([LF] + line + rest)) == Shifted(BlankLine([LF] + line + rest), 1)
  {
    var behind := [LF] + line + rest;
    var raw := [CR] + behind;
    BlankHereIff(raw);
    assert raw[2] == line[0];
    assert raw[1..] == behind;
  }

  lemma SkipBreak(line: Bytes, rest: Bytes, eol: Bytes)
    requires line != [] && NoBreak(line) && IsEol(eol)
    ensures BlankLine(eol + line + rest) == Shifted(BlankLine(line + rest), |eol|)
  {
    SkipFeed(line, rest);
    if eol == CRLF {
      SkipReturn(line, rest);
      assert eol + line + rest == [CR] + ([LF] + line + rest);
    }
  }

  lemma BlankAtEnd(body: Bytes, eol: Bytes)
    requires IsEol(eol)
    ensures BlankLine(eol + eol + body) == Some((0, 2 * |eol|))
  {
    BlankHereIff(eol + eol + body);
  }

  lemma SkipLineTo(line: Bytes, behind: Bytes, r: Option<(nat, nat)>)
    requires NoBreak(line) && BlankLine(behind) == r
    ensures BlankLine(line + behind) == Shifted(r, |line|)
  {
    SkipLine(line, behind);
  }

  lemma OneLineOn(line: Bytes, next: Bytes, rest: Bytes, eol: Bytes, r: Option<(nat, nat)>)
    requires NoBreak(line) && next != [] && NoBreak(next) && IsEol(eol) && BlankLine(next + rest) == r
    ensures BlankLine(line + (eol + next + rest)) == Shifted(Shifted(r, |eol|), |line|)
  {
    SkipBreak(next, rest, eol);
    SkipLineTo(line, eol + next + rest, Shifted(r, |eol|));
  }

  lemma BlockBegins(lines: seq<Bytes>, end: Bytes, eol: Bytes) returns (rest: Bytes)
    requires |lines| > 1
    ensures Block(lines[1..], eol) + end == lines[1] + rest
    ensures Block(lines, eol) + end == lines[0] + (eol + lines[1] + rest)
  {
    var more, next := Block(lines[1..], eol), lines[1];
    BlockStarts(lines[1..], eol);
    rest := more[|next|..] + end;
    assert more == next + more[|next|..];
    Shift(next, more[|next|..], end);
    Shift(lines[0] + eol, more, end);
    Shift(lines[0], eol, next + rest);
    Shift(eol, next, rest);
  }

  lemma {:induction false} BlankBehindBlock(lines: seq<Bytes>, end: Bytes, eol: Bytes, n: nat)
    requires lines != [] && Solid(lines) && IsEol(eol) && BlankLine(end) == Some((0, n))
    ensures BlankLine(Block(lines, eol) + end) == Some((|Block(lines, eol)|, |Block(lines, eol)| + n))
  {
    if |lines| == 1 {
      SkipLine(lines[0], end);
    } else {
      var rest := BlockBegins(lines, end, eol);
      BlankBehindBlock(lines[1..], end, eol, n);
      OneLineOn(lines[0], lines[1], rest, eol, BlankLine(lines[1] + rest));
    }
  }

  lemma BlockStarts(lines: seq<Bytes>, eol: Bytes)
    requires lines != []
    ensures |lines[0]| <= |Block(lines, eol)| && Block(lines, eol)[..|lines[0]|] == lines[0]
  {
  }

  /** A message of header lines, a blank line and a body is split there. */
  lemma SplitOfMessage(lines: seq<Bytes>, body: Bytes, eol: Bytes)
    requires lines != [] && Solid(lines) && IsEol(eol)
    ensures Split(Block(lines, eol) + (eol + eol + body)) == (Block(lines, eol), body)
  {
    var head := Block(lines, eol);
    var raw := head + (eol + eol + body);
    BlockStarts(lines, eol);
    assert raw[0] == lines[0][0];
    assert !StartsAt(raw, 0, CRLF) by {
      if StartsAt(raw, 0, CRLF) {
        ByteOf(raw, 0, CRLF, 0);
      }
    }
    assert !StartsAt(raw, 0, [LF]) by {
      if StartsAt(raw, 0, [LF]) {
        ByteOf(raw, 0, [LF], 0);
      }
    }
    BlankAtEnd(body, eol);
    BlankBehindBlock(lines, eol + eol + body, eol, 2 * |eol|);
    assert raw[..|head|] == head;
    assert raw[|head| + 2 * |eol|..] == body;
  }

  /** A message that begins with the blank line has no headers. */
  lemma SplitWithoutHeaders(body: Bytes, eol: Bytes)
    requires IsEol(eol)
    ensures Split(eol + body) == ([], body)
  {
    var raw := eol + body;
    assert raw[0..|eol|] == eol && raw[|eol|..] == body;
    if eol == [LF] {
      assert !StartsAt(raw, 0, CRLF) by {
        if StartsAt(raw, 0, CRLF) {
          ByteOf(raw, 0, CRLF, 0);
        }
      }
    }
  }

  /** The lines as they are split, with what is left of the line break. */
  function WithCr(lines: seq<Bytes>, eol: Bytes): seq<Bytes> {
    if lines == [] then []
    else if |lines| == 1 then lines
    else [if eol == CRLF then lines[0] + [CR] else lines[0]] + WithCr(lines[1..], eol)
  }

  lemma {:induction false} LinesOfBlock(lines: seq<Bytes>, eol: Bytes)
    requires lines != [] && Solid(lines) && IsEol(eol)
    ensures SplitLines(Block(lines, eol)) == WithCr(lines, eol)
  {
    var head := Block(lines, eol);
    var e := LineFeed(head, 0);
    if |lines| == 1 {
      assert e == |head|;
    } else {
      var more := Block(lines[1..], eol);
      LinesOfBlock(lines[1..], eol);
      assert head == lines[0] + eol + more;
      var at := |lines[0]| + |eol| - 1;
      assert head[at] == LF && (eol == CRLF ==> head[|lines[0]|] == CR);
      assert forall k :: 0 <= k < |lines[0]| ==> head[k] == lines[0][k];
      assert e == at;
      assert head[..e] == WithCr(lines, eol)[0];
      assert head[e + 1..] == more;
    }
  }

  /** The carriage returns make no difference. */
  lemma {:induction false} UnfoldedWithCr(codec: Utf8.Codec, lines: seq<Bytes>, eol: Bytes)
    requires Solid(lines)
    ensures |WithCr(lines, eol)| == |lines|
    ensures forall i :: 0 <= i < |lines| ==> TrimCr(WithCr(lines, eol)[i]) == TrimCr(lines[i])
  {
    if |lines| > 1 {
      UnfoldedWithCr(codec, lines[1..], eol);
      forall i | 0 <= i < |lines|
        ensures TrimCr(WithCr(lines, eol)[i]) == TrimCr(lines[i])
      {
        if i == 0 {
          assert lines[0][|lines[0]| - 1] in lines[0];
          assert (lines[0] + [CR])[..|lines[0]|] == lines[0];
        } else {
          assert lines[i] == lines[1..][i - 1];
        }
      }
    }
  }

  lemma TakenAlike(codec: Utf8.Codec, out: seq<Header>, first: Bytes, second: Bytes)
    requires TrimCr(first) == TrimCr(second)
    ensures Taken(codec, out, first) == Taken(codec, out, second)
  {
  }

  lemma {:induction false} UnfoldedAlike(codec: Utf8.Codec, first: seq<Bytes>, second: seq<Bytes>)
    requires |first| == |second|
    requires forall i :: 0 <= i < |first| ==> TrimCr(first[i]) == TrimCr(second[i])
    ensures Unfolded(codec, first) == Unfolded(codec, second)
  {
    if first != [] {
      var a, b := first[..|first| - 1], second[..|second| - 1];
      calc {
        Unfolded(codec, first);
        Taken(codec, Unfolded(codec, a), Last(first));
        { UnfoldedAlike(codec, a, b); }
        Taken(codec, Unfolded(codec, b), Last(first));
        { TakenAlike(codec, Unfolded(codec, b), Last(first), Last(second)); }
        Taken(codec, Unfolded(codec, b), Last(second));
        Unfolded(codec, second);
      }
    }
  }

  lemma HeadersOfBlock(codec: Utf8.Codec, lines: seq<Bytes>, eol: Bytes)
    requires lines != [] && Solid(lines) && IsEol(eol)
    ensures Unfolded(codec, SplitLines(Block(lines, eol))) == Unfolded(codec, lines)
  {
    LinesOfBlock(lines, eol);
    UnfoldedWithCr(codec, lines, eol);
    UnfoldedAlike(codec, WithCr(lines, eol), lines);
  }
}
