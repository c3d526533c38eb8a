/** Reading a message body after DATA (crates/s2l-smtp/src/session.rs), against the
    dot-stuffing of section 4.5.2 of RFC 5321. */
module DataReader {
  import opened Octets
  import opened Wrappers

  /** The lines up to the terminator, or up to the end of the input: trimmed, with a
      doubled leading dot made single. */
  function DataLines(input: Bytes): seq<Bytes>
    decreases |input|
  {
    if input == [] then []
    else
      var n := LineLength(input);
      var line := TrimEol(input[..n]);
      if line == [DOT] then [] else [Unstuffed(line)] + DataLines(input[n..])
  }

  /** What is left of the input behind the terminator. */
  function AfterData(input: Bytes): (rest: Bytes)
    ensures |rest| <= |input|
    decreases |input|
  {
    if input == [] then []
    else
      var n := LineLength(input);
      if TrimEol(input[..n]) == [DOT] then input[n..] else AfterData(input[n..])
  }

  function Unstuffed(line: Bytes): Bytes {
    if StartsAt(line, 0, [DOT, DOT]) then line[1..] else line
  }

  /** Lines joined, each with its line ending. */
  function Text(lines: seq<Bytes>): Bytes {
    if lines == [] then [] else lines[0] + CRLF + Text(lines[1..])
  }

  function Data(input: Bytes, maxSize: nat): Option<Bytes> {
    var data := Text(DataLines(input));
    if |data| > maxSize then None else Some(data)
  }

  /** The message, or nothing when it was too big. */
  method ReadData(input: Bytes, maxSize: nat) returns (data: Option<Bytes>, rest: Bytes)
    ensures data == Data(input, maxSize)
    ensures rest == AfterData(input)
  {
    rest := input;
    var out: Bytes := [];
    var tooBig := false;
    ghost var done: seq<Bytes> := [];
    ghost var all := DataLines(input);
    while rest != []
      invariant done + DataLines(rest) == all
      invariant AfterData(rest) == AfterData(input)
      invariant Kept(done, maxSize, tooBig, out)
      decreases |rest|
    {
      var n := LineLength(rest);
      var body := TrimEol(rest[..n]);
      if body == [DOT] {
        rest := rest[n..];
        break;
      }
      body := Unstuff(body);
      Shift(done, [body], DataLines(rest[n..]));
      KeepMore(done, body, maxSize, tooBig, out);
      if |out| + |body| + 2 > maxSize {
        tooBig := true;
      }
      if !tooBig {
        out := out + body + CRLF;
      }
      done := done + [body];
      rest := rest[n..];
    }
    assert done + [] == done;
    data := if tooBig then None else Some(out);
  }

  method Unstuff(line: Bytes) returns (body: Bytes)
    ensures body == Unstuffed(line)
  {
    body := line;
    if StartsAt(body, 0, [DOT, DOT]) {
      body := body[1..];
    }
  }

  /** What the reader has kept of the lines read so far. */
  predicate Kept(done: seq<Bytes>, maxSize: nat, tooBig: bool, out: Bytes) {
    (tooBig <==> |Text(done)| > maxSize) && (!tooBig ==> out == Text(done))
  }

  lemma KeepMore(done: seq<Bytes>, body: Bytes, maxSize: nat, tooBig: bool, out: Bytes)
    requires Kept(done, maxSize, tooBig, out)
    ensures var big := tooBig || |out| + |body| + 2 > maxSize;
      Kept(done + [body], maxSize, big, if big then out else out + body + CRLF)
  {
    TextOfMore(done, body);
  }

  lemma {:induction false} TextOfMore(lines: seq<Bytes>, line: Bytes)
    ensures Text(lines + [line]) == Text(lines) + line + CRLF
  {
    if lines == [] {
      assert Text([line]) == line + CRLF + Text([]);
    } else {
      TextOfMore(lines[1..], line);
      assert (lines + [line])[1..] == lines[1..] + [line];
    }
  }

  // ----- dot-stuffing -----

  const TERMINATOR: Bytes := [46, 13, 10]

  function Stuffed(line: Bytes): Bytes {
    if line != [] && line[0] == DOT then [DOT] + line else line
  }

  function StuffedLines(lines: seq<Bytes>): seq<Bytes> {
    if lines == [] then [] else [Stuffed(lines[0])] + StuffedLines(lines[1..])
  }

  predicate OneLine(line: Bytes) {
    LF !in line
  }

  /** What a line sent as it is becomes: it survives unless it is read as the terminator
      or loses a dot. */
  predicate Survives(line: Bytes) {
    line != [DOT] && !StartsAt(line, 0, [DOT, DOT])
  }

  /** A run of lines without a lone dot is read line by line, whatever comes behind it. */
  lemma {:induction false} ReadsLines(lines: seq<Bytes>, more: Bytes)
    requires forall l :: l in lines ==> OneLine(l) && l != [DOT]
    ensures DataLines(Text(lines) + more) == Each(lines) + DataLines(more)
    ensures AfterData(Text(lines) + more) == AfterData(more)
  {
    var input := Text(lines) + more;
    if lines == [] {
      assert input == more;
    } else {
      var tail := Text(lines[1..]) + more;
      assert input == lines[0] + CRLF + tail;
      assert OneLine(lines[0]);
      LineLengthOf(lines[0], tail);
      ReadsLines(lines[1..], more);
      Shift([Unstuffed(lines[0])], Each(lines[1..]), DataLines(more));
    }
  }

  lemma ReadsTerminator(rest: Bytes)
    ensures DataLines(TERMINATOR + rest) == []
    ensures AfterData(TERMINATOR + rest) == rest
  {
    assert TERMINATOR == [DOT] + CRLF;
    LineLengthOf([DOT], rest);
  }

  function Each(lines: seq<Bytes>): seq<Bytes> {
    if lines == [] then [] else [Unstuffed(lines[0])] + Each(lines[1..])
  }

  lemma {:induction false} EachOfStuffed(lines: seq<Bytes>)
    ensures Each(StuffedLines(lines)) == lines
    ensures forall l :: l in StuffedLines(lines) ==> l != [DOT]
    ensures (forall l :: l in lines ==> OneLine(l)) ==> forall l :: l in StuffedLines(lines) ==> OneLine(l)
  {
    if lines != [] {
      EachOfStuffed(lines[1..]);
      StuffedLine(lines[0]);
      assert StuffedLines(lines)[1..] == StuffedLines(lines[1..]);
      assert lines == [lines[0]] + lines[1..];
    }
  }

  lemma StuffedLine(line: Bytes)
    ensures Unstuffed(Stuffed(line)) == line && Stuffed(line) != [DOT]
    ensures OneLine(line) ==> OneLine(Stuffed(line))
  {
  }

  /** Reading undoes stuffing for every list of lines and stops right behind the
      terminator, too big or not. The limit is on the message as it was before
      stuffing, each line with its line ending. */
  lemma ReadingUndoesStuffing(lines: seq<Bytes>, rest: Bytes, maxSize: nat)
    requires forall l :: l in lines ==> OneLine(l)
    ensures var input := Text(StuffedLines(lines)) + (TERMINATOR + rest);
      && DataLines(input) == lines
      && AfterData(input) == rest
      && Data(input, maxSize) == if |Text(lines)| > maxSize then None else Some(Text(lines))
  {
    EachOfStuffed(lines);
    ReadsLines(StuffedLines(lines), TERMINATOR + rest);
    ReadsTerminator(rest);
  }

  /** A peer that goes away in the middle of a message: what has arrived is kept, an
      unfinished line too. */
  lemma LostPeerKeepsWhatArrived(lines: seq<Bytes>, unfinished: Bytes)
    requires forall l :: l in lines ==> OneLine(l)
    requires OneLine(unfinished) && CR !in unfinished && unfinished != [DOT]
    ensures var input := Text(StuffedLines(lines)) + unfinished;
      && DataLines(input) == lines + (if unfinished == [] then [] else [Unstuffed(unfinished)])
      && AfterData(input) == []
  {
    EachOfStuffed(lines);
    ReadsLines(StuffedLines(lines), unfinished);
    if unfinished != [] {
      var e := LineFeed(unfinished, 0);
      assert e == |unfinished|;
      assert unfinished[..e] == unfinished;
      assert unfinished[|unfinished| - 1] in unfinished;
      assert TrimEol(unfinished) == unfinished;
      assert DataLines(unfinished[e..]) == [];
    }
  }

  lemma {:induction false} EachIsSameIff(lines: seq<Bytes>)
    requires forall l :: l in lines ==> l != [DOT]
    ensures |Each(lines)| == |lines|
    ensures Each(lines) == lines <==> forall l :: l in lines ==> Survives(l)
  {
    if lines != [] {
      assert forall l :: l in lines[1..] ==> l in lines;
      EachIsSameIff(lines[1..]);
      assert lines == [lines[0]] + lines[1..];
      assert Each(lines) == [Unstuffed(lines[0])] + Each(lines[1..]);
      assert Each(lines)[0] == Unstuffed(lines[0]) && Each(lines)[1..] == Each(lines[1..]);
      assert lines[0] in lines;
      assert forall l :: l in lines <==> l == lines[0] || l in lines[1..];
    }
  }

  /** A message sent without stuffing arrives whole exactly if every line survives. */
  lemma UnstuffedArrivesIff(lines: seq<Bytes>, rest: Bytes)
    requires forall l :: l in lines ==> OneLine(l)
    ensures var input := Text(lines) + (TERMINATOR + rest);
      DataLines(input) == lines <==> forall l :: l in lines ==> Survives(l)
  {
    var k := FirstDot(lines);
    if k == |lines| {
      ReadsLines(lines, TERMINATOR + rest);
      ReadsTerminator(rest);
      EachIsSameIff(lines);
    } else {
      StopsAtLoneDot(lines, k, TERMINATOR + rest);
      assert !Survives(lines[k]) && lines[k] in lines;
    }
  }

  lemma StopsAtLoneDot(lines: seq<Bytes>, k: nat, end: Bytes)
    requires forall l :: l in lines ==> OneLine(l)
    requires k < |lines| && lines[k] == [DOT]
    requires forall i :: 0 <= i < k ==> lines[i] != [DOT]
    ensures |DataLines(Text(lines) + end)| < |lines|
  {
    var more := Text(lines[k + 1..]) + end;
    TextSplits(lines, k);
    Shift(Text(lines[..k]), TERMINATOR + Text(lines[k + 1..]), end);
    Shift(TERMINATOR, Text(lines[k + 1..]), end);
    assert Text(lines) + end == Text(lines[..k]) + (TERMINATOR + more);
    ReadsLines(lines[..k], TERMINATOR + more);
    ReadsTerminator(more);
    EachIsSameIff(lines[..k]);
  }

  function FirstDot(lines: seq<Bytes>): (k: nat)
    ensures k <= |lines|
    ensures k < |lines| ==> lines[k] == [DOT]
    ensures forall i :: 0 <= i < k ==> lines[i] != [DOT]
  {
    if lines == [] || lines[0] == [DOT] then 0 else 1 + FirstDot(lines[1..])
  }

  lemma {:induction false} TextSplits(lines: seq<Bytes>, k: nat)
    requires k < |lines|
    ensures Text(lines) == Text(lines[..k]) + (lines[k] + CRLF + Text(lines[k + 1..]))
  {
    if k > 0 {
      TextSplits(lines[1..], k - 1);
      assert lines[1..][..k - 1] == lines[..k][1..];
      assert lines[1..][k..] == lines[k + 1..];
      Shift(lines[0] + CRLF, Text(lines[..k][1..]), lines[k] + CRLF + Text(lines[k + 1..]));
    } else {
      assert Text(lines[..0]) == [];
    }
  }
}
