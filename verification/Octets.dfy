/** Bytes, lines and prefixes, shared by the modules that read and write mail. */
module Octets {
  type Byte = b: int | 0 <= b < 256 witness 0
  type Bytes = seq<Byte>

  const LF: Byte := 10
  const CR: Byte := 13
  const DOT: Byte := 46
  const CRLF: Bytes := [13, 10]
  const DASHES: Bytes := [45, 45]

  predicate NoBreak(b: Bytes) {
    CR !in b && LF !in b
  }

  /** ASCII white space. */
  predicate IsSpace(b: Byte) {
    b == 32 || b == 9 || b == 10 || b == 12 || b == 13
  }

  predicate StartsAt(body: Bytes, i: nat, prefix: Bytes) {
    i + |prefix| <= |body| && body[i..i + |prefix|] == prefix
  }

  /** The index of the first line feed from `i` on, or the length. */
  function LineFeed(body: Bytes, i: nat): (e: nat)
    requires i <= |body|
    ensures i <= e <= |body|
    ensures e < |body| ==> body[e] == LF
    ensures forall k :: i <= k < e ==> body[k] != LF
    decreases |body| - i
  {
    if i == |body| || body[i] == LF then i else LineFeed(body, i + 1)
  }

  /** What `read_until` takes from the stream: the bytes through the first line feed, or
      all of them when there is none. */
  function LineLength(input: Bytes): (n: nat)
    ensures n <= |input|
    ensures input != [] ==> n > 0
  {
    var e := LineFeed(input, 0);
    if e < |input| then e + 1 else e
  }

  /** A line without its line ending. */
  function TrimEol(line: Bytes): (l: Bytes)
    ensures l <= line
  {
    var l := if line != [] && line[|line| - 1] == LF then line[..|line| - 1] else line;
    if l != [] && l[|l| - 1] == CR then l[..|l| - 1] else l
  }

  lemma LineLengthOf(line: Bytes, rest: Bytes)
    requires LF !in line
    ensures LineLength(line + CRLF + rest) == |line| + 2
    ensures (line + CRLF + rest)[..|line| + 2] == line + CRLF
    ensures (line + CRLF + rest)[|line| + 2..] == rest
    ensures TrimEol(line + CRLF) == line
  {
    var input := line + CRLF + rest;
    var e := LineFeed(input, 0);
    assert input[|line| + 1] == LF;
    assert forall k :: 0 <= k < |line| ==> input[k] == line[k];
    assert input[|line|] == CR;
    assert e == |line| + 1;
    var whole := line + CRLF;
    assert whole[..|whole| - 1] == line + [CR];
    assert (line + [CR])[..|line|] == line;
  }

  /** The bytes of a known stretch, one at a time. */
  lemma ByteOf(body: Bytes, from: nat, text: Bytes, k: nat)
    requires StartsAt(body, from, text) && k < |text|
    ensures body[from + k] == text[k]
  {
    assert body[from..from + |text|][k] == text[k];
  }
}
