/** The headers the client writes are the headers the parser finds. */
module HeaderRoundTrip {
  import opened Compose
  import opened MailHeaders
  import opened Octets
  import opened Texts
  import opened Wrappers
  import DataReader
  import EncodedWords
  import MailFraming
  import MailParse
  import SubjectRoundTrip
  import Utf8

  // ----- one header, over one or more lines -----

  /** The value of the folded lines behind the first. */
  function Continued(items: seq<Bytes>, glue: Bytes): Bytes {
    if items == [] then []
    else if |items| == 1 then [32] + TrimStartOf(items[0])
    else [32] + TrimStartOf(items[0] + glue) + Continued(items[1..], glue)
  }

  function FoldValue(items: seq<Bytes>, glue: Bytes): Bytes {
    if items == [] then []
    else if |items| == 1 then TrimStartOf(items[0])
    else TrimStartOf(items[0] + glue) + Continued(items[1..], glue)
  }

  lemma BlankInFront(b: Bytes)
    ensures TrimStartOf([32] + b) == TrimStartOf(b)
  {
    assert ([32] + b)[1..] == b;
  }

  lemma KeepsCr(line: Bytes)
    requires NoBreak(line)
    ensures TrimCr(line) == line
  {
    if line != [] {
      assert line[|line| - 1] in line;
    }
  }

  lemma UnfoldedMore(codec: Utf8.Codec, lines: seq<Bytes>, line: Bytes)
    ensures Unfolded(codec, lines + [line]) == Taken(codec, Unfolded(codec, lines), line)
  {
    assert (lines + [line])[..|lines|] == lines;
  }

  function Extended(h: Header, more: Bytes): Header {
    h.(value := h.value + more)
  }

  lemma OneContinuation(codec: Utf8.Codec, lines: seq<Bytes>, out: seq<Header>, h: Header, more: Bytes)
    requires Unfolded(codec, lines) == out + [h] && NoBreak(more)
    ensures Unfolded(codec, lines + [[32] + more]) == out + [Extended(h, [32] + TrimStartOf(more))]
  {
    UnfoldedMore(codec, lines, [32] + more);
    KeepsCr([32] + more);
    BlankInFront(more);
    assert (out + [h])[..|out|] == out;
    Shift(h.value, [32], TrimStartOf(more));
  }

  predicate AllNoBreak(items: seq<Bytes>) {
    forall i :: 0 <= i < |items| ==> NoBreak(items[i])
  }

  lemma ExtendedTwice(h: Header, first: Bytes, second: Bytes)
    ensures Extended(Extended(h, first), second) == Extended(h, first + second)
  {
    Shift(h.value, first, second);
  }

  /** Folded lines extend the value of the header before them. */
  lemma {:induction false} ContinuationUnfolds(codec: Utf8.Codec, lines: seq<Bytes>, out: seq<Header>, h: Header,
                                               items: seq<Bytes>, glue: Bytes)
    requires Unfolded(codec, lines) == out + [h]
    requires items != [] && NoBreak(glue) && AllNoBreak(items)
    ensures Unfolded(codec, lines + FoldLines([32], items, glue)) == out + [Extended(h, Continued(items, glue))]
    decreases |items|
  {
    if |items| == 1 {
      OneContinuation(codec, lines, out, h, items[0]);
    } else {
      var item := items[0] + glue;
      assert NoBreak(items[0]);
      OneContinuation(codec, lines, out, h, item);
      assert AllNoBreak(items[1..]);
      var line := [32] + item;
      assert line == [32] + items[0] + glue;
      var first := [32] + TrimStartOf(item);
      ContinuationUnfolds(codec, lines + [line], out, Extended(h, first), items[1..], glue);
      ExtendedTwice(h, first, Continued(items[1..], glue));
      Shift(lines, [line], FoldLines([32], items[1..], glue));
    }
  }

  lemma NameComesBack(codec: Utf8.Codec, name: string)
    requires Utf8.Lawful(codec) && IsName(name)
    ensures Trim(codec.lossy(Utf8.Encode(name))) == name
  {
    assert Utf8.Reads(codec, name);
    assert !IsWhite(name[0]) && !IsWhite(name[|name| - 1]);
  }

  lemma ColonOf(name: Bytes, value: Bytes)
    requires 58 !in name
    ensures Colon(name + COLON + value) == |name|
  {
    var line := name + COLON + value;
    assert line[|name|] == 58;
    assert forall k :: 0 <= k < |name| ==> line[k] == name[k];
  }

  lemma NameBytes(name: string)
    requires IsName(name)
    ensures var b := Utf8.Encode(name);
      58 !in b && b != [] && b[0] != 32 && b[0] != 9
  {
    Utf8.AsciiIsPlain(name);
  }

  lemma TakenByColon(codec: Utf8.Codec, out: seq<Header>, line: Bytes, c: nat)
    requires NoBreak(line) && line != [] && line[0] != 32 && line[0] != 9
    requires Colon(line) == c < |line|
    ensures Taken(codec, out, line) == out + [Header(Trim(codec.lossy(line[..c])), TrimStartOf(line[c + 1..]))]
  {
    KeepsCr(line);
  }

  lemma NamedSplits(name: Bytes, value: Bytes)
    ensures var line := name + COLON + value;
      line[..|name|] == name && line[|name| + 1..] == [32] + value
  {
  }

  lemma TakesNamed(codec: Utf8.Codec, out: seq<Header>, name: string, value: Bytes)
    requires Utf8.Lawful(codec) && NoBreak(value) && IsName(name)
    ensures Taken(codec, out, Utf8.Encode(name) + COLON + value) == out + [Header(name, TrimStartOf(value))]
  {
    var bytes := Utf8.Encode(name);
    var line := bytes + COLON + value;
    NameBytes(name);
    assert line[0] == bytes[0];
    ColonOf(bytes, value);
    assert NoBreak(line) by {
      NameStarts(name);
    }
    NamedSplits(bytes, value);
    TakenByColon(codec, out, line, |bytes|);
    BlankInFront(value);
    NameComesBack(codec, name);
  }

  /** A header's first line. */
  lemma TakesField(codec: Utf8.Codec, out: seq<Header>, l: Label, value: Bytes)
    requires Utf8.Lawful(codec) && NoBreak(value)
    ensures Taken(codec, out, Start(l) + value) == out + [Header(Name(l), TrimStartOf(value))]
  {
    LabelIsName(l);
    TakesNamed(codec, out, Name(l), value);
  }

  function HeaderOf(f: Field): Header {
    Header(Name(f.kind), FoldValue(f.items, f.glue))
  }

  /** A field's lines give its header. */
  lemma FieldUnfolds(codec: Utf8.Codec, lines: seq<Bytes>, f: Field)
    requires Utf8.Lawful(codec) && Sound(f)
    ensures Unfolded(codec, lines + FieldLines(f)) == Unfolded(codec, lines) + [HeaderOf(f)]
  {
    var out := Unfolded(codec, lines);
    if |f.items| <= 1 {
      var value := if f.items == [] then [] else f.items[0];
      var line := if f.items == [] then Start(f.kind) else Start(f.kind) + f.items[0];
      assert line == Start(f.kind) + value;
      TakesField(codec, out, f.kind, value);
      UnfoldedMore(codec, lines, line);
    } else {
      var line := Start(f.kind) + f.items[0] + f.glue;
      var value := f.items[0] + f.glue;
      assert line == Start(f.kind) + value;
      TakesField(codec, out, f.kind, value);
      UnfoldedMore(codec, lines, line);
      assert AllNoBreak(f.items[1..]);
      ContinuationUnfolds(codec, lines + [line], out, Header(Name(f.kind), TrimStartOf(value)), f.items[1..], f.glue);
      Shift(lines, [line], FoldLines([32], f.items[1..], f.glue));
    }
  }

  function HeadersOf(fields: seq<Field>): (h: seq<Header>)
    ensures |h| == |fields|
    ensures forall i :: 0 <= i < |h| ==> h[i] == HeaderOf(fields[i])
  {
    if fields == [] then [] else HeadersOf(fields[..|fields| - 1]) + [HeaderOf(Last(fields))]
  }

  /** All the headers come back, in order, each with its value unfolded. */
  lemma {:induction false} FieldsUnfold(codec: Utf8.Codec, fields: seq<Field>)
    requires Utf8.Lawful(codec) && MailFraming.AllSound(fields)
    ensures Unfolded(codec, AllLines(fields)) == HeadersOf(fields)
  {
    if fields != [] {
      FieldsUnfold(codec, fields[..|fields| - 1]);
      FieldUnfolds(codec, AllLines(fields[..|fields| - 1]), Last(fields));
    }
  }

  // ----- the message's headers are its block of lines -----

  lemma {:induction false} TextIsBlock(lines: seq<Bytes>)
    requires lines != []
    ensures DataReader.Text(lines) == Block(lines, CRLF) + CRLF
  {
    if |lines| == 1 {
      assert DataReader.Text(lines) == lines[0] + CRLF + DataReader.Text(lines[1..]);
      assert lines[1..] == [];
    } else {
      TextIsBlock(lines[1..]);
      Shift(lines[0] + CRLF, Block(lines[1..], CRLF), CRLF);
    }
  }

  /** Splitting and unfolding a message gives its headers and its body. */
  lemma MessageSplits(codec: Utf8.Codec, fields: seq<Field>, body: Bytes)
    requires Utf8.Lawful(codec) && MailFraming.AllSound(fields) && fields != []
    ensures var (head, rest) := MailHeaders.Split(AllPrinted(fields) + CRLF + body);
      rest == body && Unfolded(codec, SplitLines(head)) == HeadersOf(fields)
  {
    var lines := AllLines(fields);
    PrintedIsLines(fields);
    AllLinesAreSafe(fields);
    assert FieldLines(Last(fields)) != [];
    TextIsBlock(lines);
    assert Solid(lines) by {
      forall i | 0 <= i < |lines|
        ensures lines[i] != [] && NoBreak(lines[i])
      {
        assert Safe(lines[i]);
      }
    }
    assert Block(lines, CRLF) + CRLF + CRLF + body == Block(lines, CRLF) + (CRLF + CRLF + body);
    SplitOfMessage(lines, body, CRLF);
    HeadersOfBlock(codec, lines, CRLF);
    FieldsUnfold(codec, fields);
  }
}
