/** Parsing a message with a plain text body (crates/s2l-mail/src/parse.rs). */
module MailParse {
  import opened Octets
  import opened Texts
  import opened Wrappers
  import opened MailHeaders
  import Base64
  import EncodedWords
  import MailDate
  import Quoted
  import Utf8

  /** What the content type says about the body. */
  datatype Media = TextPart(charset: Option<string>) | OtherPart

  /** The decoders, how a content type is read, and the text of a message that is not a
      single text part. */
  datatype Tools = Tools(
    codec: Utf8.Codec,
    media: Option<Bytes> -> Media,
    otherText: (Bytes, Option<Bytes>, Option<Bytes>) -> string)

  datatype Mail = Mail(subject: string, date: Option<int>, text: string)

  /** The header names the parser looks for. */
  datatype Role = Subject | Date | ContentType | TransferEncoding | Unread

  function RoleOf(name: string): Role {
    var l := Lower(name);
    if l == "subject" then Subject
    else if l == "date" then Date
    else if l == "content-type" then ContentType
    else if l == "content-transfer-encoding" then TransferEncoding
    else Unread
  }

  /** The last header with this role. */
  function Found(headers: seq<Header>, role: Role): Option<Bytes> {
    if headers == [] then None
    else if RoleOf(Last(headers).name) == role then Some(Last(headers).value)
    else Found(headers[..|headers| - 1], role)
  }

  datatype Encoding = InBase64 | InQuoted | AsIs

  function EncodingOf(codec: Utf8.Codec, cte: Option<Bytes>): Encoding {
    if cte.None? then AsIs
    else
      var name := Lower(Trim(codec.lossy(cte.value)));
      if name == "base64" then InBase64 else if name == "quoted-printable" then InQuoted else AsIs
  }

  /** Base64 without its white space, or the bytes as they are when it is none. */
  function Lenient(body: Bytes): Bytes {
    var data := Base64.Decode(Base64.Cleaned(body));
    if data.Some? then data.value else body
  }

  function BodyBytes(codec: Utf8.Codec, body: Bytes, encoding: Encoding): Bytes {
    match encoding
    case InBase64 => Lenient(body)
    case InQuoted => Quoted.Decoded(body, false)
    case AsIs => body
  }

  function CharsetText(codec: Utf8.Codec, charset: Option<string>, bytes: Bytes): string {
    match charset
    case Some(name) => codec.labelled(name, bytes)
    case None => Utf8.Sniff(codec, bytes)
  }

  function ReplaceCrLf(s: string): string {
    if |s| < 2 then s
    else if s[0] == '\r' && s[1] == '\n' then "\n" + ReplaceCrLf(s[2..])
    else [s[0]] + ReplaceCrLf(s[1..])
  }

  function ReplaceCr(s: string): (t: string)
    ensures |t| == |s|
    ensures forall i :: 0 <= i < |s| ==> t[i] == if s[i] == '\r' then '\n' else s[i]
  {
    seq(|s|, i requires 0 <= i < |s| => if s[i] == '\r' then '\n' else s[i])
  }

  /** Every line ending as a line feed. */
  function NormalizedEol(s: string): string {
    if '\r' !in s then s else ReplaceCr(ReplaceCrLf(s))
  }

  function TextOf(tools: Tools, body: Bytes, ctype: Option<Bytes>, cte: Option<Bytes>): string {
    match tools.media(ctype)
    case OtherPart => tools.otherText(body, ctype, cte)
    case TextPart(charset) =>
      var s := NormalizedEol(CharsetText(tools.codec, charset, BodyBytes(tools.codec, body, EncodingOf(tools.codec, cte))));
      if Trim(s) == "" then "" else s
  }

  function MailOf(tools: Tools, headers: seq<Header>, body: Bytes): Mail {
    var subject, date := Found(headers, Subject), Found(headers, Date);
    Mail(
      if subject.Some? then EncodedWords.Decoded(tools.codec, subject.value) else "",
      if date.Some? then MailDate.Parse(tools.codec.lossy(date.value)) else None,
      TextOf(tools, body, Found(headers, ContentType), Found(headers, TransferEncoding)))
  }

  function Parsed(tools: Tools, raw: Bytes): Mail {
    var (head, body) := Split(raw);
    MailOf(tools, Unfolded(tools.codec, SplitLines(head)), body)
  }

  /** The parser's loop over the headers. */
  method Parse(tools: Tools, raw: Bytes) returns (mail: Mail)
    ensures mail == Parsed(tools, raw)
  {
    var (head, body) := Split(raw);
    var headers := Unfold(tools.codec, head);
    var subject, date := "", None;
    var ctype: Option<Bytes>, cte: Option<Bytes> := None, None;
    ghost var lines := SplitLines(head);
    for i := 0 to |headers|
      invariant var found := Found(headers[..i], Subject);
        subject == if found.Some? then EncodedWords.Decoded(tools.codec, found.value) else ""
      invariant var found := Found(headers[..i], Date);
        date == if found.Some? then MailDate.Parse(tools.codec.lossy(found.value)) else None
      invariant ctype == Found(headers[..i], ContentType)
      invariant cte == Found(headers[..i], TransferEncoding)
    {
      FoundMore(headers, i, Subject);
      FoundMore(headers, i, Date);
      FoundMore(headers, i, ContentType);
      FoundMore(headers, i, TransferEncoding);
      match RoleOf(headers[i].name) {
        case Subject => subject := EncodedWords.Decode(tools.codec, headers[i].value);
        case Date => date := MailDate.Parse(tools.codec.lossy(headers[i].value));
        case ContentType => ctype := Some(headers[i].value);
        case TransferEncoding => cte := Some(headers[i].value);
        case Unread =>
      }
    }
    assert headers[..|headers|] == headers;
    mail := Mail(subject, date, TextOf(tools, body, ctype, cte));
  }

  lemma FoundMore(headers: seq<Header>, i: nat, role: Role)
    requires i < |headers|
    ensures Found(headers[..i + 1], role) ==
      if RoleOf(headers[i].name) == role then Some(headers[i].value) else Found(headers[..i], role)
  {
    assert headers[..i + 1][..i] == headers[..i];
  }
}
