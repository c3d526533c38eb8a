/** One SMTP server session (crates/s2l-smtp/src/session.rs): what a command does to the
    envelope, the login and the queue, and what the peer is told. */
module SmtpSession {
  import opened Octets
  import opened Texts
  import opened Wrappers
  import DataReader

  const MAX_LINE: nat := 2048
  const MAX_RCPT: nat := 100

  datatype AuthPolicy = AcceptAny | Require(user: string, pass: string)

  datatype Creds = Creds(user: string, pass: Option<string>)

  /** What the mail queue says to a message offered to it. */
  datatype Verdict = Queued | Full | Closed

  /** The server's settings, with the parts that are not modelled as functions: lossy UTF-8
      decoding, base64 decoding, the challenge of the n-th AUTH, and the queue's answer to
      the n-th message. */
  datatype Config = Config(
    hostname: string,
    maxSize: nat,
    auth: AuthPolicy,
    peerIp: string,
    tlsActive: bool,
    offersTls: bool,
    text: Bytes -> string,
    unbase64: string -> Bytes,
    challenge: nat -> string,
    trySend: nat -> Verdict)

  /** The lines the server can send. */
  datatype Reply =
    | Greeting
    | EhloLine(text: string, last: bool)
    | HeloDone
    | TlsActive
    | TlsUnavailable
    | TlsReady
    | AskResponse
    | AskUser
    | AskPassword
    | AskChallenge(challenge: string)
    | LoggedIn
    | LoginFailed
    | LoginAborted
    | NoMechanismGiven
    | UnsupportedMechanism(mech: string)
    | LoginRequired
    | SenderOk
    | SenderSyntax
    | RecipientOk
    | RecipientSyntax
    | TooManyRecipients
    | GoAhead
    | Accepted
    | QueueFull
    | ShuttingDown
    | TooBig
    | ResetDone
    | NoopDone
    | CannotVerify
    | HelpText
    | Closing
    | UnknownCommand(word: string)

  function Code(r: Reply): nat {
    match r
    case Greeting => 220
    case EhloLine(_, _) => 250
    case HeloDone => 250
    case TlsActive => 503
    case TlsUnavailable => 454
    case TlsReady => 220
    case AskResponse => 334
    case AskUser => 334
    case AskPassword => 334
    case AskChallenge(_) => 334
    case LoggedIn => 235
    case LoginFailed => 535
    case LoginAborted => 501
    case NoMechanismGiven => 501
    case UnsupportedMechanism(_) => 504
    case LoginRequired => 530
    case SenderOk => 250
    case SenderSyntax => 501
    case RecipientOk => 250
    case RecipientSyntax => 501
    case TooManyRecipients => 452
    case GoAhead => 354
    case Accepted => 250
    case QueueFull => 451
    case ShuttingDown => 421
    case TooBig => 552
    case ResetDone => 250
    case NoopDone => 250
    case CannotVerify => 252
    case HelpText => 214
    case Closing => 221
    case UnknownCommand(_) => 500
  }

  /** What follows the code and its separator on the wire. */
  function Wording(cfg: Config, r: Reply): string {
    match r
    case Greeting => cfg.hostname + " ESMTP stmp2log ready"
    case EhloLine(text, _) => text
    case HeloDone => cfg.hostname
    case TlsActive => "5.5.1 TLS is already active"
    case TlsUnavailable => "4.7.0 TLS is not available"
    case TlsReady => "2.0.0 ready to start TLS"
    case AskResponse => ""
    case AskUser => "VXNlcm5hbWU6"
    case AskPassword => "UGFzc3dvcmQ6"
    case AskChallenge(challenge) => challenge
    case LoggedIn => "2.7.0 authentication successful"
    case LoginFailed => "5.7.8 authentication failed"
    case LoginAborted => "5.7.0 authentication aborted"
    case NoMechanismGiven => "5.5.4 syntax: AUTH <mechanism>"
    case UnsupportedMechanism(mech) => "5.5.4 unsupported mechanism " + mech
    case LoginRequired => "5.7.0 authentication required"
    case SenderOk => "2.1.0 sender ok"
    case SenderSyntax => "5.5.4 syntax: MAIL FROM:<address>"
    case RecipientOk => "2.1.5 recipient ok"
    case RecipientSyntax => "5.5.4 syntax: RCPT TO:<address>"
    case TooManyRecipients => "4.5.3 too many recipients"
    case GoAhead => "end data with <CR><LF>.<CR><LF>"
    case Accepted => "2.0.0 message accepted"
    case QueueFull => "4.3.1 mail queue is full, try again later"
    case ShuttingDown => "4.3.2 service shutting down"
    case TooBig => "5.3.4 message exceeds the " + Decimal(cfg.maxSize) + " byte limit"
    case ResetDone => "2.0.0 reset"
    case NoopDone => "2.0.0 ok"
    case CannotVerify => "2.5.2 cannot verify, will accept anyway"
    case HelpText => "2.0.0 EHLO HELO MAIL RCPT DATA RSET NOOP AUTH STARTTLS QUIT"
    case Closing => "2.0.0 " + cfg.hostname + " closing"
    case UnknownCommand(word) => "5.5.2 unknown command " + word
  }

  /** A line that is not the last of its reply. */
  predicate More(r: Reply) {
    r.EhloLine? && !r.last
  }

  /** The reply as the peer gets it, without the line ending. */
  function Wire(cfg: Config, r: Reply): string {
    Decimal(Code(r)) + [if More(r) then '-' else ' '] + Wording(cfg, r)
  }

  datatype Mail = Mail(sender: string, rcpt: seq<string>, data: Bytes, tls: bool, user: Option<string>)

  /** The connection and the session: bytes not read yet, messages the queue took, how many
      were offered to it, how many AUTH commands came, and the fields of the server's own
      state. */
  datatype State = State(
    input: Bytes,
    queued: seq<Mail>,
    offered: nat,
    logins: nat,
    greeted: bool,
    peerName: string,
    mailFrom: Option<string>,
    rcpt: seq<string>,
    authUser: Option<string>,
    delivered: nat)

  /** What happens to the session after a command. */
  datatype Flow = Next | Done | StartTls

  datatype Response = Response(after: State, said: seq<Reply>, flow: Flow)

  /** A command line as it was understood. `Blank` is one without a command word. */
  datatype Command =
    | Ehlo(name: string)
    | Helo(name: string)
    | Tls
    | Auth(mech: string, initial: Option<Bytes>)
    | From(addr: Option<string>)
    | To(addr: Option<string>)
    | Data
    | Rset
    | Noop
    | Vrfy
    | Help
    | Quit
    | Blank
    | Unknown(word: string)

  // ----- reading a command -----

  function VerbEnd(line: Bytes): (e: nat)
    ensures e <= |line|
  {
    if line == [] || IsSpace(line[0]) then 0 else 1 + VerbEnd(line[1..])
  }

  /** The address in the trimmed text behind `FROM:` or `TO:`, with or without angle
      brackets. */
  function AddressIn(text: string): Option<string> {
    var open := Find(text, '<');
    if open < |text| then
      var close := Find(text[open..], '>');
      if close == |text[open..]| then None else Some(Trim(text[open + 1..open + close]))
    else
      match NextWord(text)
      case Some((word, _)) => Some(Trim(word))
      case None => Some("")
  }

  function ParamAfter(argument: string, prefix: string): Option<string> {
    var t := TrimStart(argument);
    if StartsWith(Upper(t), prefix) then AddressIn(Trim(t[|prefix|..])) else None
  }

  function Mechanism(argument: string): string {
    match NextWord(argument)
    case Some((word, _)) => Upper(word)
    case None => ""
  }

  function InitialResponse(cfg: Config, argument: string): Option<Bytes> {
    match NextWord(argument)
    case None => None
    case Some((_, rest)) =>
      match NextWord(rest)
      case None => None
      case Some((word, _)) => Some(if word == "=" then [] else cfg.unbase64(word))
  }

  /** Lossy decoding replaces what is not UTF-8, so only nothing decodes to nothing. */
  ghost predicate Lossy(cfg: Config) {
    forall b :: cfg.text(b) == "" <==> b == []
  }

  /** A line that begins with a command word. */
  predicate HasWord(line: Bytes) {
    line != [] && !IsSpace(line[0])
  }

  function Parse(cfg: Config, line: Bytes): Command {
    var word := Upper(cfg.text(line[..VerbEnd(line)]));
    var argument := cfg.text(line[VerbEnd(line)..]);
    if word == "EHLO" then Ehlo(Trim(argument))
    else if word == "HELO" then Helo(Trim(argument))
    else if word == "STARTTLS" then Tls
    else if word == "AUTH" then Auth(Mechanism(argument), InitialResponse(cfg, argument))
    else if word == "MAIL" then From(ParamAfter(argument, "FROM:"))
    else if word == "RCPT" then To(ParamAfter(argument, "TO:"))
    else if word == "DATA" then Data
    else if word == "RSET" then Rset
    else if word == "NOOP" then Noop
    else if word == "VRFY" || word == "EXPN" then Vrfy
    else if word == "HELP" then Help
    else if word == "QUIT" then Quit
    else if word == "" then Blank
    else Unknown(word)
  }

  /** A line as the server looks at it: cut to the limit, without its line ending. */
  function Seen(line: Bytes): Bytes {
    TrimEol(if |line| > MAX_LINE then line[..MAX_LINE] else line)
  }

  // ----- what a command does -----

  function ResetEnvelope(s: State): State {
    s.(mailFrom := None, rcpt := [])
  }

  predicate RequiresAuth(cfg: Config) {
    cfg.auth.Require? && (cfg.auth.user != "" || cfg.auth.pass != "")
  }

  predicate CredentialsOk(policy: AuthPolicy, creds: Creds) {
    match policy
    case AcceptAny => true
    case Require(user, pass) =>
      && (user != "" ==> creds.user == user)
      && (pass != "" ==> creds.pass == Some(pass))
  }

  function EhloLines(cfg: Config): seq<string> {
    [ cfg.hostname,
      "SIZE " + Decimal(cfg.maxSize),
      "8BITMIME",
      "SMTPUTF8",
      "PIPELINING",
      "ENHANCEDSTATUSCODES",
      if cfg.auth.Require? && cfg.auth.pass != "" then "AUTH LOGIN PLAIN" else "AUTH LOGIN PLAIN CRAM-MD5"
    ] + if OffersTls(cfg) then ["STARTTLS"] else []
  }

  predicate OffersTls(cfg: Config) {
    cfg.offersTls && !cfg.tlsActive
  }

  function Listing(lines: seq<string>): seq<Reply> {
    seq(|lines|, i requires 0 <= i < |lines| => EhloLine(lines[i], i + 1 == |lines|))
  }

  function Greet(s: State, name: string): State {
    ResetEnvelope(s).(greeted := true, peerName := name)
  }

  function MailOf(cfg: Config, s: State, data: Bytes): Mail {
    Mail(
      if s.mailFrom.Some? then s.mailFrom.value else "unknown@" + cfg.peerIp,
      if s.rcpt == [] then ["postmaster@" + cfg.hostname] else s.rcpt,
      data, cfg.tlsActive, s.authUser)
  }

  /** A message offered to the queue, and what the peer is told. */
  function Offer(cfg: Config, s: State, mail: Mail): (State, Reply) {
    var tried := s.(offered := s.offered + 1);
    match cfg.trySend(s.offered)
    case Queued =>
      (tried.(queued := tried.queued + [mail], delivered := tried.delivered + 1),
       Accepted)
    case Full => (tried, QueueFull)
    case Closed => (tried, ShuttingDown)
  }

  /** The answer to DATA, given what was read and what is left. */
  function Deliver(cfg: Config, s: State, data: Option<Bytes>, rest: Bytes): Response {
    var read := s.(input := rest);
    match data
    case None => Response(ResetEnvelope(read), [GoAhead, TooBig], Next)
    case Some(bytes) =>
      var (after, told) := Offer(cfg, read, MailOf(cfg, s, bytes));
      Response(ResetEnvelope(after), [GoAhead, told], Next)
  }

  // ----- AUTH -----

  datatype Heard = Line(data: Bytes) | Cancelled | Gone

  /** The peer's next line inside an AUTH exchange, and the input behind it. */
  function Hear(cfg: Config, input: Bytes): (r: (Heard, Bytes))
    ensures |r.1| <= |input|
  {
    if input == [] then (Gone, input)
    else
      var n := LineLength(input);
      var body := Seen(input[..n]);
      (if body == [42] then Cancelled else Line(cfg.unbase64(cfg.text(body))), input[n..])
  }

  function Fields(payload: Bytes): (f: seq<Bytes>)
    ensures f != []
  {
    if payload == [] then [[]]
    else
      var rest := Fields(payload[1..]);
      if payload[0] == 0 then [[]] + rest else [[payload[0]] + rest[0]] + rest[1..]
  }

  function PlainCreds(cfg: Config, payload: Bytes): Creds {
    var fields := Fields(payload);
    Creds(
      if |fields| > 1 then cfg.text(fields[1]) else "",
      if |fields| > 2 then Some(cfg.text(fields[2])) else None)
  }

  function CramCreds(cfg: Config, response: Bytes): Creds {
    match NextWord(cfg.text(response))
    case Some((word, _)) => Creds(word, None)
    case None => Creds("", None)
  }

  /** How an AUTH exchange ends: with credentials, or without. */
  datatype Outcome = Presented(creds: Creds) | Aborted | Vanished | NoMechanism | Unsupported(mech: string)

  /** An exchange: its outcome, the input behind it, and the requests made. */
  datatype Exchange = Exchange(outcome: Outcome, rest: Bytes, asked: seq<Reply>)

  /** One request and one line in answer, unless the peer sent that line up front. */
  function Ask(cfg: Config, input: Bytes, given: Option<Bytes>, prompt: Reply): (r: (Heard, Bytes, seq<Reply>))
    ensures |r.1| <= |input|
  {
    if given.Some? then (Line(given.value), input, [])
    else
      var (heard, rest) := Hear(cfg, input);
      (heard, rest, [prompt])
  }

  function Failed(heard: Heard): Outcome {
    if heard.Gone? then Vanished else Aborted
  }

  function PlainExchange(cfg: Config, input: Bytes, initial: Option<Bytes>): (x: Exchange)
    ensures |x.rest| <= |input|
  {
    var (heard, rest, asked) := Ask(cfg, input, initial, AskResponse);
    Exchange(if heard.Line? then Presented(PlainCreds(cfg, heard.data)) else Failed(heard), rest, asked)
  }

  function LoginExchange(cfg: Config, input: Bytes, initial: Option<Bytes>): (x: Exchange)
    ensures |x.rest| <= |input|
  {
    var (user, between, asked) := Ask(cfg, input, initial, AskUser);
    if !user.Line? then Exchange(Failed(user), between, asked)
    else
      var (pass, rest, askedMore) := Ask(cfg, between, None, AskPassword);
      var outcome :=
        if pass.Line? then Presented(Creds(cfg.text(user.data), Some(cfg.text(pass.data)))) else Failed(pass);
      Exchange(outcome, rest, asked + askedMore)
  }

  function CramExchange(cfg: Config, input: Bytes, challenge: string): (x: Exchange)
    ensures |x.rest| <= |input|
  {
    var (heard, rest, asked) := Ask(cfg, input, None, AskChallenge(challenge));
    Exchange(if heard.Line? then Presented(CramCreds(cfg, heard.data)) else Failed(heard), rest, asked)
  }

  function AuthExchange(cfg: Config, s: State, mech: string, initial: Option<Bytes>): (x: Exchange)
    ensures |x.rest| <= |s.input|
  {
    if mech == "PLAIN" then PlainExchange(cfg, s.input, initial)
    else if mech == "LOGIN" then LoginExchange(cfg, s.input, initial)
    else if mech == "CRAM-MD5" then CramExchange(cfg, s.input, cfg.challenge(s.logins))
    else Exchange(if mech == "" then NoMechanism else Unsupported(mech), s.input, [])
  }

  /** What an exchange that ended with the peer still there is answered with. */
  function LoginReply(cfg: Config, outcome: Outcome): Reply
    requires !outcome.Vanished?
  {
    match outcome
    case Presented(creds) =>
      if CredentialsOk(cfg.auth, creds) then LoggedIn
      else LoginFailed
    case Aborted => LoginAborted
    case NoMechanism => NoMechanismGiven
    case Unsupported(mech) => UnsupportedMechanism(mech)
  }

  function Concluded(cfg: Config, s: State, x: Exchange): Response {
    var read := s.(input := x.rest, logins := s.logins + 1);
    if x.outcome.Vanished? then Response(read, x.asked, Done)
    else
      var after :=
        if x.outcome.Presented? && CredentialsOk(cfg.auth, x.outcome.creds)
        then read.(authUser := Some(x.outcome.creds.user)) else read;
      Response(after, x.asked + [LoginReply(cfg, x.outcome)], Next)
  }

  function LogIn(cfg: Config, s: State, mech: string, initial: Option<Bytes>): Response {
    Concluded(cfg, s, AuthExchange(cfg, s, mech, initial))
  }

  // ----- one command, one run -----

  predicate Barred(cfg: Config, s: State, c: Command) {
    (c.From? || c.To? || c.Data?) && RequiresAuth(cfg) && s.authUser.None?
  }

  function StartMail(s: State, addr: Option<string>): Response {
    match addr
    case Some(sender) => Response(s.(mailFrom := Some(sender), rcpt := []), [SenderOk], Next)
    case None => Response(s, [SenderSyntax], Next)
  }

  function AddRecipient(s: State, addr: Option<string>): Response {
    match addr
    case Some(name) =>
      if |s.rcpt| >= MAX_RCPT then Response(s, [TooManyRecipients], Next)
      else Response(s.(rcpt := s.rcpt + [name]), [RecipientOk], Next)
    case None => Response(s, [RecipientSyntax], Next)
  }

  function SwitchToTls(cfg: Config, s: State): Response {
    if cfg.tlsActive then Response(s, [TlsActive], Next)
    else if !OffersTls(cfg) then Response(s, [TlsUnavailable], Next)
    else Response(s, [TlsReady], StartTls)
  }

  function Respond(cfg: Config, s: State, c: Command): Response {
    if Barred(cfg, s, c) then Response(s, [LoginRequired], Next)
    else
      match c
      case Ehlo(name) => Response(Greet(s, name), Listing(EhloLines(cfg)), Next)
      case Helo(name) => Response(Greet(s, name), [HeloDone], Next)
      case Tls => SwitchToTls(cfg, s)
      case Auth(mech, initial) => LogIn(cfg, s, mech, initial)
      case From(addr) => StartMail(s, addr)
      case To(addr) => AddRecipient(s, addr)
      case Data => Deliver(cfg, s, DataReader.Data(s.input, cfg.maxSize), DataReader.AfterData(s.input))
      case Rset => Response(ResetEnvelope(s), [ResetDone], Next)
      case Noop => Response(s, [NoopDone], Next)
      case Vrfy => Response(s, [CannotVerify], Next)
      case Help => Response(s, [HelpText], Next)
      case Quit => Response(s, [Closing], Done)
      case Blank => Response(s, [], Next)
      case Unknown(word) => Response(s, [UnknownCommand(word)], Next)
  }

  lemma RespondOnlyReads(cfg: Config, s: State, c: Command)
    ensures |Respond(cfg, s, c).after.input| <= |s.input|
  {
  }

  /** One turn of the session: a line read, understood and answered. */
  datatype Turn = Turn(before: State, command: Command, said: seq<Reply>, after: State, flow: Flow)

  /** The line that the next turn reads. */
  function CommandLine(s: State): Bytes {
    Seen(s.input[..LineLength(s.input)])
  }

  /** The state once the command line is read. */
  function LineRead(s: State): State {
    s.(input := s.input[LineLength(s.input)..])
  }

  function TakeTurn(cfg: Config, s: State): Turn {
    var command := Parse(cfg, CommandLine(s));
    var r := Respond(cfg, LineRead(s), command);
    Turn(s, command, r.said, r.after, r.flow)
  }

  function Reached(start: State, turns: seq<Turn>): State {
    if turns == [] then start else Last(turns).after
  }

  function Said(turns: seq<Turn>): seq<Reply> {
    if turns == [] then [] else Said(turns[..|turns| - 1]) + Last(turns).said
  }

  predicate Open(turns: seq<Turn>) {
    turns == [] || Last(turns).flow == Next
  }

  /** The turns follow one another from this start. */
  predicate IsRun(cfg: Config, start: State, turns: seq<Turn>) {
    turns == [] ||
    (var prev := turns[..|turns| - 1];
     && IsRun(cfg, start, prev)
     && Open(prev)
     && Reached(start, prev).input != []
     && Last(turns) == TakeTurn(cfg, Reached(start, prev)))
  }

  /** Reading one more line continues a run. */
  lemma OneMoreTurn(cfg: Config, start: State, turns: seq<Turn>)
    requires IsRun(cfg, start, turns) && Open(turns) && Reached(start, turns).input != []
    ensures var t := TakeTurn(cfg, Reached(start, turns));
      && IsRun(cfg, start, turns + [t])
      && Last(turns + [t]) == t
      && Said(turns + [t]) == Said(turns) + t.said
      && |t.after.input| < |Reached(start, turns).input|
  {
    var s := Reached(start, turns);
    var longer := turns + [TakeTurn(cfg, s)];
    assert longer[..|longer| - 1] == turns;
    RespondOnlyReads(cfg, LineRead(s), TakeTurn(cfg, s).command);
  }
}
