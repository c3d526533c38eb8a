/** Dialogs with the SMTP server, from the lines the peer sends to what the session has then
    done: logins by the credentials on the wire, and whole mail transactions. */
module SessionDialogs {
  import opened Octets
  import opened TextLaws
  import opened Texts
  import opened Wrappers
  import opened SmtpSession
  import opened SessionInput
  import Base64
  import DataReader
  import SessionLaws
  import Utf8

  // ----- one line -----

  /** A line of text that fits the server's limit. */
  predicate FitsLine(line: string) {
    '\n' !in line && |Utf8.Encode(line)| + 2 <= MAX_LINE
  }

  /** The next line the peer sent, and what it sent behind it. */
  predicate Sent(s: State, line: string, rest: Bytes) {
    FitsLine(line) && s.input == Utf8.Encode(line) + CRLF + rest
  }

  lemma LineIsTaken(cfg: Config, s: State, line: string, rest: Bytes)
    requires Sent(s, line, rest)
    ensures var c, t := Parse(cfg, Utf8.Encode(line)), TakeTurn(cfg, s);
      var r := Respond(cfg, s.(input := rest), c);
      t == Turn(s, c, r.said, r.after, r.flow) && s.input != []
  {
    if LF in Utf8.Encode(line) {
      Utf8.AsciiBytesAreCharacters(line, LF);
    }
    SessionLaws.LineIsRead(s, Utf8.Encode(line), rest);
  }

  // ----- logins -----

  /** The user and the password that the policy names, as far as it names them. */
  predicate Wanted(policy: AuthPolicy, creds: Creds) {
    match policy
    case AcceptAny => true
    case Require(user, pass) =>
      (user == "" || user == creds.user) && (pass == "" || creds.pass == Some(pass))
  }

  /** A turn that ended with these credentials: the peer was asked for what was still missing
      and was logged in as this user exactly if they are the wanted ones. Nothing else
      changed. */
  predicate EndsLogin(cfg: Config, t: Turn, asked: seq<Reply>, creds: Creds, rest: Bytes) {
    var s := t.before.(input := rest, logins := t.before.logins + 1);
    && t.flow == Next
    && (if Wanted(cfg.auth, creds)
        then t.said == asked + [LoggedIn] && t.after == s.(authUser := Some(creds.user))
        else t.said == asked + [LoginFailed] && t.after == s)
  }

  /** AUTH with this mechanism and nothing more. */
  ghost predicate AsksFor(line: string, name: string) {
    exists verb: string, gap: string, mech: string, tail: string ::
      AuthAlone(line, verb, gap, mech, tail) && Upper(mech) == name
  }

  predicate AuthAlone(line: string, verb: string, gap: string, mech: string, tail: string) {
    && line == verb + (gap + mech + tail) && SpokenLine(verb, gap + mech + tail)
    && Upper(verb) == "AUTH" && AllWhite(gap) && IsWord(mech) && AllWhite(tail)
  }

  /** AUTH with this mechanism and a first response. */
  ghost predicate Responds(line: string, name: string, data: Bytes) {
    exists verb: string, gap: string, mech: string, space: string, tail: string ::
      AuthGiven(line, verb, gap, mech, space, data, tail) && Upper(mech) == name
  }

  predicate AuthGiven(line: string, verb: string, gap: string, mech: string, space: string, data: Bytes, tail: string) {
    && line == verb + (gap + mech + (space + InitialText(data) + tail))
    && SpokenLine(verb, gap + mech + (space + InitialText(data) + tail))
    && Upper(verb) == "AUTH" && GivesResponse(gap, mech, space, data, tail)
  }

  /** The plainest lines of these kinds (section 4 of RFC 4954). */
  lemma AuthLines(verb: string, name: string, data: Bytes)
    requires verb == "AUTH" && IsWord(name) && Upper(name) == name
    ensures AsksFor(verb + ([' '] + name + []), name)
    ensures Responds(verb + ([' '] + name + ([' '] + InitialText(data) + [])), name, data)
  {
    InitialIsWord(data);
    assert Upper(verb) == verb;
    assert AuthAlone(verb + ([' '] + name + []), verb, [' '], name, []);
    assert AuthGiven(verb + ([' '] + name + ([' '] + InitialText(data) + [])), verb, [' '], name, [' '], data, []);
  }

  lemma AsksByName(cfg: Config, line: string, name: string)
    requires ReadsText(cfg) && AsksFor(line, name)
    ensures Parse(cfg, Utf8.Encode(line)) == Auth(name, None)
  {
    var verb: string, gap: string, mech: string, tail: string :|
      AuthAlone(line, verb, gap, mech, tail) && Upper(mech) == name;
    AuthNamesMechanism(cfg, verb, gap, mech, tail);
  }

  lemma RespondsByName(cfg: Config, line: string, name: string, data: Bytes)
    requires ReadsText(cfg) && ReadsBase64(cfg) && Responds(line, name, data)
    ensures Parse(cfg, Utf8.Encode(line)) == Auth(name, Some(data))
  {
    var verb: string, gap: string, mech: string, space: string, tail: string :|
      AuthGiven(line, verb, gap, mech, space, data, tail) && Upper(mech) == name;
    AuthGivesResponse(cfg, verb, gap, mech, space, data, tail);
  }

  lemma AuthIsTaken(cfg: Config, s: State, line: string, c: Command, rest: Bytes)
    requires Parse(cfg, Utf8.Encode(line)) == c && c.Auth? && Sent(s, line, rest)
    ensures var t, r := TakeTurn(cfg, s), LogIn(cfg, s.(input := rest), c.mech, c.initial);
      t == Turn(s, c, r.said, r.after, r.flow)
  {
    LineIsTaken(cfg, s, line, rest);
  }

  lemma AskedFor(cfg: Config, s: State, line: string, name: string, rest: Bytes)
    requires ReadsText(cfg) && AsksFor(line, name) && Sent(s, line, rest)
    ensures var t, r := TakeTurn(cfg, s), LogIn(cfg, s.(input := rest), name, None);
      t == Turn(s, Auth(name, None), r.said, r.after, r.flow)
  {
    AsksByName(cfg, line, name);
    AuthIsTaken(cfg, s, line, Auth(name, None), rest);
  }

  lemma Responded(cfg: Config, s: State, line: string, name: string, data: Bytes, rest: Bytes)
    requires ReadsText(cfg) && ReadsBase64(cfg) && Responds(line, name, data) && Sent(s, line, rest)
    ensures var t, r := TakeTurn(cfg, s), LogIn(cfg, s.(input := rest), name, Some(data));
      t == Turn(s, Auth(name, Some(data)), r.said, r.after, r.flow)
  {
    RespondsByName(cfg, line, name, data);
    AuthIsTaken(cfg, s, line, Auth(name, Some(data)), rest);
  }

  /** The peer's answers inside AUTH, each a line of base64. */
  function Answer(data: Bytes): Bytes {
    Base64.Encode(data) + CRLF
  }

  predicate FitsAnswer(data: Bytes) {
    |Base64.Encode(data)| + 2 <= MAX_LINE
  }

  lemma Concludes(cfg: Config, t: Turn, s: State, x: Exchange, creds: Creds)
    requires x.outcome == Presented(creds) && s == t.before.(input := s.input)
    requires var r := Concluded(cfg, s, x); t.said == r.said && t.after == r.after && t.flow == r.flow
    ensures EndsLogin(cfg, t, x.asked, creds, x.rest)
  {
  }

  /** PLAIN: the second and the third field of the response log the peer in exactly if they
      are what the policy names, whether the response comes on the AUTH line or on the next. */
  lemma PlainLogsInIff(cfg: Config, s: State, line: string, authz: Bytes, user: string, pass: string, rest: Bytes)
    requires ReadsText(cfg) && ReadsBase64(cfg) && PlainFields(authz, user, pass)
    ensures var payload := PlainPayload(authz, user, pass);
      && (Responds(line, "PLAIN", payload) && Sent(s, line, rest) ==>
            EndsLogin(cfg, TakeTurn(cfg, s), [], Creds(user, Some(pass)), rest))
      && (AsksFor(line, "PLAIN") && FitsAnswer(payload) && Sent(s, line, Answer(payload) + rest) ==>
            EndsLogin(cfg, TakeTurn(cfg, s), [AskResponse], Creds(user, Some(pass)), rest))
  {
    var payload := PlainPayload(authz, user, pass);
    PlainGives(cfg, authz, user, pass, []);
    var t := TakeTurn(cfg, s);
    if Responds(line, "PLAIN", payload) && Sent(s, line, rest) {
      Responded(cfg, s, line, "PLAIN", payload, rest);
      Concludes(cfg, t, s.(input := rest), PlainExchange(cfg, rest, Some(payload)), Creds(user, Some(pass)));
    }
    var input := Answer(payload) + rest;
    if AsksFor(line, "PLAIN") && FitsAnswer(payload) && Sent(s, line, input) {
      AskedFor(cfg, s, line, "PLAIN", input);
      LineIsHeard(cfg, payload, rest);
      Concludes(cfg, t, s.(input := input), PlainExchange(cfg, input, None), Creds(user, Some(pass)));
    }
  }

  lemma LoginAnswered(cfg: Config, user: string, pass: string, rest: Bytes)
    requires ReadsText(cfg) && ReadsBase64(cfg)
    requires FitsAnswer(Utf8.Encode(user)) && FitsAnswer(Utf8.Encode(pass))
    ensures var u, p := Utf8.Encode(user), Answer(Utf8.Encode(pass)) + rest;
      && LoginExchange(cfg, p, Some(u)) == Exchange(Presented(Creds(user, Some(pass))), rest, [AskPassword])
      && LoginExchange(cfg, Answer(u) + p, None)
      == Exchange(Presented(Creds(user, Some(pass))), rest, [AskUser, AskPassword])
  {
    var u, p := Utf8.Encode(user), Answer(Utf8.Encode(pass)) + rest;
    assert TextOf(cfg, user) == user && TextOf(cfg, pass) == pass;
    LineIsHeard(cfg, Utf8.Encode(pass), rest);
    LineIsHeard(cfg, u, p);
    assert [AskUser] + [AskPassword] == [AskUser, AskPassword];
    assert [] + [AskPassword] == [AskPassword];
  }

  /** LOGIN: the user from the AUTH line or the first answer, the password from the next. */
  lemma LoginLogsInIff(cfg: Config, s: State, line: string, user: string, pass: string, rest: Bytes)
    requires ReadsText(cfg) && ReadsBase64(cfg)
    requires FitsAnswer(Utf8.Encode(user)) && FitsAnswer(Utf8.Encode(pass))
    ensures var u, p := Utf8.Encode(user), Answer(Utf8.Encode(pass)) + rest;
      && (Responds(line, "LOGIN", u) && Sent(s, line, p) ==>
            EndsLogin(cfg, TakeTurn(cfg, s), [AskPassword], Creds(user, Some(pass)), rest))
      && (AsksFor(line, "LOGIN") && Sent(s, line, Answer(u) + p) ==>
            EndsLogin(cfg, TakeTurn(cfg, s), [AskUser, AskPassword], Creds(user, Some(pass)), rest))
  {
    var u, p := Utf8.Encode(user), Answer(Utf8.Encode(pass)) + rest;
    LoginAnswered(cfg, user, pass, rest);
    var t := TakeTurn(cfg, s);
    if Responds(line, "LOGIN", u) && Sent(s, line, p) {
      Responded(cfg, s, line, "LOGIN", u, p);
      Concludes(cfg, t, s.(input := p), AuthExchange(cfg, s.(input := p), "LOGIN", Some(u)), Creds(user, Some(pass)));
    }
    var input := Answer(u) + p;
    if AsksFor(line, "LOGIN") && Sent(s, line, input) {
      AskedFor(cfg, s, line, "LOGIN", input);
      Concludes(cfg, t, s.(input := input), AuthExchange(cfg, s.(input := input), "LOGIN", None), Creds(user, Some(pass)));
    }
  }

  lemma CramAnswered(cfg: Config, data: Bytes, creds: Creds, challenge: string, rest: Bytes)
    requires ReadsText(cfg) && ReadsBase64(cfg) && FitsAnswer(data) && CramCreds(cfg, data) == creds
    ensures CramExchange(cfg, Answer(data) + rest, challenge)
         == Exchange(Presented(creds), rest, [AskChallenge(challenge)])
  {
    LineIsHeard(cfg, data, rest);
  }

  /** CRAM-MD5: the user is the first word of the answer to the challenge. The digest is not
      looked at, so a policy that names a password is never met. */
  lemma CramLogsInIff(cfg: Config, s: State, line: string, gap: string, user: string, digest: string, rest: Bytes)
    requires ReadsText(cfg) && ReadsBase64(cfg)
    requires AllWhite(gap) && IsWord(user) && (digest == "" || IsWhite(digest[0]))
    requires AsksFor(line, "CRAM-MD5")
    requires var data := Utf8.Encode(gap + user + digest);
      FitsAnswer(data) && Sent(s, line, Answer(data) + rest)
    ensures EndsLogin(cfg, TakeTurn(cfg, s), [AskChallenge(cfg.challenge(s.logins))], Creds(user, None), rest)
    ensures cfg.auth.Require? && cfg.auth.pass != "" ==> !Wanted(cfg.auth, Creds(user, None))
  {
    var data := Utf8.Encode(gap + user + digest);
    var input := Answer(data) + rest;
    CramGives(cfg, gap, user, digest);
    var x := AuthExchange(cfg, s.(input := input), "CRAM-MD5", None);
    CramAnswered(cfg, data, Creds(user, None), cfg.challenge(s.logins), rest);
    AskedFor(cfg, s, line, "CRAM-MD5", input);
    Concludes(cfg, TakeTurn(cfg, s), s.(input := input), x, Creds(user, None));
  }

  lemma CalledOff(cfg: Config, input: Bytes, rest: Bytes, challenge: string)
    requires Hear(cfg, input) == (Cancelled, rest)
    ensures forall x :: x in Exchanges(cfg, input, challenge) ==>
      x.outcome == Aborted && x.rest == rest && |x.asked| == 1
  {
  }

  function Exchanges(cfg: Config, input: Bytes, challenge: string): seq<Exchange> {
    [PlainExchange(cfg, input, None), LoginExchange(cfg, input, None), CramExchange(cfg, input, challenge)]
  }

  lemma ByName(cfg: Config, s: State, name: string)
    requires name == "PLAIN" || name == "LOGIN" || name == "CRAM-MD5"
    ensures AuthExchange(cfg, s, name, None) in Exchanges(cfg, s.input, cfg.challenge(s.logins))
  {
  }

  /** An asterisk in answer calls the exchange off, and nobody is logged in by it. */
  lemma AsteriskAborts(cfg: Config, s: State, line: string, name: string, rest: Bytes)
    requires ReadsText(cfg) && (name == "PLAIN" || name == "LOGIN" || name == "CRAM-MD5")
    requires AsksFor(line, name) && Sent(s, line, [42] + CRLF + rest)
    ensures var t := TakeTurn(cfg, s);
      && t.flow == Next && t.said != [] && Last(t.said) == LoginAborted
      && t.after == s.(input := rest, logins := s.logins + 1)
  {
    var input := [42] + CRLF + rest;
    AskedFor(cfg, s, line, name, input);
    AsteriskCancels(cfg, rest);
    var x := AuthExchange(cfg, s.(input := input), name, None);
    assert x.outcome == Aborted && x.rest == rest by {
      ByName(cfg, s.(input := input), name);
      CalledOff(cfg, input, rest, cfg.challenge(s.logins));
    }
    Aborts(cfg, TakeTurn(cfg, s), s.(input := input), x);
  }

  lemma Aborts(cfg: Config, t: Turn, s: State, x: Exchange)
    requires x.outcome == Aborted
    requires var r := Concluded(cfg, s, x); t.said == r.said && t.after == r.after && t.flow == r.flow
    ensures t.flow == Next && t.said != [] && Last(t.said) == LoginAborted
    ensures t.after == s.(input := x.rest, logins := s.logins + 1)
  {
  }

  // ----- mail transactions -----

  /** A line with MAIL or RCPT, in whatever way it names its address. */
  datatype Naming = Naming(verb: string, gap: string, keyword: string, param: Param)

  function LineOf(n: Naming): string {
    n.verb + (n.gap + (n.keyword + Written(n.param)))
  }

  function AddressOf(n: Naming): string {
    if Meant(n.param).Some? then Meant(n.param).value else ""
  }

  predicate Names(n: Naming, verb: string, keyword: string) {
    && Upper(n.verb) == verb && Upper(n.keyword) == keyword
    && Proper(n.param) && Meant(n.param).Some? && AllWhite(n.gap)
    && SpokenLine(n.verb, n.gap + (n.keyword + Written(n.param)))
    && FitsLine(LineOf(n))
  }

  predicate NamesSender(n: Naming) {
    Names(n, "MAIL", "FROM:")
  }

  predicate NamesRecipient(n: Naming) {
    Names(n, "RCPT", "TO:")
  }

  /** Nobody has to log in, or somebody has. */
  predicate MayMail(cfg: Config, s: State) {
    || s.authUser.Some?
    || cfg.auth.AcceptAny?
    || (cfg.auth.user == "" && cfg.auth.pass == "")
  }

  /** The lines as they are sent. */
  function AsSent(names: seq<Naming>): Bytes {
    if names == [] then [] else Utf8.Encode(LineOf(names[0])) + CRLF + AsSent(names[1..])
  }

  function Addresses(names: seq<Naming>): seq<string> {
    if names == [] then [] else [AddressOf(names[0])] + Addresses(names[1..])
  }

  /** A run that got from one state to another and said this on the way. */
  predicate Went(cfg: Config, start: State, turns: seq<Turn>, said: seq<Reply>, end: State) {
    IsRun(cfg, start, turns) && Open(turns) && Said(turns) == said && Reached(start, turns) == end
  }

  lemma OneTurnOn(cfg: Config, start: State, turns: seq<Turn>, said: seq<Reply>, s: State, told: seq<Reply>, end: State)
    requires Went(cfg, start, turns, said, s) && s.input != []
    requires var t := TakeTurn(cfg, s); t.said == told && t.after == end && t.flow == Next
    ensures Went(cfg, start, turns + [TakeTurn(cfg, s)], said + told, end)
  {
    OneMoreTurn(cfg, start, turns);
  }

  lemma SenderLine(cfg: Config, n: Naming)
    requires ReadsText(cfg) && NamesSender(n)
    ensures FitsLine(LineOf(n)) && Parse(cfg, Utf8.Encode(LineOf(n))) == From(Some(AddressOf(n)))
  {
    SenderIsRead(cfg, n.verb, n.gap, n.keyword, n.param);
  }

  lemma RecipientLine(cfg: Config, n: Naming)
    requires ReadsText(cfg) && NamesRecipient(n)
    ensures FitsLine(LineOf(n)) && Parse(cfg, Utf8.Encode(LineOf(n))) == To(Some(AddressOf(n)))
  {
    RecipientIsRead(cfg, n.verb, n.gap, n.keyword, n.param);
  }

  lemma NamingIsAnswered(cfg: Config, s: State, line: string, c: Command, rest: Bytes)
    requires Sent(s, line, rest) && Parse(cfg, Utf8.Encode(line)) == c && MayMail(cfg, s)
    requires (c.From? || c.To?) && c.addr.Some?
    ensures var t, read := TakeTurn(cfg, s), s.(input := rest);
      && t.flow == Next && s.input != []
      && (c.From? ==> t.said == [SenderOk] && t.after == read.(mailFrom := c.addr, rcpt := []))
      && (c.To? && |s.rcpt| < 100 ==> t.said == [RecipientOk] && t.after == read.(rcpt := s.rcpt + [c.addr.value]))
      && (c.To? && |s.rcpt| >= 100 ==> t.said == [TooManyRecipients] && t.after == read)
  {
    LineIsTaken(cfg, s, line, rest);
  }

  /** MAIL begins an envelope with its sender and no recipients. */
  lemma SenderIsTaken(cfg: Config, s: State, n: Naming, rest: Bytes)
    requires ReadsText(cfg) && NamesSender(n) && MayMail(cfg, s)
    requires s.input == Utf8.Encode(LineOf(n)) + CRLF + rest
    ensures var t := TakeTurn(cfg, s);
      && t.said == [SenderOk] && t.flow == Next && s.input != []
      && t.after == s.(input := rest, mailFrom := Some(AddressOf(n)), rcpt := [])
  {
    SenderLine(cfg, n);
    NamingIsAnswered(cfg, s, LineOf(n), From(Some(AddressOf(n))), rest);
  }

  /** RCPT adds its recipient, up to the limit. */
  lemma RecipientIsTaken(cfg: Config, s: State, n: Naming, rest: Bytes)
    requires ReadsText(cfg) && NamesRecipient(n) && MayMail(cfg, s)
    requires s.input == Utf8.Encode(LineOf(n)) + CRLF + rest
    ensures var t := TakeTurn(cfg, s);
      && t.flow == Next && s.input != []
      && (if |s.rcpt| < 100
          then t.said == [RecipientOk] && t.after == s.(input := rest, rcpt := s.rcpt + [AddressOf(n)])
          else t.said == [TooManyRecipients] && t.after == s.(input := rest))
  {
    RecipientLine(cfg, n);
    NamingIsAnswered(cfg, s, LineOf(n), To(Some(AddressOf(n))), rest);
  }

  function Times(n: nat, r: Reply): seq<Reply> {
    seq(n, i => r)
  }

  lemma OneRecipientMore(cfg: Config, start: State, turns: seq<Turn>, said: seq<Reply>, s: State, n: Naming, rest: Bytes)
    returns (longer: seq<Turn>)
    requires ReadsText(cfg) && Went(cfg, start, turns, said, s) && MayMail(cfg, s)
    requires NamesRecipient(n) && |s.rcpt| < 100
    requires s.input == Utf8.Encode(LineOf(n)) + CRLF + rest
    ensures Went(cfg, start, longer, said + [RecipientOk], s.(input := rest, rcpt := s.rcpt + [AddressOf(n)]))
  {
    RecipientIsTaken(cfg, s, n, rest);
    OneTurnOn(cfg, start, turns, said, s, [RecipientOk], s.(input := rest, rcpt := s.rcpt + [AddressOf(n)]));
    longer := turns + [TakeTurn(cfg, s)];
  }

  function WithRecipients(s: State, names: seq<Naming>, rest: Bytes): State {
    s.(input := rest, rcpt := s.rcpt + Addresses(names))
  }

  lemma FirstLine(names: seq<Naming>, rest: Bytes)
    requires names != []
    ensures AsSent(names) + rest == Utf8.Encode(LineOf(names[0])) + CRLF + (AsSent(names[1..]) + rest)
  {
    Shift(Utf8.Encode(LineOf(names[0])) + CRLF, AsSent(names[1..]), rest);
  }

  lemma FirstRecipient(s: State, names: seq<Naming>, behind: Bytes, rest: Bytes)
    requires names != []
    ensures var s' := s.(input := behind, rcpt := s.rcpt + [AddressOf(names[0])]);
      WithRecipients(s', names[1..], rest) == WithRecipients(s, names, rest)
  {
    Shift(s.rcpt, [AddressOf(names[0])], Addresses(names[1..]));
  }

  lemma OnceMore(said: seq<Reply>, r: Reply, n: nat)
    ensures said + [r] + Times(n, r) == said + Times(n + 1, r)
  {
  }

  lemma {:induction false} RecipientsAreTaken(cfg: Config, start: State, turns: seq<Turn>, said: seq<Reply>, s: State,
                                              names: seq<Naming>, rest: Bytes)
    returns (all: seq<Turn>)
    requires ReadsText(cfg) && Went(cfg, start, turns, said, s) && MayMail(cfg, s)
    requires forall n :: n in names ==> NamesRecipient(n)
    requires |s.rcpt| + |names| <= 100 && s.input == AsSent(names) + rest
    ensures Went(cfg, start, all, said + Times(|names|, RecipientOk), WithRecipients(s, names, rest))
    decreases |names|
  {
    if names == [] {
      assert AsSent(names) + rest == rest && s.rcpt + [] == s.rcpt;
      assert said + Times(0, RecipientOk) == said;
      all := turns;
    } else {
      var n, behind := names[0], AsSent(names[1..]) + rest;
      FirstLine(names, rest);
      var longer := OneRecipientMore(cfg, start, turns, said, s, n, behind);
      var s' := s.(input := behind, rcpt := s.rcpt + [AddressOf(n)]);
      FirstRecipient(s, names, behind, rest);
      OnceMore(said, RecipientOk, |names| - 1);
      all := RecipientsAreTaken(cfg, start, longer, said + [RecipientOk], s', names[1..], rest);
    }
  }

  /** DATA, whatever stands behind the word, the message with its dots doubled, and the line
      with the dot. */
  predicate SaysData(verb: string, argument: string, lines: seq<Bytes>) {
    && Upper(verb) == "DATA" && SpokenLine(verb, argument) && FitsLine(verb + argument)
    && forall l :: l in lines ==> DataReader.OneLine(l)
  }

  function MessageSent(line: string, lines: seq<Bytes>, rest: Bytes): Bytes {
    Utf8.Encode(line) + CRLF + (DataReader.Text(DataReader.StuffedLines(lines)) + (DataReader.TERMINATOR + rest))
  }

  lemma DataWord(cfg: Config, verb: string, argument: string)
    requires ReadsText(cfg) && SpokenLine(verb, argument) && Upper(verb) == "DATA"
    ensures Parse(cfg, Utf8.Encode(verb + argument)) == Data
  {
    CommandWords(cfg, verb, argument);
  }

  lemma DataIsAnswered(cfg: Config, s: State, line: string, behind: Bytes)
    requires Parse(cfg, Utf8.Encode(line)) == Data && Sent(s, line, behind) && MayMail(cfg, s)
    ensures var t := TakeTurn(cfg, s);
      var r := Deliver(cfg, s.(input := behind), DataReader.Data(behind, cfg.maxSize), DataReader.AfterData(behind));
      s.input != [] && t.said == r.said && t.after == r.after && t.flow == r.flow
  {
    LineIsTaken(cfg, s, line, behind);
  }

  /** What the peer is told when its message is complete. */
  function Told(cfg: Config, offered: nat, size: nat): Reply {
    if size > cfg.maxSize then TooBig
    else
      match cfg.trySend(offered)
      case Queued => Accepted
      case Full => QueueFull
      case Closed => ShuttingDown
  }

  /** A message offered and answered, behind it an empty envelope. */
  function Settled(s: State, told: Reply, mail: Mail, rest: Bytes): State {
    var ended := s.(input := rest, mailFrom := None, rcpt := []);
    if told == TooBig then ended
    else if told != Accepted then ended.(offered := s.offered + 1)
    else ended.(offered := s.offered + 1, queued := s.queued + [mail], delivered := s.delivered + 1)
  }

  lemma DeliverSettles(cfg: Config, s: State, behind: Bytes, data: Bytes, rest: Bytes)
    ensures var told := Told(cfg, s.offered, |data|);
      var mail := Mail(
        if s.mailFrom.Some? then s.mailFrom.value else "unknown@" + cfg.peerIp,
        if s.rcpt == [] then ["postmaster@" + cfg.hostname] else s.rcpt,
        data, cfg.tlsActive, s.authUser);
      Deliver(cfg, s.(input := behind), if |data| > cfg.maxSize then None else Some(data), rest)
      == Response(Settled(s, told, mail, rest), [GoAhead, told], Next)
  {
  }

  /** DATA: the bytes between the 354 and the dot go to the queue under this envelope, with
      placeholders for a sender or recipients that were never named, and the envelope is
      empty again. */
  lemma MessageIsTaken(cfg: Config, s: State, verb: string, argument: string, lines: seq<Bytes>, rest: Bytes)
    requires ReadsText(cfg) && SaysData(verb, argument, lines) && MayMail(cfg, s)
    requires s.input == MessageSent(verb + argument, lines, rest)
    ensures var t := TakeTurn(cfg, s);
      var told := Told(cfg, s.offered, |DataReader.Text(lines)|);
      var mail := Mail(
        if s.mailFrom.Some? then s.mailFrom.value else "unknown@" + cfg.peerIp,
        if s.rcpt == [] then ["postmaster@" + cfg.hostname] else s.rcpt,
        DataReader.Text(lines), cfg.tlsActive, s.authUser);
      && s.input != [] && t.flow == Next && t.said == [GoAhead, told]
      && t.after == Settled(s, told, mail, rest)
  {
    DataWord(cfg, verb, argument);
    var behind := DataReader.Text(DataReader.StuffedLines(lines)) + (DataReader.TERMINATOR + rest);
    DataIsAnswered(cfg, s, verb + argument, behind);
    DataReader.ReadingUndoesStuffing(lines, rest, cfg.maxSize);
    DeliverSettles(cfg, s, behind, DataReader.Text(lines), rest);
  }

  /** MAIL, up to a hundred RCPT, and DATA, as they are sent. */
  function TransactionSent(from: Naming, to: seq<Naming>, line: string, lines: seq<Bytes>, rest: Bytes): Bytes {
    Utf8.Encode(LineOf(from)) + CRLF + (AsSent(to) + MessageSent(line, lines, rest))
  }

  lemma MessageIsSettled(cfg: Config, start: State, turns: seq<Turn>, said: seq<Reply>, s: State,
                         verb: string, argument: string, lines: seq<Bytes>, rest: Bytes)
    returns (longer: seq<Turn>)
    requires ReadsText(cfg) && Went(cfg, start, turns, said, s) && MayMail(cfg, s)
    requires SaysData(verb, argument, lines) && s.input == MessageSent(verb + argument, lines, rest)
    requires s.mailFrom.Some? && s.rcpt != []
    ensures var told := Told(cfg, s.offered, |DataReader.Text(lines)|);
      var mail := Mail(s.mailFrom.value, s.rcpt, DataReader.Text(lines), cfg.tlsActive, s.authUser);
      Went(cfg, start, longer, said + [GoAhead, told], Settled(s, told, mail, rest))
  {
    var told := Told(cfg, s.offered, |DataReader.Text(lines)|);
    var mail := Mail(s.mailFrom.value, s.rcpt, DataReader.Text(lines), cfg.tlsActive, s.authUser);
    MessageIsTaken(cfg, s, verb, argument, lines, rest);
    OneTurnOn(cfg, start, turns, said, s, [GoAhead, told], Settled(s, told, mail, rest));
    longer := turns + [TakeTurn(cfg, s)];
  }

  lemma EnvelopeIsTaken(cfg: Config, s: State, from: Naming, to: seq<Naming>, message: Bytes)
    returns (turns: seq<Turn>)
    requires ReadsText(cfg) && MayMail(cfg, s)
    requires NamesSender(from) && 1 <= |to| <= 100 && forall n :: n in to ==> NamesRecipient(n)
    requires s.input == Utf8.Encode(LineOf(from)) + CRLF + (AsSent(to) + message)
    ensures Went(cfg, s, turns, [SenderOk] + Times(|to|, RecipientOk),
                 s.(input := message, mailFrom := Some(AddressOf(from)), rcpt := Addresses(to)))
  {
    SenderIsTaken(cfg, s, from, AsSent(to) + message);
    var s1 := s.(input := AsSent(to) + message, mailFrom := Some(AddressOf(from)), rcpt := []);
    var said: seq<Reply> := [];
    assert Went(cfg, s, [], said, s);
    OneTurnOn(cfg, s, [], said, s, [SenderOk], s1);
    assert said + [SenderOk] == [SenderOk];
    turns := RecipientsAreTaken(cfg, s, [] + [TakeTurn(cfg, s)], [SenderOk], s1, to, message);
    assert [] + Addresses(to) == Addresses(to);
  }

  /** A whole transaction, whatever was said before it: the session answers each line, and
      hands over, unless the message is too big or the queue refuses it, exactly the
      addresses that the lines name, in their order, and the bytes of the message. What the
      peer sends behind it is left to be read. */
  lemma TransactionIsHandedOver(cfg: Config, s: State, from: Naming, to: seq<Naming>,
                                verb: string, argument: string, lines: seq<Bytes>, rest: Bytes)
    returns (turns: seq<Turn>)
    requires ReadsText(cfg) && MayMail(cfg, s)
    requires NamesSender(from) && 1 <= |to| <= 100 && forall n :: n in to ==> NamesRecipient(n)
    requires SaysData(verb, argument, lines)
    requires s.input == TransactionSent(from, to, verb + argument, lines, rest)
    ensures var told := Told(cfg, s.offered, |DataReader.Text(lines)|);
      var mail := Mail(AddressOf(from), Addresses(to), DataReader.Text(lines), cfg.tlsActive, s.authUser);
      Went(cfg, s, turns, [SenderOk] + Times(|to|, RecipientOk) + [GoAhead, told], Settled(s, told, mail, rest))
  {
    var message := MessageSent(verb + argument, lines, rest);
    var named := EnvelopeIsTaken(cfg, s, from, to, message);
    var s2 := s.(input := message, mailFrom := Some(AddressOf(from)), rcpt := Addresses(to));
    assert s2.rcpt != [] by {
      assert Addresses(to) == [AddressOf(to[0])] + Addresses(to[1..]);
    }
    turns := MessageIsSettled(cfg, s, named, [SenderOk] + Times(|to|, RecipientOk), s2, verb, argument, lines, rest);
    var told := Told(cfg, s.offered, |DataReader.Text(lines)|);
    SettlesAlike(s, s2, told, Mail(AddressOf(from), s2.rcpt, DataReader.Text(lines), cfg.tlsActive, s.authUser), rest);
  }

  lemma SettlesAlike(s: State, t: State, told: Reply, mail: Mail, rest: Bytes)
    requires t == s.(input := t.input, mailFrom := t.mailFrom, rcpt := t.rcpt)
    ensures Settled(s, told, mail, rest) == Settled(t, told, mail, rest)
  {
  }

  // ----- what each command is answered with -----

  function Answered(cfg: Config, s: State, c: Command): nat {
    var said := Respond(cfg, s, c).said;
    if said == [] then 0 else Code(Last(said))
  }

  /** The server greets first, with one line of 220. */
  lemma ServerGreets(cfg: Config)
    ensures Code(Greeting) == 220 && !More(Greeting)
    ensures Value(Wire(cfg, Greeting)[..3]) == 220 && Wire(cfg, Greeting)[3] == ' '
  {
    SessionLaws.WireTells(cfg, Greeting);
    SessionLaws.WireSplits(Decimal(220), ' ', Wording(cfg, Greeting));
    SessionLaws.ThreeDigits(220);
  }

  /** A greeting keeps the name and empties the envelope. */
  lemma GreetingCodes(cfg: Config, s: State, c: Command)
    requires c.Ehlo? || c.Helo?
    ensures Answered(cfg, s, c) == 250
    ensures Respond(cfg, s, c).after == s.(greeted := true, peerName := c.name, mailFrom := None, rcpt := [])
  {
    if c.Ehlo? {
      var lines := EhloLines(cfg);
      assert Last(Listing(lines)) == EhloLine(lines[|lines| - 1], true);
    }
  }

  lemma TlsCodes(cfg: Config, s: State, c: Command)
    ensures c.Tls? ==> Answered(cfg, s, c) == if cfg.tlsActive then 503 else if cfg.offersTls then 220 else 454
    ensures Respond(cfg, s, c).flow == StartTls <==> c.Tls? && !cfg.tlsActive && cfg.offersTls
  {
  }

  /** The reply codes of the commands that change nothing (section 4.2.3 of RFC 5321). */
  lemma PlainCommandCodes(cfg: Config, s: State, c: Command)
    requires c.Noop? || c.Vrfy? || c.Help? || c.Quit? || c.Unknown? || c.Blank? || c.Rset?
    ensures c.Rset? || c.Noop? ==> Answered(cfg, s, c) == 250
    ensures c.Vrfy? ==> Answered(cfg, s, c) == 252
    ensures c.Help? ==> Answered(cfg, s, c) == 214
    ensures c.Quit? ==> Answered(cfg, s, c) == 221
    ensures c.Unknown? ==> Answered(cfg, s, c) == 500
    ensures Respond(cfg, s, c).flow == if c.Quit? then Done else Next
    ensures Respond(cfg, s, c).after == if c.Rset? then s.(mailFrom := None, rcpt := []) else s
  {
  }

  /** And of those that do: 530 where a login is missing, and else by what was understood and
      by the limit. A refused command changes nothing. */
  lemma EnvelopeCommandCodes(cfg: Config, s: State, c: Command)
    requires c.From? || c.To?
    ensures Answered(cfg, s, c) ==
      if !MayMail(cfg, s) then 530
      else if c.addr == None then 501
      else if c.To? && |s.rcpt| >= 100 then 452
      else 250
    ensures Answered(cfg, s, c) != 250 ==> Respond(cfg, s, c).after == s
  {
  }

  lemma DeliverCodes(cfg: Config, s: State, data: Bytes, rest: Bytes)
    ensures var r := Deliver(cfg, s, if |data| > cfg.maxSize then None else Some(data), rest);
      && |r.said| == 2 && Code(r.said[0]) == 354
      && Code(r.said[1]) ==
        if |data| > cfg.maxSize then 552
        else if cfg.trySend(s.offered) == Queued then 250
        else if cfg.trySend(s.offered) == Full then 451
        else 421
  {
  }

  /** DATA: 354 and then what the size and the queue say. */
  lemma DataCodes(cfg: Config, s: State)
    ensures var r := Respond(cfg, s, Data);
      var size := |DataReader.Text(DataReader.DataLines(s.input))|;
      if !MayMail(cfg, s) then |r.said| == 1 && Code(r.said[0]) == 530 && r.after == s
      else
        && |r.said| == 2 && Code(r.said[0]) == 354
        && Code(r.said[1]) ==
          if size > cfg.maxSize then 552
          else if cfg.trySend(s.offered) == Queued then 250
          else if cfg.trySend(s.offered) == Full then 451
          else 421
  {
    if MayMail(cfg, s) {
      assert !Barred(cfg, s, Data);
      DeliverCodes(cfg, s, DataReader.Text(DataReader.DataLines(s.input)), DataReader.AfterData(s.input));
    }
  }

  /** AUTH: how an exchange is answered. */
  lemma AuthCodes(cfg: Config, s: State, x: Exchange)
    ensures var r := Concluded(cfg, s, x);
      && (x.outcome.Vanished? ==> r.said == x.asked && r.flow == Done)
      && (!x.outcome.Vanished? ==> r.said != [] && r.said[..|r.said| - 1] == x.asked && r.flow == Next)
      && (x.outcome.Presented? ==> Code(Last(r.said)) == if Wanted(cfg.auth, x.outcome.creds) then 235 else 535)
      && (x.outcome.Aborted? || x.outcome.NoMechanism? ==> Code(Last(r.said)) == 501)
      && (x.outcome.Unsupported? ==> Code(Last(r.said)) == 504)
  {
  }

  /** Only three mechanisms are known, and no name at all is an error of its own. */
  lemma KnownMechanisms(cfg: Config, s: State, mech: string, initial: Option<Bytes>)
    ensures var outcome := AuthExchange(cfg, s, mech, initial).outcome;
      && (outcome == NoMechanism <==> mech == "")
      && (outcome == Unsupported(mech) <==> mech != "" && mech != "PLAIN" && mech != "LOGIN" && mech != "CRAM-MD5")
  {
  }

  // ----- what EHLO offers -----

  /** What EHLO offers works: STARTTLS is offered exactly if it would be accepted, and
      CRAM-MD5 exactly if an answer to its challenge could be. */
  lemma OffersAreKept(cfg: Config, s: State)
    ensures var lines := EhloLines(cfg);
      && lines[0] == cfg.hostname && lines[1] == "SIZE " + Decimal(cfg.maxSize)
      && (Last(lines) == "STARTTLS" <==> Respond(cfg, s, Tls).flow == StartTls)
      && (lines[6] == "AUTH LOGIN PLAIN CRAM-MD5" <==> exists user: string :: Wanted(cfg.auth, Creds(user, None)))
      && (lines[6] == "AUTH LOGIN PLAIN" <==> !exists user: string :: Wanted(cfg.auth, Creds(user, None)))
  {
    if cfg.auth.AcceptAny? || cfg.auth.pass == "" {
      var user := if cfg.auth.Require? then cfg.auth.user else "";
      assert Wanted(cfg.auth, Creds(user, None));
    }
  }

  /** The extensions that need no condition (RFC 6152, RFC 6531, RFC 2920 and RFC 2034). */
  lemma ExtensionsAreOffered(cfg: Config)
    ensures var lines := EhloLines(cfg);
      && lines[2] == "8BITMIME" && lines[3] == "SMTPUTF8"
      && lines[4] == "PIPELINING" && lines[5] == "ENHANCEDSTATUSCODES"
      && |lines| == (if cfg.offersTls && !cfg.tlsActive then 8 else 7)
  {
  }

  /** A line over the limit is read as its first bytes, and nothing of it is left. */
  lemma LongLineIsCut(s: State, line: Bytes, rest: Bytes)
    requires LF !in line && |line| > 2048 && s.input == line + CRLF + rest && line[2047] != CR
    ensures CommandLine(s) == line[..2048] && LineRead(s) == s.(input := rest)
  {
    LineLengthOf(line, rest);
    var cut := line[..2048];
    assert (line + CRLF)[..2048] == cut && cut[|cut| - 1] == line[2047] && line[2047] in line;
  }
}
