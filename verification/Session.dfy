/** The session loop as it runs (crates/s2l-smtp/src/session.rs): it reads lines, changes
    its fields and writes replies. */
module Session {
  import opened Octets
  import opened Wrappers
  import opened SmtpSession
  import DataReader

  class Session {
    const cfg: Config
    var input: Bytes
    var replies: seq<Reply>
    var queued: seq<Mail>
    var offered: nat
    var logins: nat
    var greeted: bool
    var peerName: string
    var mailFrom: Option<string>
    var rcpt: seq<string>
    var authUser: Option<string>
    var delivered: nat

    function View(): State
      reads this`input, this`queued, this`offered, this`logins, this`greeted, this`peerName
      reads this`mailFrom, this`rcpt, this`authUser, this`delivered
    {
      State(input, queued, offered, logins, greeted, peerName, mailFrom, rcpt, authUser, delivered)
    }

    constructor (cfg: Config, input: Bytes)
      ensures this.cfg == cfg && this.input == input && replies == [] && queued == []
      ensures !greeted && mailFrom == None && rcpt == [] && authUser == None && delivered == 0
    {
      this.cfg, this.input, replies, queued := cfg, input, [], [];
      offered, logins, delivered := 0, 0, 0;
      greeted, peerName, mailFrom, rcpt, authUser := false, "", None, [], None;
    }

    method Write(reply: Reply)
      modifies this`replies
      ensures replies == old(replies) + [reply]
    {
      replies := replies + [reply];
    }

    method ReadUntil() returns (line: Bytes)
      modifies this`input
      ensures line == old(input)[..LineLength(old(input))]
      ensures input == old(input)[LineLength(old(input))..]
    {
      var n := LineLength(input);
      line := input[..n];
      input := input[n..];
    }

    method ResetEnvelope()
      modifies this`mailFrom, this`rcpt
      ensures mailFrom == None && rcpt == []
    {
      mailFrom := None;
      rcpt := [];
    }

    method ReadAuthLine() returns (heard: Heard)
      modifies this`input
      ensures (heard, input) == Hear(cfg, old(input))
    {
      if input == [] {
        return Gone;
      }
      var line := ReadUntil();
      var body := Seen(line);
      if body == [42] {
        return Cancelled;
      }
      return Line(cfg.unbase64(cfg.text(body)));
    }

    method AskFor(given: Option<Bytes>, prompt: Reply) returns (heard: Heard, ghost asked: seq<Reply>)
      modifies this`input, this`replies
      ensures (heard, input, asked) == Ask(cfg, old(input), given, prompt)
      ensures replies == old(replies) + asked
    {
      if given.Some? {
        return Line(given.value), [];
      }
      Write(prompt);
      heard := ReadAuthLine();
      asked := [prompt];
    }

    /** The exchange after `AUTH`: credentials, or why there are none. */
    method Converse(mech: string, initial: Option<Bytes>) returns (outcome: Outcome, ghost asked: seq<Reply>)
      modifies this`input, this`replies
      ensures Exchange(outcome, input, asked) == AuthExchange(cfg, old(View()), mech, initial)
      ensures replies == old(replies) + asked
    {
      asked := [];
      if mech == "PLAIN" {
        var payload;
        payload, asked := AskFor(initial, AskResponse);
        outcome := if payload.Line? then Presented(PlainCreds(cfg, payload.data)) else Failed(payload);
      } else if mech == "LOGIN" {
        outcome, asked := ConverseLogin(initial);
      } else if mech == "CRAM-MD5" {
        var response;
        response, asked := AskFor(None, AskChallenge(cfg.challenge(logins)));
        outcome := if response.Line? then Presented(CramCreds(cfg, response.data)) else Failed(response);
      } else if mech == "" {
        outcome := NoMechanism;
      } else {
        outcome := Unsupported(mech);
      }
    }

    method ConverseLogin(initial: Option<Bytes>) returns (outcome: Outcome, ghost asked: seq<Reply>)
      modifies this`input, this`replies
      ensures Exchange(outcome, input, asked) == LoginExchange(cfg, old(input), initial)
      ensures replies == old(replies) + asked
    {
      var user, pass;
      user, asked := AskFor(initial, AskUser);
      if !user.Line? {
        return Failed(user), asked;
      }
      ghost var more;
      pass, more := AskFor(None, AskPassword);
      asked := asked + more;
      outcome :=
        if pass.Line? then Presented(Creds(cfg.text(user.data), Some(cfg.text(pass.data)))) else Failed(pass);
    }

    /** False when the peer went away in the middle. */
    method HandleAuth(mech: string, initial: Option<Bytes>) returns (there: bool)
      modifies this`input, this`replies, this`logins, this`authUser
      ensures var r := LogIn(cfg, old(View()), mech, initial);
        View() == r.after && replies == old(replies) + r.said && there == (r.flow == Next) && (there || r.flow == Done)
    {
      var outcome;
      ghost var asked;
      outcome, asked := Converse(mech, initial);
      logins := logins + 1;
      if outcome.Vanished? {
        return false;
      }
      if outcome.Presented? && CredentialsOk(cfg.auth, outcome.creds) {
        authUser := Some(outcome.creds.user);
      }
      Write(LoginReply(cfg, outcome));
      return true;
    }

    method TrySend(mail: Mail) returns (told: Reply)
      modifies this`queued, this`offered, this`delivered
      ensures (View(), told) == Offer(cfg, old(View()), mail)
    {
      var verdict := cfg.trySend(offered);
      offered := offered + 1;
      if verdict == Queued {
        queued := queued + [mail];
        delivered := delivered + 1;
        return Accepted;
      }
      return if verdict == Full then QueueFull else ShuttingDown;
    }

    method Receive() returns (data: Option<Bytes>)
      modifies this`input, this`replies
      ensures data == DataReader.Data(old(input), cfg.maxSize)
      ensures input == DataReader.AfterData(old(input))
      ensures replies == old(replies) + [GoAhead]
    {
      Write(GoAhead);
      var rest;
      data, rest := DataReader.ReadData(input, cfg.maxSize);
      input := rest;
    }

    method Settle(data: Option<Bytes>)
      modifies this`replies, this`queued, this`offered, this`delivered, this`mailFrom, this`rcpt
      ensures var r := Deliver(cfg, old(View()), data, input);
        View() == r.after && replies == old(replies) + [r.said[1]]
    {
      if data.Some? {
        var told := TrySend(MailOf(cfg, View(), data.value));
        Write(told);
      } else {
        Write(TooBig);
      }
      ResetEnvelope();
    }

    method HandleData()
      modifies this`input, this`replies, this`queued, this`offered, this`delivered, this`mailFrom, this`rcpt
      ensures var r := Deliver(cfg, old(View()), DataReader.Data(old(input), cfg.maxSize), DataReader.AfterData(old(input)));
        View() == r.after && replies == old(replies) + r.said
    {
      var data := Receive();
      Settle(data);
    }

    method Hello(name: string)
      modifies this`mailFrom, this`rcpt, this`greeted, this`peerName
      ensures View() == Greet(old(View()), name)
    {
      ResetEnvelope();
      greeted := true;
      peerName := name;
    }

    method WriteEhlo()
      modifies this`replies
      ensures replies == old(replies) + Listing(EhloLines(cfg))
    {
      var lines := EhloLines(cfg);
      ghost var all := Listing(lines);
      var i := 0;
      while i < |lines|
        invariant i <= |lines|
        invariant replies == old(replies) + all[..i]
      {
        Write(EhloLine(lines[i], i + 1 == |lines|));
        assert all[..i + 1] == all[..i] + [all[i]];
        i := i + 1;
      }
      assert all[..i] == all;
    }

    /** One command, carried out. */
    method Handle(c: Command) returns (flow: Flow)
      modifies this
      ensures var r := Respond(cfg, old(View()), c);
        View() == r.after && replies == old(replies) + r.said && flow == r.flow
    {
      flow := Next;
      if Barred(cfg, View(), c) {
        Write(LoginRequired);
        return;
      }
      match c {
        case Ehlo(name) => Hello(name); WriteEhlo();
        case Helo(name) => Hello(name); Write(HeloDone);
        case Tls =>
          if cfg.tlsActive {
            Write(TlsActive);
          } else if !OffersTls(cfg) {
            Write(TlsUnavailable);
          } else {
            Write(TlsReady);
            flow := StartTls;
          }
        case Auth(mech, initial) =>
          var there := HandleAuth(mech, initial);
          flow := if there then Next else Done;
        case From(addr) =>
          if addr.Some? {
            mailFrom := addr;
            rcpt := [];
            Write(SenderOk);
          } else {
            Write(SenderSyntax);
          }
        case To(addr) =>
          if addr.None? {
            Write(RecipientSyntax);
          } else if |rcpt| >= MAX_RCPT {
            Write(TooManyRecipients);
          } else {
            rcpt := rcpt + [addr.value];
            Write(RecipientOk);
          }
        case Data => HandleData();
        case Rset => ResetEnvelope(); Write(ResetDone);
        case Noop => Write(NoopDone);
        case Vrfy => Write(CannotVerify);
        case Help => Write(HelpText);
        case Quit =>
          Write(Closing);
          flow := Done;
        case Blank =>
          assert replies == old(replies) + [];
        case Unknown(word) => Write(UnknownCommand(word));
      }
    }

    /** One line read, understood and answered. */
    method Step() returns (flow: Flow)
      modifies this
      ensures var t := TakeTurn(cfg, old(View()));
        View() == t.after && replies == old(replies) + t.said && flow == t.flow
    {
      var line := ReadUntil();
      flow := Handle(Parse(cfg, Seen(line)));
    }

    /** One more turn of a run. */
    method Continue(ghost start: State, ghost turns: seq<Turn>) returns (flow: Flow, ghost longer: seq<Turn>)
      requires IsRun(cfg, start, turns) && Open(turns) && View() == Reached(start, turns) && input != []
      modifies this
      ensures IsRun(cfg, start, longer) && View() == Reached(start, longer)
      ensures longer != [] && flow == Last(longer).flow && |input| < |old(input)|
      ensures exists told :: replies == old(replies) + told && Said(longer) == Said(turns) + told
    {
      ghost var t := TakeTurn(cfg, View());
      OneMoreTurn(cfg, start, turns);
      longer := turns + [t];
      flow := Step();
      assert replies == old(replies) + t.said;
    }

    /** The whole session, until the peer is done or wants to switch to TLS. */
    method Run(greet: bool) returns (end: Flow, ghost turns: seq<Turn>)
      modifies this
      ensures IsRun(cfg, old(View()), turns) && View() == Reached(old(View()), turns)
      ensures replies == old(replies) + (if greet then [Greeting] else []) + Said(turns)
      ensures end == Done || end == StartTls
      ensures if Open(turns) then end == Done && input == [] else end == Last(turns).flow
    {
      turns := [];
      if greet {
        Write(Greeting);
      }
      ghost var start := View();
      ghost var opening := replies;
      while input != []
        invariant IsRun(cfg, start, turns) && Open(turns)
        invariant View() == Reached(start, turns)
        invariant replies == opening + Said(turns)
        decreases |input|
      {
        ghost var said := Said(turns);
        ghost var before := replies;
        var flow, longer := Continue(start, turns);
        ghost var told :| replies == before + told && Said(longer) == said + told;
        Shift(opening, said, told);
        turns := longer;
        if flow != Next {
          return flow, turns;
        }
      }
      return Done, turns;
    }
  }
}
