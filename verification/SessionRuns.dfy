/** Whole SMTP sessions, judged by their transcript: commands, replies and what was read. */
module SessionRuns {
  import opened Octets
  import opened Wrappers
  import opened SmtpSession
  import opened SessionLaws
  import DataReader

  // ----- replies in step with commands -----

  /** The lines read that began with a command word. */
  function Worded(turns: seq<Turn>): nat {
    if turns == [] then 0
    else Worded(turns[..|turns| - 1]) + if HasWord(CommandLine(Last(turns).before)) then 1 else 0
  }

  /** Over a whole session: as many closing replies as lines that began with a command word,
      except that a peer who leaves in the middle of its last AUTH gets none for it. */
  lemma {:induction false} RepliesStayInStep(cfg: Config, start: State, turns: seq<Turn>)
    requires Lossy(cfg) && IsRun(cfg, start, turns)
    ensures var lost := turns != [] && LostInAuth(Last(turns).command, Last(turns).flow);
      Finals(Said(turns)) + (if lost then 1 else 0) == Worded(turns)
  {
    if turns != [] {
      var prev := turns[..|turns| - 1];
      RepliesStayInStep(cfg, start, prev);
      var t := Last(turns);
      EveryCommandIsAnsweredOnce(cfg, t.before);
      BlankIff(cfg, CommandLine(t.before));
      FinalsOf(Said(prev), t.said);
    }
  }

  // ----- messages taken -----

  function Takings(replies: seq<Reply>): nat {
    if replies == [] then 0
    else Takings(replies[..|replies| - 1]) + if Last(replies) == Accepted then 1 else 0
  }

  lemma {:induction false} NoTakings(replies: seq<Reply>)
    requires Accepted !in replies
    ensures Takings(replies) == 0
  {
    if replies != [] {
      NoTakings(replies[..|replies| - 1]);
    }
  }

  lemma {:induction false} TakingsOf(first: seq<Reply>, second: seq<Reply>)
    ensures Takings(first + second) == Takings(first) + Takings(second)
  {
    if second == [] {
      assert first + second == first;
    } else {
      TakingsOf(first, second[..|second| - 1]);
      assert (first + second)[..|first + second| - 1] == first + second[..|second| - 1];
    }
  }

  lemma LoginTakesNothing(cfg: Config, s: State, x: Exchange)
    requires OnlyAsks(x)
    ensures var r := Concluded(cfg, s, x);
      Accepted !in r.said && r.after.queued == s.queued && r.after.delivered == s.delivered
  {
    assert Accepted !in x.asked;
  }

  lemma OnlyDataTakes(cfg: Config, s: State, c: Command)
    requires !c.Data? || Barred(cfg, s, c)
    ensures var r := Respond(cfg, s, c);
      Accepted !in r.said && r.after.queued == s.queued && r.after.delivered == s.delivered
  {
    if c.Auth? {
      ExchangeOnlyAsks(cfg, s, c.mech, c.initial);
      LoginTakesNothing(cfg, s, AuthExchange(cfg, s, c.mech, c.initial));
    }
  }

  lemma DataTakesAsTold(cfg: Config, s: State, data: Option<Bytes>, rest: Bytes)
    ensures var r := Deliver(cfg, s, data, rest);
      && (Accepted in r.said ==> data.Some? && r.after.queued == s.queued + [MailOf(cfg, s, data.value)])
      && (Accepted !in r.said ==> r.after.queued == s.queued)
      && r.after.delivered == s.delivered + (if Accepted in r.said then 1 else 0)
      && Takings(r.said) == (if Accepted in r.said then 1 else 0)
  {
    var said := Deliver(cfg, s, data, rest).said;
    assert said[..1] == [GoAhead];
    assert Takings([GoAhead]) == 0 by {
      NoTakings([GoAhead]);
    }
  }

  /** A command makes the queue grow by what its replies say. */
  lemma TurnTakesAsTold(cfg: Config, s: State, c: Command)
    ensures var r := Respond(cfg, s, c);
      && |r.after.queued| == |s.queued| + Takings(r.said)
      && r.after.delivered == s.delivered + Takings(r.said)
      && s.queued <= r.after.queued
  {
    if c.Data? && !Barred(cfg, s, c) {
      DataTakesAsTold(cfg, s, DataReader.Data(s.input, cfg.maxSize), DataReader.AfterData(s.input));
    } else {
      OnlyDataTakes(cfg, s, c);
      NoTakings(Respond(cfg, s, c).said);
    }
  }

  /** As many messages handed over as replies that say so, and the session's own count
      agrees. */
  lemma {:induction false} TakenAsTold(cfg: Config, start: State, turns: seq<Turn>)
    requires IsRun(cfg, start, turns)
    ensures |Reached(start, turns).queued| == |start.queued| + Takings(Said(turns))
    ensures Reached(start, turns).delivered == start.delivered + Takings(Said(turns))
    ensures start.queued <= Reached(start, turns).queued
  {
    if turns != [] {
      var prev := turns[..|turns| - 1];
      TakenAsTold(cfg, start, prev);
      var t := Last(turns);
      TurnTakesAsTold(cfg, LineRead(t.before), t.command);
      TakingsOf(Said(prev), t.said);
    }
  }

  // ----- envelopes, from the transcript alone -----

  /** The commands that begin a new envelope, as the replies tell. */
  predicate Opens(t: Turn) {
    || t.command.Ehlo? || t.command.Helo? || t.command.Rset?
    || (t.command.From? && t.said == [SenderOk])
    || (t.command.Data? && t.said != [LoginRequired])
  }

  function Addr(c: Command): string {
    if (c.From? || c.To?) && c.addr.Some? then c.addr.value else ""
  }

  function Sender(turns: seq<Turn>): Option<string> {
    if turns == [] then None
    else if Opens(Last(turns)) then
      if Last(turns).command.From? then Some(Addr(Last(turns).command)) else None
    else Sender(turns[..|turns| - 1])
  }

  predicate AddsRecipient(t: Turn) {
    t.command.To? && t.said == [RecipientOk]
  }

  function Recipients(turns: seq<Turn>): seq<string> {
    if turns == [] || Opens(Last(turns)) then []
    else
      Recipients(turns[..|turns| - 1]) + if AddsRecipient(Last(turns)) then [Addr(Last(turns).command)] else []
  }

  lemma EnvelopeStep(cfg: Config, s: State, t: Turn)
    requires var r := Respond(cfg, s, t.command); t.said == r.said && t.after == r.after
    ensures t.after.mailFrom ==
      if Opens(t) then if t.command.From? then Some(Addr(t.command)) else None else s.mailFrom
    ensures t.after.rcpt ==
      if Opens(t) then [] else s.rcpt + if AddsRecipient(t) then [Addr(t.command)] else []
    ensures |s.rcpt| <= MAX_RCPT ==> |t.after.rcpt| <= MAX_RCPT
  {
    if t.command.Data? && !Barred(cfg, s, t.command) {
      DataAnswersOnce(cfg, s);
      assert t.said != [LoginRequired];
    }
  }

  /** A session that starts with an empty envelope: what it keeps is what the transcript
      says was accepted since the last command that began an envelope. */
  lemma {:induction false} EnvelopeIsTheTranscripts(cfg: Config, start: State, turns: seq<Turn>)
    requires IsRun(cfg, start, turns)
    requires start.mailFrom == None && start.rcpt == []
    ensures var s := Reached(start, turns);
      s.mailFrom == Sender(turns) && s.rcpt == Recipients(turns) && |s.rcpt| <= MAX_RCPT
  {
    if turns != [] {
      var prev := turns[..|turns| - 1];
      EnvelopeIsTheTranscripts(cfg, start, prev);
      EnvelopeStep(cfg, LineRead(Last(turns).before), Last(turns));
    }
  }

  function Accepteds(turns: seq<Turn>): seq<string> {
    if turns == [] then []
    else
      Accepteds(turns[..|turns| - 1]) + if AddsRecipient(Last(turns)) then [Addr(Last(turns).command)] else []
  }

  /** Nothing from before the last opening command counts. */
  lemma {:induction false} EnvelopesStayApart(before: seq<Turn>, opening: Turn, since: seq<Turn>)
    requires Opens(opening)
    requires forall t :: t in since ==> !Opens(t)
    ensures Recipients(before + [opening] + since) == Accepteds(since)
    ensures Sender(before + [opening] + since)
         == if opening.command.From? then Some(Addr(opening.command)) else None
  {
    var turns := before + [opening] + since;
    if since == [] {
      assert turns == before + [opening];
      assert Last(turns) == opening;
    } else {
      EnvelopesStayApart(before, opening, since[..|since| - 1]);
      assert turns[..|turns| - 1] == before + [opening] + since[..|since| - 1];
      assert Last(turns) == Last(since) && Last(since) in since;
    }
  }

  // ----- logins -----

  /** The credentials with which a command logged the peer in, if it did. */
  function LoginOf(cfg: Config, s: State, c: Command): Option<Creds> {
    if !c.Auth? then None
    else
      var outcome := AuthExchange(cfg, s, c.mech, c.initial).outcome;
      if outcome.Presented? && CredentialsOk(cfg.auth, outcome.creds) then Some(outcome.creds) else None
  }

  function LastLogin(cfg: Config, turns: seq<Turn>): Option<Creds> {
    if turns == [] then None
    else
      var t := Last(turns);
      var login := LoginOf(cfg, LineRead(t.before), t.command);
      if login.Some? then login else LastLogin(cfg, turns[..|turns| - 1])
  }

  lemma LoginStep(cfg: Config, s: State, c: Command)
    ensures var r := Respond(cfg, s, c);
      && r.after.authUser == (if LoginOf(cfg, s, c).Some? then Some(LoginOf(cfg, s, c).value.user) else s.authUser)
      && (LoginOf(cfg, s, c).Some? ==> r.said != [] && Last(r.said) == LoggedIn)
  {
  }

  lemma {:induction false} UserIsTheLastLogins(cfg: Config, start: State, turns: seq<Turn>)
    requires IsRun(cfg, start, turns) && start.authUser == None
    ensures var login := LastLogin(cfg, turns);
      && Reached(start, turns).authUser == (if login.Some? then Some(login.value.user) else None)
      && (login.Some? ==> CredentialsOk(cfg.auth, login.value))
  {
    if turns != [] {
      UserIsTheLastLogins(cfg, start, turns[..|turns| - 1]);
      LoginStep(cfg, LineRead(Last(turns).before), Last(turns).command);
    }
  }

  // ----- every message -----

  /** The message a session handed over with its last command is what the transcript says:
      the sender and the recipients of this envelope or their placeholders, the bytes
      between the 354 and the terminator, and under a login policy the user of the last
      login that passed the check. */
  predicate Faithful(cfg: Config, turns: seq<Turn>, mail: Mail) {
    turns != [] &&
    (var t := Last(turns);
     var prev := turns[..|turns| - 1];
     var login := LastLogin(cfg, prev);
     && t.command.Data? && Accepted in t.said
     && mail.sender == (if Sender(prev).Some? then Sender(prev).value else "unknown@" + cfg.peerIp)
     && mail.rcpt == (if Recipients(prev) == [] then ["postmaster@" + cfg.hostname] else Recipients(prev))
     && 1 <= |mail.rcpt| <= MAX_RCPT
     && DataReader.Data(LineRead(t.before).input, cfg.maxSize) == Some(mail.data)
     && |mail.data| <= cfg.maxSize
     && mail.user == (if login.Some? then Some(login.value.user) else None)
     && (RequiresAuth(cfg) ==> login.Some? && CredentialsOk(cfg.auth, login.value)))
  }

  predicate Fresh(s: State) {
    s.mailFrom == None && s.rcpt == [] && s.authUser == None
  }

  /** The only way a message gets handed over, and what it then is. */
  lemma HandedOver(cfg: Config, s: State, c: Command)
    ensures var r := Respond(cfg, s, c);
      && |r.after.queued| <= |s.queued| + 1
      && (|r.after.queued| > |s.queued| ==>
        var data := DataReader.Data(s.input, cfg.maxSize);
        && c.Data? && !Barred(cfg, s, c) && Accepted in r.said && data.Some?
        && r.after.queued == s.queued + [MailOf(cfg, s, data.value)])
  {
    if c.Data? && !Barred(cfg, s, c) {
      DataTakesAsTold(cfg, s, DataReader.Data(s.input, cfg.maxSize), DataReader.AfterData(s.input));
    } else {
      OnlyDataTakes(cfg, s, c);
    }
  }

  /** What the last turn of a run does to the queue. */
  lemma LastTurnHandsOver(cfg: Config, start: State, turns: seq<Turn>)
    requires IsRun(cfg, start, turns) && turns != []
    ensures var prev := turns[..|turns| - 1];
      var before, after := Reached(start, prev), Reached(start, turns);
      var data := DataReader.Data(LineRead(before).input, cfg.maxSize);
      var t := Last(turns);
      && IsRun(cfg, start, prev) && t.before == before && t.after == after
      && before.queued <= after.queued
      && |after.queued| <= |before.queued| + 1
      && (|after.queued| > |before.queued| ==>
        && t.command.Data? && Accepted in t.said && data.Some?
        && (RequiresAuth(cfg) ==> before.authUser.Some?)
        && after.queued == before.queued + [MailOf(cfg, LineRead(before), data.value)])
  {
    var t := Last(turns);
    HandedOver(cfg, LineRead(t.before), t.command);
    TurnTakesAsTold(cfg, LineRead(t.before), t.command);
  }

  /** A message made from a state that is what the transcript says. */
  lemma MailIsTheTranscripts(cfg: Config, turns: seq<Turn>, s: State, data: Bytes)
    requires turns != [] && s == LineRead(Last(turns).before)
    requires Last(turns).command.Data? && Accepted in Last(turns).said
    requires DataReader.Data(s.input, cfg.maxSize) == Some(data)
    requires RequiresAuth(cfg) ==> s.authUser.Some?
    requires var prev := turns[..|turns| - 1];
      var login := LastLogin(cfg, prev);
      && s.mailFrom == Sender(prev) && s.rcpt == Recipients(prev) && |s.rcpt| <= MAX_RCPT
      && s.authUser == (if login.Some? then Some(login.value.user) else None)
      && (login.Some? ==> CredentialsOk(cfg.auth, login.value))
    ensures Faithful(cfg, turns, MailOf(cfg, s, data))
  {
  }

  predicate FaithfulAt(cfg: Config, turns: seq<Turn>, j: nat, mail: Mail) {
    j <= |turns| && Faithful(cfg, turns[..j], mail)
  }

  lemma StillFaithful(cfg: Config, turns: seq<Turn>, j: nat, mail: Mail)
    requires turns != [] && FaithfulAt(cfg, turns[..|turns| - 1], j, mail)
    ensures FaithfulAt(cfg, turns, j, mail)
  {
    assert turns[..|turns| - 1][..j] == turns[..j];
  }

  lemma LastMessageIsFaithful(cfg: Config, start: State, turns: seq<Turn>)
    requires IsRun(cfg, start, turns) && turns != [] && Fresh(start)
    requires |Reached(start, turns).queued| > |Last(turns).before.queued|
    ensures FaithfulAt(cfg, turns, |turns|, Last(Reached(start, turns).queued))
  {
    LastTurnHandsOver(cfg, start, turns);
    var prev := turns[..|turns| - 1];
    EnvelopeIsTheTranscripts(cfg, start, prev);
    UserIsTheLastLogins(cfg, start, prev);
    var s := LineRead(Last(turns).before);
    MailIsTheTranscripts(cfg, turns, s, DataReader.Data(s.input, cfg.maxSize).value);
    assert turns[..|turns|] == turns;
  }

  /** Every message that a session handed over is faithful to the transcript up to it. */
  lemma {:induction false} EveryMessageIsFaithful(cfg: Config, start: State, turns: seq<Turn>, k: nat)
    requires IsRun(cfg, start, turns) && Fresh(start)
    requires |start.queued| <= k < |Reached(start, turns).queued|
    ensures exists j: nat :: FaithfulAt(cfg, turns, j, Reached(start, turns).queued[k])
  {
    LastTurnHandsOver(cfg, start, turns);
    var mail := Reached(start, turns).queued[k];
    var prev := turns[..|turns| - 1];
    if k < |Reached(start, prev).queued| {
      EveryMessageIsFaithful(cfg, start, prev, k);
      var j: nat :| FaithfulAt(cfg, prev, j, mail);
      StillFaithful(cfg, turns, j, mail);
    } else {
      LastMessageIsFaithful(cfg, start, turns);
    }
  }

  /** A login that gave what the policy names. */
  predicate LoggedInFor(cfg: Config, login: Option<Creds>) {
    && cfg.auth.Require? && login.Some?
    && (cfg.auth.user != "" ==> login.value.user == cfg.auth.user)
    && (cfg.auth.pass != "" ==> login.value.pass == Some(cfg.auth.pass))
  }

  lemma FaithfulIsLoggedIn(cfg: Config, turns: seq<Turn>, mail: Mail)
    requires RequiresAuth(cfg) && Faithful(cfg, turns, mail)
    ensures LoggedInFor(cfg, LastLogin(cfg, turns[..|turns| - 1]))
    ensures cfg.auth.user != "" ==> mail.user == Some(cfg.auth.user)
  {
  }

  /** A policy that names a user or a password, over a whole session: the last login before
      any message that was handed over gave that user and that password. */
  lemma PolicyHolds(cfg: Config, start: State, turns: seq<Turn>, k: nat)
    requires IsRun(cfg, start, turns) && Fresh(start) && RequiresAuth(cfg)
    requires |start.queued| <= k < |Reached(start, turns).queued|
    ensures cfg.auth.user != "" ==> Reached(start, turns).queued[k].user == Some(cfg.auth.user)
    ensures exists j: nat ::
      FaithfulAt(cfg, turns, j, Reached(start, turns).queued[k]) && LoggedInFor(cfg, LoginBefore(cfg, turns, j))
  {
    EveryMessageIsFaithful(cfg, start, turns, k);
    var mail := Reached(start, turns).queued[k];
    var j: nat :| FaithfulAt(cfg, turns, j, mail);
    FaithfulIsLoggedIn(cfg, turns[..j], mail);
  }

  /** The last login before turn `j`. */
  function LoginBefore(cfg: Config, turns: seq<Turn>, j: nat): Option<Creds> {
    if 0 < j <= |turns| then LastLogin(cfg, turns[..j][..j - 1]) else None
  }
}
