/** What holds in every SMTP session: replies stay in step with commands, messages taken
    match the replies that say so, envelopes stay apart, and logins are real. */
module SessionLaws {
  import opened Octets
  import opened Texts
  import opened Wrappers
  import opened SmtpSession
  import DataReader

  // ----- replies -----

  /** A reply that closes an exchange: the last line of its reply, and no request for more
      input. */
  predicate Final(r: Reply) {
    !More(r) && !(300 <= Code(r) < 400)
  }

  function Finals(replies: seq<Reply>): nat {
    if replies == [] then 0 else Finals(replies[..|replies| - 1]) + if Final(Last(replies)) then 1 else 0
  }

  predicate All334(replies: seq<Reply>) {
    forall i :: 0 <= i < |replies| ==> Code(replies[i]) == 334
  }

  predicate AuthCode(code: nat) {
    code == 235 || code == 501 || code == 504 || code == 535
  }

  predicate DataCode(code: nat) {
    code == 250 || code == 451 || code == 421 || code == 552
  }

  /** An exchange asks with 334 and nothing else, and only a peer at the end of its input
      vanishes. */
  predicate OnlyAsks(x: Exchange) {
    All334(x.asked) && (x.outcome.Vanished? ==> x.rest == [])
  }

  lemma HearVanishes(cfg: Config, input: Bytes)
    ensures Hear(cfg, input).0.Gone? ==> Hear(cfg, input).1 == []
  {
  }

  lemma PlainOnlyAsks(cfg: Config, input: Bytes, initial: Option<Bytes>)
    ensures OnlyAsks(PlainExchange(cfg, input, initial))
  {
    HearVanishes(cfg, input);
  }

  lemma CramOnlyAsks(cfg: Config, input: Bytes, challenge: string)
    ensures OnlyAsks(CramExchange(cfg, input, challenge))
  {
    HearVanishes(cfg, input);
  }

  lemma LoginOnlyAsks(cfg: Config, input: Bytes, initial: Option<Bytes>)
    ensures OnlyAsks(LoginExchange(cfg, input, initial))
  {
    HearVanishes(cfg, input);
    HearVanishes(cfg, Ask(cfg, input, initial, AskUser).1);
  }

  lemma ExchangeOnlyAsks(cfg: Config, s: State, mech: string, initial: Option<Bytes>)
    ensures OnlyAsks(AuthExchange(cfg, s, mech, initial))
  {
    PlainOnlyAsks(cfg, s.input, initial);
    LoginOnlyAsks(cfg, s.input, initial);
    CramOnlyAsks(cfg, s.input, cfg.challenge(s.logins));
  }

  lemma ConcludedOnce(cfg: Config, s: State, x: Exchange)
    requires OnlyAsks(x)
    ensures var r := Concluded(cfg, s, x);
      && (r.flow == Next || r.flow == Done)
      && (r.flow == Done ==> All334(r.said) && r.after.input == [])
      && (r.flow == Next ==> r.said != [] && All334(r.said[..|r.said| - 1]) && AuthCode(Code(Last(r.said))))
  {
    var r := Concluded(cfg, s, x);
    if r.flow == Next {
      assert r.said[..|r.said| - 1] == x.asked;
    }
  }

  /** AUTH: any number of 334s, then exactly one answer, unless the peer goes away in the
      middle and the session ends. */
  lemma AuthAnswersOnce(cfg: Config, s: State, mech: string, initial: Option<Bytes>)
    ensures var r := Respond(cfg, s, Auth(mech, initial));
      && (r.flow == Next || r.flow == Done)
      && (r.flow == Done ==> All334(r.said) && r.after.input == [])
      && (r.flow == Next ==> r.said != [] && All334(r.said[..|r.said| - 1])
                             && AuthCode(Code(Last(r.said))))
  {
    ExchangeOnlyAsks(cfg, s, mech, initial);
    ConcludedOnce(cfg, s, AuthExchange(cfg, s, mech, initial));
  }

  lemma DeliverAnswersOnce(cfg: Config, s: State, data: Option<Bytes>, rest: Bytes)
    ensures var r := Deliver(cfg, s, data, rest);
      && r.flow == Next && |r.said| == 2 && r.said[0] == GoAhead
      && DataCode(Code(r.said[1])) && !More(r.said[1])
      && r.after.input == rest
      && (Code(r.said[1]) == 552 <==> data == None)
  {
  }

  /** DATA: 354, then exactly one answer, and the input is read through the terminator
      whatever the answer is. A login that is required and missing gets 530 instead, and
      nothing else happens. */
  lemma DataAnswersOnce(cfg: Config, s: State)
    ensures var r := Respond(cfg, s, Data);
      && r.flow == Next
      && (Barred(cfg, s, Data) ==> r.after == s && |r.said| == 1 && r.said[0] == LoginRequired)
      && (!Barred(cfg, s, Data) ==>
        && |r.said| == 2 && r.said[0] == GoAhead && DataCode(Code(r.said[1])) && !More(r.said[1])
        && r.after.input == DataReader.AfterData(s.input)
        && (Code(r.said[1]) == 552 <==> DataReader.Data(s.input, cfg.maxSize) == None))
  {
    DeliverAnswersOnce(cfg, s, DataReader.Data(s.input, cfg.maxSize), DataReader.AfterData(s.input));
  }

  lemma {:induction false} PendingHasNoFinals(replies: seq<Reply>)
    requires forall i :: 0 <= i < |replies| ==> !Final(replies[i])
    ensures Finals(replies) == 0
  {
    if replies != [] {
      PendingHasNoFinals(replies[..|replies| - 1]);
    }
  }

  lemma {:induction false} FinalsOf(first: seq<Reply>, second: seq<Reply>)
    ensures Finals(first + second) == Finals(first) + Finals(second)
  {
    if second == [] {
      assert first + second == first;
    } else {
      FinalsOf(first, second[..|second| - 1]);
      assert (first + second)[..|first + second| - 1] == first + second[..|second| - 1];
    }
  }

  lemma EhloIsOneReply(lines: seq<string>)
    requires lines != []
    ensures Finals(Listing(lines)) == 1
  {
    var l := Listing(lines);
    PendingHasNoFinals(l[..|l| - 1]);
  }

  /** The peer went away in the middle of AUTH. */
  predicate LostInAuth(c: Command, flow: Flow) {
    c.Auth? && flow == Done
  }

  lemma AnsweredLast(said: seq<Reply>)
    requires said != [] && Final(Last(said))
    requires forall i :: 0 <= i < |said| - 1 ==> !Final(said[i])
    ensures Finals(said) == 1
  {
    PendingHasNoFinals(said[..|said| - 1]);
  }

  lemma AuthIsAnsweredOnce(cfg: Config, s: State, mech: string, initial: Option<Bytes>)
    ensures var r := Respond(cfg, s, Auth(mech, initial));
      && Finals(r.said) == (if r.flow == Done then 0 else 1)
      && (Finals(r.said) == 1 ==> Final(Last(r.said)))
  {
    AuthAnswersOnce(cfg, s, mech, initial);
    var r := Respond(cfg, s, Auth(mech, initial));
    if r.flow == Done {
      PendingHasNoFinals(r.said);
    } else {
      assert forall i :: 0 <= i < |r.said| - 1 ==> r.said[i] == r.said[..|r.said| - 1][i];
      AnsweredLast(r.said);
    }
  }

  lemma DeliveryIsAnsweredOnce(cfg: Config, s: State, data: Option<Bytes>, rest: Bytes)
    ensures Finals(Deliver(cfg, s, data, rest).said) == 1 && Final(Last(Deliver(cfg, s, data, rest).said))
  {
    DeliverAnswersOnce(cfg, s, data, rest);
    AnsweredLast(Deliver(cfg, s, data, rest).said);
  }

  lemma DataIsAnsweredOnce(cfg: Config, s: State)
    ensures Finals(Respond(cfg, s, Data).said) == 1 && Final(Last(Respond(cfg, s, Data).said))
  {
    if Barred(cfg, s, Data) {
      AnsweredLast([LoginRequired]);
    } else {
      DeliveryIsAnsweredOnce(cfg, s, DataReader.Data(s.input, cfg.maxSize), DataReader.AfterData(s.input));
    }
  }

  lemma CommandIsAnsweredOnce(cfg: Config, s: State, c: Command)
    ensures var r := Respond(cfg, s, c);
      && Finals(r.said) == (if c.Blank? || LostInAuth(c, r.flow) then 0 else 1)
      && (Finals(r.said) == 1 ==> Final(Last(r.said)))
      && (c.Blank? ==> r == Response(s, [], Next))
  {
    if c.Auth? {
      AuthIsAnsweredOnce(cfg, s, c.mech, c.initial);
    } else if c.Data? {
      DataIsAnsweredOnce(cfg, s);
    } else if c.Ehlo? {
      EhloIsOneReply(EhloLines(cfg));
    } else if !c.Blank? {
      OneReply(cfg, s, c);
      AnsweredLast(Respond(cfg, s, c).said);
    }
  }

  /** The only lines without a command are the empty one and those that start with white
      space. */
  lemma BlankIff(cfg: Config, line: Bytes)
    requires Lossy(cfg)
    ensures Parse(cfg, line).Blank? <==> !HasWord(line)
  {
    var e := VerbEnd(line);
    assert line[..e] == [] <==> !HasWord(line);
    assert Upper(cfg.text(line[..e])) == "" <==> cfg.text(line[..e]) == "";
  }

  /** Every line that starts with a command word gets exactly one closing reply, as the last
      thing said, unless the peer leaves in the middle of AUTH; an empty line, and one that
      starts with white space, gets nothing and changes nothing. */
  lemma EveryCommandIsAnsweredOnce(cfg: Config, s: State)
    requires Lossy(cfg)
    ensures var t := TakeTurn(cfg, s);
      && Finals(t.said) == (if !HasWord(CommandLine(s)) || LostInAuth(t.command, t.flow) then 0 else 1)
      && (Finals(t.said) == 1 ==> Final(Last(t.said)))
      && (!HasWord(CommandLine(s)) ==> t.said == [] && t.after == LineRead(s) && t.flow == Next)
  {
    BlankIff(cfg, CommandLine(s));
    CommandIsAnsweredOnce(cfg, LineRead(s), TakeTurn(cfg, s).command);
  }

  const NOOP_LINE: Bytes := [78, 79, 79, 80]

  /** The same command with and without a blank in front: a closing reply, and no reply. */
  lemma LeadingBlankIsIgnored(cfg: Config, s: State, t: State, rest: Bytes)
    requires Lossy(cfg) && cfg.text(NOOP_LINE) == "NOOP"
    requires s.input == NOOP_LINE + CRLF + rest && t.input == [32] + NOOP_LINE + CRLF + rest
    ensures TakeTurn(cfg, s).said == [NoopDone] && TakeTurn(cfg, s).after == s.(input := rest)
    ensures TakeTurn(cfg, t).said == [] && TakeTurn(cfg, t).after == t.(input := rest)
  {
    assert TakeTurn(cfg, s).said == [NoopDone] && TakeTurn(cfg, s).after == s.(input := rest) by {
      NoopIsRead(cfg);
      NoopIsAnswered(cfg, s, NOOP_LINE, rest);
    }
    BlankIsIgnored(cfg, t, [32] + NOOP_LINE, rest);
  }

  lemma NoopIsAnswered(cfg: Config, s: State, line: Bytes, rest: Bytes)
    requires Parse(cfg, line) == Noop
    requires LF !in line && |line| + 2 <= MAX_LINE && s.input == line + CRLF + rest
    ensures TakeTurn(cfg, s).said == [NoopDone] && TakeTurn(cfg, s).after == s.(input := rest)
  {
    LineIsRead(s, line, rest);
  }

  lemma BlankIsIgnored(cfg: Config, s: State, line: Bytes, rest: Bytes)
    requires Lossy(cfg) && !HasWord(line)
    requires LF !in line && |line| + 2 <= MAX_LINE && s.input == line + CRLF + rest
    ensures TakeTurn(cfg, s).said == [] && TakeTurn(cfg, s).after == s.(input := rest)
  {
    LineIsRead(s, line, rest);
    EveryCommandIsAnsweredOnce(cfg, s);
  }

  lemma LineIsRead(s: State, line: Bytes, rest: Bytes)
    requires LF !in line && |line| + 2 <= MAX_LINE && s.input == line + CRLF + rest
    ensures CommandLine(s) == line && LineRead(s) == s.(input := rest)
  {
    LineLengthOf(line, rest);
  }

  lemma NoopIsRead(cfg: Config)
    requires cfg.text(NOOP_LINE) == "NOOP"
    ensures Parse(cfg, NOOP_LINE) == Noop
  {
    var line := NOOP_LINE;
    assert VerbEnd(line) == 4 by {
      assert VerbEnd(line[1..][1..][1..]) == 1;
    }
    assert line[..4] == line;
    assert Upper("NOOP") == "NOOP";
  }

  // ----- what the peer gets -----

  /** The line on the wire tells the code and whether more lines follow, so a peer can count
      the closing replies that the laws above speak of. */
  lemma WireTells(cfg: Config, r: Reply)
    ensures var line := Wire(cfg, r);
      && |line| >= 4 && AllDigits(line[..3]) && Value(line[..3]) == Code(r)
      && (line[3] == '-' <==> More(r))
      && (Final(r) <==> line[3] != '-' && line[0] != '3')
  {
    ThreeDigits(Code(r));
    WireSplits(Decimal(Code(r)), if More(r) then '-' else ' ', Wording(cfg, r));
    ValueOfDecimal(Code(r));
  }

  lemma WireSplits(digits: string, mark: char, wording: string)
    requires |digits| == 3
    ensures var line := digits + [mark] + wording;
      |line| >= 4 && line[..3] == digits && line[3] == mark
  {
  }

  lemma ThreeDigits(n: nat)
    requires 100 <= n < 1000
    ensures |Decimal(n)| == 3 && (Decimal(n)[0] == '3' <==> 300 <= n < 400)
  {
    assert Decimal(n / 100) == [Digit(n / 100)];
    assert Decimal(n / 10) == [Digit(n / 100)] + [Digit(n / 10 % 10)];
  }

  lemma OneReply(cfg: Config, s: State, c: Command)
    requires !c.Auth? && !c.Ehlo? && !c.Blank?
    requires !c.Data?
    ensures |Respond(cfg, s, c).said| == 1 && Final(Respond(cfg, s, c).said[0])
  {
  }
}
