/** Runs in which a restart shows something else: a deleted message returns, and one returns
    without its body and later vanishes. They work for every limit on records from two on, and
    for every limit on bodies that leaves the headroom of an append. */
module DeletedReturns {
  import opened Octets
  import opened Wrappers
  import opened StoreModel
  import opened SegmentLaws
  import opened StoreInvariant
  import opened ReplayLaws
  import opened StoreRuns
  import opened StoreExact
  import opened StoreTheorems
  import opened StoreLog
  import opened StoreSync

  const ROOMY := Retention(100, 0)

  /** The body line of a message without attachments. */
  function Json(env: Env, id: nat, msg: NewMessage): Bytes {
    env.enc(BodyOf(id, msg, []))
  }

  /** A message without attachments whose body line, as one of the first three messages, has
      a length that fits the 32 bits it is stored in. */
  ghost predicate Plain(env: Env, msg: NewMessage) {
    && msg.mail.attachments == []
    && forall id: nat {:trigger Json(env, id, msg)} :: 1 <= id <= 3 ==> |Json(env, id, msg)| < 0x1_0000_0000
  }

  /** A message that leaves room for another one in a new segment. */
  ghost predicate Light(env: Env, msg: NewMessage) {
    && Plain(env, msg)
    && forall id: nat {:trigger Json(env, id, msg)} ::
         1 <= id <= 3 ==> |Json(env, id, msg)| + 1 + HEADROOM <= env.maxBody
  }

  /** A message that fills a segment: nothing is written behind it. */
  ghost predicate Bulky(env: Env, msg: NewMessage) {
    && Plain(env, msg)
    && forall id: nat {:trigger Json(env, id, msg)} :: 1 <= id <= 3 ==> |Json(env, id, msg)| >= env.maxBody
  }

  /** Room for two messages and for the headroom of an append. */
  ghost predicate Roomy(env: Env) {
    Limits(env) && env.maxRecords >= 2 && HEADROOM <= env.maxBody
  }

  // ----- a store by its log, its index and its open segment -----

  /** The open segment: its number, and whether a metadata line or another message still goes
      into it. */
  ghost predicate At(env: Env, s: State, num: nat, full: bool) {
    && s.segs.cur.Some? && s.segs.cur.value.num == num && s.retention == ROOMY
    && (full ==> s.segs.cur.value.bodyLen > env.maxBody)
    && (!full ==> s.segs.cur.value.bodyLen + HEADROOM <= env.maxBody && s.segs.cur.value.records < env.maxRecords)
  }

  ghost predicate Looks(env: Env, s: State, log: Lines, index: seq<MetaRec>, next: nat, num: nat, full: bool) {
    LogOf(s.segs) == log && s.index == index && s.nextId == next && At(env, s, num, full)
  }

  /** A step of a run. */
  lemma OneMoreStep(env: Env, ops: seq<Op>, s: State, h: History, op: Op, t: State, g: History)
    requires Run(env, ROOMY, ops, s, h) && SegsOk(s.segs) && Legal(env, s, op)
    requires StepsTo(env, s, op, t) && Remembers(env, s, h, op, g)
    ensures Run(env, ROOMY, ops + [op], t, g)
  {
    assert (ops + [op])[..|ops|] == ops && Last(ops + [op]) == op;
  }

  lemma NothingKeptBack(msg: NewMessage)
    requires msg.mail.attachments == []
    ensures KeptData(msg.mail.attachments) == [] && Incoming(msg) == HEADROOM
  {
    assert Flatten([]) == [];
  }

  /** Where an append puts its body line. */
  lemma StoredAt(env: Env, s: State, msg: NewMessage, open: Segs)
    requires SegsOk(s.segs) && msg.mail.attachments == [] && open == EnsureOpen(env, s.segs, HEADROOM)
    requires open.cur.Some? && open.cur.value.num in open.disk
    ensures Incoming(msg) == HEADROOM && NextBody(open, s.nextId, msg) == BodyOf(s.nextId, msg, [])
    ensures var t := Store(env, s, msg);
      && t.segs.cur == Some(Open(open.cur.value.num, open.cur.value.bodyLen + |Json(env, s.nextId, msg)| + 1,
                                 open.cur.value.records + 1, open.cur.value.attLen))
      && t.segs.nums == open.nums
      && t.index == s.index + [NextRec(env, open, s.nextId, msg)]
      && t.nextId == s.nextId + 1 && t.retention == s.retention
      && NextRec(env, open, s.nextId, msg).id == s.nextId
      && NextRec(env, open, s.nextId, msg).seg == open.cur.value.num
  {
    NothingKeptBack(msg);
  }

  /** The open segment takes the message: a bulky one fills it, a light one does not. */
  ghost predicate Takes(env: Env, open: Segs, msg: NewMessage, num: nat, full: bool) {
    && open.cur.Some? && open.cur.value.num == num && num in open.disk && Plain(env, msg)
    && (full ==> Bulky(env, msg))
    && (!full ==> Light(env, msg) && open.cur.value.bodyLen == 0 && open.cur.value.records == 0)
  }

  lemma StoredLooks(env: Env, s: State, msg: NewMessage, num: nat, full: bool)
    requires Roomy(env) && SegsOk(s.segs) && s.retention == ROOMY && 1 <= s.nextId <= 3
    requires Takes(env, EnsureOpen(env, s.segs, HEADROOM), msg, num, full)
    ensures Incoming(msg) == HEADROOM && Legal(env, s, Append(msg, 0))
    ensures var t := Store(env, s, msg);
      && SegsOk(t.segs) && t.index != [] && t.index == s.index + [Last(t.index)]
      && Last(t.index).id == s.nextId && Last(t.index).seg == num && Last(t.index).group == msg.group
      && Looks(env, t, LogOf(s.segs) + [Entry(num, Msg(Last(t.index)))], t.index, s.nextId + 1, num, full)
  {
    var open := EnsureOpen(env, s.segs, HEADROOM);
    EnsureOpenDelivers(env, s.segs, HEADROOM);
    StoredAt(env, s, msg, open);
    assert |Json(env, s.nextId, msg)| < 0x1_0000_0000;
    StoredLog(env, s, msg);
  }

  /** An append that evicts nothing, into a segment that takes it. */
  lemma AppendStep(env: Env, ops: seq<Op>, s: State, h: History, msg: NewMessage, num: nat, full: bool)
      returns (t: State, g: History, rec: MetaRec)
    requires Roomy(env) && Run(env, ROOMY, ops, s, h) && SegsOk(s.segs)
    requires s.retention == ROOMY && |s.index| < 100 && 1 <= s.nextId <= 3
    requires Takes(env, EnsureOpen(env, s.segs, HEADROOM), msg, num, full)
    ensures Run(env, ROOMY, ops + [Append(msg, 0)], t, g) && SegsOk(t.segs)
    ensures Looks(env, t, LogOf(s.segs) + [Entry(num, Msg(rec))], s.index + [rec], s.nextId + 1, num, full)
    ensures rec.id == s.nextId && rec.seg == num && rec.group == msg.group
  {
    StoredLooks(env, s, msg, num, full);
    t := Store(env, s, msg);
    rec := Last(t.index);
    assert Retained(t.index, ROOMY, 0) == t.index;
    g := AfterEnforce(env, t, AfterStore(env, s, h, msg), 0);
    OneMoreStep(env, ops, s, h, Append(msg, 0), t, g);
  }

  lemma FirstAppend(env: Env, msg: NewMessage, full: bool) returns (t: State, g: History, rec: MetaRec)
    requires Roomy(env) && Plain(env, msg) && (full ==> Bulky(env, msg)) && (!full ==> Light(env, msg))
    ensures Stands(env, [Append(msg, 0)], t, g, [Entry(1, Msg(rec))], [rec], 2, 1, full)
    ensures rec.id == 1 && rec.seg == 1 && rec.group == msg.group
  {
    var s := EmptyStore(ROOMY);
    assert s == State(Segs(map[], [], None), [], 1, 0, ROOMY);
    assert EnsureOpen(env, s.segs, HEADROOM) == Segs(map[1 := EMPTY_FILES], [1], Some(Open(1, 0, 0, None)));
    t, g, rec := AppendStep(env, [], s, NO_HISTORY, msg, 1, full);
    assert [] + [Append(msg, 0)] == [Append(msg, 0)];
    assert [] + [Entry(1, Msg(rec))] == [Entry(1, Msg(rec))] && [] + [rec] == [rec];
  }

  /** A run that led to such a store. */
  ghost predicate Stands(env: Env, ops: seq<Op>, s: State, h: History, log: Lines, index: seq<MetaRec>,
                         next: nat, num: nat, full: bool)
  {
    Run(env, ROOMY, ops, s, h) && SegsOk(s.segs) && Looks(env, s, log, index, next, num, full)
  }

  lemma NextAppend(env: Env, ops: seq<Op>, s: State, h: History, msg: NewMessage, log: Lines,
                   index: seq<MetaRec>, next: nat, num: nat)
      returns (t: State, g: History, rec: MetaRec)
    requires Roomy(env) && Bulky(env, msg)
    requires Stands(env, ops, s, h, log, index, next, num, false) && |index| < 100 && 1 <= next <= 3
    ensures Stands(env, ops + [Append(msg, 0)], t, g, log + [Entry(num, Msg(rec))], index + [rec], next + 1, num, true)
    ensures rec.id == next && rec.seg == num && rec.group == msg.group
  {
    assert EnsureOpen(env, s.segs, HEADROOM) == s.segs;
    t, g, rec := AppendStep(env, ops, s, h, msg, num, true);
  }

  // ----- deletions that start a new segment -----

  /** The lines in the segments that are referenced or open. */
  function Held(log: Lines, live: set<nat>, num: nat): Lines {
    if log == [] then []
    else
      Held(log[..|log| - 1], live, num)
      + if Last(log).seg in live || Last(log).seg == num then [Last(log)] else []
  }

  lemma {:induction false} HeldIs(log: Lines, gone: set<nat>, live: set<nat>, num: nat)
    requires forall e :: e in log ==> (e.seg in gone <==> e.seg !in live && e.seg != num)
    ensures Remaining(log, gone) == Held(log, live, num)
  {
    if log != [] {
      var init := log[..|log| - 1];
      assert log == init + [Last(log)];
      HeldIs(init, gone, live, num);
    }
  }

  lemma ReclaimHolds(w: State)
    requires SegsOk(w.segs) && w.segs.cur.Some?
    ensures LogOf(Reclaim(w).segs) == Held(LogOf(w.segs), Referenced(w.index), w.segs.cur.value.num)
  {
    var log := LogOf(w.segs);
    LogReclaim(w);
    forall e | e in log
      ensures e.seg in Gone(w) <==> e.seg !in Referenced(w.index) && e.seg != w.segs.cur.value.num
    {
      assert e == Entry(e.seg, e.line);
      LogHas(w.segs.disk, w.segs.nums, e.seg, e.line);
    }
    HeldIs(log, Gone(w), Referenced(w.index), w.segs.cur.value.num);
  }

  /** A metadata line that finds the open segment full starts the next one. */
  lemma LineRolls(env: Env, s: State, num: nat)
    requires Roomy(env) && SegsOk(s.segs) && At(env, s, num, true)
    ensures var open := EnsureOpen(env, s.segs, 0);
      && SegsOk(open) && open.cur == Some(Open(num + 1, 0, 0, None)) && LogOf(open) == LogOf(s.segs)
      && open.nums != [] && Last(open.nums) == num + 1
  {
    EnsureOpenDelivers(env, s.segs, 0);
    LogExtended(s.segs, EnsureOpen(env, s.segs, 0));
    assert num + 1 !in s.segs.nums by {
      assert s.segs.nums[|s.segs.nums| - 1] == num;
    }
  }

  /** What a deletion of one message leaves, given the open segment its line goes to. */
  lemma DeletedLooks(env: Env, s: State, id: nat, left: seq<MetaRec>, num: nat)
    requires Roomy(env) && SegsOk(s.segs) && Survivors(s.index, [id]) == left && |left| < |s.index|
    requires var open := EnsureOpen(env, s.segs, 0);
      && SegsOk(open) && open.cur == Some(Open(num, 0, 0, None)) && LogOf(open) == LogOf(s.segs)
      && open.nums != [] && Last(open.nums) == num
    ensures var t := Delete(env, s, [id]);
      && SegsOk(t.segs) && t.segs.cur == Some(Open(num, 0, 0, None))
      && t.index == left && t.nextId == s.nextId && t.retention == s.retention
      && LogOf(t.segs) == Held(LogOf(s.segs) + [Entry(num, Del(id))], Referenced(left), num)
      && (forall n :: n in t.segs.disk ==> n in Referenced(left) || n == num)
  {
    var open := EnsureOpen(env, s.segs, 0);
    assert [id][..0] == [] && PutDels(open, []) == open;
    assert PutDels(open, [id]) == PutLine(open, Del(id));
    LogPutLine(open, Del(id));
    PutLineKeepsOk(open, Del(id));
    var w := s.(index := left, segs := PutLine(open, Del(id)));
    ReclaimHolds(w);
    ReclaimIs(w);
  }

  lemma NextDelete(env: Env, ops: seq<Op>, s: State, h: History, id: nat, log: Lines,
                   index: seq<MetaRec>, left: seq<MetaRec>, next: nat, num: nat, log': Lines)
      returns (t: State, g: History)
    requires Roomy(env) && Stands(env, ops, s, h, log, index, next, num, true)
    requires Survivors(index, [id]) == left && |left| < |index|
    requires log' == Held(log + [Entry(num + 1, Del(id))], Referenced(left), num + 1)
    ensures Stands(env, ops + [DeleteIds([id])], t, g, log', left, next, num + 1, false)
    ensures t.segs.cur == Some(Open(num + 1, 0, 0, None))
    ensures forall n :: n in t.segs.disk ==> n in Referenced(left) || n == num + 1
  {
    LineRolls(env, s, num);
    DeletedLooks(env, s, id, left, num + 1);
    t, g := Delete(env, s, [id]), AfterDelete(env, s, h, [id]);
    OneMoreStep(env, ops, s, h, DeleteIds([id]), t, g);
  }

  lemma SurvivorsOfTwo(a: MetaRec, b: MetaRec, id: nat)
    ensures Survivors([a, b], [id]) == (if a.id == id then [] else [a]) + (if b.id == id then [] else [b])
  {
    assert [a, b][..1] == [a] && [a][..0] == [];
    assert Survivors([], [id]) == [];
    assert Survivors([a], [id]) == if a.id == id then [] else [a];
  }

  lemma ReferencedOne(a: MetaRec)
    ensures Referenced([a]) == {a.seg}
  {
    assert [a][0] == a;
  }

  lemma HeldMore(log: Lines, e: Entry, live: set<nat>, num: nat)
    ensures Held(log + [e], live, num) == Held(log, live, num) + if e.seg in live || e.seg == num then [e] else []
  {
    assert (log + [e])[..|log|] == log;
  }

  lemma HeldThree(a: Entry, b: Entry, c: Entry, live: set<nat>, num: nat)
    ensures Held([a, b, c], live, num) ==
      (if a.seg in live || a.seg == num then [a] else [])
      + (if b.seg in live || b.seg == num then [b] else [])
      + (if c.seg in live || c.seg == num then [c] else [])
  {
    assert Held([], live, num) == [];
    HeldMore([], a, live, num);
    HeldMore([a], b, live, num);
    HeldMore([a, b], c, live, num);
    assert [] + [a] == [a] && [a] + [b] == [a, b] && [a, b] + [c] == [a, b, c];
  }

  lemma Lists(a: Entry, b: Entry, c: Entry, d: Entry)
    ensures [a] + [b] == [a, b] && [a, b] + [c] == [a, b, c] && [a, b, c] + [d] == [a, b, c, d]
  {
  }

  lemma Recs(a: MetaRec, b: MetaRec)
    ensures [a] + [b] == [a, b]
  {
  }

  lemma Ops(a: Op, b: Op)
    ensures [a] + [b] == [a, b]
  {
  }

  // ----- a deleted message returns -----

  /** Messages 1 and 2 in segment 1. */
  lemma TwoStored(env: Env, light: NewMessage, bulky: NewMessage)
      returns (s: State, h: History, r1: MetaRec, r2: MetaRec)
    requires Roomy(env) && Light(env, light) && Bulky(env, bulky)
    ensures Stands(env, [Append(light, 0), Append(bulky, 0)], s, h,
                   [Entry(1, Msg(r1)), Entry(1, Msg(r2))], [r1, r2], 3, 1, true)
    ensures r1.id == 1 && r2.id == 2 && r2.seg == 1
  {
    var s1, h1, ra := FirstAppend(env, light, false);
    s, h, r2 := NextAppend(env, [Append(light, 0)], s1, h1, bulky, [Entry(1, Msg(ra))], [ra], 2, 1);
    r1 := ra;
    Ops(Append(light, 0), Append(bulky, 0));
    var e1, e2 := Entry(1, Msg(r1)), Entry(1, Msg(r2));
    Lists(e1, e2, e2, e2);
    Recs(r1, r2);
  }

  lemma FirstStruck(e1: Entry, e2: Entry, r1: MetaRec, r2: MetaRec)
    requires e1.seg == 1 && e2.seg == 1 && r1.id == 1 && r2.id == 2 && r2.seg == 1
    ensures Survivors([r1, r2], [1]) == [r2]
    ensures Held([e1, e2] + [Entry(2, Del(1))], Referenced([r2]), 2) == [e1, e2, Entry(2, Del(1))]
  {
    var e3 := Entry(2, Del(1));
    SurvivorsOfTwo(r1, r2, 1);
    assert [] + [r2] == [r2];
    ReferencedOne(r2);
    Lists(e1, e2, e3, e3);
    HeldThree(e1, e2, e3, {1}, 2);
  }

  /** Message 1 is deleted; the line goes to segment 2, and message 3 fills it. */
  lemma FirstDeleted(env: Env, light: NewMessage, bulky: NewMessage)
      returns (ops: seq<Op>, s: State, h: History, r1: MetaRec, r2: MetaRec, r3: MetaRec)
    requires Roomy(env) && Light(env, light) && Bulky(env, bulky)
    ensures DeleteIds([1]) in ops
    ensures Stands(env, ops, s, h,
                   [Entry(1, Msg(r1)), Entry(1, Msg(r2)), Entry(2, Del(1)), Entry(2, Msg(r3))], [r2, r3], 4, 2, true)
    ensures r1.id == 1 && r2.id == 2 && r2.seg == 1 && r3.id == 3
  {
    var s2, h2, ra, rb := TwoStored(env, light, bulky);
    var ops2 := [Append(light, 0), Append(bulky, 0)];
    var e1, e2, e3 := Entry(1, Msg(ra)), Entry(1, Msg(rb)), Entry(2, Del(1));
    FirstStruck(e1, e2, ra, rb);
    var s3, h3 := NextDelete(env, ops2, s2, h2, 1, [e1, e2], [ra, rb], [rb], 3, 1, [e1, e2, e3]);
    var ops3 := ops2 + [DeleteIds([1])];
    s, h, r3 := NextAppend(env, ops3, s3, h3, bulky, [e1, e2, e3], [rb], 3, 2);
    ops, r1, r2 := ops3 + [Append(bulky, 0)], ra, rb;
    assert ops[2] == DeleteIds([1]);
    Lists(e1, e2, e3, Entry(2, Msg(r3)));
    Recs(r2, r3);
  }

  lemma ThirdStruck(e1: Entry, e2: Entry, e3: Entry, e4: Entry, r2: MetaRec, r3: MetaRec)
    requires e1.seg == 1 && e2.seg == 1 && e3.seg == 2 && e4.seg == 2
    requires r2.id == 2 && r2.seg == 1 && r3.id == 3
    ensures Survivors([r2, r3], [3]) == [r2]
    ensures Held([e1, e2, e3, e4] + [Entry(3, Del(3))], Referenced([r2]), 3) == [e1, e2, Entry(3, Del(3))]
  {
    var e5 := Entry(3, Del(3));
    SurvivorsOfTwo(r2, r3, 3);
    assert [r2] + [] == [r2];
    ReferencedOne(r2);
    Lists(e1, e2, e3, e4);
    HeldThree(e1, e2, e3, {1}, 3);
    HeldMore([e1, e2, e3], e4, {1}, 3);
    HeldMore([e1, e2, e3, e4], e5, {1}, 3);
    Lists(e1, e2, e5, e5);
  }

  /** Messages 1 and 2 share a segment; 1 is deleted, and the segment that recorded the
      deletion is reclaimed with message 3, while message 2 keeps the first segment on disk.
      The running store no longer shows message 1, the reopened one does. */
  lemma DeletedMessageReturns(env: Env, light: NewMessage, bulky: NewMessage)
      returns (ops: seq<Op>, s: State, h: History)
    requires Roomy(env) && Light(env, light) && Bulky(env, bulky)
    ensures Run(env, ROOMY, ops, s, h) && DeleteIds([1]) in ops
    ensures !Has(s.index, 1)
    ensures forall r: Retention :: Has(Reopened(s.segs, r).index, 1)
  {
    var ops4, s4, h4, r1, r2, r3 := FirstDeleted(env, light, bulky);
    var e1, e2, e3, e4 := Entry(1, Msg(r1)), Entry(1, Msg(r2)), Entry(2, Del(1)), Entry(2, Msg(r3));
    ThirdStruck(e1, e2, e3, e4, r2, r3);
    s, h := NextDelete(env, ops4, s4, h4, 3, [e1, e2, e3, e4], [r2, r3], [r2], 4, 2, [e1, e2, Entry(3, Del(3))]);
    ops := ops4 + [DeleteIds([3])];
    FirstHasLastWord(r1, r2);
    forall r: Retention ensures Has(Reopened(s.segs, r).index, 1) {
      ReopenedShowsIff(s.segs, r, r1);
    }
  }

  lemma FirstHasLastWord(r1: MetaRec, r2: MetaRec)
    requires r1.id == 1 && r2.id == 2
    ensures Shows([Entry(1, Msg(r1)), Entry(1, Msg(r2)), Entry(3, Del(3))], {}, r1)
  {
    var log := [Entry(1, Msg(r1)), Entry(1, Msg(r2)), Entry(3, Del(3))];
    assert Stays(log, {}, 0);
    assert LastWord(log, {}, 0, 1) && log[0].line == Msg(r1);
  }

  // ----- a message returns without its body, and vanishes -----

  function OtherGroup(group: Option<nat>): Option<nat> {
    if group == None then Some(0) else None
  }

  /** A message that fills segment 1 is regrouped; the line goes to segment 2, which the next
      message fills. */
  lemma Regrouped(env: Env, bulky: NewMessage)
      returns (ops: seq<Op>, s: State, h: History, r0: MetaRec, r1: MetaRec, r2: MetaRec)
    requires Roomy(env) && Bulky(env, bulky)
    ensures Stands(env, ops, s, h, [Entry(1, Msg(r0)), Entry(2, Msg(r1)), Entry(2, Msg(r2))], [r1, r2], 3, 2, true)
    ensures r0.id == 1 && r1.id == 1 && r1.seg == 1 && r2.id == 2 && r2.seg == 2
  {
    var s1, h1, ra := FirstAppend(env, bulky, true);
    var e1 := Entry(1, Msg(ra));
    var s2, h2, rb := RegroupStep(env, [Append(bulky, 0)], s1, h1, [e1], ra);
    var ops2 := [Append(bulky, 0)] + [Regroup(1, OtherGroup(ra.group))];
    s, h, r2 := NextAppend(env, ops2, s2, h2, bulky, [e1, Entry(2, Msg(rb))], [rb], 2, 2);
    ops, r0, r1 := ops2 + [Append(bulky, 0)], ra, rb;
    Lists(e1, Entry(2, Msg(rb)), Entry(2, Msg(r2)), e1);
    Recs(r1, r2);
  }

  lemma RegroupLooks(env: Env, s: State, rec: MetaRec)
    requires Roomy(env) && SegsOk(s.segs) && At(env, s, 1, true) && s.index == [rec] && rec.id == 1
    ensures var rec' := rec.(group := OtherGroup(rec.group)); var t := SetGroup(env, s, 1, OtherGroup(rec.group));
      && SegsOk(t.segs) && t.index == [rec'] && t.nextId == s.nextId && t.retention == s.retention
      && t.segs.cur == Some(Open(2, 0, 0, None))
      && LogOf(t.segs) == LogOf(s.segs) + [Entry(2, Msg(rec'))]
  {
    var rec' := rec.(group := OtherGroup(rec.group));
    LineRolls(env, s, 1);
    var open := EnsureOpen(env, s.segs, 0);
    LogPutLine(open, Msg(rec'));
    PutLineKeepsOk(open, Msg(rec'));
    assert Position([rec], 1) == Some(0) by {
      assert [rec][..0] == [];
    }
    assert [rec][0 := rec'] == [rec'];
  }

  lemma RegroupStep(env: Env, ops: seq<Op>, s: State, h: History, log: Lines, rec: MetaRec)
      returns (t: State, g: History, rec': MetaRec)
    requires Roomy(env) && Stands(env, ops, s, h, log, [rec], 2, 1, true)
    requires rec.id == 1 && log == [Entry(1, Msg(rec))]
    ensures rec' == rec.(group := OtherGroup(rec.group))
    ensures Stands(env, ops + [Regroup(1, OtherGroup(rec.group))], t, g,
                   [Entry(1, Msg(rec)), Entry(2, Msg(rec'))], [rec'], 2, 2, false)
  {
    var group := OtherGroup(rec.group);
    rec' := rec.(group := group);
    RegroupLooks(env, s, rec);
    t, g := SetGroup(env, s, 1, group), AfterRegroup(env, s, h, 1, group);
    OneMoreStep(env, ops, s, h, Regroup(1, group), t, g);
    Lists(log[0], Entry(2, Msg(rec')), log[0], log[0]);
  }

  lemma OwnSegmentStruck(e1: Entry, e2: Entry, e3: Entry, r1: MetaRec, r2: MetaRec)
    requires e1.seg == 1 && e2.seg == 2 && e3.seg == 2
    requires r1.id == 1 && r2.id == 2 && r2.seg == 2
    ensures Survivors([r1, r2], [1]) == [r2]
    ensures Held([e1, e2, e3] + [Entry(3, Del(1))], Referenced([r2]), 3) == [e2, e3, Entry(3, Del(1))]
  {
    var e4 := Entry(3, Del(1));
    SurvivorsOfTwo(r1, r2, 1);
    assert [] + [r2] == [r2];
    ReferencedOne(r2);
    HeldThree(e1, e2, e3, {2}, 3);
    HeldMore([e1, e2, e3], e4, {2}, 3);
    assert [] + [e2] + [e3] + [e4] == [e2, e3, e4];
  }

  /** Message 1 is deleted and its segment dropped; the line goes to segment 3, which message
      3 fills. */
  lemma OwnSegmentDropped(env: Env, bulky: NewMessage)
      returns (ops: seq<Op>, s: State, h: History, r1: MetaRec, r2: MetaRec, r3: MetaRec)
    requires Roomy(env) && Bulky(env, bulky)
    ensures DeleteIds([1]) in ops
    ensures Stands(env, ops, s, h,
                   [Entry(2, Msg(r1)), Entry(2, Msg(r2)), Entry(3, Del(1)), Entry(3, Msg(r3))], [r2, r3], 4, 3, true)
    ensures r1.id == 1 && r1.seg == 1 && r2.id == 2 && r2.seg == 2 && r3.id == 3
  {
    var ops3, s3, h3, r0, ra, rb := Regrouped(env, bulky);
    var e1, e2, e3, e4 := Entry(1, Msg(r0)), Entry(2, Msg(ra)), Entry(2, Msg(rb)), Entry(3, Del(1));
    OwnSegmentStruck(e1, e2, e3, ra, rb);
    var s4, h4 := NextDelete(env, ops3, s3, h3, 1, [e1, e2, e3], [ra, rb], [rb], 3, 2, [e2, e3, e4]);
    var ops4 := ops3 + [DeleteIds([1])];
    s, h, r3 := NextAppend(env, ops4, s4, h4, bulky, [e2, e3, e4], [rb], 3, 3);
    ops, r1, r2 := ops4 + [Append(bulky, 0)], ra, rb;
    assert ops[|ops3|] == DeleteIds([1]);
    Lists(e2, e3, e4, Entry(3, Msg(r3)));
    Recs(r2, r3);
  }

  lemma DeletionStruck(e1: Entry, e2: Entry, e3: Entry, e4: Entry, r2: MetaRec, r3: MetaRec)
    requires e1.seg == 2 && e2.seg == 2 && e3.seg == 3 && e4.seg == 3
    requires r2.id == 2 && r2.seg == 2 && r3.id == 3
    ensures Survivors([r2, r3], [3]) == [r2]
    ensures Held([e1, e2, e3, e4] + [Entry(4, Del(3))], Referenced([r2]), 4) == [e1, e2, Entry(4, Del(3))]
  {
    var e5 := Entry(4, Del(3));
    SurvivorsOfTwo(r2, r3, 3);
    assert [r2] + [] == [r2];
    ReferencedOne(r2);
    Lists(e1, e2, e3, e4);
    HeldThree(e1, e2, e3, {2}, 4);
    HeldMore([e1, e2, e3], e4, {2}, 4);
    HeldMore([e1, e2, e3, e4], e5, {2}, 4);
    Lists(e1, e2, e5, e5);
  }

  /** After the deletion is lost: message 1 stands in segment 2 alone, and its own segment is
      gone. */
  lemma BodyLost(env: Env, bulky: NewMessage)
      returns (ops: seq<Op>, s: State, h: History, r1: MetaRec, r2: MetaRec)
    requires Roomy(env) && Bulky(env, bulky)
    ensures DeleteIds([1]) in ops
    ensures Stands(env, ops, s, h, [Entry(2, Msg(r1)), Entry(2, Msg(r2)), Entry(4, Del(3))], [r2], 4, 4, false)
    ensures r1.id == 1 && r1.seg == 1 && r2.id == 2 && r2.seg == 2
    ensures 1 !in s.segs.disk && s.segs.cur == Some(Open(4, 0, 0, None))
  {
    var ops5, s5, h5, ra, rb, rc := OwnSegmentDropped(env, bulky);
    var e1, e2, e3, e4 := Entry(2, Msg(ra)), Entry(2, Msg(rb)), Entry(3, Del(1)), Entry(3, Msg(rc));
    DeletionStruck(e1, e2, e3, e4, rb, rc);
    s, h := NextDelete(env, ops5, s5, h5, 3, [e1, e2, e3, e4], [rb, rc], [rb], 4, 3, [e1, e2, Entry(4, Del(3))]);
    ReferencedOne(rb);
    ops, r1, r2 := ops5 + [DeleteIds([3])], ra, rb;
  }

  lemma BothVisible(log: Lines, r1: MetaRec, r2: MetaRec)
    requires log == [Entry(2, Msg(r1)), Entry(2, Msg(r2)), Entry(4, Del(3))] && r1.id == 1 && r2.id == 2
    ensures ReplayLog(log) == Replay(map[1 := r1, 2 := r2], 0, 3)
  {
    ReplaySnoc([], log[0]);
    ReplaySnoc([log[0]], log[1]);
    ReplaySnoc([log[0], log[1]], log[2]);
    Lists(log[0], log[1], log[2], log[2]);
    assert [] + [log[0]] == [log[0]];
    assert ReplayLog([log[0]]).live == map[1 := r1];
    assert ReplayLog([log[0], log[1]]).live == map[1 := r1, 2 := r2];
    assert map[1 := r1, 2 := r2] - {3} == map[1 := r1, 2 := r2];
  }

  lemma ReopenedIsBoth(s: Segs, r: Retention, r1: MetaRec, r2: MetaRec)
    requires r1.id == 1 && r2.id == 2
    requires LogOf(s) == [Entry(2, Msg(r1)), Entry(2, Msg(r2)), Entry(4, Del(3))]
    ensures Reopened(s, r).index == [r1, r2]
  {
    BothVisible(LogOf(s), r1, r2);
    ReplayIsLog(s.disk, s.nums);
    var t := ReplayDisk(s.disk, s.nums);
    ReplayBounds(LogOf(s));
    CollectIs(t.live, t.floor, t.maxSeen + 1);
    SortedUnique(Reopened(s, r).index, [r1, r2]);
  }

  /** The reopened store shows message 1 again, without its body. */
  lemma ReturnsWithoutBody(env: Env, bulky: NewMessage)
      returns (ops: seq<Op>, s: State, h: History, r1: MetaRec, r2: MetaRec)
    requires Roomy(env) && Bulky(env, bulky)
    ensures Run(env, ROOMY, ops, s, h) && SegsOk(s.segs) && DeleteIds([1]) in ops
    ensures s.index == [r1, r2] && s.retention == ROOMY
    ensures r1.id == 1 && r1.seg == 1 && r2.id == 2 && r2.seg == 2
    ensures ReadBodyAt(env, s.segs, r1) == None
    ensures LogOf(s.segs) == [Entry(2, Msg(r1)), Entry(2, Msg(r2)), Entry(4, Del(3))]
    ensures s.segs.cur.None? && s.segs.nums != [] && Last(s.segs.nums) == 4 && s.segs.disk[4].body == []
  {
    var ops6, s6, h6;
    ops6, s6, h6, r1, r2 := BodyLost(env, bulky);
    ReopenedIsBoth(s6.segs, ROOMY, r1, r2);
    s := Reopened(s6.segs, ROOMY);
    assert Retained(s.index, ROOMY, 0) == s.index;
    h := AfterEnforce(env, s, h6, 0);
    ops := ops6 + [Restart(ROOMY, 0)];
    OneMoreStep(env, ops6, s6, h6, Restart(ROOMY, 0), s, h);
    var i :| 0 <= i < |ops6| && ops6[i] == DeleteIds([1]);
    assert ops[i] == DeleteIds([1]);
  }

  lemma LastStruck(e1: Entry, e2: Entry, e3: Entry, r1: MetaRec, r2: MetaRec)
    requires e1.seg == 2 && e2.seg == 2 && e3.seg == 4 && r1.id == 1 && r1.seg == 1 && r2.id == 2
    ensures Survivors([r1, r2], [2]) == [r1]
    ensures Held([e1, e2, e3] + [Entry(4, Del(2))], Referenced([r1]), 4) == [e3, Entry(4, Del(2))]
  {
    SurvivorsOfTwo(r1, r2, 2);
    assert [r1] + [] == [r1];
    ReferencedOne(r1);
    HeldThree(e1, e2, e3, {1}, 4);
    HeldMore([e1, e2, e3], Entry(4, Del(2)), {1}, 4);
    assert [] + [e3] == [e3];
  }

  lemma NothingVisible(log: Lines)
    requires log == [Entry(4, Del(3)), Entry(4, Del(2))]
    ensures ReplayLog(log).live == map[]
  {
    ReplaySnoc([], log[0]);
    ReplaySnoc([log[0]], log[1]);
    assert [] + [log[0]] == [log[0]] && [log[0]] + [log[1]] == log;
  }

  /** And when message 2 is deleted, message 1 is still shown, and gone after the next
      restart: the last line about it went with segment 2. */
  lemma ReturnedMessageVanishes(env: Env, bulky: NewMessage) returns (ops: seq<Op>, s: State, h: History)
    requires Roomy(env) && Bulky(env, bulky)
    ensures Run(env, ROOMY, ops, s, h) && DeleteIds([1]) in ops
    ensures Has(s.index, 1)
    ensures forall r: Retention :: Reopened(s.segs, r).index == []
  {
    var ops7, s7, h7, r1, r2 := ReturnsWithoutBody(env, bulky);
    var log := LogOf(s7.segs);
    LastStruck(log[0], log[1], log[2], r1, r2);
    assert s7.segs.nums[|s7.segs.nums| - 1] == 4;
    EnsureOpenDelivers(env, s7.segs, 0);
    LogExtended(s7.segs, EnsureOpen(env, s7.segs, 0));
    DeletedLooks(env, s7, 2, [r1], 4);
    s, h := Delete(env, s7, [2]), AfterDelete(env, s7, h7, [2]);
    ops := ops7 + [DeleteIds([2])];
    OneMoreStep(env, ops7, s7, h7, DeleteIds([2]), s, h);
    var i :| 0 <= i < |ops7| && ops7[i] == DeleteIds([1]);
    assert ops[i] == DeleteIds([1]) && s.index[0].id == 1;
    NothingVisible(LogOf(s.segs));
    forall r: Retention ensures Reopened(s.segs, r).index == [] {
      NothingReopened(s.segs, r);
    }
  }

  lemma NothingReopened(s: Segs, r: Retention)
    requires ReplayLog(LogOf(s)).live == map[]
    ensures Reopened(s, r).index == []
  {
    ReplayIsLog(s.disk, s.nums);
    var t := ReplayDisk(s.disk, s.nums);
    CollectIs(t.live, t.floor, t.maxSeen + 1);
    SortedUnique(Reopened(s, r).index, []);
  }
}
