/** What the operations of the mail store do, told by the index before and after and by the
    message that came in: what retention evicts, which columns are indexed, which records a
    deletion or a regrouping touches. */
module StoreEffects {
  import opened Wrappers
  import opened StoreModel
  import opened SegmentLaws
  import opened StoreInvariant
  import opened StoreRuns
  import opened StoreExact
  import opened StoreTheorems

  // ----- retention -----

  /** `kept` is what is left of `before`: the newest entries, at most so many, and none of
      them in front older than so many days; whatever went was over the limit or too old. */
  ghost predicate RightlyRetained(before: seq<MetaRec>, kept: seq<MetaRec>, r: Retention, now: int) {
    && |kept| <= |before| && kept == before[|before| - |kept|..]
    && |kept| <= r.maxEntries
    && (r.maxDays > 0 && kept != [] ==> kept[0].ts >= now - r.maxDays * 86_400_000)
    && forall i :: 0 <= i < |before| - |kept| ==>
         i < |before| - r.maxEntries || (r.maxDays > 0 && before[i].ts < now - r.maxDays * 86_400_000)
  }

  lemma {:induction false} DropsOnlyOlder(index: seq<MetaRec>, cutoff: int)
    ensures var kept := DropOlder(index, cutoff);
      && (kept != [] ==> kept[0].ts >= cutoff)
      && forall i :: 0 <= i < |index| - |kept| ==> index[i].ts < cutoff
  {
    if index != [] && index[0].ts < cutoff {
      DropsOnlyOlder(index[1..], cutoff);
      var kept := DropOlder(index[1..], cutoff);
      forall i | 0 <= i < |index| - |kept| ensures index[i].ts < cutoff {
        assert i > 0 ==> index[i] == index[1..][i - 1];
      }
    }
  }

  /** The two limits, one after the other. */
  lemma DropsFromTheNewest(index: seq<MetaRec>, maxEntries: nat, cutoff: int)
    ensures var kept := DropOlder(NewestOnly(index, maxEntries), cutoff);
      && |kept| <= |index| && kept == index[|index| - |kept|..] && |kept| <= maxEntries
      && (kept != [] ==> kept[0].ts >= cutoff)
      && forall i :: 0 <= i < |index| - |kept| ==> i < |index| - maxEntries || index[i].ts < cutoff
  {
    var newest := NewestOnly(index, maxEntries);
    var first := |index| - |newest|;
    var kept := DropOlder(newest, cutoff);
    DropsOnlyOlder(newest, cutoff);
    forall i | first <= i < |index| - |kept| ensures index[i].ts < cutoff {
      assert index[i] == newest[i - first];
    }
  }

  lemma RetainedRightly(index: seq<MetaRec>, r: Retention, now: int)
    ensures RightlyRetained(index, Retained(index, r, now), r, now)
  {
    DropsFromTheNewest(index, r.maxEntries, Cutoff(r, now));
  }

  lemma NoneLonger(before: seq<MetaRec>, a: seq<MetaRec>, b: seq<MetaRec>, r: Retention, now: int)
    requires RightlyRetained(before, a, r, now) && RightlyRetained(before, b, r, now)
    ensures |a| <= |b|
  {
    assert a != [] ==> a[0] == before[|before| - |a|];
  }

  /** There is only one way to do it. */
  lemma OneRetention(before: seq<MetaRec>, a: seq<MetaRec>, b: seq<MetaRec>, r: Retention, now: int)
    requires RightlyRetained(before, a, r, now) && RightlyRetained(before, b, r, now)
    ensures a == b
  {
    NoneLonger(before, a, b, r, now);
    NoneLonger(before, b, a, r, now);
  }

  // ----- the columns -----

  /** The columns that a message is listed under. The sender is the header's address where
      there is one, and the envelope's where there is none. */
  predicate ListedAs(env: Env, rec: MetaRec, msg: NewMessage) {
    var c, from := rec.columns, msg.mail.from;
    && rec.ts == msg.receivedAt
    && c.date == msg.mail.date
    && c.subject == msg.mail.subject
    && c.envelopeFrom == msg.envelopeFrom
    && (from.Some? && from.value.addr != "" ==> c.from == from.value.addr)
    && (from.None? || from.value.addr == "" ==> c.from == msg.envelopeFrom)
    && c.fromName == (match from case Some(a) => a.name case None => "")
    && c.preview == env.preview(msg.mail.text)
    && c.rcpt == msg.rcpt && c.peer == msg.peer && c.origin == msg.origin && c.authUser == msg.authUser
    && c.size == msg.size
    && c.attachments == |msg.mail.attachments|
    && (c.hasHtml <==> msg.mail.html.Some?)
  }

  /** The body that a message is stored with. */
  predicate StoredAs(body: BodyRec, id: nat, msg: NewMessage) {
    && body.id == id && body.text == msg.mail.text && body.html == msg.mail.html
    && body.attachments == msg.mail.attachments && body.headers == msg.mail.headers
    && body.raw == msg.raw
  }

  lemma SameColumns(env: Env, rec: MetaRec, id: nat, msg: NewMessage, k: Kept)
    requires k.msg == msg && OfMessage(env, id, k) && SameButGroup(rec, k.rec)
    ensures ListedAs(env, rec, msg)
  {
  }

  /** Over every run, a message that is still kept is listed and stored as it came in, now
      and after any reopening. */
  lemma KeptAsItCame(env: Env, r: Retention, ops: seq<Op>, s: State, h: History, id: nat, r': Retention)
    requires Lawful(env) && Limits(env) && Run(env, r, ops, s, h) && id in h.kept
    ensures forall t :: t in {s, Reopened(s.segs, r')} ==>
      && Get(env, t, id).Some?
      && Get(env, t, id).value.meta.id == id
      && ListedAs(env, Get(env, t, id).value.meta, h.kept[id].msg)
      && StoredAs(Get(env, t, id).value.body, id, h.kept[id].msg)
  {
    RunKeeps(env, r, ops, s, h);
    ReopenKeeps(env, s, h, r');
    KeptNow(env, s, h, id);
    KeptNow(env, Reopened(s.segs, r'), h, id);
  }

  lemma KeptNow(env: Env, s: State, h: History, id: nat)
    requires Lawful(env) && Inv(env, s, h) && id in h.kept
    ensures Get(env, s, id).Some?
    ensures Get(env, s, id).value.meta.id == id
    ensures ListedAs(env, Get(env, s, id).value.meta, h.kept[id].msg)
    ensures StoredAs(Get(env, s, id).value.body, id, h.kept[id].msg)
  {
    KeptBody(env, s, h, id);
    var rec := s.index[Position(s.index, id).value];
    SameColumns(env, rec, id, h.kept[id].msg, h.kept[id]);
  }

  /** A message goes to the current segment exactly if its attachments and four kibibytes more fit
      behind the bodies there and one more record does. */
  lemma AppendStaysIff(env: Env, s: State, msg: NewMessage)
    requires env.maxRecords >= 1 && SegsOk(s.segs) && s.segs.cur.Some?
    requires |Flatten(KeptData(msg.mail.attachments))| + 4096 <= env.maxBody
    ensures var c, t := s.segs.cur.value, Store(env, s, msg);
      && t.index != []
      && (Last(t.index).seg == c.num <==>
            c.bodyLen + |Flatten(KeptData(msg.mail.attachments))| + 4096 <= env.maxBody && c.records < env.maxRecords)
  {
    EnsureOpenIsOpen(env, s.segs, Incoming(msg));
    RollsOnlyWhenFull(env, s.segs, Incoming(msg));
  }

  /** Lengths and offsets are stored in 32 bits: kept exactly below four gibibytes, and cut down
      by a multiple of them above. */
  lemma LengthIsKeptIff(n: nat)
    ensures U32(n) < 4_294_967_296 && (U32(n) == n <==> n < 4_294_967_296)
    ensures n == n / 4_294_967_296 * 4_294_967_296 + U32(n)
  {
  }

  // ----- every operation, on the index -----

  /** What a new message is indexed with, its group included. */
  predicate IndexedAs(env: Env, rec: MetaRec, id: nat, msg: NewMessage) {
    rec.id == id && rec.group == msg.group && ListedAs(env, rec, msg)
  }

  /** What an operation does to the index. */
  ghost predicate Effect(env: Env, s: State, op: Op, t: State) {
    match op
    case Append(msg, now) =>
      && t.nextId == s.nextId + 1 && t.retention == s.retention
      && exists rec :: IndexedAs(env, rec, s.nextId, msg) && RightlyRetained(s.index + [rec], t.index, s.retention, now)
    case DeleteIds(ids) =>
      && t.nextId == s.nextId && t.retention == s.retention && SortedIndex(t.index)
      && forall rec :: rec in t.index <==> rec in s.index && rec.id !in ids
    case ClearAll => t.nextId == s.nextId && t.retention == s.retention && t.index == []
    case Regroup(id, group) =>
      && t.nextId == s.nextId && t.retention == s.retention && |t.index| == |s.index|
      && forall i :: 0 <= i < |s.index| ==>
           t.index[i] == if s.index[i].id == id then s.index[i].(group := group) else s.index[i]
    case SetRetention(r, now) =>
      t.nextId == s.nextId && t.retention == r && RightlyRetained(s.index, t.index, r, now)
    case Restart(r, now) =>
      t.retention == r && RightlyRetained(Reopened(s.segs, r).index, t.index, r, now)
  }

  lemma EnforceIs(env: Env, s: State, now: int)
    requires DirOk(s.segs)
    ensures var t := Enforce(env, s, now);
      && RightlyRetained(s.index, t.index, s.retention, now)
      && t.nextId == s.nextId && t.retention == s.retention
  {
    RetainedRightly(s.index, s.retention, now);
  }

  lemma StoreIndexes(env: Env, s: State, msg: NewMessage)
    requires DirOk(s.segs)
    ensures var t := Store(env, s, msg);
      && t.index != [] && t.index == s.index + [Last(t.index)]
      && IndexedAs(env, Last(t.index), s.nextId, msg)
      && t.nextId == s.nextId + 1 && t.retention == s.retention
  {
    EnsureOpenIsOpen(env, s.segs, Incoming(msg));
  }

  lemma DeleteLeaves(env: Env, s: State, ids: seq<nat>)
    requires DirOk(s.segs) && SortedIndex(s.index)
    ensures var t := Delete(env, s, ids);
      && t.nextId == s.nextId && t.retention == s.retention && SortedIndex(t.index)
      && forall rec :: rec in t.index <==> rec in s.index && rec.id !in ids
  {
    SurvivorsMembers(s.index, ids);
    SurvivorsSorted(s.index, ids);
    if |Survivors(s.index, ids)| == |s.index| {
      SurvivorsAll(s.index, ids);
    }
  }

  lemma RegroupTouches(env: Env, s: State, id: nat, group: Option<nat>)
    requires DirOk(s.segs) && SortedIndex(s.index)
    ensures var t := SetGroup(env, s, id, group);
      && t.nextId == s.nextId && t.retention == s.retention && |t.index| == |s.index|
      && forall i :: 0 <= i < |s.index| ==>
           t.index[i] == if s.index[i].id == id then s.index[i].(group := group) else s.index[i]
  {
    var p := Position(s.index, id);
    if p.Some? {
      assert forall i :: 0 <= i < |s.index| && s.index[i].id == id ==> i == p.value;
    }
  }

  /** In every reachable store, every operation has exactly its effect. */
  lemma OperationHasEffect(env: Env, r: Retention, ops: seq<Op>, s: State, h: History, op: Op, t: State)
    requires Limits(env) && Run(env, r, ops, s, h) && SegsOk(s.segs) && Legal(env, s, op) && StepsTo(env, s, op, t)
    ensures Effect(env, s, op, t)
  {
    RunKeeps(env, r, ops, s, h);
    match op
    case Append(msg, now) =>
      var m := Store(env, s, msg);
      StoreIndexes(env, s, msg);
      EnforceIs(env, m, now);
      assert IndexedAs(env, Last(m.index), s.nextId, msg);
    case DeleteIds(ids) => DeleteLeaves(env, s, ids);
    case ClearAll =>
    case Regroup(id, group) => RegroupTouches(env, s, id, group);
    case SetRetention(q, now) => EnforceIs(env, s.(retention := q), now);
    case Restart(q, now) => EnforceIs(env, Reopened(s.segs, q), now);
  }
}
