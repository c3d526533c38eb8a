/** The promises of the mail store, over every run of its operations. */
module StoreTheorems {
  import opened Wrappers
  import opened StoreModel
  import opened SegmentLaws
  import opened BodyFiles
  import opened StoreInvariant
  import opened StoreSteps
  import opened ReplayLaws
  import opened StoreRuns
  import opened StoreExact

  /** One operation of the store. */
  ghost predicate StepsTo(env: Env, s: State, op: Op, t: State)
    requires SegsOk(s.segs) && Legal(env, s, op)
  {
    match op
    case Append(msg, now) => var m := Store(env, s, msg); SegsOk(m.segs) && t == Enforce(env, m, now)
    case DeleteIds(ids) => t == Delete(env, s, ids)
    case ClearAll => t == Clear(env, s)
    case Regroup(id, group) => t == SetGroup(env, s, id, group)
    case SetRetention(r, now) => t == Enforce(env, s.(retention := r), now)
    case Restart(r, now) => var m := Reopened(s.segs, r); SegsOk(m.segs) && t == Enforce(env, m, now)
  }

  /** Which messages the store still owes the user, which ids it gave out, which bodies it wrote. */
  ghost predicate Remembers(env: Env, s: State, h: History, op: Op, g: History)
    requires SegsOk(s.segs) && Legal(env, s, op)
  {
    match op
    case Append(msg, now) =>
      var m := Store(env, s, msg);
      SegsOk(m.segs) && g == AfterEnforce(env, m, AfterStore(env, s, h, msg), now)
    case DeleteIds(ids) => g == AfterDelete(env, s, h, ids)
    case ClearAll => g == AfterClear(env, s, h)
    case Regroup(id, group) => g == AfterRegroup(env, s, h, id, group)
    case SetRetention(r, now) => g == AfterEnforce(env, s.(retention := r), h, now)
    case Restart(r, now) =>
      var m := Reopened(s.segs, r);
      SegsOk(m.segs) && g == AfterEnforce(env, m, h, now)
  }

  function EmptyStore(r: Retention): State {
    Reopened(Segs(map[], [], None), r)
  }

  const NO_HISTORY := History([], map[], map[])

  /** `ops`, started on an empty directory, can lead to the store `s` with history `h`. */
  ghost predicate Run(env: Env, r: Retention, ops: seq<Op>, s: State, h: History) {
    if ops == [] then s == EmptyStore(r) && h == NO_HISTORY
    else
      exists s0, h0 ::
        && Run(env, r, ops[..|ops| - 1], s0, h0)
        && SegsOk(s0.segs) && Legal(env, s0, Last(ops))
        && StepsTo(env, s0, Last(ops), s) && Remembers(env, s0, h0, Last(ops), h)
  }

  lemma StepKeeps(env: Env, s: State, h: History, op: Op, t: State, g: History)
    requires Inv(env, s, h) && Legal(env, s, op)
    requires StepsTo(env, s, op, t) && Remembers(env, s, h, op, g)
    ensures Inv(env, t, g)
    ensures ExactState(s, h) && !op.DeleteIds? ==> ExactState(t, g)
  {
    match op
    case Append(msg, now) =>
      StoreKeeps(env, s, h, msg);
      EnforceKeeps(env, Store(env, s, msg), AfterStore(env, s, h, msg), now);
      if ExactState(s, h) {
        StoreExactly(env, s, h, msg);
        EnforceExactly(env, Store(env, s, msg), AfterStore(env, s, h, msg), now);
      }
    case DeleteIds(ids) => DeleteKeeps(env, s, h, ids);
    case ClearAll =>
      ClearKeeps(env, s, h);
      if ExactState(s, h) { ClearExactly(env, s, h); }
    case Regroup(id, group) =>
      RegroupKeeps(env, s, h, id, group);
      if ExactState(s, h) { RegroupExactly(env, s, h, id, group); }
    case SetRetention(r, now) =>
      EnforceKeeps(env, s.(retention := r), h, now);
      if ExactState(s, h) { EnforceExactly(env, s.(retention := r), h, now); }
    case Restart(r, now) =>
      ReopenKeeps(env, s, h, r);
      EnforceKeeps(env, Reopened(s.segs, r), h, now);
      if ExactState(s, h) {
        ReopenExactly(env, s, h, r);
        EnforceExactly(env, Reopened(s.segs, r), h, now);
      }
  }

  lemma EmptyStoreInv(env: Env, r: Retention)
    requires Limits(env)
    ensures Inv(env, EmptyStore(r), NO_HISTORY) && ExactState(EmptyStore(r), NO_HISTORY)
  {
    var s := EmptyStore(r);
    assert s.index == [] && s.nextId == 1;
  }

  predicate NoDeletes(ops: seq<Op>) {
    forall i :: 0 <= i < |ops| ==> !ops[i].DeleteIds?
  }

  /** The last operation of a run. */
  lemma RunLast(env: Env, r: Retention, ops: seq<Op>, s: State, h: History) returns (s0: State, h0: History)
    requires Run(env, r, ops, s, h) && ops != []
    ensures Run(env, r, ops[..|ops| - 1], s0, h0) && SegsOk(s0.segs) && Legal(env, s0, Last(ops))
    ensures StepsTo(env, s0, Last(ops), s) && Remembers(env, s0, h0, Last(ops), h)
  {
    s0, h0 :|
      && Run(env, r, ops[..|ops| - 1], s0, h0) && SegsOk(s0.segs) && Legal(env, s0, Last(ops))
      && StepsTo(env, s0, Last(ops), s) && Remembers(env, s0, h0, Last(ops), h);
  }

  /** Every run keeps the invariant; a run without deletes keeps log and index equal. */
  lemma {:induction false} RunKeeps(env: Env, r: Retention, ops: seq<Op>, s: State, h: History)
    requires Limits(env) && Run(env, r, ops, s, h)
    ensures Inv(env, s, h)
    ensures NoDeletes(ops) ==> ExactState(s, h)
  {
    if ops == [] {
      EmptyStoreInv(env, r);
    } else {
      var s0, h0 := RunLast(env, r, ops, s, h);
      RunKeeps(env, r, ops[..|ops| - 1], s0, h0);
      StepKeeps(env, s0, h0, Last(ops), s, h);
      assert NoDeletes(ops) ==> !Last(ops).DeleteIds?;
    }
  }

  // ----- the index and the log -----

  /** However many segments were reclaimed, a store that never deleted single
      messages finds exactly its index again when it is reopened. */
  lemma ReplayYieldsIndex(env: Env, r: Retention, ops: seq<Op>, s: State, h: History, r': Retention)
    requires Limits(env) && Run(env, r, ops, s, h) && NoDeletes(ops)
    ensures Reopened(s.segs, r').index == s.index
  {
    RunKeeps(env, r, ops, s, h);
    ReplayIsIndex(s.segs, s.index, h.kept, s.floor, r');
  }

  lemma IssuedBelow(issued: seq<nat>, bound: nat)
    requires Ascending(issued) && (issued == [] || Last(issued) < bound)
    ensures forall i :: 0 <= i < |issued| ==> issued[i] < bound
  {
  }

  /** With deletes as well, no id is ever given out twice: ids grow along every run,
      and both the running and the reopened store continue above all of them. */
  lemma IdsAreNeverReused(env: Env, r: Retention, ops: seq<Op>, s: State, h: History, r': Retention)
    requires Limits(env) && Run(env, r, ops, s, h)
    ensures Ascending(h.issued)
    ensures forall i :: 0 <= i < |h.issued| ==> h.issued[i] < s.nextId
    ensures forall i :: 0 <= i < |h.issued| ==> h.issued[i] < Reopened(s.segs, r').nextId
  {
    RunKeeps(env, r, ops, s, h);
    InvFresh(env, s, h);
    IssuedBelow(h.issued, s.nextId);
    IssuedBelow(h.issued, Reopened(s.segs, r').nextId);
  }

  lemma InvFresh(env: Env, s: State, h: History)
    requires Inv(env, s, h)
    ensures Ascending(h.issued) && Largest(h) < s.nextId
    ensures Largest(h) < ReplayDisk(s.segs.disk, s.segs.nums).maxSeen + 1
  {
    ReopenedAbove(env, s, h);
  }

  // ----- reading a kept message -----

  lemma KeptPosition(env: Env, s: State, h: History, id: nat)
    requires Inv(env, s, h) && id in h.kept
    ensures var p := Position(s.index, id);
      p.Some? && SameButGroup(s.index[p.value], h.kept[id].rec)
  {
    assert KeptOne(env, s.segs, h.bodies, s.index, id, h.kept[id]);
    var i :| 0 <= i < |s.index| && SameButGroup(s.index[i], h.kept[id].rec);
    var p := Position(s.index, id);
    assert s.index[i].id == id;
    assert p.Some?;
    assert p.value == i;
  }

  lemma KeptBody(env: Env, s: State, h: History, id: nat)
    requires Lawful(env) && Inv(env, s, h) && id in h.kept
    ensures var p := Position(s.index, id);
      p.Some? && SameButGroup(s.index[p.value], h.kept[id].rec)
      && ReadBodyAt(env, s.segs, s.index[p.value]) == Some(h.kept[id].body)
      && h.kept[id].rec.seg in s.segs.disk && AttsOk(s.segs.disk[h.kept[id].rec.seg], h.kept[id])
      && OfMessage(env, id, h.kept[id])
  {
    var k := h.kept[id];
    KeptPosition(env, s, h, id);
    assert KeptOne(env, s.segs, h.bodies, s.index, id, k);
    var rec := s.index[Position(s.index, id).value];
    var i: nat :| Located(env, h.bodies[k.rec.seg], k.rec, i) && h.bodies[k.rec.seg][i] == k.body;
    assert Located(env, h.bodies[rec.seg], rec, i);
    ReadLocated(env, s.segs, h.bodies[rec.seg], rec, i);
  }

  /** A kept message can be read in full: its own columns, its own text, its own files. */
  lemma KeptIsReadable(env: Env, s: State, h: History, id: nat)
    requires Lawful(env) && Inv(env, s, h) && id in h.kept
    ensures var msg := h.kept[id].msg;
      && Get(env, s, id).Some?
      && SameButGroup(Get(env, s, id).value.meta, h.kept[id].rec)
      && h.kept[id].rec.columns == MetaOf(env, id, msg, 0, 0, 0).columns
      && Get(env, s, id).value.body == BodyOf(id, msg, h.kept[id].body.spots)
    ensures var atts := KeptData(h.kept[id].msg.mail.attachments);
      forall k: nat :: AttachmentBytes(env, s, id, k) == if k < |atts| then Some(atts[k]) else None
  {
    KeptBody(env, s, h, id);
    KeptFiles(env, s, h.kept[id], id);
  }

  lemma KeptFiles(env: Env, s: State, k: Kept, id: nat)
    requires var p := Position(s.index, id);
      p.Some? && SameButGroup(s.index[p.value], k.rec) && ReadBodyAt(env, s.segs, s.index[p.value]) == Some(k.body)
    requires k.rec.seg in s.segs.disk && AttsOk(s.segs.disk[k.rec.seg], k)
    ensures forall j: nat :: AttachmentBytes(env, s, id, j) == if j < |Atts(k)| then Some(Atts(k)[j]) else None
  {
    forall j: nat ensures AttachmentBytes(env, s, id, j) == if j < |Atts(k)| then Some(Atts(k)[j]) else None {
      if j < |Atts(k)| {
        assert AttAt(s.segs.disk[k.rec.seg], k.body.spots[j], Atts(k)[j]);
      }
    }
  }

  lemma {:induction false} AllCarried(attachments: seq<Attachment>)
    requires forall i :: 0 <= i < |attachments| ==> attachments[i].data.Some?
    ensures |KeptData(attachments)| == |attachments|
    ensures forall i :: 0 <= i < |attachments| ==> KeptData(attachments)[i] == attachments[i].data.value
  {
    if attachments != [] {
      AllCarried(attachments[..|attachments| - 1]);
    }
  }

  /** Nothing is lost: over every run, a message that was appended and neither
      deleted, cleared nor evicted since is there now and after any reopening, with
      its original text and, where all its attachments were stored, their bytes. */
  lemma KeptMessagesSurvive(env: Env, r: Retention, ops: seq<Op>, s: State, h: History, id: nat, r': Retention)
    requires Lawful(env) && Limits(env) && Run(env, r, ops, s, h) && id in h.kept
    ensures forall t :: t in {s, Reopened(s.segs, r')} ==>
      && Get(env, t, id).Some?
      && SameButGroup(Get(env, t, id).value.meta, h.kept[id].rec)
      && Get(env, t, id).value.body.text == h.kept[id].msg.mail.text
      && Get(env, t, id).value.body.html == h.kept[id].msg.mail.html
      && Get(env, t, id).value.body.headers == h.kept[id].msg.mail.headers
      && Get(env, t, id).value.body.raw == h.kept[id].msg.raw
    ensures var atts := h.kept[id].msg.mail.attachments;
      (forall i :: 0 <= i < |atts| ==> atts[i].data.Some?) ==>
        forall i: nat {:trigger AttachmentBytes(env, s, id, i)} {:trigger AttachmentBytes(env, Reopened(s.segs, r'), id, i)} ::
          var want := if i < |atts| then atts[i].data else None;
          AttachmentBytes(env, s, id, i) == want && AttachmentBytes(env, Reopened(s.segs, r'), id, i) == want
  {
    RunKeeps(env, r, ops, s, h);
    ReopenKeeps(env, s, h, r');
    KeptIsReadable(env, s, h, id);
    KeptIsReadable(env, Reopened(s.segs, r'), h, id);
    var atts := h.kept[id].msg.mail.attachments;
    if forall i :: 0 <= i < |atts| ==> atts[i].data.Some? {
      AllCarried(atts);
    }
  }

  /** What is kept: an append adds its message, and only deletion, clearing and
      retention take one away. */
  lemma KeptOnlyLeavesOnRequest(env: Env, s: State, h: History, op: Op, t: State, g: History, id: nat)
    requires Inv(env, s, h) && Legal(env, s, op)
    requires StepsTo(env, s, op, t) && Remembers(env, s, h, op, g)
    requires id in h.kept && id !in g.kept
    ensures op.ClearAll? || (op.DeleteIds? && id in op.ids)
      || ((op.Append? || op.SetRetention? || op.Restart?) && !Has(t.index, id))
  {
    StepKeeps(env, s, h, op, t, g);
    match op
    case Append(msg, now) =>
      StoreKeeps(env, s, h, msg);
      assert id != s.nextId by {
        StoreKeeps(env, s, h, msg);
        assert KeptOne(env, s.segs, h.bodies, s.index, id, h.kept[id]);
        var i :| 0 <= i < |s.index| && SameButGroup(s.index[i], h.kept[id].rec);
        assert RecOk(env, s.segs, h.bodies, Largest(h), s.index[i]);
      }
      EvictedIsGone(Store(env, s, msg), now, env, id, AfterStore(env, s, h, msg));
    case SetRetention(r, now) => EvictedIsGone(s.(retention := r), now, env, id, h);
    case Restart(r, now) =>
      ReopenKeeps(env, s, h, r);
      EvictedIsGone(Reopened(s.segs, r), now, env, id, h);
    case _ =>
  }

  lemma EvictedIsGone(s: State, now: int, env: Env, id: nat, h: History)
    requires Inv(env, s, h) && id in h.kept && id !in AfterEnforce(env, s, h, now).kept
    ensures !Has(Enforce(env, s, now).index, id)
  {
    var kept := Retained(s.index, s.retention, now);
    assert !Has(kept, id) by {
      GoneFromSuffix(s.index, kept, id);
    }
    assert Enforce(env, s, now).index == kept by {
      EnforcedIndex(env, s, now);
    }
  }

  lemma GoneFromSuffix(index: seq<MetaRec>, kept: seq<MetaRec>, id: nat)
    requires SortedIndex(index) && |kept| <= |index| && kept == index[|index| - |kept|..]
    requires id in Evicted(index, kept)
    ensures !Has(kept, id)
  {
    var i :| 0 <= i < |index| - |kept| && index[i].id == id;
    forall j | 0 <= j < |kept|
      ensures kept[j].id != id
    {
      assert kept[j] == index[|index| - |kept| + j];
    }
  }

  lemma EnforcedIndex(env: Env, s: State, now: int)
    requires DirOk(s.segs)
    ensures Enforce(env, s, now).index == Retained(s.index, s.retention, now)
  {
  }

  // ----- segments -----

  /** Only the newest segment can lack a body of its own, and after an append of a
      fitting message the newest segment is the one that holds it. */
  lemma RolledSegmentsHoldBodies(env: Env, r: Retention, ops: seq<Op>, s: State, h: History, n: nat)
    requires Limits(env) && Run(env, r, ops, s, h)
    requires n in s.segs.disk && s.segs.nums != [] && n != Last(s.segs.nums)
    ensures n in h.bodies && h.bodies[n] != [] && s.segs.disk[n].body == Render(env, h.bodies[n])
  {
    RunKeeps(env, r, ops, s, h);
  }

  // ----- body search -----

  /** What the search looks for in one body. */
  predicate BodyHit(env: Env, b: BodyRec, needle: string) {
    env.contains(b.text, needle) || (b.html.Some? && env.contains(b.html.value, needle))
  }

  /** The ids a streaming search over the candidates' segments comes up with. */
  ghost function BodyMatches(env: Env, s: State, hits: seq<MetaRec>, needle: string): set<nat> {
    set m, b | m in hits && b in StreamBody(env, s.segs, m.seg) && IsCandidate(hits, b.id) && BodyHit(env, b, needle) :: b.id
  }

  predicate IsCandidate(hits: seq<MetaRec>, id: nat) {
    exists i :: 0 <= i < |hits| && hits[i].id == id
  }

  /** In every reachable state, streaming the segments of the candidates finds
      exactly the candidates whose stored text or HTML contains the needle. */
  lemma SearchFindsExactly(env: Env, r: Retention, ops: seq<Op>, s: State, h: History,
                           hits: seq<MetaRec>, needle: string, m: MetaRec)
    requires Lawful(env) && Limits(env) && Run(env, r, ops, s, h) && needle != ""
    requires (forall rec :: rec in hits ==> rec in s.index) && m in hits
    ensures m.id in BodyMatches(env, s, hits, needle) <==>
            BodyHit(env, Get(env, s, m.id).value.body, needle)
  {
    RunKeeps(env, r, ops, s, h);
    SearchOne(env, s, h, hits, needle, m);
  }

  lemma IndexPosition(index: seq<MetaRec>, m: MetaRec)
    requires SortedIndex(index) && m in index
    ensures var p := Position(index, m.id); p.Some? && index[p.value] == m
  {
    var i :| 0 <= i < |index| && index[i] == m;
    var p := Position(index, m.id);
    assert p.Some?;
    assert p.value == i;
  }

  lemma SearchOne(env: Env, s: State, h: History, hits: seq<MetaRec>, needle: string, m: MetaRec)
    requires Lawful(env) && Inv(env, s, h) && needle != ""
    requires (forall rec :: rec in hits ==> rec in s.index) && m in hits
    ensures Get(env, s, m.id).Some?
    ensures m.id in BodyMatches(env, s, hits, needle) <==>
            BodyHit(env, Get(env, s, m.id).value.body, needle)
  {
    IndexPosition(s.index, m);
    var i :| 0 <= i < |s.index| && s.index[i] == m;
    assert RecOk(env, s.segs, h.bodies, Largest(h), s.index[i]);
    var body := Get(env, s, m.id).value.body;
    if BodyHit(env, body, needle) {
      assert m.seg in h.bodies;
      var k: nat :| Located(env, h.bodies[m.seg], m, k);
      ReadLocated(env, s.segs, h.bodies[m.seg], m, k);
      StreamYieldsAll(env, s.segs, m.seg, h.bodies[m.seg]);
      assert body in StreamBody(env, s.segs, m.seg) && body.id == m.id;
      assert IsCandidate(hits, body.id);
    }
    if m.id in BodyMatches(env, s, hits, needle) {
      var c, b :| c in hits && b in StreamBody(env, s.segs, c.seg) && b.id == m.id && BodyHit(env, b, needle);
      StreamedIsMine(env, s, h, c.seg, b, m);
    }
  }

  /** A streamed body with a record's id is the body the record points at. */
  lemma StreamedIsMine(env: Env, s: State, h: History, n: nat, b: BodyRec, m: MetaRec)
    requires Lawful(env) && Inv(env, s, h) && RecOk(env, s.segs, h.bodies, Largest(h), m)
    requires b in StreamBody(env, s.segs, n) && b.id == m.id
    ensures ReadBodyAt(env, s.segs, m) == Some(b)
  {
    StreamYieldsAll(env, s.segs, n, h.bodies[n]);
    var j :| 0 <= j < |h.bodies[n]| && h.bodies[n][j] == b;
    assert n == m.seg;
    var k: nat :| Located(env, h.bodies[m.seg], m, k);
    ReadLocated(env, s.segs, h.bodies[m.seg], m, k);
    assert IdsAscend(h.bodies[n]);
    assert k == j;
  }
}
