/** When a reopened store shows what the running one shows: exactly what a reclaim can undo
    of deletions, regroupings and evictions. */
module StoreSync {
  import opened Wrappers
  import opened StoreModel
  import opened SegmentLaws
  import opened BodyFiles
  import opened StoreInvariant
  import opened StoreSteps
  import opened ReplayLaws
  import opened StoreRuns
  import opened StoreExact
  import opened StoreTheorems
  import opened StoreLog

  // ----- the life of an id in the log -----

  /** Not recorded, recorded, deleted since, recorded again after that. */
  function Stage(before: nat, line: MetaLine, id: nat): nat {
    if !About(line, id) then before
    else if line.Msg? then (if before == 0 then 1 else if before == 2 then 3 else before)
    else if before == 1 then 2 else before
  }

  function StageOf(log: Lines, id: nat): nat {
    if log == [] then 0 else Stage(StageOf(log[..|log| - 1], id), Last(log).line, id)
  }

  lemma StageSnoc(log: Lines, e: Entry, id: nat)
    ensures StageOf(log + [e], id) == Stage(StageOf(log, id), e.line, id)
  {
    assert (log + [e])[..|log|] == log;
  }

  /** As long as nothing is recorded again after its deletion, the live ids are the recorded
      ones. */
  lemma {:induction false} StageLive(log: Lines, id: nat)
    requires StageOf(log, id) <= 2
    ensures id in ReplayLog(log).live <==> StageOf(log, id) == 1
  {
    if log != [] {
      StageLive(log[..|log| - 1], id);
    }
  }

  /** Dropping lines never adds to the life of an id. */
  lemma {:induction false} StageRemaining(log: Lines, gone: set<nat>, id: nat)
    requires StageOf(log, id) <= 3
    ensures StageOf(Remaining(log, gone), id) <= StageOf(log, id)
  {
    if log != [] {
      var init := log[..|log| - 1];
      StageRemaining(init, gone, id);
      if Last(log).seg !in gone {
        StageSnoc(Remaining(init, gone), Last(log), id);
      } else {
        assert Remaining(log, gone) == Remaining(init, gone);
      }
    }
  }

  predicate Records(line: MetaLine, id: nat) {
    line.Msg? && line.rec.id == id
  }

  lemma {:induction false} RecordedOnce(log: Lines, i: nat, id: nat)
    requires i < |log| && Records(log[i].line, id)
    ensures StageOf(log, id) >= 1
  {
    if i < |log| - 1 {
      RecordedOnce(log[..|log| - 1], i, id);
    }
  }

  lemma {:induction false} DeletedLater(log: Lines, i: nat, k: nat, id: nat)
    requires i < k < |log| && Records(log[i].line, id) && log[k].line == Del(id)
    ensures StageOf(log, id) >= 2
  {
    var init := log[..|log| - 1];
    if k < |log| - 1 {
      DeletedLater(init, i, k, id);
    } else {
      RecordedOnce(init, i, id);
    }
  }

  lemma {:induction false} NeverRecorded(log: Lines, id: nat)
    requires forall i :: 0 <= i < |log| ==> !Records(log[i].line, id)
    ensures StageOf(log, id) == 0
  {
    if log != [] {
      assert !Records(log[|log| - 1].line, id);
      NeverRecorded(log[..|log| - 1], id);
    }
  }

  // ----- the log and the index -----

  /** Nothing is recorded again after its deletion, and the index holds records that are not
      deleted and not below a floor. */
  ghost predicate Settled(log: Lines, index: seq<MetaRec>) {
    && (forall id: nat :: StageOf(log, id) <= 2)
    && (forall rec :: rec in index ==> StageOf(log, rec.id) <= 1 && ReplayLog(log).floor <= rec.id)
  }

  /** The log shows exactly the records of the index. */
  ghost predicate Mirrors(log: Lines, index: seq<MetaRec>) {
    forall rec :: rec in index <==> Visible(ReplayLog(log), rec)
  }

  /** A store opened on the same files has the same index. */
  ghost predicate InSync(s: State) {
    Reopened(s.segs, s.retention).index == s.index
  }

  lemma InSyncIff(s: State)
    requires SortedIndex(s.index)
    ensures InSync(s) <==> Mirrors(LogOf(s.segs), s.index)
  {
    ReopenedIs(s.segs, s.retention);
    if Mirrors(LogOf(s.segs), s.index) {
      SortedUnique(Reopened(s.segs, s.retention).index, s.index);
    }
  }

  // ----- what dropping segments can undo -----

  /** Line `j` is dropped, and until then overruled this record: it is the last word on its
      id and says something else, or a floor above it. */
  ghost predicate Overrules(log: Lines, gone: set<nat>, rec: MetaRec, j: nat) {
    && j < |log| && log[j].seg in gone
    && ((log[j].line.Floor? && log[j].line.floor > rec.id)
        || (LastWord(log, {}, j, rec.id) && log[j].line != Msg(rec)))
  }

  /** The record in line `k` would have the last word again: a deletion, a regrouping or a
      floor that overruled it is dropped. */
  ghost predicate Resurfaces(log: Lines, gone: set<nat>, k: nat) {
    && Stays(log, gone, k) && log[k].line.Msg?
    && (var rec := log[k].line.rec;
        && LastWord(log, gone, k, rec.id) && NoFloorAbove(log, gone, rec.id)
        && exists j: nat :: Overrules(log, gone, rec, j))
  }

  /** The record in line `k` is shown, and no record of its id stays. */
  ghost predicate Vanishes(log: Lines, gone: set<nat>, k: nat) {
    && k < |log| && log[k].line.Msg? && log[k].seg in gone
    && Shows(log, {}, log[k].line.rec)
    && forall j: nat :: Stays(log, gone, j) ==> !Records(log[j].line, log[k].line.rec.id)
  }

  ghost predicate Undoes(log: Lines, gone: set<nat>) {
    exists k: nat :: Resurfaces(log, gone, k) || Vanishes(log, gone, k)
  }

  lemma OneLastWord(log: Lines, gone: set<nat>, j: nat, k: nat, id: nat)
    requires LastWord(log, gone, j, id) && LastWord(log, gone, k, id)
    ensures j == k
  {
  }

  lemma {:induction false} LastWordExists(log: Lines, gone: set<nat>, i: nat, id: nat) returns (k: nat)
    requires Stays(log, gone, i) && About(log[i].line, id)
    ensures i <= k && LastWord(log, gone, k, id)
    decreases |log| - i
  {
    if LastWord(log, gone, i, id) {
      k := i;
    } else {
      var j: nat :| i < j && Stays(log, gone, j) && About(log[j].line, id);
      k := LastWordExists(log, gone, j, id);
    }
  }

  /** The last word of all, where it stays, is the last word of those that stay. */
  lemma LastStays(log: Lines, gone: set<nat>, j: nat, id: nat)
    requires LastWord(log, {}, j, id) && log[j].seg !in gone
    ensures LastWord(log, gone, j, id)
  {
    forall i: nat | j < i && Stays(log, gone, i) ensures !About(log[i].line, id) {
      assert Stays(log, {}, i);
    }
  }

  lemma FloorsStay(log: Lines, gone: set<nat>, id: nat)
    requires NoFloorAbove(log, {}, id)
    ensures NoFloorAbove(log, gone, id)
  {
    forall j: nat | Stays(log, gone, j) && log[j].line.Floor? ensures log[j].line.floor <= id {
      assert Stays(log, {}, j);
    }
  }

  lemma ResurfacedIsNotShown(log: Lines, gone: set<nat>, k: nat)
    requires Resurfaces(log, gone, k)
    ensures Shows(log, gone, log[k].line.rec) && !Shows(log, {}, log[k].line.rec)
  {
    var rec := log[k].line.rec;
    var j: nat :| Overrules(log, gone, rec, j);
    assert Stays(log, {}, j);
    if Shows(log, {}, rec) {
      var i: nat :| LastWord(log, {}, i, rec.id) && log[i].line == Msg(rec);
      if LastWord(log, {}, j, rec.id) {
        OneLastWord(log, {}, i, j, rec.id);
      }
    }
  }

  lemma VanishedIsNotShown(log: Lines, gone: set<nat>, k: nat)
    requires Vanishes(log, gone, k)
    ensures Shows(log, {}, log[k].line.rec) && !Shows(log, gone, log[k].line.rec)
  {
  }

  /** A record that counts after the drop counted before, or resurfaces. */
  lemma ShownAfter(log: Lines, gone: set<nat>, rec: MetaRec)
    requires Shows(log, gone, rec) && !Undoes(log, gone)
    ensures Shows(log, {}, rec)
  {
    var k: nat :| LastWord(log, gone, k, rec.id) && log[k].line == Msg(rec);
    assert Stays(log, gone, k) && Stays(log, {}, k);
    forall j: nat | Stays(log, {}, j) && log[j].line.Floor? ensures log[j].line.floor <= rec.id {
      if log[j].line.floor > rec.id {
        assert log[j].seg in gone by {
          assert Stays(log, gone, j) <==> log[j].seg !in gone;
        }
        assert Overrules(log, gone, rec, j);
        assert Resurfaces(log, gone, k);
      }
    }
    var j := LastWordExists(log, {}, k, rec.id);
    if log[j].seg !in gone {
      LastStays(log, gone, j, rec.id);
      OneLastWord(log, gone, j, k, rec.id);
    } else if log[j].line != Msg(rec) {
      assert Overrules(log, gone, rec, j);
      assert Resurfaces(log, gone, k);
    }
  }

  /** A record that counted before the drop still counts, or is overruled by one that
      resurfaces, or vanishes. */
  lemma ShownBefore(log: Lines, gone: set<nat>, rec: MetaRec)
    requires Shows(log, {}, rec) && StageOf(log, rec.id) <= 1 && !Undoes(log, gone)
    ensures Shows(log, gone, rec)
  {
    var id := rec.id;
    var j: nat :| LastWord(log, {}, j, id) && log[j].line == Msg(rec);
    assert Stays(log, {}, j);
    FloorsStay(log, gone, id);
    if log[j].seg !in gone {
      LastStays(log, gone, j, id);
    } else {
      assert !Vanishes(log, gone, j);
      var i: nat :| Stays(log, gone, i) && Records(log[i].line, id);
      var k := LastWordExists(log, gone, i, id);
      if log[k].line == Del(id) {
        DeletedLater(log, i, k, id);
      }
      if log[k].line != Msg(rec) {
        assert Overrules(log, gone, log[k].line.rec, j);
        assert Resurfaces(log, gone, k);
      }
    }
  }

  /** The heart: dropping segments keeps what the log shows if and only if no record
      resurfaces and none vanishes. */
  lemma DropKeepsMirrorIff(log: Lines, gone: set<nat>, index: seq<MetaRec>)
    requires Settled(log, index) && Mirrors(log, index)
    ensures Mirrors(Remaining(log, gone), index) <==> !Undoes(log, gone)
  {
    RemainingAll(log);
    forall rec ensures Visible(ReplayLog(log), rec) <==> Shows(log, {}, rec) {
      VisibleIff(log, {}, rec);
    }
    forall rec ensures Visible(ReplayLog(Remaining(log, gone)), rec) <==> Shows(log, gone, rec) {
      VisibleIff(log, gone, rec);
    }
    if k: nat :| Resurfaces(log, gone, k) || Vanishes(log, gone, k) {
      if Resurfaces(log, gone, k) {
        ResurfacedIsNotShown(log, gone, k);
      } else {
        VanishedIsNotShown(log, gone, k);
      }
      var rec := log[k].line.rec;
      assert rec in index <==> Shows(log, {}, rec);
    } else {
      forall rec ensures rec in index <==> Shows(log, gone, rec) {
        if Shows(log, gone, rec) {
          ShownAfter(log, gone, rec);
        }
        if rec in index {
          ShownBefore(log, gone, rec);
        }
      }
    }
  }

  lemma SettledRemaining(log: Lines, gone: set<nat>, index: seq<MetaRec>)
    requires Settled(log, index)
    ensures Settled(Remaining(log, gone), index)
  {
    forall id: nat ensures StageOf(Remaining(log, gone), id) <= StageOf(log, id) {
      StageRemaining(log, gone, id);
    }
    RemainingAll(log);
    forall rec | rec in index ensures ReplayLog(Remaining(log, gone)).floor <= rec.id {
      FloorIff(log, {}, rec.id);
      FloorsStay(log, gone, rec.id);
      FloorIff(log, gone, rec.id);
    }
  }

  // ----- one more line -----

  /** A floor line, with the index cut at that floor. */
  lemma FloorLine(log: Lines, seg: nat, floor: nat, index: seq<MetaRec>, index': seq<MetaRec>)
    requires Settled(log, index)
    requires forall rec :: rec in index' <==> rec in index && floor <= rec.id
    ensures Settled(log + [Entry(seg, Floor(floor))], index')
    ensures Mirrors(log, index) ==> Mirrors(log + [Entry(seg, Floor(floor))], index')
  {
    var e := Entry(seg, Floor(floor));
    ReplaySnoc(log, e);
    forall id: nat ensures StageOf(log + [e], id) == StageOf(log, id) {
      StageSnoc(log, e, id);
    }
  }

  /** A record, new or again, in the place of the one with its id. */
  lemma RecordLine(log: Lines, seg: nat, rec: MetaRec, index: seq<MetaRec>, index': seq<MetaRec>)
    requires Settled(log, index) && StageOf(log, rec.id) <= 1 && ReplayLog(log).floor <= rec.id
    requires forall x :: x in index' <==> x == rec || (x in index && x.id != rec.id)
    ensures Settled(log + [Entry(seg, Msg(rec))], index')
    ensures Mirrors(log, index) ==> Mirrors(log + [Entry(seg, Msg(rec))], index')
  {
    var e := Entry(seg, Msg(rec));
    ReplaySnoc(log, e);
    forall id: nat ensures StageOf(log + [e], id) == if id == rec.id then 1 else StageOf(log, id) {
      StageSnoc(log, e, id);
    }
  }

  lemma DelLine(log: Lines, seg: nat, id: nat, index: seq<MetaRec>, index': seq<MetaRec>)
    requires Settled(log, index)
    requires forall x :: x in index' <==> x in index && x.id != id
    ensures Settled(log + [Entry(seg, Del(id))], index')
    ensures Mirrors(log, index) ==> Mirrors(log + [Entry(seg, Del(id))], index')
  {
    var e := Entry(seg, Del(id));
    ReplaySnoc(log, e);
    forall i: nat ensures StageOf(log + [e], i) == Stage(StageOf(log, i), Del(id), i) {
      StageSnoc(log, e, i);
    }
  }

  lemma {:induction false} DelLines(s: Segs, ids: seq<nat>, index: seq<MetaRec>)
    requires SegsOk(s) && s.cur.Some? && Settled(LogOf(s), index)
    ensures var t, left := PutDels(s, ids), Survivors(index, ids);
      && SegsOk(t) && Settled(LogOf(t), left)
      && (Mirrors(LogOf(s), index) ==> Mirrors(LogOf(t), left))
  {
    SurvivorsMembers(index, ids);
    if ids == [] {
      assert forall rec :: rec in Survivors(index, ids) <==> rec in index;
    } else {
      var init, id := ids[..|ids| - 1], Last(ids);
      assert ids == init + [id];
      DelLines(s, init, index);
      SurvivorsMembers(index, init);
      var t := PutDels(s, init);
      LogPutLine(t, Del(id));
      PutLineKeepsOk(t, Del(id));
      DelLine(LogOf(t), Last(t.nums), id, Survivors(index, init), Survivors(index, ids));
    }
  }

  // ----- what an operation writes, before it reclaims -----

  /** The floor that goes with an index cut from the front. */
  function NewFloor(s: State, kept: seq<MetaRec>): nat {
    if kept == [] then s.nextId else kept[0].id
  }

  function Cut(env: Env, s: State, kept: seq<MetaRec>, floor: nat): State
    requires DirOk(s.segs)
  {
    s.(index := kept, floor := floor, segs := AppendMeta(env, s.segs, Floor(floor)))
  }

  /** `enforce` without its reclaim, and whether it reclaims. */
  function Shrunk(env: Env, s: State, now: int): (State, bool)
    requires DirOk(s.segs)
  {
    var kept := Retained(s.index, s.retention, now);
    if |kept| == |s.index| then (s, false)
    else (Cut(env, s, kept, NewFloor(s, kept)), true)
  }

  /** `delete` without its reclaim, and whether it reclaims. */
  function Struck(env: Env, s: State, ids: seq<nat>): (State, bool)
    requires DirOk(s.segs)
  {
    var left := Survivors(s.index, ids);
    if |left| == |s.index| then (s, false)
    else
      EnsureOpenIsOpen(env, s.segs, 0);
      (s.(index := left, segs := PutDels(EnsureOpen(env, s.segs, 0), ids)), true)
  }

  /** The store once the operation has written its lines and changed its index, and whether
      it goes on to reclaim. */
  ghost predicate WritesTo(env: Env, s: State, op: Op, w: State, reclaims: bool)
    requires SegsOk(s.segs) && Legal(env, s, op)
  {
    match op
    case Append(msg, now) => var m := Store(env, s, msg); SegsOk(m.segs) && Shrunk(env, m, now) == (w, reclaims)
    case DeleteIds(ids) => Struck(env, s, ids) == (w, reclaims)
    case ClearAll =>
      reclaims && w == Cut(env, s, [], s.nextId)
    case Regroup(id, group) => !reclaims && w == SetGroup(env, s, id, group)
    case SetRetention(r, now) => Shrunk(env, s.(retention := r), now) == (w, reclaims)
    case Restart(r, now) => var m := Reopened(s.segs, r); SegsOk(m.segs) && Shrunk(env, m, now) == (w, reclaims)
  }

  lemma StepIsWriteThenReclaim(env: Env, s: State, op: Op, t: State, w: State, reclaims: bool)
    requires SegsOk(s.segs) && Legal(env, s, op)
    requires StepsTo(env, s, op, t) && WritesTo(env, s, op, w, reclaims)
    ensures t == if reclaims then Reclaim(w) else w
  {
  }

  /** What holds of the store in every run: its own log is settled. */
  ghost predicate Sound(s: State) {
    SegsOk(s.segs) && SortedIndex(s.index) && Settled(LogOf(s.segs), s.index)
  }

  /** From one store to the next, both are sound, and if the log mirrored the index it
      still does. */
  ghost predicate Follows(s: State, t: State) {
    Sound(t) && (Mirrors(LogOf(s.segs), s.index) ==> Mirrors(LogOf(t.segs), t.index))
  }

  lemma NothingKnown(env: Env, s: Segs, bodies: Bodies, largest: nat, id: nat)
    requires LinesOk(env, s, bodies, largest, id) && largest < id
    ensures StageOf(LogOf(s), id) == 0 && ReplayLog(LogOf(s)).floor <= id
  {
    var log := LogOf(s);
    NothingYet(env, s, bodies, largest, id);
    forall i | 0 <= i < |log| ensures !Records(log[i].line, id) {
      assert log[i] in log && log[i] == Entry(log[i].seg, log[i].line);
      LogHas(s.disk, s.nums, log[i].seg, log[i].line);
    }
    NeverRecorded(log, id);
    RemainingAll(log);
    FloorIff(log, {}, id);
    forall j: nat | Stays(log, {}, j) && log[j].line.Floor? ensures log[j].line.floor <= id {
      assert log[j] in log && log[j] == Entry(log[j].seg, log[j].line);
      LogHas(s.disk, s.nums, log[j].seg, log[j].line);
    }
  }

  lemma StoredLog(env: Env, s: State, msg: NewMessage)
    requires env.maxRecords >= 1 && Incoming(msg) <= env.maxBody && SegsOk(s.segs)
    ensures var t := Store(env, s, msg);
      && SegsOk(t.segs) && t.segs.nums != [] && t.index != []
      && Last(t.index).id == s.nextId && t.index == s.index + [Last(t.index)]
      && LogOf(t.segs) == LogOf(s.segs) + [Entry(Last(t.segs.nums), Msg(Last(t.index)))]
  {
    var open := EnsureOpen(env, s.segs, Incoming(msg));
    EnsureOpenDelivers(env, s.segs, Incoming(msg));
    LogExtended(s.segs, open);
    LogPutMessage(env, open, s.nextId, msg);
    PutMessageKeepsOk(env, open, s.nextId, msg);
  }

  lemma IndexSnoc(index: seq<MetaRec>, rec: MetaRec)
    requires SortedIndex(index) && forall i :: 0 <= i < |index| ==> index[i].id < rec.id
    ensures var index' := index + [rec];
      SortedIndex(index') && forall x :: x in index' <==> x == rec || (x in index && x.id != rec.id)
  {
  }

  lemma StoreFollows(env: Env, s: State, h: History, msg: NewMessage)
    requires Inv(env, s, h) && Sound(s) && Legal(env, s, Append(msg, 0))
    ensures Follows(s, Store(env, s, msg))
  {
    var t := Store(env, s, msg);
    StoredLog(env, s, msg);
    NothingKnown(env, s.segs, h.bodies, Largest(h), s.nextId);
    IndexBelowNext(env, s, h);
    IndexSnoc(s.index, Last(t.index));
    RecordLine(LogOf(s.segs), Last(t.segs.nums), Last(t.index), s.index, t.index);
  }

  lemma MetaFollows(env: Env, s: Segs, line: MetaLine)
    requires env.maxRecords >= 1 && SegsOk(s)
    ensures var t := AppendMeta(env, s, line);
      SegsOk(t) && t.cur.Some? && t.nums != [] && LogOf(t) == LogOf(s) + [Entry(Last(t.nums), line)]
  {
    var open := EnsureOpen(env, s, 0);
    EnsureOpenDelivers(env, s, 0);
    LogExtended(s, open);
    LogPutLine(open, line);
    PutLineKeepsOk(open, line);
  }

  lemma FloorFollows(env: Env, s: State, index': seq<MetaRec>, floor: nat)
    requires Limits(env) && Sound(s) && SortedIndex(index')
    requires forall rec :: rec in index' <==> rec in s.index && floor <= rec.id
    ensures Follows(s, Cut(env, s, index', floor)) && Cut(env, s, index', floor).segs.cur.Some?
  {
    MetaFollows(env, s.segs, Floor(floor));
    FloorLine(LogOf(s.segs), Last(AppendMeta(env, s.segs, Floor(floor)).nums), floor, s.index, index');
  }

  /** What retention leaves is what is not below the floor it writes. */
  lemma RetainedIs(index: seq<MetaRec>, kept: seq<MetaRec>, nextId: nat)
    requires SortedIndex(index) && |kept| <= |index| && kept == index[|index| - |kept|..]
    requires forall i :: 0 <= i < |index| ==> index[i].id < nextId
    ensures var floor := if kept == [] then nextId else kept[0].id;
      SortedIndex(kept) && forall rec :: rec in kept <==> rec in index && floor <= rec.id
  {
    var floor := if kept == [] then nextId else kept[0].id;
    var cut := |index| - |kept|;
    forall rec ensures rec in kept <==> rec in index && floor <= rec.id {
      if rec in index && floor <= rec.id {
        var i :| 0 <= i < |index| && index[i] == rec;
        assert kept != [] && kept[0] == index[cut];
        assert i >= cut && kept[i - cut] == rec;
      }
      if rec in kept {
        var i :| 0 <= i < |kept| && kept[i] == rec;
        assert index[cut + i] == rec && kept[0] == index[cut];
      }
    }
  }

  lemma CutFollows(env: Env, s: State, h: History, kept: seq<MetaRec>)
    requires Inv(env, s, h) && Sound(s)
    requires |kept| <= |s.index| && kept == s.index[|s.index| - |kept|..]
    ensures var w := Cut(env, s, kept, NewFloor(s, kept)); Follows(s, w) && w.segs.cur.Some?
  {
    IndexBelowNext(env, s, h);
    RetainedIs(s.index, kept, s.nextId);
    FloorFollows(env, s, kept, NewFloor(s, kept));
  }

  lemma ShrunkFollows(env: Env, s: State, h: History, now: int)
    requires Inv(env, s, h) && Sound(s)
    ensures var (w, reclaims) := Shrunk(env, s, now);
      Follows(s, w) && (reclaims ==> w.segs.cur.Some?)
  {
    CutFollows(env, s, h, Retained(s.index, s.retention, now));
  }

  lemma StruckFollows(env: Env, s: State, ids: seq<nat>)
    requires Limits(env) && Sound(s)
    ensures var (w, reclaims) := Struck(env, s, ids);
      Follows(s, w) && (reclaims ==> w.segs.cur.Some?)
  {
    if |Survivors(s.index, ids)| != |s.index| {
      var open := EnsureOpen(env, s.segs, 0);
      EnsureOpenDelivers(env, s.segs, 0);
      LogExtended(s.segs, open);
      DelLines(open, ids, s.index);
      SurvivorsSorted(s.index, ids);
    }
  }

  lemma ClearFollows(env: Env, s: State, h: History)
    requires Inv(env, s, h) && Sound(s)
    ensures Follows(s, Cut(env, s, [], s.nextId)) && Cut(env, s, [], s.nextId).segs.cur.Some?
  {
    assert s.index[|s.index|..] == [];
    CutFollows(env, s, h, []);
  }

  lemma RegroupFollows(env: Env, s: State, id: nat, group: Option<nat>)
    requires Limits(env) && Sound(s)
    ensures Follows(s, SetGroup(env, s, id, group))
  {
    var p := Position(s.index, id);
    if p.Some? && s.index[p.value].group != group {
      var rec := s.index[p.value].(group := group);
      var index' := s.index[p.value := rec];
      MetaFollows(env, s.segs, Msg(rec));
      assert s.index[p.value] in s.index;
      ReplacedIs(s.index, p.value, rec);
      RecordLine(LogOf(s.segs), Last(AppendMeta(env, s.segs, Msg(rec)).nums), rec, s.index, index');
    }
  }

  lemma ReplacedIs(index: seq<MetaRec>, p: nat, rec: MetaRec)
    requires SortedIndex(index) && p < |index| && rec.id == index[p].id
    ensures var index' := index[p := rec];
      SortedIndex(index') && forall x :: x in index' <==> x == rec || (x in index && x.id != rec.id)
  {
    var index' := index[p := rec];
    forall x ensures x in index' <==> x == rec || (x in index && x.id != rec.id) {
      if x in index && x.id != rec.id {
        var i :| 0 <= i < |index| && index[i] == x;
        assert index'[i] == x;
      }
      if x in index' {
        var i :| 0 <= i < |index'| && index'[i] == x;
      }
      assert index'[p] == rec;
    }
  }

  /** A reopened store mirrors its log, whatever the store was like before. */
  lemma ReopenedFollows(s: State, r: Retention)
    requires Sound(s)
    ensures var t := Reopened(s.segs, r); Sound(t) && Mirrors(LogOf(t.segs), t.index)
  {
    var t := Reopened(s.segs, r);
    var log := LogOf(s.segs);
    ReopenedIs(s.segs, r);
    forall rec | rec in t.index ensures StageOf(log, rec.id) <= 1 && ReplayLog(log).floor <= rec.id {
      StageLive(log, rec.id);
    }
  }

  lemma ReclaimFollows(w: State)
    requires Sound(w) && w.segs.cur.Some?
    ensures Sound(Reclaim(w))
    ensures Mirrors(LogOf(w.segs), w.index) ==>
      (Mirrors(LogOf(Reclaim(w).segs), w.index) <==> !Undoes(LogOf(w.segs), Gone(w)))
  {
    ReclaimIs(w);
    LogReclaim(w);
    SettledRemaining(LogOf(w.segs), Gone(w), w.index);
    if Mirrors(LogOf(w.segs), w.index) {
      DropKeepsMirrorIff(LogOf(w.segs), Gone(w), w.index);
    }
  }

  /** What an operation writes is sound, and mirrors the index if the store was in sync
      before, or is just being reopened. */
  lemma WriteFollows(env: Env, s: State, h: History, op: Op, w: State, reclaims: bool)
    requires Inv(env, s, h) && Sound(s) && Legal(env, s, op) && WritesTo(env, s, op, w, reclaims)
    ensures Sound(w) && (reclaims ==> w.segs.cur.Some?)
    ensures Mirrors(LogOf(s.segs), s.index) || op.Restart? ==> Mirrors(LogOf(w.segs), w.index)
  {
    match op
    case Append(msg, now) =>
      StoreFollows(env, s, h, msg);
      StoreKeeps(env, s, h, msg);
      ShrunkFollows(env, Store(env, s, msg), AfterStore(env, s, h, msg), now);
    case DeleteIds(ids) => StruckFollows(env, s, ids);
    case ClearAll => ClearFollows(env, s, h);
    case Regroup(id, group) => RegroupFollows(env, s, id, group);
    case SetRetention(r, now) => ShrunkFollows(env, s.(retention := r), h, now);
    case Restart(r, now) =>
      ReopenedFollows(s, r);
      ReopenKeeps(env, s, h, r);
      ShrunkFollows(env, Reopened(s.segs, r), h, now);
  }

  lemma WriteExists(env: Env, s: State, op: Op, t: State) returns (w: State, reclaims: bool)
    requires SegsOk(s.segs) && Legal(env, s, op) && StepsTo(env, s, op, t)
    ensures WritesTo(env, s, op, w, reclaims)
  {
    match op
    case Append(msg, now) => var p := Shrunk(env, Store(env, s, msg), now); w, reclaims := p.0, p.1;
    case DeleteIds(ids) => var p := Struck(env, s, ids); w, reclaims := p.0, p.1;
    case ClearAll =>
      w, reclaims := Cut(env, s, [], s.nextId), true;
    case Regroup(id, group) => w, reclaims := SetGroup(env, s, id, group), false;
    case SetRetention(r, now) => var p := Shrunk(env, s.(retention := r), now); w, reclaims := p.0, p.1;
    case Restart(r, now) => var p := Shrunk(env, Reopened(s.segs, r), now); w, reclaims := p.0, p.1;
  }

  lemma StepIsSound(env: Env, s: State, h: History, op: Op, t: State)
    requires Inv(env, s, h) && Sound(s) && Legal(env, s, op) && StepsTo(env, s, op, t)
    ensures Sound(t)
  {
    var w, reclaims := WriteExists(env, s, op, t);
    StepIsWriteThenReclaim(env, s, op, t, w, reclaims);
    WriteFollows(env, s, h, op, w, reclaims);
    if reclaims {
      ReclaimFollows(w);
    }
  }

  /** Over every run, with deletions: nothing is recorded again after its deletion, and the
      index holds nothing that the log speaks against. */
  lemma {:induction false} RunIsSound(env: Env, r: Retention, ops: seq<Op>, s: State, h: History)
    requires Limits(env) && Run(env, r, ops, s, h)
    ensures Sound(s)
  {
    if ops == [] {
      var log := LogOf(s.segs);
      assert log == [] && s.index == [];
      forall id: nat ensures StageOf(log, id) <= 2 {
      }
    } else {
      var s0, h0 := RunLast(env, r, ops, s, h);
      RunIsSound(env, r, ops[..|ops| - 1], s0, h0);
      RunKeeps(env, r, ops[..|ops| - 1], s0, h0);
      StepIsSound(env, s0, h0, Last(ops), s);
    }
  }

  /** Exactly when a restart shows something else. In every reachable store that is in sync,
      or is just being reopened, an operation leaves it in sync if and only if it does not
      reclaim, or the segments that it drops (not current, and without a record of the index)
      hold neither the deletion, regrouping or floor that overrules a record which stays, nor
      every record of an id that is shown. */
  lemma ReclaimUndoesIff(env: Env, r: Retention, ops: seq<Op>, s: State, h: History, op: Op,
                         t: State, w: State, reclaims: bool)
    requires Limits(env) && Run(env, r, ops, s, h) && SegsOk(s.segs) && Legal(env, s, op)
    requires InSync(s) || op.Restart?
    requires StepsTo(env, s, op, t) && WritesTo(env, s, op, w, reclaims)
    ensures InSync(t) <==> !reclaims || !Undoes(LogOf(w.segs), Gone(w))
  {
    RunKeeps(env, r, ops, s, h);
    RunIsSound(env, r, ops, s, h);
    InSyncIff(s);
    StepIsWriteThenReclaim(env, s, op, t, w, reclaims);
    WriteFollows(env, s, h, op, w, reclaims);
    if reclaims {
      ReclaimFollows(w);
    }
    InSyncIff(t);
  }

  // ----- whole runs, and what can vanish -----

  /** A run in which no reclaim undoes anything. */
  ghost predicate CleanRun(env: Env, r: Retention, ops: seq<Op>, s: State, h: History) {
    if ops == [] then s == EmptyStore(r) && h == NO_HISTORY
    else
      exists s0, h0 :: CleanRun(env, r, ops[..|ops| - 1], s0, h0) && CleanStep(env, s0, h0, Last(ops), s, h)
  }

  ghost predicate CleanStep(env: Env, s: State, h: History, op: Op, t: State, g: History) {
    && SegsOk(s.segs) && Legal(env, s, op)
    && StepsTo(env, s, op, t) && Remembers(env, s, h, op, g)
    && forall w, reclaims :: WritesTo(env, s, op, w, reclaims) ==> !reclaims || !Undoes(LogOf(w.segs), Gone(w))
  }

  /** Over every run with deletions whose reclaims undo nothing, replaying the segments that
      are left yields exactly the index. */
  lemma {:induction false} CleanRunsStayInSync(env: Env, r: Retention, ops: seq<Op>, s: State, h: History)
    requires Limits(env) && CleanRun(env, r, ops, s, h)
    ensures Run(env, r, ops, s, h) && InSync(s)
  {
    if ops != [] {
      var init, op := ops[..|ops| - 1], Last(ops);
      var s0, h0 :| CleanRun(env, r, init, s0, h0) && CleanStep(env, s0, h0, op, s, h);
      CleanRunsStayInSync(env, r, init, s0, h0);
      var w, reclaims := WriteExists(env, s0, op, s);
      ReclaimUndoesIff(env, r, init, s0, h0, op, s, w, reclaims);
    }
  }

  /** A record of the index whose segment is on disk has its own line there, which stays. */
  lemma OwnLineStays(env: Env, w: State, bodies: Bodies, kept: map<nat, Kept>, largest: nat, i: nat) returns (j: nat)
    requires Core(env, w.segs, bodies, w.index, kept, largest, w.nextId)
    requires i < |w.index| && w.index[i].seg in w.segs.disk
    ensures Stays(LogOf(w.segs), Gone(w), j) && Records(LogOf(w.segs)[j].line, w.index[i].id)
  {
    var log, rec := LogOf(w.segs), w.index[i];
    assert RecOk(env, w.segs, bodies, largest, rec);
    var p: nat :| Located(env, bodies[rec.seg], rec, p);
    assert HasOwnLine(w.segs.disk[rec.seg].meta, rec.seg, bodies[rec.seg][p].id);
    var own :| Msg(own) in w.segs.disk[rec.seg].meta && own.id == rec.id && own.seg == rec.seg;
    LogHas(w.segs.disk, w.segs.nums, rec.seg, Msg(own));
    j :| j < |log| && log[j] == Entry(rec.seg, Msg(own));
    assert rec.seg in Referenced(w.index);
  }

  /** Only a record whose segment file is gone can vanish: one that came back without its
      body. */
  lemma VanishedHasNoBody(env: Env, w: State, bodies: Bodies, kept: map<nat, Kept>, largest: nat, k: nat)
    requires Core(env, w.segs, bodies, w.index, kept, largest, w.nextId)
    requires Mirrors(LogOf(w.segs), w.index) && Vanishes(LogOf(w.segs), Gone(w), k)
    ensures var rec := LogOf(w.segs)[k].line.rec;
      rec in w.index && rec.seg !in w.segs.disk && ReadBodyAt(env, w.segs, rec) == None
  {
    var log := LogOf(w.segs);
    var rec := log[k].line.rec;
    RemainingAll(log);
    VisibleIff(log, {}, rec);
    var i :| 0 <= i < |w.index| && w.index[i] == rec;
    if rec.seg in w.segs.disk {
      var j := OwnLineStays(env, w, bodies, kept, largest, i);
      assert false;
    }
  }

  lemma ShrunkCore(env: Env, s: State, h: History, now: int) returns (bodies: Bodies, kept: map<nat, Kept>)
    requires Inv(env, s, h) && Shrunk(env, s, now).1
    ensures var w := Shrunk(env, s, now).0; Core(env, w.segs, bodies, w.index, kept, Largest(h), w.nextId)
  {
    var index' := Retained(s.index, s.retention, now);
    bodies, kept := CutCore(env, s, h, index');
  }

  lemma CutCore(env: Env, s: State, h: History, index': seq<MetaRec>) returns (bodies: Bodies, kept: map<nat, Kept>)
    requires Inv(env, s, h) && |index'| < |s.index| && index' == s.index[|s.index| - |index'|..]
    ensures var w := Cut(env, s, index', NewFloor(s, index'));
      Core(env, w.segs, bodies, w.index, kept, Largest(h), w.nextId)
  {
    kept := h.kept - Evicted(s.index, index');
    EvictionLeavesKept(env, s, h, index');
    bodies := FloorCore(env, s, h, index', kept, NewFloor(s, index'));
  }

  lemma FloorCore(env: Env, s: State, h: History, index': seq<MetaRec>, kept': map<nat, Kept>, floor: nat)
      returns (bodies: Bodies)
    requires Inv(env, s, h)
    requires SortedIndex(index') && forall rec :: rec in index' ==> rec in s.index
    requires forall id :: id in kept' ==> id in h.kept && kept'[id] == h.kept[id] && InIndex(index', h.kept[id].rec)
    requires floor <= s.nextId && forall id :: id in kept' ==> floor <= h.kept[id].rec.id
    ensures Core(env, Cut(env, s, index', floor).segs, bodies, index', kept', Largest(h), s.nextId)
  {
    CoreShrink(env, s.segs, h.bodies, s.index, h.kept, Largest(h), s.nextId, index', kept');
    CoreFloor(env, s.segs, h.bodies, index', kept', Largest(h), s.nextId, floor);
    bodies := Sync(h.bodies, AppendMeta(env, s.segs, Floor(floor)).disk);
  }

  lemma StruckCore(env: Env, s: State, h: History, ids: seq<nat>) returns (bodies: Bodies, kept: map<nat, Kept>)
    requires Inv(env, s, h) && Struck(env, s, ids).1
    ensures var w := Struck(env, s, ids).0; Core(env, w.segs, bodies, w.index, kept, Largest(h), w.nextId)
  {
    var left := Survivors(s.index, ids);
    kept := h.kept - (set id | id in ids);
    DeletionLeavesKept(env, s, h, ids);
    SurvivorsMembers(s.index, ids);
    SurvivorsSorted(s.index, ids);
    CoreShrink(env, s.segs, h.bodies, s.index, h.kept, Largest(h), s.nextId, left, kept);
    CoreDels(env, s.segs, h.bodies, left, kept, Largest(h), s.nextId, ids);
    bodies := Sync(h.bodies, Struck(env, s, ids).0.segs.disk);
  }

  lemma WriteCore(env: Env, s: State, h: History, op: Op, w: State)
      returns (bodies: Bodies, kept: map<nat, Kept>, largest: nat)
    requires Inv(env, s, h) && Legal(env, s, op) && WritesTo(env, s, op, w, true)
    ensures Core(env, w.segs, bodies, w.index, kept, largest, w.nextId)
  {
    match op
    case Append(msg, now) =>
      StoreKeeps(env, s, h, msg);
      largest := Largest(AfterStore(env, s, h, msg));
      bodies, kept := ShrunkCore(env, Store(env, s, msg), AfterStore(env, s, h, msg), now);
    case DeleteIds(ids) =>
      largest := Largest(h);
      bodies, kept := StruckCore(env, s, h, ids);
    case ClearAll =>
      largest, kept := Largest(h), map[];
      bodies := FloorCore(env, s, h, [], map[], s.nextId);
    case SetRetention(r, now) =>
      largest := Largest(h);
      bodies, kept := ShrunkCore(env, s.(retention := r), h, now);
    case Restart(r, now) =>
      ReopenKeeps(env, s, h, r);
      largest := Largest(h);
      bodies, kept := ShrunkCore(env, Reopened(s.segs, r), h, now);
  }

  /** In the states that `ReclaimUndoesIff` speaks of, a message vanishes only if it is shown
      without a body already. */
  lemma OnlyBodilessVanish(env: Env, r: Retention, ops: seq<Op>, s: State, h: History, op: Op, w: State, k: nat)
    requires Limits(env) && Run(env, r, ops, s, h) && SegsOk(s.segs) && Legal(env, s, op)
    requires (InSync(s) || op.Restart?) && WritesTo(env, s, op, w, true)
    requires Vanishes(LogOf(w.segs), Gone(w), k)
    ensures var rec := LogOf(w.segs)[k].line.rec;
      rec in w.index && rec.seg !in w.segs.disk && ReadBodyAt(env, w.segs, rec) == None
  {
    RunKeeps(env, r, ops, s, h);
    RunIsSound(env, r, ops, s, h);
    InSyncIff(s);
    WriteFollows(env, s, h, op, w, true);
    var bodies, kept, largest := WriteCore(env, s, h, op, w);
    VanishedHasNoBody(env, w, bodies, kept, largest, k);
  }
}
