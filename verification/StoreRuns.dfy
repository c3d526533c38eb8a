/** Runs of the mail store: every operation keeps the invariant, so every run does. */
module StoreRuns {
  import opened Wrappers
  import opened StoreModel
  import opened SegmentLaws
  import opened BodyFiles
  import opened StoreInvariant
  import opened StoreSteps
  import opened ReplayLaws

  datatype Op =
    | Append(msg: NewMessage, now: int)
    | DeleteIds(ids: seq<nat>)
    | ClearAll
    | Regroup(id: nat, group: Option<nat>)
    | SetRetention(retention: Retention, now: int)
    | Restart(retention: Retention, now: int)

  /** The one limit on operations: an attachment load that fits a segment and a
      body line whose length fits the 32 bits it is stored in. */
  ghost predicate Legal(env: Env, s: State, op: Op)
    requires SegsOk(s.segs)
  {
    op.Append? ==>
      && Incoming(op.msg) <= env.maxBody
      && (EnsureOpenIsOpen(env, s.segs, Incoming(op.msg));
          |env.enc(NextBody(EnsureOpen(env, s.segs, Incoming(op.msg)), s.nextId, op.msg))| < 0x1_0000_0000)
  }

  // ----- what the operations do to the history -----

  function Evicted(index: seq<MetaRec>, kept: seq<MetaRec>): set<nat>
    requires |kept| <= |index|
  {
    set i | 0 <= i < |index| - |kept| :: index[i].id
  }

  function AfterStore(env: Env, s: State, h: History, msg: NewMessage): History
    requires SegsOk(s.segs)
  {
    EnsureOpenIsOpen(env, s.segs, Incoming(msg));
    var open := EnsureOpen(env, s.segs, Incoming(msg));
    History(h.issued + [s.nextId],
            h.kept[s.nextId := KeptOf(env, open, s.nextId, msg)],
            AddBody(Sync(h.bodies, open.disk), open.cur.value.num, NextBody(open, s.nextId, msg)))
  }

  /** Retention releases exactly the messages it pops from the front. */
  function AfterEnforce(env: Env, s: State, h: History, now: int): History
    requires SegsOk(s.segs)
  {
    h.(kept := h.kept - Evicted(s.index, Retained(s.index, s.retention, now)),
       bodies := Sync(h.bodies, Enforce(env, s, now).segs.disk))
  }

  function AfterDelete(env: Env, s: State, h: History, ids: seq<nat>): History
    requires SegsOk(s.segs)
  {
    h.(kept := h.kept - (set id | id in ids), bodies := Sync(h.bodies, Delete(env, s, ids).segs.disk))
  }

  function AfterClear(env: Env, s: State, h: History): History
    requires SegsOk(s.segs)
  {
    h.(kept := map[], bodies := Sync(h.bodies, Clear(env, s).segs.disk))
  }

  function AfterRegroup(env: Env, s: State, h: History, id: nat, group: Option<nat>): History
    requires SegsOk(s.segs)
  {
    h.(bodies := Sync(h.bodies, SetGroup(env, s, id, group).segs.disk))
  }

  lemma SyncSelf(bodies: Bodies, disk: map<nat, Files>)
    requires bodies.Keys == disk.Keys
    ensures Sync(bodies, disk) == bodies
  {
  }

  // ----- append -----

  lemma StoreCore(env: Env, s: Segs, bodies: Bodies, index: seq<MetaRec>, kept: map<nat, Kept>,
                  largest: nat, id: nat, msg: NewMessage)
    requires Core(env, s, bodies, index, kept, largest, id)
    requires s.cur.Some? && s.cur.value.num in s.disk
    requires Incoming(msg) <= env.maxBody && |env.enc(NextBody(s, id, msg))| < 0x1_0000_0000
    ensures Core(env, PutMessage(env, s, id, msg), AddBody(bodies, s.cur.value.num, NextBody(s, id, msg)),
                 index + [NextRec(env, s, id, msg)], kept[id := KeptOf(env, s, id, msg)], id, id + 1)
  {
    MessageDisk(env, s, bodies, largest, id, msg);
    MessageIndex(env, s, bodies, largest, id, msg, index);
    MessageKeptAll(env, s, bodies, largest, id, msg, index, kept);
  }

  lemma AppendCore(env: Env, s: Segs, bodies: Bodies, index: seq<MetaRec>, kept: map<nat, Kept>,
                   largest: nat, id: nat, msg: NewMessage)
    requires Core(env, s, bodies, index, kept, largest, id) && Incoming(msg) <= env.maxBody
    requires var open := EnsureOpen(env, s, Incoming(msg));
      open.cur.Some? && open.cur.value.num in open.disk &&
      |env.enc(NextBody(open, id, msg))| < 0x1_0000_0000
    ensures var open := EnsureOpen(env, s, Incoming(msg));
      Core(env, PutMessage(env, open, id, msg),
           AddBody(Sync(bodies, open.disk), open.cur.value.num, NextBody(open, id, msg)),
           index + [NextRec(env, open, id, msg)], kept[id := KeptOf(env, open, id, msg)], id, id + 1)
  {
    var open := EnsureOpen(env, s, Incoming(msg));
    CoreOpen(env, s, bodies, index, kept, largest, id, Incoming(msg));
    StoreCore(env, open, Sync(bodies, open.disk), index, kept, largest, id, msg);
  }

  lemma StoreIs(env: Env, s: State, h: History, msg: NewMessage, open: Segs)
    requires SegsOk(s.segs) && open == EnsureOpen(env, s.segs, Incoming(msg))
    requires open.cur.Some? && open.cur.value.num in open.disk
    ensures var t := Store(env, s, msg); var g := AfterStore(env, s, h, msg); var id := s.nextId;
      && t.segs == PutMessage(env, open, id, msg) && t.index == s.index + [NextRec(env, open, id, msg)]
      && t.nextId == id + 1
      && g.bodies == AddBody(Sync(h.bodies, open.disk), open.cur.value.num, NextBody(open, id, msg))
      && g.kept == h.kept[id := KeptOf(env, open, id, msg)]
      && g.issued == h.issued + [id] && Largest(g) == id
  {
  }

  lemma StoreKeeps(env: Env, s: State, h: History, msg: NewMessage)
    requires Inv(env, s, h) && Legal(env, s, Append(msg, 0))
    ensures Inv(env, Store(env, s, msg), AfterStore(env, s, h, msg))
  {
    var open := EnsureOpen(env, s.segs, Incoming(msg));
    EnsureOpenIsOpen(env, s.segs, Incoming(msg));
    StoreIs(env, s, h, msg, open);
    StoreKeepsFrom(env, s, h, msg, open, Store(env, s, msg), AfterStore(env, s, h, msg));
  }

  lemma StoreKeepsFrom(env: Env, s: State, h: History, msg: NewMessage, open: Segs, t: State, g: History)
    requires Inv(env, s, h) && Incoming(msg) <= env.maxBody
    requires open == EnsureOpen(env, s.segs, Incoming(msg))
    requires open.cur.Some? && open.cur.value.num in open.disk
    requires |env.enc(NextBody(open, s.nextId, msg))| < 0x1_0000_0000
    requires t.segs == PutMessage(env, open, s.nextId, msg)
    requires t.index == s.index + [NextRec(env, open, s.nextId, msg)] && t.nextId == s.nextId + 1
    requires open.cur.value.num in Sync(h.bodies, open.disk)
    requires g.bodies == AddBody(Sync(h.bodies, open.disk), open.cur.value.num, NextBody(open, s.nextId, msg))
    requires g.kept == h.kept[s.nextId := KeptOf(env, open, s.nextId, msg)]
    requires g.issued == h.issued + [s.nextId] && Largest(g) == s.nextId
    ensures Inv(env, t, g)
  {
    AppendCore(env, s.segs, h.bodies, s.index, h.kept, Largest(h), s.nextId, msg);
    IssuedSnoc(h.issued, s.nextId);
  }

  lemma IssuedSnoc(issued: seq<nat>, id: nat)
    requires Ascending(issued) && (issued != [] ==> Last(issued) < id)
    ensures Ascending(issued + [id])
  {
  }

  lemma MessageKeptAll(env: Env, s: Segs, bodies: Bodies, largest: nat, id: nat, msg: NewMessage,
                       index: seq<MetaRec>, kept: map<nat, Kept>)
    requires ReadyFor(env, s, bodies, largest, id, msg) && DiskOk(env, s, bodies, largest, id)
    requires KeptOk(env, s, bodies, index, kept) && IndexOk(env, s, bodies, largest, index)
    requires |Flatten(KeptData(msg.mail.attachments))| < 0x1_0000_0000
    ensures KeptOk(env, PutMessage(env, s, id, msg),
                   AddBody(bodies, s.cur.value.num, NextBody(s, id, msg)),
                   index + [NextRec(env, s, id, msg)], kept[id := KeptOf(env, s, id, msg)])
  {
    var t := PutMessage(env, s, id, msg);
    var bodies' := AddBody(bodies, s.cur.value.num, NextBody(s, id, msg));
    var index' := index + [NextRec(env, s, id, msg)];
    var kept' := kept[id := KeptOf(env, s, id, msg)];
    forall j | j in kept' ensures KeptOne(env, t, bodies', index', j, kept'[j]) {
      if j == id {
        MessageNewKept(env, s, bodies, largest, id, msg);
        assert SameButGroup(index'[|index|], kept'[j].rec);
      } else {
        assert KeptOne(env, s, bodies, index, j, kept[j]);
        var i :| 0 <= i < |index| && SameButGroup(index[i], kept[j].rec);
        assert RecOk(env, s, bodies, largest, index[i]);
        assert SameButGroup(index'[i], kept[j].rec);
        MessageKept(env, s, bodies, largest, id, msg, kept[j]);
      }
    }
  }

  // ----- metadata lines followed by a reclaim -----

  /** The common tail of `enforce` and `clear`: shrink the index, write a floor, reclaim. */
  lemma FloorThenReclaim(env: Env, s: State, h: History, index': seq<MetaRec>, kept': map<nat, Kept>, floor: nat)
    requires Inv(env, s, h)
    requires SortedIndex(index') && forall rec :: rec in index' ==> rec in s.index
    requires forall id :: id in kept' ==> id in h.kept && kept'[id] == h.kept[id] && InIndex(index', h.kept[id].rec)
    requires floor <= s.nextId && forall id :: id in kept' ==> floor <= h.kept[id].rec.id
    requires Largest(h) in h.kept && Largest(h) !in kept' ==> floor >= Largest(h)
    ensures var t := Reclaim(s.(index := index', floor := floor, segs := AppendMeta(env, s.segs, Floor(floor))));
      Inv(env, t, h.(kept := kept', bodies := Sync(h.bodies, t.segs.disk)))
  {
    var written := s.(index := index', floor := floor, segs := AppendMeta(env, s.segs, Floor(floor)));
    var t := Reclaim(written);
    CoreShrink(env, s.segs, h.bodies, s.index, h.kept, Largest(h), s.nextId, index', kept');
    CoreFloor(env, s.segs, h.bodies, index', kept', Largest(h), s.nextId, floor);
    CoreReclaimFrom(env, written, h.bodies, kept', Largest(h));
    FreshFloor(env, s, h, index', kept', floor);
  }

  lemma FreshFloor(env: Env, s: State, h: History, index': seq<MetaRec>, kept': map<nat, Kept>, floor: nat)
    requires Limits(env) && SegsOk(s.segs) && FreshOk(env, s.segs, h)
    requires Largest(h) in h.kept && Largest(h) !in kept' ==> floor >= Largest(h)
    ensures var t := Reclaim(s.(index := index', floor := floor, segs := AppendMeta(env, s.segs, Floor(floor))));
      FreshOk(env, t.segs, h.(kept := kept', bodies := Sync(h.bodies, t.segs.disk)))
  {
    var id := Largest(h);
    if id != 0 && id !in kept' {
      FreshOpen(env, s.segs, id);
      FreshPut(env, EnsureOpen(env, s.segs, 0), Floor(floor), id);
      PutLineKeepsOk(EnsureOpen(env, s.segs, 0), Floor(floor));
      FreshReclaim(env, s.(index := index', floor := floor, segs := AppendMeta(env, s.segs, Floor(floor))), id);
    }
  }

  lemma NoEviction(env: Env, s: State, h: History, now: int)
    requires SegsOk(s.segs) && h.bodies.Keys == s.segs.disk.Keys
    requires |Retained(s.index, s.retention, now)| == |s.index|
    ensures Enforce(env, s, now) == s && AfterEnforce(env, s, h, now) == h
  {
    var none := Evicted(s.index, Retained(s.index, s.retention, now));
    assert none == {};
    assert Enforce(env, s, now) == s;
    calc {
      AfterEnforce(env, s, h, now);
      h.(kept := h.kept - none, bodies := Sync(h.bodies, s.segs.disk));
      { SyncSelf(h.bodies, s.segs.disk); assert h.kept - {} == h.kept; }
      h;
    }
  }

  lemma EnforceKeeps(env: Env, s: State, h: History, now: int)
    requires Inv(env, s, h)
    ensures Inv(env, Enforce(env, s, now), AfterEnforce(env, s, h, now))
  {
    var index' := Retained(s.index, s.retention, now);
    if |index'| == |s.index| {
      NoEviction(env, s, h, now);
    } else {
      EvictionLeavesKept(env, s, h, index');
      FloorThenReclaim(env, s, h, index', h.kept - Evicted(s.index, index'),
                       if index' == [] then s.nextId else index'[0].id);
    }
  }

  /** The message with the largest id is the last to be evicted. */
  lemma LargestIsLast(env: Env, s: State, h: History)
    requires Inv(env, s, h)
    ensures forall i :: 0 <= i < |s.index| - 1 ==> s.index[i].id < Largest(h)
  {
    if s.index != [] {
      assert RecOk(env, s.segs, h.bodies, Largest(h), s.index[|s.index| - 1]);
    }
  }

  lemma EvictionLeavesOne(index: seq<MetaRec>, index': seq<MetaRec>, id: nat, rec: MetaRec)
    requires SortedIndex(index) && |index'| < |index| && index' == index[|index| - |index'|..]
    requires InIndex(index, rec) && rec.id == id && id !in Evicted(index, index')
    ensures InIndex(index', rec) && index' != [] && index'[0].id <= id
  {
    var cut := |index| - |index'|;
    var i :| 0 <= i < |index| && SameButGroup(index[i], rec);
    assert forall j :: 0 <= j < cut ==> index[j].id in Evicted(index, index');
    assert index'[i - cut] == index[i] && index'[0] == index[cut];
  }

  lemma EvictionLeavesKept(env: Env, s: State, h: History, index': seq<MetaRec>)
    requires Inv(env, s, h) && |index'| < |s.index| && index' == s.index[|s.index| - |index'|..]
    ensures var kept' := h.kept - Evicted(s.index, index');
      var floor := if index' == [] then s.nextId else index'[0].id;
      && SortedIndex(index') && (forall rec :: rec in index' ==> rec in s.index)
      && (forall id :: id in kept' ==> InIndex(index', h.kept[id].rec) && floor <= h.kept[id].rec.id)
      && floor <= s.nextId
      && (Largest(h) in h.kept && Largest(h) !in kept' ==> floor >= Largest(h))
  {
    var cut := |s.index| - |index'|;
    var kept' := h.kept - Evicted(s.index, index');
    forall id | id in kept'
      ensures InIndex(index', h.kept[id].rec) && index' != [] && index'[0].id <= h.kept[id].rec.id
    {
      assert KeptOne(env, s.segs, h.bodies, s.index, id, h.kept[id]);
      EvictionLeavesOne(s.index, index', id, h.kept[id].rec);
    }
    LargestIsLast(env, s, h);
    if index' != [] {
      assert index'[0] == s.index[cut];
      assert RecOk(env, s.segs, h.bodies, Largest(h), s.index[cut]);
      assert Largest(h) !in Evicted(s.index, index');
    }
  }

  lemma ClearKeeps(env: Env, s: State, h: History)
    requires Inv(env, s, h)
    ensures Inv(env, Clear(env, s), AfterClear(env, s, h))
  {
    FloorThenReclaim(env, s, h, [], map[], s.nextId);
  }

  // ----- delete -----

  lemma {:induction false} SurvivorsMembers(index: seq<MetaRec>, ids: seq<nat>)
    ensures forall rec :: rec in Survivors(index, ids) <==> rec in index && rec.id !in ids
  {
    if index != [] {
      SurvivorsMembers(index[..|index| - 1], ids);
      assert index == index[..|index| - 1] + [Last(index)];
    }
  }

  lemma {:induction false} SurvivorsSorted(index: seq<MetaRec>, ids: seq<nat>)
    requires SortedIndex(index)
    ensures SortedIndex(Survivors(index, ids))
  {
    if index != [] {
      var init := index[..|index| - 1];
      SurvivorsSorted(init, ids);
      SurvivorsMembers(init, ids);
      if Last(index).id !in ids {
        var w := Survivors(init, ids);
        forall i | 0 <= i < |w| ensures w[i].id < Last(index).id {
          assert w[i] in w;
          var j :| 0 <= j < |init| && init[j] == w[i];
        }
        SortedSnoc(w, Last(index));
      }
    }
  }

  lemma {:induction false} SurvivorsAll(index: seq<MetaRec>, ids: seq<nat>)
    requires |Survivors(index, ids)| == |index|
    ensures Survivors(index, ids) == index
  {
    if index != [] {
      SurvivorsAll(index[..|index| - 1], ids);
    }
  }

  lemma SurvivorsInIndex(index: seq<MetaRec>, ids: seq<nat>, rec: MetaRec)
    requires InIndex(index, rec) && rec.id !in ids
    ensures InIndex(Survivors(index, ids), rec)
  {
    SurvivorsMembers(index, ids);
    var i :| 0 <= i < |index| && SameButGroup(index[i], rec);
    assert index[i] in Survivors(index, ids);
  }

  lemma NothingDeleted(env: Env, s: State, h: History, ids: seq<nat>)
    requires Inv(env, s, h) && |Survivors(s.index, ids)| == |s.index|
    ensures h.kept - (set id | id in ids) == h.kept
  {
    SurvivorsAll(s.index, ids);
    SurvivorsMembers(s.index, ids);
    forall id | id in h.kept ensures id !in ids {
      assert KeptOne(env, s.segs, h.bodies, s.index, id, h.kept[id]);
      var i :| 0 <= i < |s.index| && SameButGroup(s.index[i], h.kept[id].rec);
      assert s.index[i] in s.index;
    }
  }

  lemma DeletionLeavesKept(env: Env, s: State, h: History, ids: seq<nat>)
    requires Inv(env, s, h)
    ensures forall id :: id in h.kept && id !in ids ==>
              InIndex(Survivors(s.index, ids), h.kept[id].rec) && h.kept[id].rec.id == id
  {
    forall id | id in h.kept && id !in ids
      ensures InIndex(Survivors(s.index, ids), h.kept[id].rec) && h.kept[id].rec.id == id
    {
      assert KeptOne(env, s.segs, h.bodies, s.index, id, h.kept[id]);
      SurvivorsInIndex(s.index, ids, h.kept[id].rec);
    }
  }

  lemma DeleteKeeps(env: Env, s: State, h: History, ids: seq<nat>)
    requires Inv(env, s, h)
    ensures Inv(env, Delete(env, s, ids), AfterDelete(env, s, h, ids))
  {
    if |Survivors(s.index, ids)| == |s.index| {
      SyncSelf(h.bodies, s.segs.disk);
      NothingDeleted(env, s, h, ids);
      assert AfterDelete(env, s, h, ids) == h;
    } else {
      DeletionLeavesKept(env, s, h, ids);
      DelsThenReclaim(env, s, h, h.kept - (set id | id in ids), ids);
    }
  }

  lemma DelsThenReclaim(env: Env, s: State, h: History, kept': map<nat, Kept>, ids: seq<nat>)
    requires Inv(env, s, h) && |Survivors(s.index, ids)| != |s.index|
    requires kept' == h.kept - (set id | id in ids)
    requires forall id :: id in kept' ==> InIndex(Survivors(s.index, ids), h.kept[id].rec) && h.kept[id].rec.id == id
    ensures var t := Delete(env, s, ids); Inv(env, t, h.(kept := kept', bodies := Sync(h.bodies, t.segs.disk)))
  {
    var left := Survivors(s.index, ids);
    EnsureOpenIsOpen(env, s.segs, 0);
    var written := s.(index := left, segs := PutDels(EnsureOpen(env, s.segs, 0), ids));
    var t := Reclaim(written);
    SurvivorsMembers(s.index, ids);
    SurvivorsSorted(s.index, ids);
    CoreShrink(env, s.segs, h.bodies, s.index, h.kept, Largest(h), s.nextId, left, kept');
    CoreDels(env, s.segs, h.bodies, left, kept', Largest(h), s.nextId, ids);
    CoreReclaimFrom(env, written, h.bodies, kept', Largest(h));
    FreshDels(env, s, h, left, kept', ids);
  }

  lemma FreshDels(env: Env, s: State, h: History, left: seq<MetaRec>, kept': map<nat, Kept>, ids: seq<nat>)
    requires Limits(env) && SegsOk(s.segs) && FreshOk(env, s.segs, h)
    requires kept' == h.kept - (set id | id in ids)
    requires EnsureOpen(env, s.segs, 0).cur.Some?
    requires EnsureOpen(env, s.segs, 0).cur.value.num in EnsureOpen(env, s.segs, 0).disk
    ensures var t := Reclaim(s.(index := left, segs := PutDels(EnsureOpen(env, s.segs, 0), ids)));
      FreshOk(env, t.segs, h.(kept := kept', bodies := Sync(h.bodies, t.segs.disk)))
  {
    var id := Largest(h);
    if id != 0 && id !in kept' {
      var open := EnsureOpen(env, s.segs, 0);
      FreshOpen(env, s.segs, id);
      FreshPutDels(env, open, ids, id);
      PutDelsKeepsOk(open, ids);
      FreshReclaim(env, s.(index := left, segs := PutDels(open, ids)), id);
    }
  }

  // ----- regroup -----

  lemma RegroupKeeps(env: Env, s: State, h: History, id: nat, group: Option<nat>)
    requires Inv(env, s, h)
    ensures Inv(env, SetGroup(env, s, id, group), AfterRegroup(env, s, h, id, group))
  {
    var p := Position(s.index, id);
    if p.None? || s.index[p.value].group == group {
      SyncSelf(h.bodies, s.segs.disk);
    } else {
      RegroupLine(env, s, h, p.value, group);
    }
  }

  lemma RegroupIndex(env: Env, s: Segs, bodies: Bodies, largest: nat, index: seq<MetaRec>, p: nat, group: Option<nat>)
    requires IndexOk(env, s, bodies, largest, index) && p < |index|
    ensures IndexOk(env, s, bodies, largest, index[p := index[p].(group := group)])
  {
    var index' := index[p := index[p].(group := group)];
    forall i | 0 <= i < |index'| ensures RecOk(env, s, bodies, largest, index'[i]) {
      assert RecOk(env, s, bodies, largest, index[i]);
      if i == p {
        RegroupLoc(env, bodies, index[p], group);
      }
    }
  }

  lemma RegroupLoc(env: Env, bodies: Bodies, rec: MetaRec, group: Option<nat>)
    requires LocOk(env, bodies, rec)
    ensures LocOk(env, bodies, rec.(group := group))
  {
    if rec.seg in bodies {
      var k: nat :| Located(env, bodies[rec.seg], rec, k);
      assert Located(env, bodies[rec.seg], rec.(group := group), k);
    }
  }

  lemma RegroupKept(env: Env, s: Segs, bodies: Bodies, index: seq<MetaRec>, kept: map<nat, Kept>, p: nat, group: Option<nat>)
    requires KeptOk(env, s, bodies, index, kept) && p < |index|
    ensures KeptOk(env, s, bodies, index[p := index[p].(group := group)], kept)
  {
    var index' := index[p := index[p].(group := group)];
    forall id | id in kept ensures KeptOne(env, s, bodies, index', id, kept[id]) {
      assert KeptOne(env, s, bodies, index, id, kept[id]);
      var i :| 0 <= i < |index| && SameButGroup(index[i], kept[id].rec);
      assert SameButGroup(index'[i], kept[id].rec);
    }
  }

  lemma RegroupHarmless(env: Env, s: Segs, bodies: Bodies, index: seq<MetaRec>, kept: map<nat, Kept>,
                        p: nat, group: Option<nat>)
    requires KeptOk(env, s, bodies, index, kept) && p < |index| && SortedIndex(index)
    ensures forall id :: id in kept ==> Harmless(Msg(index[p].(group := group)), kept[id])
  {
    forall id | id in kept ensures Harmless(Msg(index[p].(group := group)), kept[id]) {
      assert KeptOne(env, s, bodies, index, id, kept[id]);
      var i :| 0 <= i < |index| && SameButGroup(index[i], kept[id].rec);
    }
  }

  lemma CoreRegroup(env: Env, s: Segs, bodies: Bodies, index: seq<MetaRec>, kept: map<nat, Kept>,
                    largest: nat, nextId: nat, p: nat, group: Option<nat>)
    requires Core(env, s, bodies, index, kept, largest, nextId) && p < |index|
    requires s.cur.Some? && s.cur.value.num == Last(s.nums)
    ensures var rec := index[p].(group := group);
      Core(env, PutLine(s, Msg(rec)), bodies, index[p := rec], kept, largest, nextId)
  {
    var rec := index[p].(group := group);
    RegroupIndex(env, s, bodies, largest, index, p, group);
    RegroupHarmless(env, s, bodies, index, kept, p, group);
    RegroupKept(env, s, bodies, index, kept, p, group);
    assert RecOk(env, s, bodies, largest, index[p := rec][p]);
    CorePut(env, s, bodies, index[p := rec], kept, largest, nextId, Msg(rec));
  }

  lemma FreshRegroup(env: Env, s: State, h: History, rec: MetaRec)
    requires Limits(env) && SegsOk(s.segs) && FreshOk(env, s.segs, h)
    ensures var t := AppendMeta(env, s.segs, Msg(rec)); FreshOk(env, t, h.(bodies := Sync(h.bodies, t.disk)))
  {
    var id := Largest(h);
    if id != 0 && id !in h.kept {
      FreshOpen(env, s.segs, id);
      FreshPut(env, EnsureOpen(env, s.segs, 0), Msg(rec), id);
    }
  }

  lemma RegroupLine(env: Env, s: State, h: History, p: nat, group: Option<nat>)
    requires Inv(env, s, h) && p < |s.index|
    ensures var rec := s.index[p].(group := group);
      var t := s.(index := s.index[p := rec], segs := AppendMeta(env, s.segs, Msg(rec)));
      Inv(env, t, h.(bodies := Sync(h.bodies, t.segs.disk)))
  {
    var rec := s.index[p].(group := group);
    var open := EnsureOpen(env, s.segs, 0);
    EnsureOpenDelivers(env, s.segs, 0);
    OpenThenLine(env, s.segs, h.bodies, Msg(rec));
    CoreOpen(env, s.segs, h.bodies, s.index, h.kept, Largest(h), s.nextId, 0);
    CoreRegroup(env, open, Sync(h.bodies, open.disk), s.index, h.kept, Largest(h), s.nextId, p, group);
    FreshRegroup(env, s, h, rec);
  }

  // ----- restart -----

  lemma ReopenedIndex(env: Env, s: State, h: History, retention: Retention)
    requires Inv(env, s, h)
    ensures var t := Reopened(s.segs, retention);
      IndexOk(env, t.segs, h.bodies, Largest(h), t.index)
  {
    var r := ReplayDisk(s.segs.disk, s.segs.nums);
    var t := Reopened(s.segs, retention);
    forall id | id in r.live ensures r.live[id].id == id {
      DiskLiveFrom(s.segs.disk, s.segs.nums, id);
    }
    CollectIs(r.live, r.floor, r.maxSeen + 1);
    forall i | 0 <= i < |t.index| ensures RecOk(env, t.segs, h.bodies, Largest(h), t.index[i]) {
      var rec := t.index[i];
      assert rec in t.index;
      DiskLiveFrom(s.segs.disk, s.segs.nums, rec.id);
      var n :| n in s.segs.nums && n in s.segs.disk && Msg(rec) in s.segs.disk[n].meta;
      assert LineOk(env, h.bodies, Largest(h), s.nextId, n, Msg(rec));
      NumsBounded(s.segs, n);
    }
  }

  /** Replay brings a kept message back, and all that can differ is its group. */
  lemma ReplayHolds(env: Env, s: Segs, bodies: Bodies, k: Kept)
    requires SegsOk(s) && KeptOnDisk(env, s, bodies, k)
    ensures var r := ReplayDisk(s.disk, s.nums);
      && k.rec.id in r.live && SameButGroup(r.live[k.rec.id], k.rec)
      && r.floor <= k.rec.id <= r.maxSeen
  {
    var id := k.rec.id;
    DiskLive(s.disk, s.nums, k.rec.seg, id);
    DiskLiveFrom(s.disk, s.nums, id);
    DiskBounds(s.disk, s.nums);
    var rec := ReplayDisk(s.disk, s.nums).live[id];
    var n :| n in s.nums && n in s.disk && Msg(rec) in s.disk[n].meta;
    assert LineId(Msg(rec)) == id;
  }

  lemma CollectHolds(disk: map<nat, Files>, nums: seq<nat>, id: nat)
    requires var r := ReplayDisk(disk, nums); id in r.live && r.floor <= id <= r.maxSeen
    ensures var r := ReplayDisk(disk, nums); r.live[id] in Collect(r.live, r.floor, r.maxSeen + 1)
  {
    var r := ReplayDisk(disk, nums);
    forall j | j in r.live ensures r.live[j].id == j {
      DiskLiveFrom(disk, nums, j);
    }
    CollectIs(r.live, r.floor, r.maxSeen + 1);
  }

  /** A kept message is in the index of a reopened store. */
  lemma ReopenedHolds(env: Env, s: Segs, bodies: Bodies, k: Kept, retention: Retention)
    requires SegsOk(s) && KeptOnDisk(env, s, bodies, k)
    ensures InIndex(Reopened(s, retention).index, k.rec)
  {
    var r := ReplayDisk(s.disk, s.nums);
    ReplayHolds(env, s, bodies, k);
    CollectHolds(s.disk, s.nums, k.rec.id);
    var index := Reopened(s, retention).index;
    var i :| 0 <= i < |index| && index[i] == r.live[k.rec.id];
    assert SameButGroup(index[i], k.rec);
  }

  lemma ReopenKeeps(env: Env, s: State, h: History, retention: Retention)
    requires Inv(env, s, h)
    ensures Inv(env, Reopened(s.segs, retention), h)
  {
    var t := Reopened(s.segs, retention);
    var r := ReplayDisk(s.segs.disk, s.segs.nums);
    ReopenedIndex(env, s, h, retention);
    ReopenedDisk(env, s, h, retention);
    forall id | id in h.kept ensures KeptOne(env, t.segs, h.bodies, t.index, id, h.kept[id]) {
      assert KeptOne(env, s.segs, h.bodies, s.index, id, h.kept[id]);
      ReopenedHolds(env, s.segs, h.bodies, h.kept[id], retention);
    }
    ReopenedAbove(env, s, h);
  }

  lemma ReopenedLines(env: Env, s: Segs, bodies: Bodies, largest: nat, nextId: nat)
    requires SegsOk(s) && LinesOk(env, s, bodies, largest, nextId)
    ensures LinesOk(env, s.(cur := None), bodies, largest, ReplayDisk(s.disk, s.nums).maxSeen + 1)
  {
    var next := ReplayDisk(s.disk, s.nums).maxSeen + 1;
    DiskBounds(s.disk, s.nums);
    forall n, line | n in s.disk && line in s.disk[n].meta ensures LineOk(env, bodies, largest, next, n, line) {
      assert n in s.nums && LineId(line) < next;
      assert LineOk(env, bodies, largest, nextId, n, line);
    }
  }

  lemma ReopenedOwn(s: Segs, bodies: Bodies)
    requires OwnLines(s, bodies)
    ensures OwnLines(s.(cur := None), bodies)
  {
    forall n, k | n in bodies && n in s.disk && 0 <= k < |bodies[n]|
      ensures HasOwnLine(s.disk[n].meta, n, bodies[n][k].id)
    {
    }
  }

  lemma ReopenedDisk(env: Env, s: State, h: History, retention: Retention)
    requires Inv(env, s, h)
    ensures var t := Reopened(s.segs, retention); DiskOk(env, t.segs, h.bodies, Largest(h), t.nextId)
  {
    ReopenedLines(env, s.segs, h.bodies, Largest(h), s.nextId);
    ReopenedOwn(s.segs, h.bodies);
  }

  /** The next id after a restart is above every id that was given out. */
  lemma ReopenedAbove(env: Env, s: State, h: History)
    requires Inv(env, s, h)
    ensures Largest(h) <= ReplayDisk(s.segs.disk, s.segs.nums).maxSeen
  {
    var id := Largest(h);
    DiskBounds(s.segs.disk, s.segs.nums);
    if id in h.kept {
      assert KeptOne(env, s.segs, h.bodies, s.index, id, h.kept[id]);
      ReplayHolds(env, s.segs, h.bodies, h.kept[id]);
    } else if id > 0 {
      var n := Last(s.segs.nums);
      var line :| line in s.segs.disk[n].meta && LineId(line) >= id;
      assert n in s.segs.nums;
    }
  }
}
