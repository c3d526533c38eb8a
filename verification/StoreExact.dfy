/** Without deletes the log is the index: replaying what is left on disk yields the
    in-memory index exactly, however many segments were dropped. */
module StoreExact {
  import opened Wrappers
  import opened StoreModel
  import opened SegmentLaws
  import opened BodyFiles
  import opened StoreInvariant
  import opened StoreSteps
  import opened ReplayLaws
  import opened StoreRuns

  ghost predicate FloorsOk(s: Segs, floor: nat) {
    && (forall n, f: nat :: n in s.disk && Floor(f) in s.disk[n].meta ==> f <= floor)
    && (floor == 0 || exists n :: n in s.disk && Floor(floor) in s.disk[n].meta)
  }

  ghost predicate NoDels(s: Segs) {
    forall n, id: nat :: n in s.disk ==> Del(id) !in s.disk[n].meta
  }

  predicate Has(index: seq<MetaRec>, id: nat) {
    exists i :: 0 <= i < |index| && index[i].id == id
  }

  /** Every record on disk is indexed or below the floor. */
  ghost predicate NothingHidden(s: Segs, index: seq<MetaRec>, floor: nat) {
    forall n, rec :: n in s.disk && Msg(rec) in s.disk[n].meta && rec.id >= floor ==> Has(index, rec.id)
  }

  ghost predicate LiveIs(disk: map<nat, Files>, nums: seq<nat>, rec: MetaRec) {
    rec.id in ReplayDisk(disk, nums).live && ReplayDisk(disk, nums).live[rec.id] == rec
  }

  ghost predicate AllLive(s: Segs, index: seq<MetaRec>) {
    forall i {:trigger LiveIs(s.disk, s.nums, index[i])} :: 0 <= i < |index| ==> LiveIs(s.disk, s.nums, index[i])
  }

  ghost predicate AllKept(index: seq<MetaRec>, kept: map<nat, Kept>, floor: nat) {
    forall i :: 0 <= i < |index| ==> index[i].id in kept && floor <= index[i].id
  }

  /** The log and the index say the same. */
  ghost predicate Exact(s: Segs, index: seq<MetaRec>, kept: map<nat, Kept>, floor: nat) {
    && NoDels(s) && FloorsOk(s, floor) && NothingHidden(s, index, floor)
    && AllLive(s, index) && AllKept(index, kept, floor)
  }

  // ----- replay of a changed log -----

  lemma {:induction false} ReplayFrame(disk: map<nat, Files>, disk': map<nat, Files>, nums: seq<nat>)
    requires forall n :: n in nums ==> (n in disk <==> n in disk')
    requires forall n :: n in nums && n in disk ==> disk[n].meta == disk'[n].meta
    ensures ReplayDisk(disk, nums) == ReplayDisk(disk', nums)
  {
    if nums != [] {
      assert nums == nums[..|nums| - 1] + [Last(nums)];
      ReplayFrame(disk, disk', nums[..|nums| - 1]);
    }
  }

  /** Extending the log by an empty segment. */
  lemma ReplayExtended(s: Segs, t: Segs)
    requires SegsOk(s) && Extended(s, t)
    ensures ReplayDisk(t.disk, t.nums) == ReplayDisk(s.disk, s.nums)
  {
    if t.nums != s.nums {
      assert t.nums[..|t.nums| - 1] == s.nums;
      ReplayFrame(s.disk, t.disk, s.nums);
    }
  }

  /** One more line at the end of the newest segment. */
  lemma ReplayAppended(s: Segs, disk': map<nat, Files>, line: MetaLine)
    requires SegsOk(s) && s.cur.Some?
    requires disk'.Keys == s.disk.Keys
    requires forall n :: n in s.disk ==>
               disk'[n].meta == if n == Last(s.nums) then s.disk[n].meta + [line] else s.disk[n].meta
    ensures ReplayDisk(disk', s.nums) == ReplayLine(ReplayDisk(s.disk, s.nums), line)
  {
    var init := s.nums[..|s.nums| - 1];
    forall n | n in init ensures n in s.nums && n != Last(s.nums) {
      var i :| 0 <= i < |init| && init[i] == n;
      assert s.nums[i] == n;
    }
    ReplayFrame(s.disk, disk', init);
    var meta := s.disk[Last(s.nums)].meta;
    assert (meta + [line])[..|meta|] == meta;
  }

  predicate Agree(a: Replay, b: Replay, id: nat) {
    && (id in a.live <==> id in b.live)
    && (id in a.live ==> a.live[id] == b.live[id])
  }

  predicate Silent(meta: seq<MetaLine>, id: nat) {
    forall line :: line in meta && !line.Floor? ==> LineId(line) != id
  }

  lemma {:induction false} AgreeMeta(a: Replay, b: Replay, meta: seq<MetaLine>, id: nat)
    requires Agree(a, b, id)
    ensures Agree(ReplayMeta(a, meta), ReplayMeta(b, meta), id)
  {
    if meta != [] {
      AgreeMeta(a, b, meta[..|meta| - 1], id);
    }
  }

  lemma {:induction false} SilentMeta(r: Replay, meta: seq<MetaLine>, id: nat)
    requires Silent(meta, id)
    ensures Agree(r, ReplayMeta(r, meta), id)
  {
    if meta != [] {
      assert meta == meta[..|meta| - 1] + [Last(meta)];
      assert Last(meta) in meta;
      SilentMeta(r, meta[..|meta| - 1], id);
    }
  }

  /** Dropping a segment that is silent about an id does not change its fate. */
  lemma {:induction false} AgreeWithout(disk: map<nat, Files>, nums: seq<nat>, gone: nat, id: nat)
    requires forall n :: n in nums ==> n in disk
    requires gone in disk ==> Silent(disk[gone].meta, id)
    ensures Agree(ReplayDisk(disk, nums), ReplayDisk(disk - {gone}, Without(nums, gone)), id)
  {
    if nums != [] {
      var init := nums[..|nums| - 1];
      assert nums == init + [Last(nums)];
      AgreeWithout(disk, init, gone, id);
      var a, b := ReplayDisk(disk, init), ReplayDisk(disk - {gone}, Without(init, gone));
      var meta := disk[Last(nums)].meta;
      if Last(nums) == gone {
        SilentMeta(a, meta, id);
        assert Without(nums, gone) == Without(init, gone);
      } else {
        AgreeMeta(a, b, meta, id);
        var w := Without(nums, gone);
        assert w[..|w| - 1] == Without(init, gone);
      }
    }
  }

  lemma {:induction false} AgreeDropAll(s: Segs, orphans: seq<nat>, id: nat)
    requires SegsOk(s) && s.cur.Some?
    requires forall n :: n in orphans && n in s.disk && n != Last(s.nums) ==> Silent(s.disk[n].meta, id)
    ensures var t := DropAll(s, orphans);
      Agree(ReplayDisk(s.disk, s.nums), ReplayDisk(t.disk, t.nums), id)
  {
    if orphans != [] {
      var init := orphans[..|orphans| - 1];
      assert orphans == init + [Last(orphans)];
      AgreeDropAll(s, init, id);
      DropAllIs(s, init);
      var t := DropAll(s, init);
      if Last(orphans) != t.cur.value.num {
        AgreeWithout(t.disk, t.nums, Last(orphans), id);
      }
    }
  }

  // ----- an orphaned segment is silent about every live message -----

  /** The heart of it: a segment that no record points at holds a body of its own
      whose message is gone, so it lies below the floor, and every message that was
      regrouped in the segment is older still. */
  lemma OrphanIsSilent(env: Env, s: Segs, bodies: Bodies, index: seq<MetaRec>, kept: map<nat, Kept>,
                       largest: nat, nextId: nat, floor: nat, gone: nat, i: nat)
    requires Core(env, s, bodies, index, kept, largest, nextId) && Exact(s, index, kept, floor)
    requires gone in s.disk && gone != Last(s.nums) && gone !in Referenced(index)
    requires i < |index|
    ensures Silent(s.disk[gone].meta, index[i].id)
  {
    var id := index[i].id;
    forall line | line in s.disk[gone].meta && !line.Floor? ensures LineId(line) != id {
      if line.Msg? && line.rec.id == id {
        OldLineContradiction(env, s, bodies, index, kept, largest, nextId, floor, gone, i, line.rec);
      }
    }
  }

  lemma OwnSegment(env: Env, s: Segs, bodies: Bodies, index: seq<MetaRec>, kept: map<nat, Kept>, i: nat)
    requires KeptOk(env, s, bodies, index, kept) && SortedIndex(index)
    requires i < |index| && index[i].id in kept
    ensures var k := kept[index[i].id];
      && k.rec.id == index[i].id && k.rec.seg == index[i].seg && KeptOnDisk(env, s, bodies, k)
  {
    var id := index[i].id;
    assert KeptOne(env, s, bodies, index, id, kept[id]);
    var j :| 0 <= j < |index| && SameButGroup(index[j], kept[id].rec);
    assert j == i;
  }

  /** The first body of a segment that is no longer written. */
  lemma FirstBody(env: Env, s: Segs, bodies: Bodies, n: nat)
    requires SegsOk(s) && BodiesOk(env, s, bodies) && n in s.disk && n != Last(s.nums)
    ensures bodies[n] != []
  {
  }

  lemma LaterBodyIsNewer(env: Env, bodies: Bodies, largest: nat, rec: MetaRec, later: nat)
    requires IdsOk(bodies, largest) && rec.seg in bodies && later in bodies && rec.seg < later
    requires (exists p: nat :: Located(env, bodies[rec.seg], rec, p)) && bodies[later] != []
    ensures rec.id < bodies[later][0].id
  {
    assert IdsBelow(bodies[rec.seg], bodies[later]);
  }

  lemma OldLineContradiction(env: Env, s: Segs, bodies: Bodies, index: seq<MetaRec>, kept: map<nat, Kept>,
                             largest: nat, nextId: nat, floor: nat, gone: nat, i: nat, rec: MetaRec)
    requires Core(env, s, bodies, index, kept, largest, nextId) && Exact(s, index, kept, floor)
    requires gone in s.disk && gone != Last(s.nums)
    requires i < |index| && Msg(rec) in s.disk[gone].meta && rec.id == index[i].id
    ensures gone in Referenced(index)
  {
    OldLineSegment(env, s, bodies, index, kept, largest, nextId, gone, i, rec);
    if rec.seg == gone {
      assert index[i].seg == gone;
    } else {
      NewerBodyReferenced(env, s, bodies, largest, index, floor, gone, kept[index[i].id].rec);
    }
  }

  lemma OldLineSegment(env: Env, s: Segs, bodies: Bodies, index: seq<MetaRec>, kept: map<nat, Kept>,
                       largest: nat, nextId: nat, n: nat, i: nat, rec: MetaRec)
    requires KeptOk(env, s, bodies, index, kept) && SortedIndex(index)
    requires LinesOk(env, s, bodies, largest, nextId)
    requires i < |index| && index[i].id in kept
    requires n in s.disk && Msg(rec) in s.disk[n].meta && rec.id == index[i].id
    ensures var k := kept[index[i].id];
      && k.rec.id == index[i].id && rec.seg == index[i].seg == k.rec.seg <= n && k.rec.seg in bodies
      && exists p: nat :: Located(env, bodies[k.rec.seg], k.rec, p)
  {
    OwnSegment(env, s, bodies, index, kept, i);
    assert SameButGroup(rec, kept[index[i].id].rec);
    assert LineOk(env, bodies, largest, nextId, n, Msg(rec));
  }

  lemma NewerBodyReferenced(env: Env, s: Segs, bodies: Bodies, largest: nat, index: seq<MetaRec>,
                            floor: nat, gone: nat, rec: MetaRec)
    requires SegsOk(s) && BodiesOk(env, s, bodies) && IdsOk(bodies, largest) && OwnLines(s, bodies)
    requires IndexOk(env, s, bodies, largest, index) && NothingHidden(s, index, floor)
    requires gone in s.disk && gone != Last(s.nums) && rec.seg in bodies && rec.seg < gone
    requires (exists p: nat :: Located(env, bodies[rec.seg], rec, p)) && floor <= rec.id
    ensures gone in Referenced(index)
  {
    FirstBody(env, s, bodies, gone);
    LaterBodyIsNewer(env, bodies, largest, rec, gone);
    FirstBodyIndexed(s, bodies, index, floor, gone, rec.id);
    FirstBodyReferenced(env, s, bodies, largest, index, gone);
  }

  lemma FirstBodyIndexed(s: Segs, bodies: Bodies, index: seq<MetaRec>, floor: nat, n: nat, id: nat)
    requires OwnLines(s, bodies) && NothingHidden(s, index, floor)
    requires n in s.disk && n in bodies && bodies[n] != [] && floor <= id < bodies[n][0].id
    ensures Has(index, bodies[n][0].id)
  {
    assert HasOwnLine(s.disk[n].meta, n, bodies[n][0].id);
    var own :| Msg(own) in s.disk[n].meta && own.id == bodies[n][0].id && own.seg == n;
    assert Has(index, own.id);
  }

  lemma FirstBodyReferenced(env: Env, s: Segs, bodies: Bodies, largest: nat, index: seq<MetaRec>, n: nat)
    requires IndexOk(env, s, bodies, largest, index)
    requires n in bodies && bodies[n] != [] && Has(index, bodies[n][0].id)
    ensures n in Referenced(index)
  {
    var j :| 0 <= j < |index| && index[j].id == bodies[n][0].id;
    assert RecOk(env, s, bodies, largest, index[j]);
    assert index[j].seg == n;
  }

  // ----- each write keeps the log exact -----

  lemma ExactOpen(s: Segs, t: Segs, index: seq<MetaRec>, kept: map<nat, Kept>, floor: nat)
    requires SegsOk(s) && Extended(s, t) && Exact(s, index, kept, floor)
    ensures Exact(t, index, kept, floor)
  {
    ReplayExtended(s, t);
    forall i | 0 <= i < |index| ensures LiveIs(t.disk, t.nums, index[i]) {
      assert LiveIs(s.disk, s.nums, index[i]);
    }
    if floor > 0 {
      var n :| n in s.disk && Floor(floor) in s.disk[n].meta;
      assert n in t.disk && Floor(floor) in t.disk[n].meta;
    }
  }

  /** A floor line settles what was evicted. */
  lemma ExactFloor(s: Segs, index: seq<MetaRec>, kept: map<nat, Kept>, floor: nat,
                   index': seq<MetaRec>, kept': map<nat, Kept>, floor': nat)
    requires SegsOk(s) && s.cur.Some? && Exact(s, index, kept, floor) && floor <= floor'
    requires forall rec :: rec in index' ==> rec in index
    requires forall i :: 0 <= i < |index| && index[i].id >= floor' ==> Has(index', index[i].id)
    requires AllKept(index', kept', floor')
    ensures Exact(PutLine(s, Floor(floor')), index', kept', floor')
  {
    var t := PutLine(s, Floor(floor'));
    FloorKeepsLive(s, index, index', floor');
    assert Last(s.nums) in t.disk && Floor(floor') in t.disk[Last(s.nums)].meta;
    FloorHidesNothing(s, index, floor, index', floor');
  }

  lemma FloorKeepsLive(s: Segs, index: seq<MetaRec>, index': seq<MetaRec>, floor': nat)
    requires SegsOk(s) && s.cur.Some? && AllLive(s, index)
    requires forall rec :: rec in index' ==> rec in index
    ensures AllLive(PutLine(s, Floor(floor')), index')
  {
    var t := PutLine(s, Floor(floor'));
    ReplayAppended(s, t.disk, Floor(floor'));
    forall i | 0 <= i < |index'| ensures LiveIs(t.disk, t.nums, index'[i]) {
      assert index'[i] in index;
      var j :| 0 <= j < |index| && index[j] == index'[i];
      assert LiveIs(s.disk, s.nums, index[j]);
    }
  }

  lemma FloorHidesNothing(s: Segs, index: seq<MetaRec>, floor: nat, index': seq<MetaRec>, floor': nat)
    requires SegsOk(s) && s.cur.Some? && NothingHidden(s, index, floor) && floor <= floor'
    requires forall i :: 0 <= i < |index| && index[i].id >= floor' ==> Has(index', index[i].id)
    ensures NothingHidden(PutLine(s, Floor(floor')), index', floor')
  {
    var t := PutLine(s, Floor(floor'));
    forall n, rec | n in t.disk && Msg(rec) in t.disk[n].meta && rec.id >= floor' ensures Has(index', rec.id) {
      assert Msg(rec) in s.disk[n].meta;
      var i :| 0 <= i < |index| && index[i].id == rec.id;
    }
  }

  lemma ExactMessage(env: Env, s: Segs, bodies: Bodies, index: seq<MetaRec>, kept: map<nat, Kept>,
                     floor: nat, largest: nat, id: nat, msg: NewMessage)
    requires Core(env, s, bodies, index, kept, largest, id) && s.cur.Some? && s.cur.value.num in s.disk
    requires Exact(s, index, kept, floor) && floor <= id
    ensures Exact(PutMessage(env, s, id, msg), index + [NextRec(env, s, id, msg)],
                  kept[id := KeptOf(env, s, id, msg)], floor)
  {
    MessageLive(env, s, bodies, index, largest, id, msg);
    ExactMessageLines(env, s, index, floor, id, msg);
  }

  lemma MessageLive(env: Env, s: Segs, bodies: Bodies, index: seq<MetaRec>, largest: nat, id: nat, msg: NewMessage)
    requires SegsOk(s) && s.cur.Some? && s.cur.value.num in s.disk && largest < id
    requires IndexOk(env, s, bodies, largest, index) && AllLive(s, index)
    ensures AllLive(PutMessage(env, s, id, msg), index + [NextRec(env, s, id, msg)])
  {
    var t := PutMessage(env, s, id, msg);
    var rec := NextRec(env, s, id, msg);
    var index' := index + [rec];
    ReplayAppended(s, t.disk, Msg(rec));
    forall i | 0 <= i < |index'| ensures LiveIs(t.disk, t.nums, index'[i]) {
      if i < |index| {
        assert LiveIs(s.disk, s.nums, index[i]);
        assert RecOk(env, s, bodies, largest, index[i]);
      }
    }
  }

  lemma ExactMessageLines(env: Env, s: Segs, index: seq<MetaRec>, floor: nat, id: nat, msg: NewMessage)
    requires SegsOk(s) && s.cur.Some? && s.cur.value.num in s.disk
    requires NoDels(s) && FloorsOk(s, floor) && NothingHidden(s, index, floor)
    ensures var t := PutMessage(env, s, id, msg);
      NoDels(t) && FloorsOk(t, floor) && NothingHidden(t, index + [NextRec(env, s, id, msg)], floor)
  {
    var t := PutMessage(env, s, id, msg);
    var rec := NextRec(env, s, id, msg);
    var index' := index + [rec];
    if floor > 0 {
      var n :| n in s.disk && Floor(floor) in s.disk[n].meta;
      assert n in t.disk && Floor(floor) in t.disk[n].meta;
    }
    assert index'[|index|].id == id;
    forall n, r | n in t.disk && Msg(r) in t.disk[n].meta && r.id >= floor ensures Has(index', r.id) {
      if Msg(r) in s.disk[n].meta {
        var i :| 0 <= i < |index| && index[i].id == r.id;
        assert index'[i].id == r.id;
      }
    }
  }

  lemma RegroupLive(s: Segs, index: seq<MetaRec>, p: nat, rec: MetaRec)
    requires SegsOk(s) && s.cur.Some? && AllLive(s, index) && SortedIndex(index)
    requires p < |index| && rec.id == index[p].id
    ensures AllLive(PutLine(s, Msg(rec)), index[p := rec])
  {
    var t := PutLine(s, Msg(rec));
    var index' := index[p := rec];
    ReplayAppended(s, t.disk, Msg(rec));
    forall i | 0 <= i < |index'| ensures LiveIs(t.disk, t.nums, index'[i]) {
      assert LiveIs(s.disk, s.nums, index[i]);
    }
  }

  lemma RegroupLines(s: Segs, index: seq<MetaRec>, floor: nat, p: nat, rec: MetaRec)
    requires SegsOk(s) && s.cur.Some? && p < |index| && rec.id == index[p].id
    requires NoDels(s) && FloorsOk(s, floor) && NothingHidden(s, index, floor)
    ensures var t := PutLine(s, Msg(rec));
      NoDels(t) && FloorsOk(t, floor) && NothingHidden(t, index[p := rec], floor)
  {
    var t := PutLine(s, Msg(rec));
    var index' := index[p := rec];
    if floor > 0 {
      var n :| n in s.disk && Floor(floor) in s.disk[n].meta;
      assert n in t.disk && Floor(floor) in t.disk[n].meta;
    }
    assert index'[p].id == rec.id;
    forall n, r | n in t.disk && Msg(r) in t.disk[n].meta && r.id >= floor ensures Has(index', r.id) {
      if Msg(r) in s.disk[n].meta {
        var i :| 0 <= i < |index| && index[i].id == r.id;
        assert index'[i].id == r.id;
      }
    }
  }

  lemma ExactRegroup(s: Segs, index: seq<MetaRec>, kept: map<nat, Kept>, floor: nat, p: nat, group: Option<nat>)
    requires SegsOk(s) && s.cur.Some? && Exact(s, index, kept, floor) && SortedIndex(index) && p < |index|
    ensures var rec := index[p].(group := group);
      Exact(PutLine(s, Msg(rec)), index[p := rec], kept, floor)
  {
    var rec := index[p].(group := group);
    RegroupLive(s, index, p, rec);
    RegroupLines(s, index, floor, p, rec);
  }

  /** Dropping orphans keeps the log exact, provided the floor stands in the newest segment. */
  lemma ExactReclaim(env: Env, s: State, bodies: Bodies, kept: map<nat, Kept>, largest: nat)
    requires Core(env, s.segs, bodies, s.index, kept, largest, s.nextId) && s.segs.cur.Some?
    requires Exact(s.segs, s.index, kept, s.floor)
    requires Last(s.segs.nums) in s.segs.disk && Floor(s.floor) in s.segs.disk[Last(s.segs.nums)].meta
    ensures Exact(Reclaim(s).segs, s.index, kept, s.floor)
  {
    var t := Reclaim(s);
    ReclaimIs(s);
    forall i | 0 <= i < |s.index| ensures LiveIs(t.segs.disk, t.segs.nums, s.index[i]) {
      assert LiveIs(s.segs.disk, s.segs.nums, s.index[i]);
      ReclaimAgrees(env, s, bodies, kept, largest, i);
    }
    assert Last(t.segs.nums) in t.segs.disk;
    assert Floor(s.floor) in t.segs.disk[Last(t.segs.nums)].meta;
  }

  lemma ReclaimAgrees(env: Env, s: State, bodies: Bodies, kept: map<nat, Kept>, largest: nat, i: nat)
    requires Core(env, s.segs, bodies, s.index, kept, largest, s.nextId) && s.segs.cur.Some?
    requires Exact(s.segs, s.index, kept, s.floor) && i < |s.index|
    ensures var t := Reclaim(s);
      Agree(ReplayDisk(s.segs.disk, s.segs.nums), ReplayDisk(t.segs.disk, t.segs.nums), s.index[i].id)
  {
    var orphans := Orphans(s.segs.nums, Referenced(s.index));
    OrphansAre(s.segs.nums, Referenced(s.index));
    forall n | n in orphans && n in s.segs.disk && n != Last(s.segs.nums)
      ensures Silent(s.segs.disk[n].meta, s.index[i].id)
    {
      OrphanIsSilent(env, s.segs, bodies, s.index, kept, largest, s.nextId, s.floor, n, i);
    }
    AgreeDropAll(s.segs, orphans, s.index[i].id);
  }

  // ----- replay of an exact log -----

  /** The same records have only one order by id. */
  lemma SortedUnique(a: seq<MetaRec>, b: seq<MetaRec>)
    requires SortedIndex(a) && SortedIndex(b) && SameMembers(a, b)
    ensures a == b
  {
    OneListing(a, b, (x: MetaRec, y: MetaRec) => x.id < y.id);
  }

  lemma ReplayFloor(s: Segs, floor: nat)
    requires SegsOk(s) && FloorsOk(s, floor)
    ensures ReplayDisk(s.disk, s.nums).floor == floor
  {
    DiskBounds(s.disk, s.nums);
    var r := ReplayDisk(s.disk, s.nums);
    if floor > 0 {
      var n :| n in s.disk && Floor(floor) in s.disk[n].meta;
      assert n in s.nums;
    }
    if r.floor > 0 {
      var n :| n in s.nums && n in s.disk && Floor(r.floor) in s.disk[n].meta;
    }
  }

  lemma IndexedIsLive(s: Segs, index: seq<MetaRec>, rec: MetaRec)
    requires AllLive(s, index) && rec in index
    ensures var r := ReplayDisk(s.disk, s.nums);
      rec.id in r.live && r.live[rec.id] == rec && rec.id <= r.maxSeen
  {
    DiskBounds(s.disk, s.nums);
    var i :| 0 <= i < |index| && index[i] == rec;
    assert LiveIs(s.disk, s.nums, index[i]);
    DiskLiveFrom(s.disk, s.nums, rec.id);
    var n :| n in s.nums && n in s.disk && Msg(rec) in s.disk[n].meta;
    assert LineId(Msg(rec)) == rec.id;
  }

  /** Replay of an exact log is the index, record for record and in order. */
  lemma ReplayIsIndex(s: Segs, index: seq<MetaRec>, kept: map<nat, Kept>, floor: nat, retention: Retention)
    requires SegsOk(s) && Exact(s, index, kept, floor) && SortedIndex(index)
    ensures Reopened(s, retention).index == index && Reopened(s, retention).floor == floor
  {
    var r := ReplayDisk(s.disk, s.nums);
    ReplayFloor(s, floor);
    forall id | id in r.live ensures r.live[id].id == id {
      DiskLiveFrom(s.disk, s.nums, id);
    }
    CollectIs(r.live, r.floor, r.maxSeen + 1);
    var collected := Collect(r.live, r.floor, r.maxSeen + 1);
    forall rec ensures rec in collected <==> rec in index {
      if rec in collected {
        CollectedIsIndexed(s, index, kept, floor, rec.id);
      }
      if rec in index {
        IndexedIsLive(s, index, rec);
        var i :| 0 <= i < |index| && index[i] == rec;
      }
    }
    SortedUnique(collected, index);
  }

  lemma CollectedIsIndexed(s: Segs, index: seq<MetaRec>, kept: map<nat, Kept>, floor: nat, id: nat)
    requires Exact(s, index, kept, floor) && id >= floor && id in ReplayDisk(s.disk, s.nums).live
    ensures ReplayDisk(s.disk, s.nums).live[id] in index
  {
    var rec := ReplayDisk(s.disk, s.nums).live[id];
    DiskLiveFrom(s.disk, s.nums, id);
    var n :| n in s.nums && n in s.disk && Msg(rec) in s.disk[n].meta;
    assert Has(index, rec.id);
    var i :| 0 <= i < |index| && index[i].id == id;
    assert LiveIs(s.disk, s.nums, index[i]);
  }

  lemma ExactReopened(s: Segs, index: seq<MetaRec>, kept: map<nat, Kept>, floor: nat)
    requires Exact(s, index, kept, floor)
    ensures Exact(s.(cur := None), index, kept, floor)
  {
    forall i | 0 <= i < |index| ensures LiveIs(s.disk, s.nums, index[i]) {
    }
  }

  // ----- the operations -----

  ghost predicate ExactState(s: State, h: History) {
    Exact(s.segs, s.index, h.kept, s.floor)
  }

  lemma FloorBelowNext(env: Env, s: State, h: History)
    requires Inv(env, s, h) && ExactState(s, h)
    ensures s.floor <= s.nextId
  {
    if s.floor > 0 {
      var n :| n in s.segs.disk && Floor(s.floor) in s.segs.disk[n].meta;
      assert LineOk(env, h.bodies, Largest(h), s.nextId, n, Floor(s.floor));
    }
  }

  lemma StoreExactly(env: Env, s: State, h: History, msg: NewMessage)
    requires Inv(env, s, h) && ExactState(s, h) && Legal(env, s, Append(msg, 0))
    ensures ExactState(Store(env, s, msg), AfterStore(env, s, h, msg))
  {
    var open := EnsureOpen(env, s.segs, Incoming(msg));
    EnsureOpenDelivers(env, s.segs, Incoming(msg));
    CoreOpen(env, s.segs, h.bodies, s.index, h.kept, Largest(h), s.nextId, Incoming(msg));
    ExactOpen(s.segs, open, s.index, h.kept, s.floor);
    FloorBelowNext(env, s, h);
    ExactMessage(env, open, Sync(h.bodies, open.disk), s.index, h.kept, s.floor, Largest(h), s.nextId, msg);
  }

  /** Shrinking the index, writing the floor that says so, and reclaiming. */
  lemma FloorExactly(env: Env, s: State, h: History, index': seq<MetaRec>, kept': map<nat, Kept>, floor: nat)
    requires Inv(env, s, h) && ExactState(s, h)
    requires SortedIndex(index') && forall rec :: rec in index' ==> rec in s.index
    requires forall id :: id in kept' ==> id in h.kept && kept'[id] == h.kept[id] && InIndex(index', h.kept[id].rec)
    requires s.floor <= floor <= s.nextId && forall id :: id in kept' ==> floor <= h.kept[id].rec.id
    requires forall i :: 0 <= i < |s.index| && s.index[i].id >= floor ==> Has(index', s.index[i].id)
    requires AllKept(index', kept', floor)
    ensures var t := Reclaim(s.(index := index', floor := floor, segs := AppendMeta(env, s.segs, Floor(floor))));
      ExactState(t, h.(kept := kept', bodies := Sync(h.bodies, t.segs.disk)))
  {
    var segs := AppendMeta(env, s.segs, Floor(floor));
    CoreShrink(env, s.segs, h.bodies, s.index, h.kept, Largest(h), s.nextId, index', kept');
    CoreFloor(env, s.segs, h.bodies, index', kept', Largest(h), s.nextId, floor);
    FloorLineExactly(env, s, h, index', kept', floor);
    ExactReclaim(env, s.(index := index', floor := floor, segs := segs), Sync(h.bodies, segs.disk), kept', Largest(h));
  }

  lemma FloorLineExactly(env: Env, s: State, h: History, index': seq<MetaRec>, kept': map<nat, Kept>, floor: nat)
    requires Limits(env) && SegsOk(s.segs) && ExactState(s, h)
    requires forall rec :: rec in index' ==> rec in s.index
    requires s.floor <= floor
    requires forall i :: 0 <= i < |s.index| && s.index[i].id >= floor ==> Has(index', s.index[i].id)
    requires AllKept(index', kept', floor)
    ensures var t := AppendMeta(env, s.segs, Floor(floor));
      && Exact(t, index', kept', floor)
      && t.nums != [] && Last(t.nums) in t.disk && Floor(floor) in t.disk[Last(t.nums)].meta
  {
    var open := EnsureOpen(env, s.segs, 0);
    EnsureOpenDelivers(env, s.segs, 0);
    ExactOpen(s.segs, open, s.index, h.kept, s.floor);
    ExactFloor(open, s.index, h.kept, s.floor, index', kept', floor);
  }

  lemma EvictionExactly(s: State, h: History, index': seq<MetaRec>)
    requires ExactState(s, h) && SortedIndex(s.index)
    requires |index'| < |s.index| && index' == s.index[|s.index| - |index'|..]
    requires forall i :: 0 <= i < |s.index| ==> s.index[i].id < s.nextId
    requires s.floor <= s.nextId
    ensures var floor := if index' == [] then s.nextId else index'[0].id;
      && s.floor <= floor
      && (forall i :: 0 <= i < |s.index| && s.index[i].id >= floor ==> Has(index', s.index[i].id))
      && AllKept(index', h.kept - Evicted(s.index, index'), floor)
  {
    var cut := |s.index| - |index'|;
    if index' != [] {
      assert index'[0] == s.index[cut];
      forall i | 0 <= i < |s.index| && s.index[i].id >= index'[0].id ensures Has(index', s.index[i].id) {
        assert i >= cut;
        assert index'[i - cut].id == s.index[i].id;
      }
      forall i | 0 <= i < |index'|
        ensures index'[i].id in h.kept - Evicted(s.index, index') && index'[0].id <= index'[i].id
      {
        assert index'[i] == s.index[cut + i];
      }
    }
  }

  lemma IndexBelowNext(env: Env, s: State, h: History)
    requires Inv(env, s, h)
    ensures forall i :: 0 <= i < |s.index| ==> s.index[i].id < s.nextId
  {
    forall i | 0 <= i < |s.index| ensures s.index[i].id < s.nextId {
      assert RecOk(env, s.segs, h.bodies, Largest(h), s.index[i]);
    }
  }

  lemma EnforceExactly(env: Env, s: State, h: History, now: int)
    requires Inv(env, s, h) && ExactState(s, h)
    ensures ExactState(Enforce(env, s, now), AfterEnforce(env, s, h, now))
  {
    var index' := Retained(s.index, s.retention, now);
    if |index'| == |s.index| {
      NoEviction(env, s, h, now);
    } else {
      IndexBelowNext(env, s, h);
      FloorBelowNext(env, s, h);
      EvictionLeavesKept(env, s, h, index');
      EvictionExactly(s, h, index');
      FloorExactly(env, s, h, index', h.kept - Evicted(s.index, index'),
                   if index' == [] then s.nextId else index'[0].id);
    }
  }

  lemma ClearExactly(env: Env, s: State, h: History)
    requires Inv(env, s, h) && ExactState(s, h)
    ensures ExactState(Clear(env, s), AfterClear(env, s, h))
  {
    IndexBelowNext(env, s, h);
    FloorBelowNext(env, s, h);
    FloorExactly(env, s, h, [], map[], s.nextId);
  }

  lemma RegroupExactly(env: Env, s: State, h: History, id: nat, group: Option<nat>)
    requires Inv(env, s, h) && ExactState(s, h)
    ensures ExactState(SetGroup(env, s, id, group), AfterRegroup(env, s, h, id, group))
  {
    var p := Position(s.index, id);
    if p.Some? && s.index[p.value].group != group {
      var open := EnsureOpen(env, s.segs, 0);
      EnsureOpenDelivers(env, s.segs, 0);
      ExactOpen(s.segs, open, s.index, h.kept, s.floor);
      ExactRegroup(open, s.index, h.kept, s.floor, p.value, group);
    }
  }

  lemma ReopenExactly(env: Env, s: State, h: History, retention: Retention)
    requires Inv(env, s, h) && ExactState(s, h)
    ensures ExactState(Reopened(s.segs, retention), h)
  {
    ReplayIsIndex(s.segs, s.index, h.kept, s.floor, retention);
    ExactReopened(s.segs, s.index, h.kept, s.floor);
  }
}
