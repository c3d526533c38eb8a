/** Every operation of the mail store keeps the invariant. */
module StoreSteps {
  import opened Wrappers
  import opened StoreModel
  import opened SegmentLaws
  import opened BodyFiles
  import opened StoreInvariant

  // ----- writing a message -----

  function AddBody(bodies: Bodies, n: nat, b: BodyRec): Bodies
    requires n in bodies
  {
    bodies[n := bodies[n] + [b]]
  }

  /** What an append into the open segment assumes. */
  ghost predicate ReadyFor(env: Env, s: Segs, bodies: Bodies, largest: nat, id: nat, msg: NewMessage) {
    && SegsOk(s) && s.cur.Some? && s.cur.value.num in s.disk
    && bodies.Keys == s.disk.Keys
    && largest < id
    && |env.enc(NextBody(s, id, msg))| < 0x1_0000_0000
  }

  lemma AddLoc(env: Env, bodies: Bodies, n: nat, b: BodyRec, rec: MetaRec)
    requires n in bodies && LocOk(env, bodies, rec) && rec.id != b.id
    ensures LocOk(env, AddBody(bodies, n, b), rec)
  {
    var bodies' := AddBody(bodies, n, b);
    if rec.seg in bodies {
      var k: nat :| Located(env, bodies[rec.seg], rec, k);
      LocatedGrows(env, bodies[rec.seg], b, rec, k);
      assert Located(env, bodies'[rec.seg], rec, k);
    }
  }

  lemma AddIdsHere(bodies: seq<BodyRec>, b: BodyRec, largest: nat)
    requires IdsWithin(bodies, largest) && IdsAscend(bodies) && largest < b.id
    ensures IdsWithin(bodies + [b], b.id) && IdsAscend(bodies + [b])
  {
  }

  lemma AddIds(bodies: Bodies, n: nat, b: BodyRec, largest: nat)
    requires n in bodies && IdsOk(bodies, largest) && largest < b.id
    requires forall m :: m in bodies ==> m <= n
    ensures IdsOk(AddBody(bodies, n, b), b.id)
  {
    var bodies': Bodies := AddBody(bodies, n, b);
    AddIdsHere(bodies[n], b, largest);
    forall m | m in bodies' ensures IdsWithin(bodies'[m], b.id) && IdsAscend(bodies'[m]) {
      assert IdsWithin(bodies[m], largest) && IdsAscend(bodies[m]);
    }
    forall m, m' | m in bodies' && m' in bodies' && m < m' ensures IdsBelow(bodies'[m], bodies'[m']) {
      AddIdsAcross(bodies[m], bodies[m'], b, largest);
    }
  }

  lemma AddIdsAcross(earlier: seq<BodyRec>, later: seq<BodyRec>, b: BodyRec, largest: nat)
    requires IdsWithin(earlier, largest) && largest < b.id && IdsBelow(earlier, later)
    ensures IdsBelow(earlier, later + [b])
  {
  }

  lemma MessageBodies(env: Env, s: Segs, bodies: Bodies, largest: nat, id: nat, msg: NewMessage)
    requires ReadyFor(env, s, bodies, largest, id, msg)
    requires BodiesOk(env, s, bodies) && OwnLines(s, bodies)
    ensures var b := AddBody(bodies, s.cur.value.num, NextBody(s, id, msg));
      BodiesOk(env, PutMessage(env, s, id, msg), b) && OwnLines(PutMessage(env, s, id, msg), b)
  {
    var m := s.cur.value.num;
    var t := PutMessage(env, s, id, msg);
    var b := NextBody(s, id, msg);
    var bodies' := AddBody(bodies, m, b);
    assert (bodies[m] + [b])[..|bodies[m]|] == bodies[m];
    assert bodies'.Keys == t.disk.Keys;
    forall n, k | n in bodies' && n in t.disk && 0 <= k < |bodies'[n]|
      ensures HasOwnLine(t.disk[n].meta, n, bodies'[n][k].id)
    {
      var rec := NextRec(env, s, id, msg);
      if n == m && k == |bodies[m]| {
        assert Msg(rec) in t.disk[n].meta;
      } else {
        assert HasOwnLine(s.disk[n].meta, n, bodies[n][k].id);
        var own :| Msg(own) in s.disk[n].meta && own.id == bodies[n][k].id && own.seg == n;
        assert Msg(own) in t.disk[n].meta;
      }
    }
  }

  lemma NewRecLoc(env: Env, s: Segs, bodies: Bodies, largest: nat, id: nat, msg: NewMessage)
    requires ReadyFor(env, s, bodies, largest, id, msg)
    requires BodiesOk(env, s, bodies) && IdsOk(bodies, largest)
    ensures var m := s.cur.value.num; var b := AddBody(bodies, m, NextBody(s, id, msg));
      && LocOk(env, b, NextRec(env, s, id, msg))
      && Located(env, b[m], NextRec(env, s, id, msg), |bodies[m]|)
  {
    var m := s.cur.value.num;
    var b := NextBody(s, id, msg);
    var bodies' := AddBody(bodies, m, b);
    RenderLength(env, bodies[m]);
    OffsetGrows(env, bodies[m], b, |bodies[m]|);
    assert Located(env, bodies'[m], NextRec(env, s, id, msg), |bodies[m]|);
  }

  lemma MessageLines(env: Env, s: Segs, bodies: Bodies, largest: nat, id: nat, msg: NewMessage)
    requires ReadyFor(env, s, bodies, largest, id, msg)
    requires BodiesOk(env, s, bodies) && IdsOk(bodies, largest)
    requires LinesOk(env, s, bodies, largest, id)
    ensures LinesOk(env, PutMessage(env, s, id, msg),
                    AddBody(bodies, s.cur.value.num, NextBody(s, id, msg)), id, id + 1)
  {
    var m := s.cur.value.num;
    var t := PutMessage(env, s, id, msg);
    var b := NextBody(s, id, msg);
    var bodies': Bodies := AddBody(bodies, m, b);
    NewRecLoc(env, s, bodies, largest, id, msg);
    forall n, line | n in t.disk && line in t.disk[n].meta
      ensures LineOk(env, bodies', id, id + 1, n, line)
    {
      if line in s.disk[n].meta {
        assert LineOk(env, bodies, largest, id, n, line);
        if line.Msg? {
          AddLoc(env, bodies, m, b, line.rec);
        }
      } else {
        assert line == Msg(NextRec(env, s, id, msg));
      }
    }
  }

  lemma MessageDisk(env: Env, s: Segs, bodies: Bodies, largest: nat, id: nat, msg: NewMessage)
    requires ReadyFor(env, s, bodies, largest, id, msg)
    requires DiskOk(env, s, bodies, largest, id)
    ensures DiskOk(env, PutMessage(env, s, id, msg),
                   AddBody(bodies, s.cur.value.num, NextBody(s, id, msg)), id, id + 1)
  {
    PutMessageKeepsOk(env, s, id, msg);
    MessageBodies(env, s, bodies, largest, id, msg);
    MessageLines(env, s, bodies, largest, id, msg);
    forall m | m in bodies ensures m <= s.cur.value.num {
      NumsBounded(s, m);
    }
    AddIds(bodies, s.cur.value.num, NextBody(s, id, msg), largest);
  }

  lemma MessageIndex(env: Env, s: Segs, bodies: Bodies, largest: nat, id: nat, msg: NewMessage, index: seq<MetaRec>)
    requires ReadyFor(env, s, bodies, largest, id, msg)
    requires BodiesOk(env, s, bodies) && IdsOk(bodies, largest)
    requires IndexOk(env, s, bodies, largest, index)
    ensures IndexOk(env, PutMessage(env, s, id, msg),
                    AddBody(bodies, s.cur.value.num, NextBody(s, id, msg)), id,
                    index + [NextRec(env, s, id, msg)])
  {
    var m := s.cur.value.num;
    var t := PutMessage(env, s, id, msg);
    var b := NextBody(s, id, msg);
    NewRecLoc(env, s, bodies, largest, id, msg);
    var rec := NextRec(env, s, id, msg);
    forall i | 0 <= i < |index| ensures RecOk(env, t, AddBody(bodies, m, b), id, index[i]) && index[i].id < id {
      assert RecOk(env, s, bodies, largest, index[i]);
      AddLoc(env, bodies, m, b, index[i]);
    }
    SortedSnoc(index, rec);
    var index' := index + [rec];
    forall i | 0 <= i < |index'| ensures RecOk(env, t, AddBody(bodies, m, b), id, index'[i]) {
      assert i < |index| ==> RecOk(env, t, AddBody(bodies, m, b), id, index[i]);
    }
  }

  lemma SortedSnoc(index: seq<MetaRec>, rec: MetaRec)
    requires SortedIndex(index) && forall i :: 0 <= i < |index| ==> index[i].id < rec.id
    ensures SortedIndex(index + [rec])
  {
  }

  lemma MessageKeepsAtts(env: Env, s: Segs, id: nat, msg: NewMessage, k: Kept)
    requires SegsOk(s) && s.cur.Some? && s.cur.value.num in s.disk
    requires k.rec.seg in s.disk && AttsOk(s.disk[k.rec.seg], k)
    ensures AttsOk(PutMessage(env, s, id, msg).disk[k.rec.seg], k)
  {
    var t := PutMessage(env, s, id, msg);
    var f, f' := s.disk[k.rec.seg], t.disk[k.rec.seg];
    forall i | 0 <= i < |Atts(k)| ensures AttAt(f', k.body.spots[i], Atts(k)[i]) {
      assert AttAt(f, k.body.spots[i], Atts(k)[i]);
      var lo, hi := k.body.spots[i].0, k.body.spots[i].0 + k.body.spots[i].1;
      assert f'.att.value[lo..hi] == f.att.value[lo..hi];
    }
  }

  lemma MessageKept(env: Env, s: Segs, bodies: Bodies, largest: nat, id: nat, msg: NewMessage, k: Kept)
    requires ReadyFor(env, s, bodies, largest, id, msg)
    requires KeptOnDisk(env, s, bodies, k) && k.rec.id <= largest
    ensures KeptOnDisk(env, PutMessage(env, s, id, msg),
                       AddBody(bodies, s.cur.value.num, NextBody(s, id, msg)), k)
  {
    var m := s.cur.value.num;
    var t := PutMessage(env, s, id, msg);
    var b := NextBody(s, id, msg);
    var line := Msg(NextRec(env, s, id, msg));
    PutLineLive(Replay(map[], 0, 0), s.disk[k.rec.seg].meta, line, k);
    MessageKeepsAtts(env, s, id, msg, k);
    PutLineNothingAgainst(s, line, k);
    assert forall n :: n in t.disk ==> t.disk[n].meta == PutLine(s, line).disk[n].meta;
    var i: nat :| Located(env, bodies[k.rec.seg], k.rec, i) && bodies[k.rec.seg][i] == k.body;
    LocatedGrows(env, bodies[k.rec.seg], b, k.rec, i);
    assert Located(env, AddBody(bodies, m, b)[k.rec.seg], k.rec, i);
  }

  function KeptOf(env: Env, s: Segs, id: nat, msg: NewMessage): Kept
    requires s.cur.Some? && s.cur.value.num in s.disk
  {
    Kept(msg, NextRec(env, s, id, msg), NextBody(s, id, msg))
  }

  lemma MessageAtts(env: Env, s: Segs, id: nat, msg: NewMessage)
    requires SegsOk(s) && s.cur.Some? && s.cur.value.num in s.disk
    requires |Flatten(KeptData(msg.mail.attachments))| < 0x1_0000_0000
    ensures AttsOk(PutMessage(env, s, id, msg).disk[s.cur.value.num], KeptOf(env, s, id, msg))
  {
    var m := s.cur.value.num;
    var f' := PutMessage(env, s, id, msg).disk[m];
    var k := KeptOf(env, s, id, msg);
    forall i | 0 <= i < |Atts(k)| ensures AttAt(f', k.body.spots[i], Atts(k)[i]) {
      forall j | 0 <= j < |Atts(k)| ensures |Atts(k)[j]| < 0x1_0000_0000 {
        FlattenBounds(Atts(k), j);
      }
      assert AttStart(s) == |AttBytes(s.disk[m])|;
      SpotsSlice(AttStart(s), AttBytes(s.disk[m]), Atts(k), i);
    }
  }

  lemma MessageNothingAgainst(env: Env, s: Segs, bodies: Bodies, largest: nat, id: nat, msg: NewMessage)
    requires SegsOk(s) && s.cur.Some? && s.cur.value.num in s.disk && largest < id
    requires LinesOk(env, s, bodies, largest, id)
    ensures NothingAgainst(PutMessage(env, s, id, msg), KeptOf(env, s, id, msg))
  {
    NothingYet(env, s, bodies, largest, id);
    forall n | n in s.disk ensures n <= s.cur.value.num {
      NumsBounded(s, n);
    }
  }

  lemma MessageNewKept(env: Env, s: Segs, bodies: Bodies, largest: nat, id: nat, msg: NewMessage)
    requires ReadyFor(env, s, bodies, largest, id, msg)
    requires DiskOk(env, s, bodies, largest, id)
    requires |Flatten(KeptData(msg.mail.attachments))| < 0x1_0000_0000
    ensures KeptOnDisk(env, PutMessage(env, s, id, msg),
                       AddBody(bodies, s.cur.value.num, NextBody(s, id, msg)), KeptOf(env, s, id, msg))
  {
    var m := s.cur.value.num;
    var k := KeptOf(env, s, id, msg);
    var bodies' := AddBody(bodies, m, NextBody(s, id, msg));
    MessageAtts(env, s, id, msg);
    NewRecLoc(env, s, bodies, largest, id, msg);
    assert Located(env, bodies'[m], k.rec, |bodies[m]|) && bodies'[m][|bodies[m]|] == k.body;
    var meta := s.disk[m].meta;
    assert (meta + [Msg(k.rec)])[..|meta|] == meta;
    MessageNothingAgainst(env, s, bodies, largest, id, msg);
  }

  /** Nothing on disk speaks of an id that was not given out, except perhaps a Del. */
  lemma NothingYet(env: Env, s: Segs, bodies: Bodies, largest: nat, id: nat)
    requires LinesOk(env, s, bodies, largest, id) && largest < id
    ensures forall n, rec :: n in s.disk && Msg(rec) in s.disk[n].meta ==> rec.id != id
    ensures forall n, f: nat :: n in s.disk && Floor(f) in s.disk[n].meta ==> f <= id
  {
    forall n, rec | n in s.disk && Msg(rec) in s.disk[n].meta ensures rec.id != id {
      assert LineOk(env, bodies, largest, id, n, Msg(rec));
    }
    forall n, f: nat | n in s.disk && Floor(f) in s.disk[n].meta ensures f <= id {
      assert LineOk(env, bodies, largest, id, n, Floor(f));
    }
  }

  // ----- the invariant apart from freshness, write by write -----

  lemma KeptOpen(env: Env, s: Segs, t: Segs, bodies: Bodies, index: seq<MetaRec>, kept: map<nat, Kept>)
    requires SegsOk(s) && Extended(s, t) && bodies.Keys == s.disk.Keys
    requires KeptOk(env, s, bodies, index, kept)
    ensures KeptOk(env, t, Sync(bodies, t.disk), index, kept)
  {
    forall id | id in kept ensures KeptOne(env, t, Sync(bodies, t.disk), index, id, kept[id]) {
      assert KeptOne(env, s, bodies, index, id, kept[id]);
      ExtendKept(env, s, t, bodies, kept[id]);
    }
  }

  lemma CoreOpen(env: Env, s: Segs, bodies: Bodies, index: seq<MetaRec>, kept: map<nat, Kept>,
                 largest: nat, nextId: nat, incoming: nat)
    requires Core(env, s, bodies, index, kept, largest, nextId) && incoming <= env.maxBody
    ensures var t := EnsureOpen(env, s, incoming);
      Core(env, t, Sync(bodies, t.disk), index, kept, largest, nextId)
  {
    var t := EnsureOpen(env, s, incoming);
    EnsureOpenDelivers(env, s, incoming);
    ExtendDisk(env, s, t, bodies, largest, nextId);
    ExtendIndex(env, s, t, bodies, largest, index);
    KeptOpen(env, s, t, bodies, index, kept);
  }

  lemma KeptPut(env: Env, s: Segs, bodies: Bodies, index: seq<MetaRec>, kept: map<nat, Kept>, line: MetaLine)
    requires SegsOk(s) && s.cur.Some? && KeptOk(env, s, bodies, index, kept)
    requires forall id :: id in kept ==> Harmless(line, kept[id])
    ensures KeptOk(env, PutLine(s, line), bodies, index, kept)
  {
    forall id | id in kept ensures KeptOne(env, PutLine(s, line), bodies, index, id, kept[id]) {
      assert KeptOne(env, s, bodies, index, id, kept[id]);
      PutLineKept(env, s, bodies, line, kept[id]);
    }
  }

  lemma IndexPut(env: Env, s: Segs, bodies: Bodies, index: seq<MetaRec>, largest: nat, line: MetaLine)
    requires s.cur.Some? && s.cur.value.num in s.disk && IndexOk(env, s, bodies, largest, index)
    ensures IndexOk(env, PutLine(s, line), bodies, largest, index)
  {
    forall i | 0 <= i < |index| ensures RecOk(env, PutLine(s, line), bodies, largest, index[i]) {
      assert RecOk(env, s, bodies, largest, index[i]);
    }
  }

  lemma CorePut(env: Env, s: Segs, bodies: Bodies, index: seq<MetaRec>, kept: map<nat, Kept>,
                largest: nat, nextId: nat, line: MetaLine)
    requires Core(env, s, bodies, index, kept, largest, nextId) && s.cur.Some?
    requires LineOk(env, bodies, largest, nextId, Last(s.nums), line)
    requires forall id :: id in kept ==> Harmless(line, kept[id])
    ensures Core(env, PutLine(s, line), bodies, index, kept, largest, nextId)
  {
    PutLineDisk(env, s, bodies, largest, nextId, line);
    IndexPut(env, s, bodies, index, largest, line);
    KeptPut(env, s, bodies, index, kept, line);
  }

  lemma {:induction false} CorePutDels(env: Env, s: Segs, bodies: Bodies, index: seq<MetaRec>,
                                       kept: map<nat, Kept>, largest: nat, nextId: nat, ids: seq<nat>)
    requires Core(env, s, bodies, index, kept, largest, nextId) && s.cur.Some?
    requires forall id :: id in kept ==> id !in ids && kept[id].rec.id == id
    ensures Core(env, PutDels(s, ids), bodies, index, kept, largest, nextId)
  {
    if ids != [] {
      var init := ids[..|ids| - 1];
      assert forall id :: id in init ==> id in ids;
      CorePutDels(env, s, bodies, index, kept, largest, nextId, init);
      CorePut(env, PutDels(s, init), bodies, index, kept, largest, nextId, Del(Last(ids)));
    }
  }

  lemma KeptShrink(env: Env, s: Segs, bodies: Bodies, index: seq<MetaRec>, kept: map<nat, Kept>,
                   index': seq<MetaRec>, kept': map<nat, Kept>)
    requires KeptOk(env, s, bodies, index, kept)
    requires forall id :: id in kept' ==> id in kept && kept'[id] == kept[id] && InIndex(index', kept[id].rec)
    ensures KeptOk(env, s, bodies, index', kept')
  {
    forall id | id in kept' ensures KeptOne(env, s, bodies, index', id, kept'[id]) {
      assert KeptOne(env, s, bodies, index, id, kept[id]);
    }
  }

  lemma IndexShrink(env: Env, s: Segs, bodies: Bodies, largest: nat, index: seq<MetaRec>, index': seq<MetaRec>)
    requires IndexOk(env, s, bodies, largest, index)
    requires SortedIndex(index') && forall rec :: rec in index' ==> rec in index
    ensures IndexOk(env, s, bodies, largest, index')
  {
    forall i | 0 <= i < |index'| ensures RecOk(env, s, bodies, largest, index'[i]) {
      assert index'[i] in index;
      var j :| 0 <= j < |index| && index[j] == index'[i];
      assert RecOk(env, s, bodies, largest, index[j]);
    }
  }

  lemma CoreShrink(env: Env, s: Segs, bodies: Bodies, index: seq<MetaRec>, kept: map<nat, Kept>,
                   largest: nat, nextId: nat, index': seq<MetaRec>, kept': map<nat, Kept>)
    requires Core(env, s, bodies, index, kept, largest, nextId)
    requires SortedIndex(index') && forall rec :: rec in index' ==> rec in index
    requires forall id :: id in kept' ==> id in kept && kept'[id] == kept[id] && InIndex(index', kept[id].rec)
    ensures Core(env, s, bodies, index', kept', largest, nextId)
  {
    KeptShrink(env, s, bodies, index, kept, index', kept');
    IndexShrink(env, s, bodies, largest, index, index');
  }

  lemma KeptDrop(env: Env, s: Segs, t: Segs, bodies: Bodies, index: seq<MetaRec>, kept: map<nat, Kept>)
    requires Reclaimed(s, t, index) && bodies.Keys == s.disk.Keys
    requires KeptOk(env, s, bodies, index, kept)
    ensures KeptOk(env, t, Sync(bodies, t.disk), index, kept)
  {
    forall id | id in kept ensures KeptOne(env, t, Sync(bodies, t.disk), index, id, kept[id]) {
      assert KeptOne(env, s, bodies, index, id, kept[id]);
      DropKept(env, s, t, bodies, kept[id], index);
    }
  }

  lemma CoreReclaim(env: Env, s: State, bodies: Bodies, kept: map<nat, Kept>, largest: nat)
    requires Core(env, s.segs, bodies, s.index, kept, largest, s.nextId) && s.segs.cur.Some?
    ensures var t := Reclaim(s);
      Core(env, t.segs, Sync(bodies, t.segs.disk), s.index, kept, largest, s.nextId)
  {
    var t := Reclaim(s);
    ReclaimIs(s);
    assert Reclaimed(s.segs, t.segs, s.index);
    DropDisk(env, s.segs, t.segs, bodies, largest, s.nextId, s.index);
    DropIndex(env, s.segs, t.segs, bodies, largest, s.index);
    KeptDrop(env, s.segs, t.segs, bodies, s.index, kept);
  }

  lemma SyncSync(bodies: Bodies, d1: map<nat, Files>, d2: map<nat, Files>)
    requires forall n :: n in d2 ==> n in d1
    ensures Sync(Sync(bodies, d1), d2) == Sync(bodies, d2)
  {
  }

  // ----- open, write, reclaim -----

  lemma SyncSameKeys(bodies: Bodies, d1: map<nat, Files>, d2: map<nat, Files>)
    requires d1.Keys == d2.Keys
    ensures Sync(bodies, d1) == Sync(bodies, d2)
  {
  }

  lemma OpenThenLine(env: Env, s: Segs, bodies: Bodies, line: MetaLine)
    requires env.maxRecords >= 1 && SegsOk(s)
    ensures var open := EnsureOpen(env, s, 0); var t := AppendMeta(env, s, line);
      && open.cur.Some? && t.cur.Some? && open.cur.value.num in open.disk && t == PutLine(open, line)
      && Sync(bodies, t.disk) == Sync(bodies, open.disk)
  {
    EnsureOpenIsOpen(env, s, 0);
    SyncSameKeys(bodies, EnsureOpen(env, s, 0).disk, AppendMeta(env, s, line).disk);
  }

  lemma CoreFloor(env: Env, s: Segs, bodies: Bodies, index: seq<MetaRec>, kept: map<nat, Kept>,
                  largest: nat, nextId: nat, floor: nat)
    requires Core(env, s, bodies, index, kept, largest, nextId)
    requires floor <= nextId && forall id :: id in kept ==> floor <= kept[id].rec.id
    ensures var t := AppendMeta(env, s, Floor(floor));
      && t.cur.Some?
      && Core(env, t, Sync(bodies, t.disk), index, kept, largest, nextId)
  {
    OpenThenLine(env, s, bodies, Floor(floor));
    CoreOpen(env, s, bodies, index, kept, largest, nextId, 0);
    CorePut(env, EnsureOpen(env, s, 0), Sync(bodies, EnsureOpen(env, s, 0).disk), index, kept, largest, nextId, Floor(floor));
  }

  lemma CoreDels(env: Env, s: Segs, bodies: Bodies, index: seq<MetaRec>, kept: map<nat, Kept>,
                 largest: nat, nextId: nat, ids: seq<nat>)
    requires Core(env, s, bodies, index, kept, largest, nextId)
    requires forall id :: id in kept ==> id !in ids && kept[id].rec.id == id
    ensures var open := EnsureOpen(env, s, 0);
      && open.cur.Some? && open.cur.value.num in open.disk
      && Core(env, PutDels(open, ids), Sync(bodies, PutDels(open, ids).disk), index, kept, largest, nextId)
  {
    var open := EnsureOpen(env, s, 0);
    CoreOpen(env, s, bodies, index, kept, largest, nextId, 0);
    EnsureOpenIsOpen(env, s, 0);
    CorePutDels(env, open, Sync(bodies, open.disk), index, kept, largest, nextId, ids);
    SyncSameKeys(bodies, open.disk, PutDels(open, ids).disk);
  }

  lemma CoreReclaimFrom(env: Env, s: State, orig: Bodies, kept: map<nat, Kept>, largest: nat)
    requires Core(env, s.segs, Sync(orig, s.segs.disk), s.index, kept, largest, s.nextId) && s.segs.cur.Some?
    ensures var t := Reclaim(s);
      Core(env, t.segs, Sync(orig, t.segs.disk), s.index, kept, largest, s.nextId)
  {
    CoreReclaim(env, s, Sync(orig, s.segs.disk), kept, largest);
    ReclaimIs(s);
    SyncSync(orig, s.segs.disk, Reclaim(s).segs.disk);
  }

  // ----- freshness -----

  lemma FreshPut(env: Env, s: Segs, line: MetaLine, id: nat)
    requires TakesLines(env, s) && s.cur.Some? && s.cur.value.num == Last(s.nums)
    requires NewestHolds(s, id) || LineId(line) >= id
    ensures TakesLines(env, PutLine(s, line)) && NewestHolds(PutLine(s, line), id)
  {
    var t := PutLine(s, line);
    var m := Last(s.nums);
    assert line in t.disk[m].meta;
    if LineId(line) < id {
      var l :| l in s.disk[m].meta && LineId(l) >= id;
      assert l in t.disk[m].meta;
    }
  }

  lemma {:induction false} TakesLinesDels(env: Env, s: Segs, ids: seq<nat>)
    requires TakesLines(env, s) && s.cur.Some? && s.cur.value.num == Last(s.nums)
    ensures TakesLines(env, PutDels(s, ids))
  {
    if ids != [] {
      TakesLinesDels(env, s, ids[..|ids| - 1]);
    }
  }

  lemma {:induction false} FreshPutDels(env: Env, s: Segs, ids: seq<nat>, id: nat)
    requires TakesLines(env, s) && s.cur.Some? && s.cur.value.num == Last(s.nums)
    requires NewestHolds(s, id) || id in ids
    ensures TakesLines(env, PutDels(s, ids)) && NewestHolds(PutDels(s, ids), id)
  {
    if ids != [] {
      var init := ids[..|ids| - 1];
      assert ids == init + [Last(ids)];
      if NewestHolds(s, id) || id in init {
        FreshPutDels(env, s, init, id);
      } else {
        TakesLinesDels(env, s, init);
      }
      FreshPut(env, PutDels(s, init), Del(Last(ids)), id);
    }
  }

  lemma FreshReclaim(env: Env, s: State, id: nat)
    requires SegsOk(s.segs) && s.segs.cur.Some? && TakesLines(env, s.segs) && NewestHolds(s.segs, id)
    ensures TakesLines(env, Reclaim(s).segs) && NewestHolds(Reclaim(s).segs, id)
  {
    ReclaimIs(s);
  }

  /** What `ensure_open(0)` keeps of a line that must not be lost. */
  lemma FreshOpen(env: Env, s: Segs, id: nat)
    requires env.maxRecords >= 1 && SegsOk(s)
    ensures var t := EnsureOpen(env, s, 0);
      && TakesLines(env, t) && t.cur.Some? && t.cur.value.num == Last(t.nums) && SegsOk(t)
      && (TakesLines(env, s) && NewestHolds(s, id) ==> NewestHolds(t, id))
  {
    EnsureOpenDelivers(env, s, 0);
  }
}
