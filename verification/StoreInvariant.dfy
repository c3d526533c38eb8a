/** The invariant of the mail store over runs with deletes, evictions, segment drops
    and restarts, and what each elementary write keeps of it. */
module StoreInvariant {
  import opened Octets
  import opened Wrappers
  import opened StoreModel
  import opened SegmentLaws
  import opened BodyFiles

  /** A message that was stored and has not been deleted, cleared or evicted since. */
  datatype Kept = Kept(msg: NewMessage, rec: MetaRec, body: BodyRec)

  /** What happened so far: the ids given out, the messages still owed to the
      user, and the records in each body file. */
  datatype History = History(issued: seq<nat>, kept: map<nat, Kept>, bodies: map<nat, seq<BodyRec>>)

  type Bodies = map<nat, seq<BodyRec>>

  function Largest(h: History): nat {
    if h.issued == [] then 0 else Last(h.issued)
  }

  ghost predicate Limits(env: Env) {
    env.maxRecords >= 1 && env.maxBody < 0x1_0000_0000
  }

  predicate SameButGroup(a: MetaRec, b: MetaRec) {
    a.(group := b.group) == b
  }

  /** The bodies of the segments on disk; a new segment starts without any. */
  function Sync(bodies: Bodies, disk: map<nat, Files>): Bodies {
    map n | n in disk :: if n in bodies then bodies[n] else []
  }

  // ----- the parts of the invariant -----

  ghost predicate BodiesOk(env: Env, s: Segs, bodies: Bodies) {
    && bodies.Keys == s.disk.Keys
    && forall n :: n in s.disk ==> s.disk[n].body == Render(env, bodies[n])
  }

  predicate IdsWithin(bodies: seq<BodyRec>, largest: nat) {
    forall k :: 0 <= k < |bodies| ==> 1 <= bodies[k].id <= largest
  }

  predicate IdsAscend(bodies: seq<BodyRec>) {
    forall k, k' :: 0 <= k < k' < |bodies| ==> bodies[k].id < bodies[k'].id
  }

  predicate IdsBelow(bodies: seq<BodyRec>, later: seq<BodyRec>) {
    forall k, k' :: 0 <= k < |bodies| && 0 <= k' < |later| ==> bodies[k].id < later[k'].id
  }

  /** Body lines carry ids that were given out, in increasing order along the log. */
  ghost predicate IdsOk(bodies: Bodies, largest: nat) {
    && (forall n :: n in bodies ==> IdsWithin(bodies[n], largest) && IdsAscend(bodies[n]))
    && (forall n, n' | n in bodies && n' in bodies && n < n' :: IdsBelow(bodies[n], bodies[n']))
  }

  ghost predicate HasOwnLine(meta: seq<MetaLine>, n: nat, id: nat) {
    exists rec :: Msg(rec) in meta && rec.id == id && rec.seg == n
  }

  /** Every body line has its metadata line in the same segment. */
  ghost predicate OwnLines(s: Segs, bodies: Bodies) {
    forall n, k {:trigger HasOwnLine(s.disk[n].meta, n, bodies[n][k].id)} ::
      n in bodies && n in s.disk && 0 <= k < |bodies[n]| ==> HasOwnLine(s.disk[n].meta, n, bodies[n][k].id)
  }

  /** A record points at the only body line with its id, or at a segment that is gone. */
  ghost predicate LocOk(env: Env, bodies: Bodies, rec: MetaRec) {
    && (rec.seg in bodies ==> exists k: nat :: Located(env, bodies[rec.seg], rec, k))
    && (forall n, k :: n in bodies && 0 <= k < |bodies[n]| && bodies[n][k].id == rec.id ==> n == rec.seg)
  }

  ghost predicate LineOk(env: Env, bodies: Bodies, largest: nat, nextId: nat, n: nat, line: MetaLine) {
    match line
    case Msg(rec) => 1 <= rec.id <= largest && rec.seg <= n && LocOk(env, bodies, rec)
    case Del(_) => true
    case Floor(f) => f <= nextId
  }

  ghost predicate LinesOk(env: Env, s: Segs, bodies: Bodies, largest: nat, nextId: nat) {
    forall n, line {:trigger LineOk(env, bodies, largest, nextId, n, line)} ::
      n in s.disk && line in s.disk[n].meta ==> LineOk(env, bodies, largest, nextId, n, line)
  }

  ghost predicate DiskOk(env: Env, s: Segs, bodies: Bodies, largest: nat, nextId: nat) {
    && SegsOk(s) && BodiesOk(env, s, bodies) && IdsOk(bodies, largest)
    && OwnLines(s, bodies) && LinesOk(env, s, bodies, largest, nextId)
  }

  /** A record the index may hold. */
  ghost predicate RecOk(env: Env, s: Segs, bodies: Bodies, largest: nat, rec: MetaRec) {
    1 <= rec.id <= largest && s.nums != [] && rec.seg <= Last(s.nums) && LocOk(env, bodies, rec)
  }

  predicate SortedIndex(index: seq<MetaRec>) {
    forall i, j :: 0 <= i < j < |index| ==> index[i].id < index[j].id
  }

  ghost predicate IndexOk(env: Env, s: Segs, bodies: Bodies, largest: nat, index: seq<MetaRec>) {
    SortedIndex(index) &&
    forall i {:trigger RecOk(env, s, bodies, largest, index[i])} ::
      0 <= i < |index| ==> RecOk(env, s, bodies, largest, index[i])
  }

  function Atts(k: Kept): seq<seq<Byte>> {
    KeptData(k.msg.mail.attachments)
  }

  /** The bytes at a spot of the attachment file. */
  predicate AttAt(f: Files, spot: (nat, nat), bytes: seq<Byte>) {
    && f.att.Some? && spot.0 + spot.1 <= |f.att.value|
    && f.att.value[spot.0..spot.0 + spot.1] == bytes
  }

  ghost predicate AttsOk(f: Files, k: Kept) {
    |k.body.spots| == |Atts(k)| &&
    forall i :: 0 <= i < |Atts(k)| ==> AttAt(f, k.body.spots[i], Atts(k)[i])
  }

  /** The record and the body line were made from the message. */
  predicate OfMessage(env: Env, id: nat, k: Kept) {
    && k.rec == MetaOf(env, id, k.msg, k.rec.seg, k.rec.off, k.rec.len)
    && k.body == BodyOf(id, k.msg, k.body.spots)
  }

  /** No line on disk speaks against a kept message: its copies differ in the group
      only, nothing deletes it after its own segment and every floor is below it. */
  ghost predicate NothingAgainst(s: Segs, k: Kept) {
    && (forall n, rec :: n in s.disk && Msg(rec) in s.disk[n].meta && rec.id == k.rec.id ==> SameButGroup(rec, k.rec))
    && (forall n :: n in s.disk && n > k.rec.seg ==> Del(k.rec.id) !in s.disk[n].meta)
    && (forall n, f: nat :: n in s.disk && Floor(f) in s.disk[n].meta ==> f <= k.rec.id)
  }

  ghost predicate KeptOnDisk(env: Env, s: Segs, bodies: Bodies, k: Kept) {
    && k.rec.seg in s.disk && k.rec.seg in bodies
    && (exists i: nat :: Located(env, bodies[k.rec.seg], k.rec, i) && bodies[k.rec.seg][i] == k.body)
    && k.rec.id in ReplayMeta(Replay(map[], 0, 0), s.disk[k.rec.seg].meta).live
    && AttsOk(s.disk[k.rec.seg], k)
    && NothingAgainst(s, k)
  }

  ghost predicate InIndex(index: seq<MetaRec>, rec: MetaRec) {
    exists i :: 0 <= i < |index| && SameButGroup(index[i], rec)
  }

  ghost predicate KeptOne(env: Env, s: Segs, bodies: Bodies, index: seq<MetaRec>, id: nat, k: Kept) {
    OfMessage(env, id, k) && InIndex(index, k.rec) && KeptOnDisk(env, s, bodies, k)
  }

  ghost predicate KeptOk(env: Env, s: Segs, bodies: Bodies, index: seq<MetaRec>, kept: map<nat, Kept>) {
    forall id {:trigger KeptOne(env, s, bodies, index, id, kept[id])} ::
      id in kept ==> KeptOne(env, s, bodies, index, id, kept[id])
  }

  /** The newest segment holds a line with an id at least `id`. */
  ghost predicate NewestHolds(s: Segs, id: nat) {
    s.nums != [] && Last(s.nums) in s.disk &&
    exists line :: line in s.disk[Last(s.nums)].meta && LineId(line) >= id
  }

  /** An id at least the largest one given out cannot leave the disk. */
  ghost predicate FreshOk(env: Env, s: Segs, h: History) {
    Largest(h) == 0 || Largest(h) in h.kept || (TakesLines(env, s) && NewestHolds(s, Largest(h)))
  }

  /** The invariant apart from freshness. */
  ghost predicate Core(env: Env, s: Segs, bodies: Bodies, index: seq<MetaRec>, kept: map<nat, Kept>,
                       largest: nat, nextId: nat)
  {
    && Limits(env) && largest < nextId
    && DiskOk(env, s, bodies, largest, nextId)
    && IndexOk(env, s, bodies, largest, index)
    && KeptOk(env, s, bodies, index, kept)
  }

  ghost predicate Inv(env: Env, s: State, h: History) {
    && Core(env, s.segs, h.bodies, s.index, h.kept, Largest(h), s.nextId)
    && Ascending(h.issued)
    && FreshOk(env, s.segs, h)
  }

  // ----- a new, empty segment changes nothing -----

  lemma ExtendLoc(env: Env, s: Segs, t: Segs, bodies: Bodies, rec: MetaRec)
    requires SegsOk(s) && Extended(s, t) && bodies.Keys == s.disk.Keys
    requires LocOk(env, bodies, rec) && s.nums != [] && rec.seg <= Last(s.nums)
    ensures LocOk(env, Sync(bodies, t.disk), rec)
  {
    var bodies': Bodies := Sync(bodies, t.disk);
    if t.disk != s.disk {
      assert Last(s.nums) in s.nums;
      assert rec.seg < Last(t.nums);
    }
  }

  lemma NumsBounded(s: Segs, n: nat)
    requires SegsOk(s) && n in s.disk
    ensures s.nums != [] && n <= Last(s.nums)
  {
    var i :| 0 <= i < |s.nums| && s.nums[i] == n;
  }

  lemma ExtendLines(env: Env, s: Segs, t: Segs, bodies: Bodies, largest: nat, nextId: nat)
    requires SegsOk(s) && Extended(s, t) && bodies.Keys == s.disk.Keys
    requires LinesOk(env, s, bodies, largest, nextId)
    ensures LinesOk(env, t, Sync(bodies, t.disk), largest, nextId)
  {
    var bodies': Bodies := Sync(bodies, t.disk);
    forall n, line | n in t.disk && line in t.disk[n].meta
      ensures LineOk(env, bodies', largest, nextId, n, line)
    {
      assert n in s.disk && line in s.disk[n].meta;
      assert LineOk(env, bodies, largest, nextId, n, line);
      if line.Msg? {
        NumsBounded(s, n);
        ExtendLoc(env, s, t, bodies, line.rec);
      }
    }
  }

  lemma SyncIds(bodies: Bodies, disk: map<nat, Files>, largest: nat)
    requires IdsOk(bodies, largest)
    ensures IdsOk(Sync(bodies, disk), largest)
  {
  }

  lemma ExtendBodies(env: Env, s: Segs, t: Segs, bodies: Bodies)
    requires Extended(s, t) && BodiesOk(env, s, bodies)
    ensures BodiesOk(env, t, Sync(bodies, t.disk))
  {
    assert Sync(bodies, t.disk).Keys == t.disk.Keys;
  }

  lemma ExtendOwn(s: Segs, t: Segs, bodies: Bodies)
    requires Extended(s, t) && bodies.Keys == s.disk.Keys && OwnLines(s, bodies)
    ensures OwnLines(t, Sync(bodies, t.disk))
  {
    var bodies': Bodies := Sync(bodies, t.disk);
    forall n: nat, k: nat | n in bodies' && n in t.disk && 0 <= k < |bodies'[n]|
      ensures HasOwnLine(t.disk[n].meta, n, bodies'[n][k].id)
    {
      assert n in bodies && bodies'[n] == bodies[n];
      assert HasOwnLine(s.disk[n].meta, n, bodies[n][k].id);
    }
  }

  lemma ExtendDisk(env: Env, s: Segs, t: Segs, bodies: Bodies, largest: nat, nextId: nat)
    requires DiskOk(env, s, bodies, largest, nextId) && Extended(s, t) && SegsOk(t)
    ensures DiskOk(env, t, Sync(bodies, t.disk), largest, nextId)
  {
    ExtendBodies(env, s, t, bodies);
    SyncIds(bodies, t.disk, largest);
    ExtendOwn(s, t, bodies);
    ExtendLines(env, s, t, bodies, largest, nextId);
  }

  lemma ExtendIndex(env: Env, s: Segs, t: Segs, bodies: Bodies, largest: nat, index: seq<MetaRec>)
    requires SegsOk(s) && Extended(s, t) && bodies.Keys == s.disk.Keys
    requires IndexOk(env, s, bodies, largest, index)
    ensures IndexOk(env, t, Sync(bodies, t.disk), largest, index)
  {
    forall i | 0 <= i < |index| ensures RecOk(env, t, Sync(bodies, t.disk), largest, index[i]) {
      assert RecOk(env, s, bodies, largest, index[i]);
      ExtendLoc(env, s, t, bodies, index[i]);
      assert Last(s.nums) in s.nums;
    }
  }

  lemma ExtendKept(env: Env, s: Segs, t: Segs, bodies: Bodies, k: Kept)
    requires SegsOk(s) && Extended(s, t) && bodies.Keys == s.disk.Keys
    requires KeptOnDisk(env, s, bodies, k)
    ensures KeptOnDisk(env, t, Sync(bodies, t.disk), k)
  {
    forall n | n in t.disk && n !in s.disk ensures t.disk[n].meta == [] {
    }
  }

  // ----- a metadata line -----

  lemma PutLineOwn(s: Segs, bodies: Bodies, line: MetaLine)
    requires SegsOk(s) && s.cur.Some? && OwnLines(s, bodies)
    ensures OwnLines(PutLine(s, line), bodies)
  {
    var t := PutLine(s, line);
    forall n, k | n in bodies && n in t.disk && 0 <= k < |bodies[n]|
      ensures HasOwnLine(t.disk[n].meta, n, bodies[n][k].id)
    {
      assert HasOwnLine(s.disk[n].meta, n, bodies[n][k].id);
      var rec :| Msg(rec) in s.disk[n].meta && rec.id == bodies[n][k].id && rec.seg == n;
      assert Msg(rec) in t.disk[n].meta;
    }
  }

  lemma PutLineLines(env: Env, s: Segs, bodies: Bodies, largest: nat, nextId: nat, line: MetaLine)
    requires SegsOk(s) && s.cur.Some? && LinesOk(env, s, bodies, largest, nextId)
    requires LineOk(env, bodies, largest, nextId, Last(s.nums), line)
    ensures LinesOk(env, PutLine(s, line), bodies, largest, nextId)
  {
    var t := PutLine(s, line);
    forall n, l | n in t.disk && l in t.disk[n].meta ensures LineOk(env, bodies, largest, nextId, n, l) {
      assert l in s.disk[n].meta || l == line;
    }
  }

  lemma PutLineDisk(env: Env, s: Segs, bodies: Bodies, largest: nat, nextId: nat, line: MetaLine)
    requires DiskOk(env, s, bodies, largest, nextId) && s.cur.Some?
    requires LineOk(env, bodies, largest, nextId, Last(s.nums), line)
    ensures DiskOk(env, PutLine(s, line), bodies, largest, nextId)
  {
    PutLineKeepsOk(s, line);
    PutLineOwn(s, bodies, line);
    PutLineLines(env, s, bodies, largest, nextId, line);
  }

  /** Lines that leave a kept message alone. */
  ghost predicate Harmless(line: MetaLine, k: Kept) {
    match line
    case Msg(rec) => rec.id == k.rec.id ==> SameButGroup(rec, k.rec)
    case Del(id) => id != k.rec.id
    case Floor(f) => f <= k.rec.id
  }

  lemma PutLineNothingAgainst(s: Segs, line: MetaLine, k: Kept)
    requires SegsOk(s) && s.cur.Some? && NothingAgainst(s, k) && Harmless(line, k)
    ensures NothingAgainst(PutLine(s, line), k)
  {
  }

  lemma PutLineLive(r: Replay, meta: seq<MetaLine>, line: MetaLine, k: Kept)
    requires k.rec.id in ReplayMeta(r, meta).live && Harmless(line, k)
    ensures k.rec.id in ReplayMeta(r, meta + [line]).live
  {
    assert (meta + [line])[..|meta|] == meta;
  }

  lemma PutLineKept(env: Env, s: Segs, bodies: Bodies, line: MetaLine, k: Kept)
    requires SegsOk(s) && s.cur.Some? && KeptOnDisk(env, s, bodies, k)
    requires Harmless(line, k)
    ensures KeptOnDisk(env, PutLine(s, line), bodies, k)
  {
    PutLineNothingAgainst(s, line, k);
    PutLineLive(Replay(map[], 0, 0), s.disk[k.rec.seg].meta, line, k);
  }

  // ----- dropping unreferenced segments -----

  /** `t` is `s` after segments were dropped that no record of the index is in. */
  ghost predicate Reclaimed(s: Segs, t: Segs, index: seq<MetaRec>) {
    && s.nums != [] && t.nums != [] && Last(t.nums) == Last(s.nums) && t.cur == s.cur
    && (forall n :: n in t.disk <==> n in s.disk && (n in Referenced(index) || n == Last(s.nums)))
    && (forall n :: n in t.disk ==> t.disk[n] == s.disk[n])
  }

  lemma DropLines(env: Env, s: Segs, t: Segs, bodies: Bodies, largest: nat, nextId: nat, index: seq<MetaRec>)
    requires LinesOk(env, s, bodies, largest, nextId) && Reclaimed(s, t, index)
    requires bodies.Keys == s.disk.Keys
    ensures LinesOk(env, t, Sync(bodies, t.disk), largest, nextId)
  {
    var bodies': Bodies := Sync(bodies, t.disk);
    forall n, line | n in t.disk && line in t.disk[n].meta
      ensures LineOk(env, bodies', largest, nextId, n, line)
    {
      assert LineOk(env, bodies, largest, nextId, n, line);
    }
  }

  lemma DropBodies(env: Env, s: Segs, t: Segs, bodies: Bodies, index: seq<MetaRec>)
    requires Reclaimed(s, t, index) && BodiesOk(env, s, bodies) && OwnLines(s, bodies)
    ensures BodiesOk(env, t, Sync(bodies, t.disk)) && OwnLines(t, Sync(bodies, t.disk))
  {
    assert Sync(bodies, t.disk).Keys == t.disk.Keys;
  }

  lemma DropDisk(env: Env, s: Segs, t: Segs, bodies: Bodies, largest: nat, nextId: nat, index: seq<MetaRec>)
    requires DiskOk(env, s, bodies, largest, nextId) && Reclaimed(s, t, index) && SegsOk(t)
    ensures DiskOk(env, t, Sync(bodies, t.disk), largest, nextId)
  {
    DropBodies(env, s, t, bodies, index);
    SyncIds(bodies, t.disk, largest);
    DropLines(env, s, t, bodies, largest, nextId, index);
  }

  lemma DropIndex(env: Env, s: Segs, t: Segs, bodies: Bodies, largest: nat, index: seq<MetaRec>)
    requires Reclaimed(s, t, index) && bodies.Keys == s.disk.Keys
    requires IndexOk(env, s, bodies, largest, index)
    ensures IndexOk(env, t, Sync(bodies, t.disk), largest, index)
  {
    forall i | 0 <= i < |index| ensures RecOk(env, t, Sync(bodies, t.disk), largest, index[i]) {
      assert RecOk(env, s, bodies, largest, index[i]);
    }
  }

  lemma DropKept(env: Env, s: Segs, t: Segs, bodies: Bodies, k: Kept, index: seq<MetaRec>)
    requires Reclaimed(s, t, index) && bodies.Keys == s.disk.Keys
    requires KeptOnDisk(env, s, bodies, k) && InIndex(index, k.rec)
    ensures KeptOnDisk(env, t, Sync(bodies, t.disk), k)
  {
    var i :| 0 <= i < |index| && SameButGroup(index[i], k.rec);
    assert k.rec.seg in Referenced(index);
  }
}
