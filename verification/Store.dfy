/** The mail store in place (crates/s2l-store/src/lib.rs): an index in memory over the
    segment files, changed step by step to what StoreModel says. */
module MailStore {
  import opened Octets
  import opened Wrappers
  import opened StoreModel
  import opened SegmentLaws
  import opened SegmentFiles
  import opened StoreEffects
  import opened StoreQuery
  import StoreRuns
  import Theorems = StoreTheorems

  /** A directory has only one ascending listing. */
  lemma ListingIsUnique(a: seq<nat>, b: seq<nat>)
    requires Ascending(a) && Ascending(b) && SameMembers(a, b)
    ensures a == b
  {
    OneListing(a, b, (x: nat, y: nat) => x < y);
  }

  lemma StoreKeepsDir(env: Env, s: State, msg: NewMessage)
    requires DirOk(s.segs) && env.maxRecords >= 1 && Incoming(msg) <= env.maxBody
    ensures DirOk(StoreModel.Store(env, s, msg).segs)
  {
    EnsureOpenKeepsDir(env, s.segs, Incoming(msg));
    PutMessageKeepsDir(env, EnsureOpen(env, s.segs, Incoming(msg)), s.nextId, msg);
  }

  method Retain(index: seq<MetaRec>, ids: set<nat>) returns (hits: seq<MetaRec>)
    ensures hits == Restrict(index, ids)
  {
    hits := [];
    for i := 0 to |index|
      invariant hits == Restrict(index[..i], ids)
    {
      assert index[..i + 1][..i] == index[..i] && Last(index[..i + 1]) == index[i];
      if index[i].id in ids {
        hits := hits + [index[i]];
      }
    }
    assert index[..|index|] == index;
  }

  lemma DeleteLinesStay(env: Env, s: Segs, ids: seq<nat>)
    requires s.cur.Some? && s.cur.value.num in s.disk && !NeedRoll(env, s, 0)
    ensures EnsureOpen(env, PutDels(s, ids), 0) == PutDels(s, ids)
  {
  }

  /** One deletion line more. */
  lemma OneMoreDel(env: Env, start: Segs, state: Segs, ids: seq<nat>, i: nat)
    requires DirOk(start) && DirOk(state) && i < |ids|
    requires var open := EnsureOpen(env, start, 0);
      && open.cur.Some? && open.cur.value.num in open.disk && !NeedRoll(env, open, 0)
      && state == if i == 0 then start else PutDels(open, ids[..i])
    ensures AppendMeta(env, state, Del(ids[i])) == PutDels(EnsureOpen(env, start, 0), ids[..i + 1])
  {
    var open := EnsureOpen(env, start, 0);
    assert ids[..i + 1][..i] == ids[..i] && Last(ids[..i + 1]) == ids[i];
    DeleteLinesStay(env, open, ids[..i]);
  }

  lemma PopKeepsNewest(index: seq<MetaRec>, maxEntries: nat)
    requires |index| > maxEntries
    ensures NewestOnly(index[1..], maxEntries) == NewestOnly(index, maxEntries)
  {
    if |index| - 1 > maxEntries {
      assert index[1..][|index| - 1 - maxEntries..] == index[|index| - maxEntries..];
    }
  }

  /** Folds the lines of one segment into the map of live records. */
  method ReplayLines(live0: map<nat, MetaRec>, top0: nat, seen0: nat, meta: seq<MetaLine>)
    returns (live: map<nat, MetaRec>, top: nat, seen: nat)
    ensures Replay(live, top, seen) == ReplayMeta(Replay(live0, top0, seen0), meta)
  {
    live, top, seen := live0, top0, seen0;
    for j := 0 to |meta|
      invariant Replay(live, top, seen) == ReplayMeta(Replay(live0, top0, seen0), meta[..j])
    {
      assert meta[..j + 1][..j] == meta[..j] && Last(meta[..j + 1]) == meta[j];
      match meta[j] {
        case Msg(rec) =>
          seen := Max(seen, rec.id);
          live := live[rec.id := rec];
        case Del(id) =>
          seen := Max(seen, id);
          live := live - {id};
        case Floor(id) =>
          seen := Max(seen, id);
          top := Max(top, id);
      }
    }
    assert meta[..|meta|] == meta;
  }

  /** The live records from the floor on, by id. */
  method LiveRecords(live: map<nat, MetaRec>, top: nat, limit: nat) returns (records: seq<MetaRec>)
    ensures records == Collect(live, top, limit)
  {
    records := [];
    for id := 0 to limit
      invariant records == Collect(live, top, id)
    {
      if id in live && id >= top {
        records := records + [live[id]];
      }
    }
  }

  class Store {
    const env: Env
    const segs: Segments
    var index: seq<MetaRec>
    var nextId: nat
    var floor: nat
    var retention: Retention

    ghost function View(): State
      reads this, segs
    {
      State(segs.State(), index, nextId, floor, retention)
    }

    ghost predicate Valid()
      reads this, segs
    {
      segs.Valid() && segs.env == env
    }

    /** Opens a directory: replays every line of every segment, keeps what is at or
        above the floor in id order, and enforces retention. */
    constructor (env: Env, disk: map<nat, Files>, listing: seq<nat>, retention: Retention, now: int)
      requires env.maxRecords >= 1 && NoRepeats(listing)
      requires forall n :: n in listing <==> n in disk
      ensures Valid() && fresh(segs) && this.env == env
      ensures exists nums: seq<nat> ::
                && Ascending(nums) && (forall n :: n in nums <==> n in disk)
                && View() == StoreModel.Enforce(env, Reopened(Segs(disk, nums, None), retention), now)
    {
      var files := new Segments(env, disk, listing);
      ghost var nums := files.nums;
      var live: map<nat, MetaRec>, top: nat, seen: nat := map[], 0, 0;
      for i := 0 to |files.nums|
        invariant files.nums == nums && files.disk == disk && files.cur == None && files.Valid() && files.env == env
        invariant fresh(files)
        invariant Replay(live, top, seen) == ReplayDisk(disk, nums[..i])
      {
        assert nums[..i + 1][..i] == nums[..i] && Last(nums[..i + 1]) == nums[i] && nums[i] in nums;
        live, top, seen := ReplayLines(live, top, seen, files.disk[files.nums[i]].meta);
      }
      assert nums[..|nums|] == nums;
      var records := LiveRecords(live, top, seen + 1);
      this.env, this.segs, this.retention := env, files, retention;
      this.index, this.nextId, this.floor := records, seen + 1, top;
      new;
      assert View() == Reopened(Segs(disk, nums, None), retention);
      Enforce(now);
      assert Ascending(nums) && View() == StoreModel.Enforce(env, Reopened(Segs(disk, nums, None), retention), now);
    }

    method Append(msg: NewMessage, now: int) returns (rec: MetaRec)
      requires Valid() && Incoming(msg) <= env.maxBody
      modifies this, segs
      ensures Valid()
      ensures var m := StoreModel.Store(env, old(View()), msg);
        && DirOk(m.segs) && View() == StoreModel.Enforce(env, m, now)
        && m.index != [] && rec == Last(m.index) && rec.id == old(nextId)
      ensures IndexedAs(env, rec, old(nextId), msg)
      ensures RightlyRetained(old(index) + [rec], index, retention, now)
    {
      StoreKeepsDir(env, View(), msg);
      StoreIndexes(env, View(), msg);
      var id := nextId;
      nextId := nextId + 1;
      rec := segs.Append(id, msg);
      index := index + [rec];
      assert View() == StoreModel.Store(env, old(View()), msg);
      Enforce(now);
    }

    method Enforce(now: int)
      requires Valid()
      modifies this, segs
      ensures Valid() && View() == StoreModel.Enforce(env, old(View()), now)
      ensures RightlyRetained(old(index), index, retention, now)
    {
      ghost var before := View();
      EnforceIs(env, before, now);
      var evicted := EvictFront(now);
      assert View() == before.(index := index);
      if evicted {
        var top := if index == [] then nextId else index[0].id;
        floor := top;
        segs.AppendMeta(Floor(top));
        Reclaim();
      }
    }

    method EvictFront(now: int) returns (evicted: bool)
      modifies this`index
      ensures index == Retained(old(index), retention, now)
      ensures evicted <==> |index| != |old(index)|
    {
      evicted := PopToLimit();
      if retention.maxDays > 0 {
        var older := PopOlder(Cutoff(retention, now));
        evicted := evicted || older;
      }
    }

    /** Pops from the front until the limit on entries holds. */
    method PopToLimit() returns (evicted: bool)
      modifies this`index
      ensures index == NewestOnly(old(index), retention.maxEntries)
      ensures |index| <= |old(index)| && (evicted <==> |index| < |old(index)|)
    {
      evicted := false;
      while |index| > retention.maxEntries
        invariant NewestOnly(index, retention.maxEntries) == NewestOnly(old(index), retention.maxEntries)
        invariant |index| <= |old(index)| && (evicted <==> |index| < |old(index)|)
        decreases |index|
      {
        PopKeepsNewest(index, retention.maxEntries);
        index := index[1..];
        evicted := true;
      }
    }

    /** Pops from the front while the first record is too old. */
    method PopOlder(cutoff: int) returns (evicted: bool)
      modifies this`index
      ensures index == DropOlder(old(index), cutoff)
      ensures |index| <= |old(index)| && (evicted <==> |index| < |old(index)|)
    {
      evicted := false;
      while index != [] && index[0].ts < cutoff
        invariant DropOlder(index, cutoff) == DropOlder(old(index), cutoff)
        invariant |index| <= |old(index)| && (evicted <==> |index| < |old(index)|)
        decreases |index|
      {
        index := index[1..];
        evicted := true;
      }
    }

    /** The segments that no record of the index is in. */
    method FindOrphans() returns (orphans: seq<nat>)
      ensures orphans == Orphans(segs.nums, Referenced(index))
    {
      var referenced: set<nat> := set i | 0 <= i < |index| :: index[i].seg;
      orphans := [];
      for i := 0 to |segs.nums|
        invariant orphans == Orphans(segs.nums[..i], referenced)
      {
        assert segs.nums[..i + 1][..i] == segs.nums[..i] && Last(segs.nums[..i + 1]) == segs.nums[i];
        if segs.nums[i] !in referenced {
          orphans := orphans + [segs.nums[i]];
        }
      }
      assert segs.nums[..|segs.nums|] == segs.nums;
    }

    /** Unlinks them. */
    method Reclaim()
      requires Valid() && segs.cur.Some?
      modifies segs
      ensures Valid() && View() == StoreModel.Reclaim(old(View()))
    {
      var orphans := FindOrphans();
      for i := 0 to |orphans|
        invariant Valid() && segs.cur.Some?
        invariant segs.State() == DropAll(old(segs.State()), orphans[..i])
      {
        assert orphans[..i + 1][..i] == orphans[..i] && Last(orphans[..i + 1]) == orphans[i];
        segs.DropSegment(orphans[i]);
      }
      assert orphans[..|orphans|] == orphans;
    }

    method Delete(ids: seq<nat>) returns (removed: nat)
      requires Valid()
      modifies this, segs
      ensures Valid() && View() == StoreModel.Delete(env, old(View()), ids)
      ensures removed == |old(index)| - |index|
    {
      var before := |index|;
      var left: seq<MetaRec> := [];
      for i := 0 to |index|
        invariant left == Survivors(index[..i], ids)
      {
        assert index[..i + 1][..i] == index[..i] && Last(index[..i + 1]) == index[i];
        if index[i].id !in ids {
          left := left + [index[i]];
        }
      }
      assert index[..|index|] == index;
      index := left;
      removed := before - |index|;
      if removed == 0 {
        StoreRuns.SurvivorsAll(old(index), ids);
      } else {
        SomethingDeleted(old(index), ids);
        AppendDels(ids);
        Reclaim();
      }
    }

    /** One deletion line after the other; only the first can find the segment full. */
    method AppendDels(ids: seq<nat>)
      requires Valid() && ids != []
      modifies segs
      ensures Valid() && segs.cur.Some?
      ensures var open := EnsureOpen(env, old(segs.State()), 0);
        && open.cur.Some? && open.cur.value.num in open.disk
        && segs.State() == PutDels(open, ids)
    {
      ghost var start := segs.State();
      EnsureOpenKeepsDir(env, start, 0);
      ghost var open := EnsureOpen(env, start, 0);
      for i := 0 to |ids|
        invariant Valid()
        invariant i > 0 ==> segs.cur.Some?
        invariant segs.State() == if i == 0 then start else PutDels(open, ids[..i])
      {
        OneMoreDel(env, start, segs.State(), ids, i);
        segs.AppendMeta(Del(ids[i]));
      }
      assert ids[..|ids|] == ids;
    }

    method Clear() returns (removed: nat)
      requires Valid()
      modifies this, segs
      ensures Valid() && View() == StoreModel.Clear(env, old(View())) && removed == |old(index)|
    {
      removed := |index|;
      index := [];
      floor := nextId;
      segs.AppendMeta(Floor(floor));
      Reclaim();
    }

    method SetGroup(id: nat, group: Option<nat>) returns (found: bool)
      requires Valid()
      modifies this, segs
      ensures Valid() && View() == StoreModel.SetGroup(env, old(View()), id, group)
      ensures found <==> exists rec :: rec in old(index) && rec.id == id
    {
      var p := Position(index, id);
      if p.None? {
        return false;
      }
      assert index[p.value] in index;
      found := true;
      if index[p.value].group == group {
        return;
      }
      var rec := index[p.value].(group := group);
      index := index[p.value := rec];
      segs.AppendMeta(Msg(rec));
    }

    method SetRetention(r: Retention, now: int) returns (removed: nat)
      requires Valid()
      modifies this, segs
      ensures Valid() && View() == StoreModel.Enforce(env, old(View()).(retention := r), now)
      ensures RightlyRetained(old(index), index, r, now)
      ensures |index| <= |old(index)| && removed == |old(index)| - |index|
    {
      ghost var limited := View().(retention := r);
      retention := r;
      assert View() == limited;
      var before := |index|;
      Enforce(now);
      removed := before - |index|;
    }

    method Get(id: nat) returns (m: Option<Message>)
      requires Valid()
      ensures m == StoreModel.Get(env, View(), id)
    {
      var p := Position(index, id);
      if p.None? {
        return None;
      }
      var body := segs.ReadBody(index[p.value]);
      m := Some(Message(index[p.value],
                        if body.Some? then body.value else BodyRec(id, "", None, [], [], [], None)));
    }

    method Attachment(id: nat, k: nat) returns (bytes: Option<seq<Byte>>)
      requires Valid()
      ensures bytes == AttachmentBytes(env, View(), id, k)
    {
      var p := Position(index, id);
      if p.None? {
        return None;
      }
      var body := segs.ReadBody(index[p.value]);
      if body.None? || k >= |body.value.spots| {
        return None;
      }
      bytes := segs.ReadAttachment(index[p.value].seg, body.value.spots[k].0, body.value.spots[k].1);
    }

    /** The metadata hits, reduced to those whose body matches when a needle is given. */
    method Search(matches: MetaRec -> bool, needle: string) returns (hits: seq<MetaRec>)
      requires Valid()
      ensures hits == Hits(env, View(), matches, needle)
    {
      hits := Select(index, matches);
      if needle != "" {
        var keep := BodyMatches(hits, needle);
        hits := Retain(hits, keep);
      }
    }

    /** A page of the sorted hits, and their number. In every reachable state it is the page
        of the one listing of exactly the indexed records that match and whose text or HTML,
        as `Get` reads it, contains the needle. */
    method Query(q: Query) returns (page: Page)
      requires Valid()
      ensures page == PageOf(Arranged(Hits(env, View(), q.matches, Needle(q)), q.sort), q)
      ensures Lawful(env) && Reachable(env, View()) ==>
        forall all :: IsAnswer(env, View(), q, all) ==> page == PageOf(all, q)
    {
      var hits := Search(q.matches, Needle(q));
      page := PageOf(Arranged(hits, q.sort), q);
      if Lawful(env) && Reachable(env, View()) {
        forall all | IsAnswer(env, View(), q, all) ensures page == PageOf(all, q) {
          AnswerIsFound(env, View(), q, all);
        }
      }
    }

    /** The candidates among these bodies that contain the needle. */
    method MatchesIn(bodies: seq<BodyRec>, hits: seq<MetaRec>, needle: string) returns (found: set<nat>)
      ensures forall id :: id in found <==> HitIn(bodies, hits, needle, id)
    {
      found := {};
      for i := 0 to |bodies|
        invariant forall id :: id in found <==> HitIn(bodies[..i], hits, needle, id)
      {
        assert bodies[..i + 1] == bodies[..i] + [bodies[i]];
        if Wanted(hits, bodies[i].id) && Theorems.BodyHit(env, bodies[i], needle) {
          found := found + {bodies[i].id};
        }
      }
      assert bodies[..|bodies|] == bodies;
    }

    method BodyMatches(hits: seq<MetaRec>, needle: string) returns (keep: set<nat>)
      requires Valid()
      ensures keep == Theorems.BodyMatches(env, View(), hits, needle)
    {
      keep := {};
      var left: set<nat> := set i | 0 <= i < |hits| :: hits[i].seg;
      ghost var all := left;
      while left != {}
        invariant left <= all
        invariant forall id :: id in keep <==> exists n :: n in all - left && StreamHit(n, hits, needle, id)
        decreases left
      {
        var n :| n in left;
        var bodies := segs.Stream(n);
        var found := MatchesIn(bodies, hits, needle);
        assert forall id :: HitIn(bodies, hits, needle, id) <==> StreamHit(n, hits, needle, id);
        keep := keep + found;
        assert all - (left - {n}) == (all - left) + {n};
        left := left - {n};
      }
      SegmentHits(hits, needle, keep);
    }

    lemma SegmentHits(hits: seq<MetaRec>, needle: string, keep: set<nat>)
      requires forall id :: id in keep <==>
        exists n :: n in (set i | 0 <= i < |hits| :: hits[i].seg) && StreamHit(n, hits, needle, id)
      ensures keep == Theorems.BodyMatches(env, View(), hits, needle)
    {
      var want := Theorems.BodyMatches(env, View(), hits, needle);
      forall id ensures id in keep <==> id in want {
        if id in keep {
          var n :| n in (set i | 0 <= i < |hits| :: hits[i].seg) && StreamHit(n, hits, needle, id);
          var i :| 0 <= i < |hits| && hits[i].seg == n;
          assert hits[i] in hits;
        }
        if id in want {
          var m, b :| m in hits && b in StreamBody(env, segs.State(), m.seg)
            && Theorems.IsCandidate(hits, b.id) && Theorems.BodyHit(env, b, needle) && b.id == id;
          var i :| 0 <= i < |hits| && hits[i] == m;
          assert m.seg in (set i | 0 <= i < |hits| :: hits[i].seg);
          assert StreamHit(m.seg, hits, needle, id);
        }
      }
    }

    ghost predicate HitIn(bodies: seq<BodyRec>, hits: seq<MetaRec>, needle: string, id: nat) {
      exists b :: b in bodies && b.id == id && Theorems.IsCandidate(hits, id) && Theorems.BodyHit(env, b, needle)
    }

    ghost predicate StreamHit(n: nat, hits: seq<MetaRec>, needle: string, id: nat)
      reads this, segs
    {
      HitIn(StreamBody(env, segs.State(), n), hits, needle, id)
    }
  }

  lemma {:induction false} SomethingDeleted(index: seq<MetaRec>, ids: seq<nat>)
    requires |Survivors(index, ids)| < |index|
    ensures ids != []
  {
    if index != [] && |Survivors(index[..|index| - 1], ids)| < |index| - 1 {
      SomethingDeleted(index[..|index| - 1], ids);
    }
  }

  predicate Wanted(hits: seq<MetaRec>, id: nat) {
    Theorems.IsCandidate(hits, id)
  }

  method Select(index: seq<MetaRec>, p: MetaRec -> bool) returns (hits: seq<MetaRec>)
    ensures hits == Filter(index, p)
  {
    hits := [];
    for i := 0 to |index|
      invariant hits == Filter(index[..i], p)
    {
      assert index[..i + 1][..i] == index[..i] && Last(index[..i + 1]) == index[i];
      if p(index[i]) {
        hits := hits + [index[i]];
      }
    }
    assert index[..|index|] == index;
  }
}
