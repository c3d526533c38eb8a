/** What replaying the log yields: which lines decide, and what a kept message can rely on. */
module ReplayLaws {
  import opened Wrappers
  import opened StoreModel
  import opened SegmentLaws
  import opened StoreInvariant

  const NOTHING := Replay(map[], 0, 0)

  // ----- one segment -----

  lemma {:induction false} MetaLiveFrom(r: Replay, meta: seq<MetaLine>, id: nat)
    requires id in ReplayMeta(r, meta).live
    ensures var rec := ReplayMeta(r, meta).live[id];
      (id in r.live && rec == r.live[id]) || (Msg(rec) in meta && rec.id == id)
  {
    if meta != [] {
      var init := meta[..|meta| - 1];
      assert meta == init + [Last(meta)];
      if Last(meta) != Msg(ReplayMeta(r, meta).live[id]) || Last(meta).rec.id != id {
        MetaLiveFrom(r, init, id);
      }
    }
  }

  lemma {:induction false} MetaBounds(r: Replay, meta: seq<MetaLine>)
    ensures var t := ReplayMeta(r, meta);
      && t.floor >= r.floor && t.maxSeen >= r.maxSeen
      && (forall line :: line in meta ==> LineId(line) <= t.maxSeen)
      && (forall line :: line in meta && line.Floor? ==> line.floor <= t.floor)
      && (t.floor == r.floor || Floor(t.floor) in meta)
  {
    if meta != [] {
      MetaBounds(r, meta[..|meta| - 1]);
      assert meta == meta[..|meta| - 1] + [Last(meta)];
    }
  }

  /** A segment that leaves a message alive on its own does so whatever came before. */
  lemma {:induction false} MetaLiveRegardless(r: Replay, meta: seq<MetaLine>, id: nat)
    requires id in ReplayMeta(NOTHING, meta).live
    ensures id in ReplayMeta(r, meta).live
  {
    if meta != [] && Last(meta).Msg? && Last(meta).rec.id == id {
    } else if meta != [] {
      MetaLiveRegardless(r, meta[..|meta| - 1], id);
    }
  }

  lemma {:induction false} MetaLiveStays(r: Replay, meta: seq<MetaLine>, id: nat)
    requires id in r.live && Del(id) !in meta
    ensures id in ReplayMeta(r, meta).live
  {
    if meta != [] {
      assert meta == meta[..|meta| - 1] + [Last(meta)];
      MetaLiveStays(r, meta[..|meta| - 1], id);
    }
  }

  // ----- the whole log -----

  ghost predicate OnDisk(disk: map<nat, Files>, nums: seq<nat>, line: MetaLine) {
    exists n :: n in nums && n in disk && line in disk[n].meta
  }

  lemma {:induction false} DiskLiveFrom(disk: map<nat, Files>, nums: seq<nat>, id: nat)
    requires id in ReplayDisk(disk, nums).live
    ensures var rec := ReplayDisk(disk, nums).live[id];
      rec.id == id && OnDisk(disk, nums, Msg(rec))
  {
    var init := nums[..|nums| - 1];
    var rec := ReplayDisk(disk, nums).live[id];
    assert nums == init + [Last(nums)];
    if Last(nums) in disk {
      MetaLiveFrom(ReplayDisk(disk, init), disk[Last(nums)].meta, id);
    }
    if !(Last(nums) in disk && Msg(rec) in disk[Last(nums)].meta && rec.id == id) {
      DiskLiveFrom(disk, init, id);
    }
  }

  lemma {:induction false} DiskBounds(disk: map<nat, Files>, nums: seq<nat>)
    ensures var r := ReplayDisk(disk, nums);
      && (forall n, line :: n in nums && n in disk && line in disk[n].meta ==> LineId(line) <= r.maxSeen)
      && (forall n, line :: n in nums && n in disk && line in disk[n].meta && line.Floor? ==> line.floor <= r.floor)
      && (r.floor == 0 || OnDisk(disk, nums, Floor(r.floor)))
  {
    if nums != [] {
      var init := nums[..|nums| - 1];
      DiskBounds(disk, init);
      assert nums == init + [Last(nums)];
      if Last(nums) in disk {
        MetaBounds(ReplayDisk(disk, init), disk[Last(nums)].meta);
      }
    }
  }

  /** A message that no line speaks against after its own segment is alive at the end. */
  lemma {:induction false} DiskLive(disk: map<nat, Files>, nums: seq<nat>, seg: nat, id: nat)
    requires Ascending(nums) && seg in nums && forall n :: n in nums ==> n in disk
    requires id in ReplayMeta(NOTHING, disk[seg].meta).live
    requires forall n :: n in nums && n > seg ==> Del(id) !in disk[n].meta
    ensures id in ReplayDisk(disk, nums).live
  {
    var init := nums[..|nums| - 1];
    assert nums == init + [Last(nums)];
    if Last(nums) == seg {
      MetaLiveRegardless(ReplayDisk(disk, init), disk[seg].meta, id);
    } else {
      var i :| 0 <= i < |nums| && nums[i] == seg;
      assert seg in init && Last(nums) > seg && Last(nums) in nums;
      DiskLive(disk, init, seg, id);
      MetaLiveStays(ReplayDisk(disk, init), disk[Last(nums)].meta, id);
    }
  }

  // ----- the index in key order -----

  lemma {:induction false} CollectIs(live: map<nat, MetaRec>, floor: nat, bound: nat)
    requires forall id :: id in live ==> live[id].id == id
    ensures var index := Collect(live, floor, bound);
      && SortedIndex(index)
      && (forall rec :: rec in index <==> rec.id in live && live[rec.id] == rec && floor <= rec.id < bound)
  {
    if bound > 0 {
      CollectIs(live, floor, bound - 1);
      var init := Collect(live, floor, bound - 1);
      assert forall i :: 0 <= i < |init| ==> init[i] in init;
    }
  }
}
