/** What segment switching guarantees: when `ensure_open` comes back, and in which state. */
module SegmentLaws {
  import opened Wrappers
  import opened StoreModel

  /** `t` is `s` with at most one empty segment added at the end. */
  ghost predicate Extended(s: Segs, t: Segs) {
    || (t.disk == s.disk && t.nums == s.nums)
    || (t.nums != [] && Last(t.nums) !in s.disk && (forall n :: n in s.disk ==> n < Last(t.nums))
        && t.disk == s.disk[Last(t.nums) := EMPTY_FILES] && t.nums == s.nums + [Last(t.nums)])
  }

  lemma SwitchKeepsOk(env: Env, s: Segs, incoming: nat)
    requires env.maxRecords >= 1 && incoming <= env.maxBody
    requires SegsOk(s) && NeedRoll(env, s, incoming)
    ensures var t := Switch(env, s, incoming);
      && SegsOk(t) && Extended(s, t) && t.cur.Some?
      && (s.cur.Some? ==> t.cur.value.bodyLen == 0 && t.cur.value.records == 0)
  {
    var t := Switch(env, s, incoming);
    var num := NextNum(s);
    if s.nums != [] && s.cur.Some? {
      assert Last(s.nums) in s.nums;
      forall n | n in s.disk ensures n < num {
        var i :| 0 <= i < |s.nums| && s.nums[i] == n;
      }
      assert t.nums == s.nums + [num];
    } else if s.nums != [] {
      assert num in s.nums;
    }
  }

  /** A segment that takes a metadata line without being switched away from. */
  ghost predicate TakesLines(env: Env, s: Segs) {
    && s.nums != [] && Last(s.nums) in s.disk
    && |s.disk[Last(s.nums)].body| <= env.maxBody
    && (s.cur.Some? ==> s.cur.value.records < env.maxRecords)
  }

  /** A request that fits a segment gets one: the newest, with room for the request
      and for another record, and at most one new segment was created for it. */
  lemma EnsureOpenDelivers(env: Env, s: Segs, incoming: nat)
    requires env.maxRecords >= 1 && incoming <= env.maxBody && SegsOk(s)
    ensures var t := EnsureOpen(env, s, incoming);
      && SegsOk(t) && Extended(s, t) && TakesLines(env, t)
      && t.cur.Some? && t.cur.value.num == Last(t.nums)
      && t.cur.value.bodyLen + incoming <= env.maxBody
      && t.cur.value.records < env.maxRecords
      && (TakesLines(env, s) && incoming == 0 ==> t.disk == s.disk && t.nums == s.nums)
  {
    if NeedRoll(env, s, incoming) {
      SwitchKeepsOk(env, s, incoming);
      var t := Switch(env, s, incoming);
      if t.cur.value.bodyLen + incoming > env.maxBody {
        SwitchKeepsOk(env, t, incoming);
      }
    }
  }

  /** The current segment has room for the request and for another record. */
  predicate HasRoom(env: Env, s: Segs, incoming: nat) {
    s.cur.Some? && s.cur.value.bodyLen + incoming <= env.maxBody && s.cur.value.records < env.maxRecords
  }

  lemma LastIsNewest(nums: seq<nat>)
    requires Ascending(nums) && nums != []
    ensures forall n :: n in nums ==> n <= Last(nums)
  {
    forall n | n in nums
      ensures n <= Last(nums)
    {
      var i :| 0 <= i < |nums| && nums[i] == n;
    }
  }

  /** The segment after the newest: empty, and with the next number. */
  predicate OnNext(s: Segs, t: Segs) {
    var num := if s.nums == [] then 1 else Last(s.nums) + 1;
    t.nums == s.nums + [num] && t.cur == Some(Open(num, 0, 0, None))
  }

  lemma SwitchesToNext(env: Env, s: Segs, incoming: nat)
    requires SegsOk(s) && incoming <= env.maxBody && (s.cur.Some? || s.nums == [])
    ensures OnNext(s, Switch(env, s, incoming))
  {
    if s.nums != [] {
      LastIsNewest(s.nums);
    }
  }

  /** A segment is left exactly when it has no room, and then for the next one. */
  lemma RollsOnlyWhenFull(env: Env, s: Segs, incoming: nat)
    requires env.maxRecords >= 1 && incoming <= env.maxBody && SegsOk(s) && s.cur.Some?
    ensures var t := EnsureOpen(env, s, incoming);
      if HasRoom(env, s, incoming) then t == s else OnNext(s, t)
  {
    SwitchesToNext(env, s, incoming);
  }

  /** After a restart the newest segment on disk goes on being written where the request fits. */
  lemma ResumesNewest(env: Env, s: Segs, incoming: nat)
    requires env.maxRecords >= 1 && incoming <= env.maxBody && SegsOk(s) && s.cur.None?
    ensures var t := EnsureOpen(env, s, incoming);
      if s.nums != [] && |s.disk[Last(s.nums)].body| + incoming <= env.maxBody
      then t == s.(cur := Some(Open(Last(s.nums), |s.disk[Last(s.nums)].body|, 0, None)))
      else OnNext(s, t)
  {
    if s.nums == [] {
      SwitchesToNext(env, s, incoming);
    } else {
      assert Last(s.nums) in s.nums;
      SwitchKeepsOk(env, s, incoming);
      var t := Switch(env, s, incoming);
      if t.cur.value.bodyLen + incoming > env.maxBody {
        SwitchesToNext(env, t, incoming);
      }
    }
  }

  /** Two switches are always enough for a request that fits a segment. */
  lemma TwoSwitchesSuffice(env: Env, s: Segs, incoming: nat)
    requires env.maxRecords >= 1 && incoming <= env.maxBody && SegsOk(s)
    ensures EnsureOpenWithin(env, s, incoming, 2) == Some(EnsureOpen(env, s, incoming))
  {
    if NeedRoll(env, s, incoming) {
      SwitchKeepsOk(env, s, incoming);
      var t := Switch(env, s, incoming);
      if t.cur.value.bodyLen + incoming > env.maxBody {
        SwitchKeepsOk(env, t, incoming);
        assert EnsureOpenWithin(env, t, incoming, 1) == Some(Switch(env, t, incoming));
      }
    }
  }

  lemma {:induction false} OversizedNeverFits(env: Env, s: Segs, incoming: nat, switches: nat)
    requires incoming > env.maxBody
    ensures EnsureOpenWithin(env, s, incoming, switches) == None
    decreases switches
  {
    if switches > 0 {
      OversizedNeverFits(env, Switch(env, s, incoming), incoming, switches - 1);
    }
  }

  /** `ensure_open` comes back exactly when the request fits an empty segment; above
      that it keeps creating segments. */
  lemma EnsureOpenReturnsIff(env: Env, s: Segs, incoming: nat)
    requires env.maxRecords >= 1 && SegsOk(s)
    ensures (exists switches: nat :: EnsureOpenWithin(env, s, incoming, switches).Some?)
            <==> incoming <= env.maxBody
  {
    if incoming <= env.maxBody {
      TwoSwitchesSuffice(env, s, incoming);
    } else {
      forall switches: nat ensures EnsureOpenWithin(env, s, incoming, switches).None? {
        OversizedNeverFits(env, s, incoming, switches);
      }
    }
  }

  // ----- writing keeps the writer and the directory in step -----

  lemma PutLineKeepsOk(s: Segs, line: MetaLine)
    requires SegsOk(s) && s.cur.Some?
    ensures SegsOk(PutLine(s, line))
  {
  }

  lemma PutMessageKeepsOk(env: Env, s: Segs, id: nat, msg: NewMessage)
    requires SegsOk(s) && s.cur.Some?
    ensures SegsOk(PutMessage(env, s, id, msg))
  {
    assert s.cur.value.num in s.nums;
    assert AttStart(s) == |AttBytes(s.disk[s.cur.value.num])|;
  }

  lemma {:induction false} PutDelsKeepsOk(s: Segs, ids: seq<nat>)
    requires SegsOk(s) && s.cur.Some?
    ensures SegsOk(PutDels(s, ids))
  {
    if ids != [] {
      PutDelsKeepsOk(s, ids[..|ids| - 1]);
    }
  }

  // ----- dropping -----

  lemma {:induction false} WithoutIs(nums: seq<nat>, n: nat)
    requires Ascending(nums)
    ensures Ascending(Without(nums, n))
    ensures forall m :: m in Without(nums, n) <==> m in nums && m != n
    ensures nums != [] && Last(nums) != n ==> Without(nums, n) != [] && Last(Without(nums, n)) == Last(nums)
  {
    if nums != [] {
      var init := nums[..|nums| - 1];
      WithoutIs(init, n);
      assert nums == init + [Last(nums)];
      assert forall m :: m in init ==> m < Last(nums);
      var w := Without(init, n);
      assert forall i :: 0 <= i < |w| ==> w[i] in w;
    }
  }

  lemma DropSegmentKeepsOk(s: Segs, n: nat)
    requires SegsOk(s) && s.cur.Some?
    ensures SegsOk(DropSegment(s, n)) && DropSegment(s, n).cur == s.cur
    ensures DropSegment(s, n).nums != [] && Last(DropSegment(s, n).nums) == Last(s.nums)
    ensures DropSegment(s, n).disk == if n == s.cur.value.num then s.disk else s.disk - {n}
  {
    WithoutIs(s.nums, n);
  }

  /** `t` is `s` without the segments listed in `gone`, except the newest. */
  ghost predicate Dropped(s: Segs, t: Segs, gone: seq<nat>) {
    && t.cur == s.cur && s.nums != [] && t.nums != [] && Last(t.nums) == Last(s.nums)
    && (forall n :: n in t.disk <==> n in s.disk && (n !in gone || n == Last(s.nums)))
    && (forall n :: n in t.disk ==> t.disk[n] == s.disk[n])
  }

  lemma DropOneMore(s: Segs, t: Segs, gone: seq<nat>, n: nat)
    requires SegsOk(t) && t.cur.Some? && Dropped(s, t, gone)
    ensures SegsOk(DropSegment(t, n)) && Dropped(s, DropSegment(t, n), gone + [n])
  {
    DropSegmentKeepsOk(t, n);
  }

  lemma {:induction false} DropAllIs(s: Segs, orphans: seq<nat>)
    requires SegsOk(s) && s.cur.Some?
    ensures SegsOk(DropAll(s, orphans)) && Dropped(s, DropAll(s, orphans), orphans)
  {
    if orphans != [] {
      var init := orphans[..|orphans| - 1];
      DropAllIs(s, init);
      DropOneMore(s, DropAll(s, init), init, Last(orphans));
      assert orphans == init + [Last(orphans)];
    }
  }

  lemma {:induction false} OrphansAre(nums: seq<nat>, live: set<nat>)
    ensures forall n :: n in Orphans(nums, live) <==> n in nums && n !in live
  {
    if nums != [] {
      OrphansAre(nums[..|nums| - 1], live);
      assert nums == nums[..|nums| - 1] + [Last(nums)];
    }
  }

  /** Reclaiming unlinks exactly the segments that no indexed record points at,
      sparing the open one, and touches no other file. */
  lemma ReclaimIs(s: State)
    requires SegsOk(s.segs) && s.segs.cur.Some?
    ensures var t := Reclaim(s);
      && SegsOk(t.segs) && t.segs.cur == s.segs.cur
      && t.segs.nums != [] && Last(t.segs.nums) == Last(s.segs.nums)
      && (forall n :: n in t.segs.disk <==>
            n in s.segs.disk && (n in Referenced(s.index) || n == Last(s.segs.nums)))
      && (forall n :: n in t.segs.disk ==> t.segs.disk[n] == s.segs.disk[n])
  {
    var orphans := Orphans(s.segs.nums, Referenced(s.index));
    OrphansAre(s.segs.nums, Referenced(s.index));
    DropAllIs(s.segs, orphans);
  }
}
