/** The metadata lines of all segments as one log, and which of its lines have the last word
    when some segments are dropped. */
module StoreLog {
  import opened Wrappers
  import opened StoreModel
  import opened SegmentLaws
  import opened StoreInvariant
  import opened ReplayLaws

  /** A metadata line and the segment it stands in. */
  datatype Entry = Entry(seg: nat, line: MetaLine)

  type Lines = seq<Entry>

  function Tagged(seg: nat, meta: seq<MetaLine>): (e: Lines)
    ensures |e| == |meta|
    ensures forall i :: 0 <= i < |e| ==> e[i] == Entry(seg, meta[i])
  {
    seq(|meta|, i requires 0 <= i < |meta| => Entry(seg, meta[i]))
  }

  /** The lines on disk in the order in which they were written. */
  function Log(disk: map<nat, Files>, nums: seq<nat>): Lines {
    if nums == [] then []
    else Log(disk, nums[..|nums| - 1]) + if Last(nums) in disk then Tagged(Last(nums), disk[Last(nums)].meta) else []
  }

  function LogOf(s: Segs): Lines {
    Log(s.disk, s.nums)
  }

  function ReplayLog(log: Lines): Replay {
    if log == [] then NOTHING else ReplayLine(ReplayLog(log[..|log| - 1]), Last(log).line)
  }

  /** What is left of the log without these segments. */
  function Remaining(log: Lines, gone: set<nat>): (left: Lines)
    ensures |left| <= |log|
  {
    if log == [] then []
    else Remaining(log[..|log| - 1], gone) + if Last(log).seg in gone then [] else [Last(log)]
  }

  // ----- the last word on an id -----

  predicate About(line: MetaLine, id: nat) {
    !line.Floor? && LineId(line) == id
  }

  predicate Stays(log: Lines, gone: set<nat>, k: nat) {
    k < |log| && log[k].seg !in gone
  }

  /** Among the lines that stay, line `k` is the last one about the id. */
  ghost predicate LastWord(log: Lines, gone: set<nat>, k: nat, id: nat) {
    && Stays(log, gone, k) && About(log[k].line, id)
    && forall j: nat {:trigger Stays(log, gone, j)} :: k < j && Stays(log, gone, j) ==> !About(log[j].line, id)
  }

  /** Among the lines that stay, no floor lies above the id. */
  ghost predicate NoFloorAbove(log: Lines, gone: set<nat>, id: nat) {
    forall j: nat :: Stays(log, gone, j) && log[j].line.Floor? ==> log[j].line.floor <= id
  }

  predicate Visible(r: Replay, rec: MetaRec) {
    IsLive(r, rec) && r.floor <= rec.id
  }

  lemma ReplaySnoc(log: Lines, e: Entry)
    ensures ReplayLog(log + [e]) == ReplayLine(ReplayLog(log), e.line)
  {
    assert (log + [e])[..|log|] == log;
  }

  lemma {:induction false} ReplayTagged(log: Lines, seg: nat, meta: seq<MetaLine>)
    ensures ReplayLog(log + Tagged(seg, meta)) == ReplayMeta(ReplayLog(log), meta)
  {
    if meta == [] {
      assert log + Tagged(seg, meta) == log;
    } else {
      var init := meta[..|meta| - 1];
      ReplayTagged(log, seg, init);
      assert log + Tagged(seg, meta) == log + Tagged(seg, init) + [Entry(seg, Last(meta))];
      ReplaySnoc(log + Tagged(seg, init), Entry(seg, Last(meta)));
    }
  }

  /** Replaying the segments is replaying the log. */
  lemma {:induction false} ReplayIsLog(disk: map<nat, Files>, nums: seq<nat>)
    ensures ReplayDisk(disk, nums) == ReplayLog(Log(disk, nums))
  {
    if nums != [] {
      var init := nums[..|nums| - 1];
      ReplayIsLog(disk, init);
      if Last(nums) in disk {
        ReplayTagged(Log(disk, init), Last(nums), disk[Last(nums)].meta);
      } else {
        assert Log(disk, init) + [] == Log(disk, init);
      }
    }
  }

  predicate Bounded(r: Replay) {
    forall id :: id in r.live ==> r.live[id].id == id && id <= r.maxSeen
  }

  lemma LineKeepsBounds(r: Replay, line: MetaLine)
    requires Bounded(r)
    ensures Bounded(ReplayLine(r, line))
  {
    var t := ReplayLine(r, line);
    forall id | id in t.live ensures t.live[id].id == id && id <= t.maxSeen {
      assert (line.Msg? && line.rec.id == id && t.live[id] == line.rec) || (id in r.live && t.live[id] == r.live[id]);
    }
  }

  lemma {:induction false} ReplayBounds(log: Lines)
    ensures Bounded(ReplayLog(log))
  {
    if log != [] {
      ReplayBounds(log[..|log| - 1]);
      LineKeepsBounds(ReplayLog(log[..|log| - 1]), Last(log).line);
    }
  }

  /** One line more: the last word is the new line, or what it was before. */
  lemma LastWordInit(log: Lines, gone: set<nat>, k: nat, id: nat)
    requires log != [] && k < |log| - 1
    ensures LastWord(log, gone, k, id) <==>
      LastWord(log[..|log| - 1], gone, k, id) && !(Last(log).seg !in gone && About(Last(log).line, id))
  {
    var init := log[..|log| - 1];
    var n: nat := |log| - 1;
    if LastWord(log, gone, k, id) {
      forall j: nat | k < j && Stays(init, gone, j) ensures !About(init[j].line, id) {
        assert Stays(log, gone, j);
      }
      assert Stays(log, gone, n) <==> Last(log).seg !in gone;
      assert Stays(init, gone, k);
    }
    if LastWord(init, gone, k, id) && !(Last(log).seg !in gone && About(Last(log).line, id)) {
      forall j: nat | k < j && Stays(log, gone, j) ensures !About(log[j].line, id) {
        if j < n {
          assert Stays(init, gone, j);
        }
      }
      assert Stays(log, gone, k);
    }
  }

  /** A replay of what remains makes a record live exactly if a line with it has the last
      word on its id. */
  lemma {:induction false} LiveIff(log: Lines, gone: set<nat>, rec: MetaRec)
    ensures IsLive(ReplayLog(Remaining(log, gone)), rec)
      <==> exists k: nat :: LastWord(log, gone, k, rec.id) && log[k].line == Msg(rec)
  {
    if log != [] {
      LiveIff(log[..|log| - 1], gone, rec);
      ReplayStep(log, gone, rec);
      LiveStep(log, gone, rec);
    }
  }

  predicate IsLive(r: Replay, rec: MetaRec) {
    rec.id in r.live && r.live[rec.id] == rec
  }

  /** Which record is live, with one line more. */
  lemma ReplayStep(log: Lines, gone: set<nat>, rec: MetaRec)
    requires log != []
    ensures IsLive(ReplayLog(Remaining(log, gone)), rec)
      <==> if Last(log).seg !in gone && About(Last(log).line, rec.id) then Last(log).line == Msg(rec)
           else IsLive(ReplayLog(Remaining(log[..|log| - 1], gone)), rec)
  {
    var init, last := log[..|log| - 1], Last(log);
    if last.seg in gone {
      assert Remaining(log, gone) == Remaining(init, gone);
    } else {
      ReplaySnoc(Remaining(init, gone), last);
    }
  }

  /** Which line has the last word, with one line more. */
  lemma LiveStep(log: Lines, gone: set<nat>, rec: MetaRec)
    requires log != []
    ensures var init := log[..|log| - 1];
      (exists k: nat :: LastWord(log, gone, k, rec.id) && log[k].line == Msg(rec))
      <==> if Last(log).seg !in gone && About(Last(log).line, rec.id) then Last(log).line == Msg(rec)
           else exists k: nat :: LastWord(init, gone, k, rec.id) && init[k].line == Msg(rec)
  {
    var init := log[..|log| - 1];
    var n: nat := |log| - 1;
    if k: nat :| LastWord(log, gone, k, rec.id) && log[k].line == Msg(rec) {
      if k < n {
        LastWordInit(log, gone, k, rec.id);
        assert init[k] == log[k];
      }
    }
    if Last(log).seg !in gone && About(Last(log).line, rec.id) {
      if Last(log).line == Msg(rec) {
        assert Stays(log, gone, n);
        assert LastWord(log, gone, n, rec.id) && log[n].line == Msg(rec);
      }
    } else if k: nat :| LastWord(init, gone, k, rec.id) && init[k].line == Msg(rec) {
      assert Stays(init, gone, k);
      LastWordInit(log, gone, k, rec.id);
      assert log[k] == init[k];
    }
  }

  lemma {:induction false} FloorIff(log: Lines, gone: set<nat>, id: nat)
    ensures ReplayLog(Remaining(log, gone)).floor <= id <==> NoFloorAbove(log, gone, id)
  {
    if log != [] {
      var init, last := log[..|log| - 1], Last(log);
      FloorIff(init, gone, id);
      if last.seg in gone {
        assert Remaining(log, gone) == Remaining(init, gone);
      } else {
        ReplaySnoc(Remaining(init, gone), last);
      }
      FloorStep(log, gone, id);
    }
  }

  lemma FloorStep(log: Lines, gone: set<nat>, id: nat)
    requires log != []
    ensures NoFloorAbove(log, gone, id) <==>
      NoFloorAbove(log[..|log| - 1], gone, id) &&
      !(Last(log).seg !in gone && Last(log).line.Floor? && Last(log).line.floor > id)
  {
    var init, n: nat := log[..|log| - 1], |log| - 1;
    assert Stays(log, gone, n) <==> Last(log).seg !in gone;
    forall j: nat | j < n ensures Stays(init, gone, j) == Stays(log, gone, j) && init[j] == log[j] {
    }
    if NoFloorAbove(init, gone, id) && !(Last(log).seg !in gone && Last(log).line.Floor? && Last(log).line.floor > id) {
      forall j: nat | Stays(log, gone, j) && log[j].line.Floor? ensures log[j].line.floor <= id {
        if j < n {
          assert Stays(init, gone, j);
        }
      }
    }
    if NoFloorAbove(log, gone, id) {
      forall j: nat | Stays(init, gone, j) && init[j].line.Floor? ensures init[j].line.floor <= id {
        assert Stays(log, gone, j);
      }
    }
  }

  /** What a replay of the remaining lines shows. */
  ghost predicate Shows(log: Lines, gone: set<nat>, rec: MetaRec) {
    && (exists k: nat :: LastWord(log, gone, k, rec.id) && log[k].line == Msg(rec))
    && NoFloorAbove(log, gone, rec.id)
  }

  lemma VisibleIff(log: Lines, gone: set<nat>, rec: MetaRec)
    ensures Visible(ReplayLog(Remaining(log, gone)), rec) <==> Shows(log, gone, rec)
  {
    LiveIff(log, gone, rec);
    FloorIff(log, gone, rec.id);
  }

  lemma {:induction false} RemainingAll(log: Lines)
    ensures Remaining(log, {}) == log
  {
    if log != [] {
      RemainingAll(log[..|log| - 1]);
    }
  }

  /** The index of a reopened store: what its log shows, by id. */
  lemma ReopenedIs(s: Segs, r: Retention)
    ensures SortedIndex(Reopened(s, r).index)
    ensures forall rec :: rec in Reopened(s, r).index <==> Visible(ReplayLog(LogOf(s)), rec)
  {
    var t := ReplayDisk(s.disk, s.nums);
    ReplayIsLog(s.disk, s.nums);
    ReplayBounds(LogOf(s));
    CollectIs(t.live, t.floor, t.maxSeen + 1);
  }

  /** A reopened store shows a record exactly when the last line about its id that is still
      on disk is that record and no floor that is still on disk lies above it. */
  lemma ReopenedShowsIff(s: Segs, r: Retention, rec: MetaRec)
    ensures rec in Reopened(s, r).index <==> Shows(LogOf(s), {}, rec)
  {
    ReopenedIs(s, r);
    RemainingAll(LogOf(s));
    VisibleIff(LogOf(s), {}, rec);
  }

  // ----- dropping segments is dropping their lines -----

  lemma {:induction false} RemainingOf(first: Lines, second: Lines, gone: set<nat>)
    ensures Remaining(first + second, gone) == Remaining(first, gone) + Remaining(second, gone)
  {
    if second == [] {
      assert first + second == first;
    } else {
      var all := first + second;
      assert all[..|all| - 1] == first + second[..|second| - 1];
      RemainingOf(first, second[..|second| - 1], gone);
    }
  }

  lemma {:induction false} RemainingTagged(seg: nat, meta: seq<MetaLine>, gone: set<nat>)
    ensures Remaining(Tagged(seg, meta), gone) == if seg in gone then [] else Tagged(seg, meta)
  {
    if meta != [] {
      var init := meta[..|meta| - 1];
      RemainingTagged(seg, init, gone);
      assert Tagged(seg, meta)[..|meta| - 1] == Tagged(seg, init);
      assert Tagged(seg, meta) == Tagged(seg, init) + [Entry(seg, Last(meta))];
    }
  }

  lemma {:induction false} RemainingTwice(log: Lines, a: set<nat>, b: set<nat>)
    ensures Remaining(Remaining(log, a), b) == Remaining(log, a + b)
  {
    if log != [] {
      var init := log[..|log| - 1];
      RemainingTwice(init, a, b);
      var one := if Last(log).seg in a then [] else [Last(log)];
      RemainingOf(Remaining(init, a), one, b);
      assert Remaining(one, b) == if Last(log).seg in a + b then [] else [Last(log)] by {
        if one != [] {
          assert one[..0] == [];
        }
      }
    }
  }

  lemma {:induction false} LogWithout(disk: map<nat, Files>, nums: seq<nat>, n: nat)
    ensures Log(disk - {n}, Without(nums, n)) == Remaining(Log(disk, nums), {n})
  {
    if nums != [] {
      var init := nums[..|nums| - 1];
      var last := Last(nums);
      var piece := if last in disk then Tagged(last, disk[last].meta) else [];
      LogWithout(disk, init, n);
      RemainingOf(Log(disk, init), piece, {n});
      if last in disk {
        RemainingTagged(last, disk[last].meta, {n});
      }
      if last == n {
        assert Without(nums, n) == Without(init, n);
      } else {
        var w := Without(nums, n);
        assert w[..|w| - 1] == Without(init, n) && Last(w) == last;
      }
    }
  }

  /** The segments that a list of orphans takes away: all but the open one. */
  function DroppedOf(s: Segs, orphans: seq<nat>): set<nat> {
    set n | n in orphans && !(s.cur.Some? && s.cur.value.num == n)
  }

  lemma {:induction false} LogDropAll(s: Segs, orphans: seq<nat>)
    ensures DropAll(s, orphans).cur == s.cur
    ensures LogOf(DropAll(s, orphans)) == Remaining(LogOf(s), DroppedOf(s, orphans))
  {
    if orphans == [] {
      assert DroppedOf(s, orphans) == {};
      RemainingAll(LogOf(s));
    } else {
      var init, n := orphans[..|orphans| - 1], Last(orphans);
      LogDropAll(s, init);
      assert orphans == init + [n];
      var t := DropAll(s, init);
      if s.cur.Some? && s.cur.value.num == n {
        assert DroppedOf(s, orphans) == DroppedOf(s, init);
      } else {
        LogWithout(t.disk, t.nums, n);
        RemainingTwice(LogOf(s), DroppedOf(s, init), {n});
        assert DroppedOf(s, orphans) == DroppedOf(s, init) + {n};
      }
    }
  }

  /** The segments that `reclaim` drops: not current, and no record of the index is in them. */
  function Gone(s: State): set<nat> {
    set n | n in s.segs.nums && n !in Referenced(s.index) && !(s.segs.cur.Some? && s.segs.cur.value.num == n)
  }

  lemma LogReclaim(s: State)
    ensures LogOf(Reclaim(s).segs) == Remaining(LogOf(s.segs), Gone(s))
  {
    var orphans := Orphans(s.segs.nums, Referenced(s.index));
    OrphansAre(s.segs.nums, Referenced(s.index));
    LogDropAll(s.segs, orphans);
    assert DroppedOf(s.segs, orphans) == Gone(s);
  }

  // ----- writing appends to the log -----

  lemma {:induction false} LogFrame(disk: map<nat, Files>, disk': map<nat, Files>, nums: seq<nat>)
    requires forall n :: n in nums ==> (n in disk <==> n in disk')
    requires forall n :: n in nums && n in disk ==> disk[n].meta == disk'[n].meta
    ensures Log(disk, nums) == Log(disk', nums)
  {
    if nums != [] {
      assert nums == nums[..|nums| - 1] + [Last(nums)];
      LogFrame(disk, disk', nums[..|nums| - 1]);
    }
  }

  lemma LogExtended(s: Segs, t: Segs)
    requires SegsOk(s) && Extended(s, t)
    ensures LogOf(t) == LogOf(s)
  {
    if t.nums != s.nums {
      var n := Last(t.nums);
      assert t.nums[..|t.nums| - 1] == s.nums;
      assert n !in s.nums;
      LogFrame(s.disk, t.disk, s.nums);
      EmptySegment(s, t);
    }
  }

  lemma EmptySegment(s: Segs, t: Segs)
    requires t.nums != [] && t.nums[..|t.nums| - 1] == s.nums && LogOf(s) == Log(t.disk, s.nums)
    requires Last(t.nums) in t.disk && t.disk[Last(t.nums)].meta == []
    ensures LogOf(t) == LogOf(s)
  {
    assert Tagged(Last(t.nums), []) == [];
    assert LogOf(s) + [] == LogOf(s);
  }

  lemma LogAppended(s: Segs, disk': map<nat, Files>, line: MetaLine)
    requires SegsOk(s) && s.cur.Some?
    requires disk'.Keys == s.disk.Keys
    requires forall n :: n in s.disk ==>
               disk'[n].meta == if n == Last(s.nums) then s.disk[n].meta + [line] else s.disk[n].meta
    ensures Log(disk', s.nums) == LogOf(s) + [Entry(Last(s.nums), line)]
  {
    var init, n := s.nums[..|s.nums| - 1], Last(s.nums);
    forall m | m in init ensures m in s.nums && m != n {
      var i :| 0 <= i < |init| && init[i] == m;
      assert s.nums[i] == m;
    }
    LogFrame(s.disk, disk', init);
    TaggedMore(n, s.disk[n].meta, line);
    Shift(Log(s.disk, init), Tagged(n, s.disk[n].meta), [Entry(n, line)]);
  }

  lemma TaggedMore(seg: nat, meta: seq<MetaLine>, line: MetaLine)
    ensures Tagged(seg, meta + [line]) == Tagged(seg, meta) + [Entry(seg, line)]
  {
  }

  lemma LogPutLine(s: Segs, line: MetaLine)
    requires SegsOk(s) && s.cur.Some?
    ensures LogOf(PutLine(s, line)) == LogOf(s) + [Entry(Last(s.nums), line)]
  {
    LogAppended(s, PutLine(s, line).disk, line);
  }

  lemma LogPutMessage(env: Env, s: Segs, id: nat, msg: NewMessage)
    requires SegsOk(s) && s.cur.Some? && s.cur.value.num in s.disk
    ensures LogOf(PutMessage(env, s, id, msg)) == LogOf(s) + [Entry(Last(s.nums), Msg(NextRec(env, s, id, msg)))]
  {
    LogAppended(s, PutMessage(env, s, id, msg).disk, Msg(NextRec(env, s, id, msg)));
  }

  /** A line of the log stands in a segment on disk, and the other way round. */
  lemma {:induction false} LogHas(disk: map<nat, Files>, nums: seq<nat>, n: nat, line: MetaLine)
    ensures Entry(n, line) in Log(disk, nums) <==> n in nums && n in disk && line in disk[n].meta
  {
    if nums != [] {
      var init, last := nums[..|nums| - 1], Last(nums);
      assert nums == init + [last];
      LogHas(disk, init, n, line);
      if last in disk {
        TaggedHas(last, disk[last].meta, n, line);
      }
    }
  }

  lemma TaggedHas(seg: nat, meta: seq<MetaLine>, n: nat, line: MetaLine)
    ensures Entry(n, line) in Tagged(seg, meta) <==> n == seg && line in meta
  {
    var e := Tagged(seg, meta);
    if n == seg && line in meta {
      var i :| 0 <= i < |meta| && meta[i] == line;
      assert e[i] == Entry(n, line);
    }
  }
}
