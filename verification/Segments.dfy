/** The segment files in place (crates/s2l-store/src/seg.rs): the methods change the
    directory and the writer step by step and leave what StoreModel says. */
module SegmentFiles {
  import opened Octets
  import opened Wrappers
  import opened StoreModel
  import opened SegmentLaws

  // ----- the directory invariant, write by write -----

  lemma SwitchKeepsDir(env: Env, s: Segs, incoming: nat)
    requires DirOk(s)
    ensures DirOk(Switch(env, s, incoming))
    ensures s.cur.Some? ==> Switch(env, s, incoming).cur.value.bodyLen == 0
  {
    var num := NextNum(s);
    if s.nums != [] && s.cur.Some? {
      forall n | n in s.disk ensures n < num {
        var i :| 0 <= i < |s.nums| && s.nums[i] == n;
      }
    } else if s.nums != [] {
      assert num in s.nums;
    }
  }

  lemma EnsureOpenKeepsDir(env: Env, s: Segs, incoming: nat)
    requires DirOk(s) && env.maxRecords >= 1 && incoming <= env.maxBody
    ensures var t := EnsureOpen(env, s, incoming); DirOk(t) && t.cur.Some? && !NeedRoll(env, t, incoming)
  {
    if NeedRoll(env, s, incoming) {
      SwitchKeepsDir(env, s, incoming);
      SwitchKeepsDir(env, Switch(env, s, incoming), incoming);
    }
  }

  lemma PutLineKeepsDir(s: Segs, line: MetaLine)
    requires DirOk(s) && s.cur.Some?
    ensures DirOk(PutLine(s, line))
  {
  }

  lemma PutMessageKeepsDir(env: Env, s: Segs, id: nat, msg: NewMessage)
    requires DirOk(s) && s.cur.Some? && s.cur.value.num in s.disk
    ensures DirOk(PutMessage(env, s, id, msg))
  {
    assert AttStart(s) == |AttBytes(s.disk[s.cur.value.num])|;
  }

  lemma DropSegmentKeepsDir(s: Segs, n: nat)
    requires DirOk(s)
    ensures DirOk(DropSegment(s, n)) && DropSegment(s, n).cur == s.cur
  {
    WithoutIs(s.nums, n);
  }

  // ----- reading the directory listing -----

  predicate NoRepeats(nums: seq<nat>) {
    forall i, j :: 0 <= i < j < |nums| ==> nums[i] != nums[j]
  }

  /** The listing in ascending order. */
  method SortNums(listing: seq<nat>) returns (nums: seq<nat>)
    requires NoRepeats(listing)
    ensures Ascending(nums)
    ensures forall n :: n in nums <==> n in listing
  {
    nums := [];
    for i := 0 to |listing|
      invariant Ascending(nums)
      invariant forall n :: n in nums <==> n in listing[..i]
    {
      var p: nat := |nums|;
      while p > 0 && nums[p - 1] > listing[i]
        invariant 0 <= p <= |nums|
        invariant forall j :: p <= j < |nums| ==> nums[j] > listing[i]
      {
        p := p - 1;
      }
      InsertKeepsAscending(nums, p, listing[i], listing[..i]);
      assert listing[..i + 1] == listing[..i] + [listing[i]];
      nums := nums[..p] + [listing[i]] + nums[p..];
    }
    assert listing[..|listing|] == listing;
  }

  lemma InsertKeepsAscending(nums: seq<nat>, p: nat, n: nat, seen: seq<nat>)
    requires Ascending(nums) && p <= |nums| && n !in seen
    requires forall m :: m in nums <==> m in seen
    requires forall j :: p <= j < |nums| ==> nums[j] > n
    requires p > 0 ==> nums[p - 1] <= n
    ensures Ascending(nums[..p] + [n] + nums[p..])
    ensures forall m :: m in nums[..p] + [n] + nums[p..] <==> m in nums || m == n
  {
    assert nums == nums[..p] + nums[p..];
    if p > 0 {
      assert nums[p - 1] in nums;
    }
    var out := nums[..p] + [n] + nums[p..];
    forall i, j | 0 <= i < j < |out| ensures out[i] < out[j] {
    }
  }

  /** Attachments are written one after the other; their spots are noted on the way. */
  method WriteAttachments(att: seq<Byte>, attLen: nat, atts: seq<seq<Byte>>)
      returns (bytes: seq<Byte>, len: nat, spots: seq<(nat, nat)>)
    ensures bytes == att + Flatten(atts) && len == attLen + |Flatten(atts)| && spots == Spots(attLen, atts)
  {
    bytes, len, spots := att, attLen, [];
    for i := 0 to |atts|
      invariant bytes == att + Flatten(atts[..i])
      invariant len == attLen + |Flatten(atts[..i])|
      invariant spots == Spots(attLen, atts[..i])
    {
      assert atts[..i + 1][..i] == atts[..i] && Last(atts[..i + 1]) == atts[i];
      spots := spots + [(len, U32(|atts[i]|))];
      bytes := bytes + atts[i];
      len := len + |atts[i]|;
    }
    assert atts[..|atts|] == atts;
  }

  function FirstLine(rest: seq<Byte>): seq<Byte> {
    var e := LineFeed(rest, 0);
    if e == |rest| then rest else DropCr(rest[..e])
  }

  function AfterLine(rest: seq<Byte>): (tail: seq<Byte>)
    ensures rest != [] ==> |tail| < |rest|
  {
    var e := LineFeed(rest, 0);
    if e == |rest| then [] else rest[e + 1..]
  }

  function Readable(env: Env, line: seq<Byte>): seq<BodyRec> {
    match env.dec(line) case Some(b) => [b] case None => []
  }

  lemma FirstDecoded(env: Env, rest: seq<Byte>)
    requires rest != []
    ensures Decoded(env, Lines(rest)) == Readable(env, FirstLine(rest)) + Decoded(env, Lines(AfterLine(rest)))
  {
    assert Lines(rest) == [FirstLine(rest)] + Lines(AfterLine(rest));
    assert Lines(rest)[1..] == Lines(AfterLine(rest));
  }

  method StreamLines(env: Env, file: seq<Byte>) returns (bodies: seq<BodyRec>)
    ensures bodies == Decoded(env, Lines(file))
  {
    var rest := file;
    bodies := [];
    ghost var all := Decoded(env, Lines(file));
    while rest != []
      invariant bodies + Decoded(env, Lines(rest)) == all
      decreases |rest|
    {
      FirstDecoded(env, rest);
      var line, tail := FirstLine(rest), AfterLine(rest);
      Shift(bodies, Readable(env, line), Decoded(env, Lines(tail)));
      bodies := bodies + Readable(env, line);
      rest := tail;
    }
  }

  class Segments {
    const env: Env
    var disk: map<nat, Files>
    var nums: seq<nat>
    var cur: Option<Open>

    ghost function State(): Segs
      reads this
    {
      Segs(disk, nums, cur)
    }

    ghost predicate Valid()
      reads this
    {
      env.maxRecords >= 1 && DirOk(State())
    }

    /** Opens a directory; `listing` is what reading the directory returned. */
    constructor (env: Env, disk: map<nat, Files>, listing: seq<nat>)
      requires env.maxRecords >= 1 && NoRepeats(listing)
      requires forall n :: n in listing <==> n in disk
      ensures Valid() && this.env == env
      ensures this.disk == disk && cur == None
    {
      var sorted := SortNums(listing);
      this.env, this.disk, this.nums, this.cur := env, disk, sorted, None;
    }

    method EnsureOpen(incoming: nat)
      requires Valid() && incoming <= env.maxBody
      modifies this
      ensures Valid() && State() == StoreModel.EnsureOpen(env, old(State()), incoming)
      ensures cur.Some? && cur.value.num in disk && !NeedRoll(env, State(), incoming)
      decreases if cur.None? then 1 else 0
    {
      EnsureOpenKeepsDir(env, State(), incoming);
      var needRoll := cur.None? || cur.value.bodyLen + incoming > env.maxBody || cur.value.records >= env.maxRecords;
      if !needRoll {
        return;
      }
      var full := SwitchSegment(incoming);
      if full {
        EnsureOpen(incoming);
      }
    }

    /** Takes the newest segment that is not current, or makes a new one; true when the
        request does not fit it either. */
    method SwitchSegment(incoming: nat) returns (full: bool)
      requires Valid()
      modifies this
      ensures Valid() && State() == Switch(env, old(State()), incoming)
      ensures cur.Some? && (full <==> cur.value.bodyLen + incoming > env.maxBody)
      ensures old(cur).Some? ==> cur.value.bodyLen == 0
    {
      SwitchKeepsDir(env, State(), incoming);
      ghost var before := State();
      var num := if nums == [] then 1 else if cur.None? then Last(nums) else Last(nums) + 1;
      if num !in nums {
        nums := nums + [num];
      }
      if num !in disk {
        disk := disk[num := EMPTY_FILES];
      }
      var bodyLen := |disk[num].body|;
      var records := if bodyLen > 0 then env.maxRecords else 0;
      full := bodyLen + incoming > env.maxBody;
      cur := Some(Open(num, bodyLen, if full then records else 0, None));
      assert State() == Switch(env, before, incoming);
    }

    /** Writes the attachments, then the body line, then the metadata line. */
    method Append(id: nat, msg: NewMessage) returns (rec: MetaRec)
      requires Valid() && Incoming(msg) <= env.maxBody
      modifies this
      ensures Valid()
      ensures var open := StoreModel.EnsureOpen(env, old(State()), Incoming(msg));
        && open.cur.Some? && open.cur.value.num in open.disk
        && State() == PutMessage(env, open, id, msg) && rec == NextRec(env, open, id, msg)
    {
      EnsureOpen(Incoming(msg));
      rec := WriteMessage(id, msg);
    }

    /** The three writes of an append, into the open segment. */
    method WriteMessage(id: nat, msg: NewMessage) returns (rec: MetaRec)
      requires Valid() && cur.Some? && cur.value.num in disk
      modifies this
      ensures Valid()
      ensures State() == PutMessage(env, old(State()), id, msg) && rec == NextRec(env, old(State()), id, msg)
    {
      ghost var before := State();
      PutMessageKeepsDir(env, before, id, msg);
      var atts := KeptData(msg.mail.attachments);
      var c := cur.value;
      var f := disk[c.num];
      var spots: seq<(nat, nat)> := [];
      var att, attLen := f.att, c.attLen;
      if atts != [] {
        var start := if c.attLen.Some? then c.attLen.value else |AttBytes(f)|;
        var bytes, len;
        bytes, len, spots := WriteAttachments(AttBytes(f), start, atts);
        att, attLen := Some(bytes), Some(len);
      }
      assert spots == Spots(AttStart(before), atts);
      var json := env.enc(BodyOf(id, msg, spots));
      rec := MetaOf(env, id, msg, c.num, c.bodyLen, U32(|json|));
      disk := disk[c.num := Files(f.meta + [Msg(rec)], f.body + json + [LF], att)];
      cur := Some(Open(c.num, c.bodyLen + |json| + 1, c.records + 1, attLen));
    }

    method AppendMeta(line: MetaLine)
      requires Valid()
      modifies this
      ensures Valid() && State() == StoreModel.AppendMeta(env, old(State()), line)
      ensures cur.Some? && !NeedRoll(env, State(), 0)
    {
      EnsureOpen(0);
      PutLineKeepsDir(State(), line);
      var n := cur.value.num;
      disk := disk[n := disk[n].(meta := disk[n].meta + [line])];
    }

    method DropSegment(n: nat)
      requires Valid()
      modifies this
      ensures Valid() && State() == StoreModel.DropSegment(old(State()), n) && cur == old(cur)
    {
      DropSegmentKeepsDir(State(), n);
      if cur.Some? && cur.value.num == n {
        return;
      }
      disk := disk - {n};
      nums := Without(nums, n);
    }

    method ReadBody(rec: MetaRec) returns (b: Option<BodyRec>)
      ensures b == ReadBodyAt(env, State(), rec)
    {
      if rec.seg !in disk {
        return None;
      }
      var body := disk[rec.seg].body;
      if rec.off + rec.len > |body| {
        return None;
      }
      b := env.dec(body[rec.off..rec.off + rec.len]);
    }

    method ReadAttachment(seg: nat, off: nat, len: nat) returns (bytes: Option<seq<Byte>>)
      ensures bytes == ReadAtt(State(), seg, off, len)
    {
      if seg !in disk || disk[seg].att.None? {
        return None;
      }
      var att := disk[seg].att.value;
      bytes := if off + len > |att| then None else Some(att[off..off + len]);
    }

    /** The records of a body file, one line after the other. */
    method Stream(n: nat) returns (bodies: seq<BodyRec>)
      ensures bodies == StreamBody(env, State(), n)
    {
      if n !in disk {
        return [];
      }
      bodies := StreamLines(env, disk[n].body);
    }
  }
}
