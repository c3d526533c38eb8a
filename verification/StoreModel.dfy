/** The mail store on values: what is on disk, what each operation does to it and
    to the in-memory index (crates/s2l-store/src/seg.rs and lib.rs). The classes in
    Segments.dfy and Store.dfy compute exactly these functions. */
module StoreModel {
  import opened Octets
  import opened Wrappers

  /** `as u32` on a length. */
  function U32(n: nat): nat {
    n % 0x1_0000_0000
  }

  // ----- records -----

  datatype Attachment = Attachment(filename: string, mime: string, size: nat, data: Option<seq<Byte>>)

  datatype Address = Address(name: string, addr: string)

  datatype Mail = Mail(
    subject: string, from: Option<Address>, date: Option<int>, text: string, html: Option<string>,
    attachments: seq<Attachment>, headers: seq<(string, string)>)

  datatype NewMessage = NewMessage(
    receivedAt: int, envelopeFrom: string, rcpt: seq<string>, peer: string, origin: string,
    authUser: string, size: nat, mail: Mail, group: Option<nat>, raw: Option<seq<Byte>>)

  /** The columns of a metadata record that never change after it is written. */
  datatype Columns = Columns(
    date: Option<int>, envelopeFrom: string, from: string, fromName: string, subject: string,
    preview: string, rcpt: seq<string>, peer: string, origin: string, authUser: string,
    size: nat, attachments: nat, hasHtml: bool)

  datatype MetaRec = MetaRec(
    id: nat, ts: int, columns: Columns, group: Option<nat>, seg: nat, off: nat, len: nat)

  datatype MetaLine = Msg(rec: MetaRec) | Del(id: nat) | Floor(floor: nat)

  datatype BodyRec = BodyRec(
    id: nat, text: string, html: Option<string>, attachments: seq<Attachment>,
    headers: seq<(string, string)>, spots: seq<(nat, nat)>, raw: Option<seq<Byte>>)

  datatype Message = Message(meta: MetaRec, body: BodyRec)

  datatype Retention = Retention(maxEntries: nat, maxDays: nat)

  /** What the store takes from outside: the two segment limits, the JSON codec of
      body records, the preview line of a text and the case-insensitive search. */
  datatype Env = Env(
    maxRecords: nat, maxBody: nat,
    enc: BodyRec -> seq<Byte>, dec: seq<Byte> -> Option<BodyRec>,
    preview: string -> string, contains: (string, string) -> bool)

  /** The laws the outside obeys: JSON reads back and has no raw line break, and
      the empty text contains no non-empty needle. */
  ghost predicate Lawful(env: Env) {
    && env.maxRecords >= 1
    && (forall b: BodyRec {:trigger env.enc(b)} ::
          env.dec(env.enc(b)) == Some(b) && LF !in env.enc(b) && CR !in env.enc(b))
    && (forall needle: string :: needle != "" ==> !env.contains("", needle))
  }

  function LineId(line: MetaLine): nat {
    match line
    case Msg(rec) => rec.id
    case Del(id) => id
    case Floor(id) => id
  }

  // ----- segment files -----

  datatype Files = Files(meta: seq<MetaLine>, body: seq<Byte>, att: Option<seq<Byte>>)

  /** The segment being written; `attLen` is there once its attachment file is open. */
  datatype Open = Open(num: nat, bodyLen: nat, records: nat, attLen: Option<nat>)

  datatype Segs = Segs(disk: map<nat, Files>, nums: seq<nat>, cur: Option<Open>)

  const EMPTY_FILES := Files([], [], None)

  predicate NeedRoll(env: Env, s: Segs, incoming: nat) {
    s.cur.None? || s.cur.value.bodyLen + incoming > env.maxBody || s.cur.value.records >= env.maxRecords
  }

  /** The number of the segment to switch to. */
  function NextNum(s: Segs): nat {
    if s.nums == [] then 1
    else if s.cur.None? then Last(s.nums)
    else Last(s.nums) + 1
  }

  /** One switch: create or reopen the files of the next segment. */
  function Switch(env: Env, s: Segs, incoming: nat): Segs {
    var num := NextNum(s);
    var disk := if num in s.disk then s.disk else s.disk[num := EMPTY_FILES];
    var bodyLen := |disk[num].body|;
    var records := if bodyLen > 0 then env.maxRecords else 0;
    var full := bodyLen + incoming > env.maxBody;
    Segs(disk, if num in s.nums then s.nums else s.nums + [num],
         Some(Open(num, bodyLen, if full then records else 0, None)))
  }

  /** `ensure_open` allowed at most `switches` segment switches; None if it wants more. */
  function EnsureOpenWithin(env: Env, s: Segs, incoming: nat, switches: nat): Option<Segs>
    decreases switches
  {
    if !NeedRoll(env, s, incoming) then Some(s)
    else if switches == 0 then None
    else
      var t := Switch(env, s, incoming);
      if t.cur.value.bodyLen + incoming > env.maxBody
      then EnsureOpenWithin(env, t, incoming, switches - 1)
      else Some(t)
  }

  /** `ensure_open` on a request that fits a segment. */
  function EnsureOpen(env: Env, s: Segs, incoming: nat): Segs {
    if !NeedRoll(env, s, incoming) then s
    else
      var t := Switch(env, s, incoming);
      if t.cur.value.bodyLen + incoming > env.maxBody then Switch(env, t, incoming) else t
  }

  predicate Ascending(nums: seq<nat>) {
    forall i, j :: 0 <= i < j < |nums| ==> nums[i] < nums[j]
  }

  /** The writer and the directory agree. */
  ghost predicate DirOk(s: Segs) {
    && Ascending(s.nums)
    && (forall n :: n in s.nums <==> n in s.disk)
    && match s.cur
       case None => true
       case Some(c) =>
         && s.nums != [] && c.num == Last(s.nums)
         && c.bodyLen == |s.disk[c.num].body|
         && (c.attLen.Some? ==> s.disk[c.num].att.Some? && c.attLen.value == |s.disk[c.num].att.value|)
  }

  /** Moreover, only the newest segment may hold no body, and a counted record has a body. */
  ghost predicate SegsOk(s: Segs) {
    && DirOk(s)
    && (forall n :: n in s.disk && n != Last(s.nums) ==> s.disk[n].body != [])
    && (s.cur.Some? && s.cur.value.records > 0 ==> s.cur.value.bodyLen > 0)
  }

  // ----- appending -----

  function Flatten(atts: seq<seq<Byte>>): seq<Byte> {
    if atts == [] then [] else Flatten(atts[..|atts| - 1]) + Last(atts)
  }

  /** Where each attachment lands when the first starts at `start`. */
  function Spots(start: nat, atts: seq<seq<Byte>>): (spots: seq<(nat, nat)>)
    ensures |spots| == |atts|
  {
    if atts == [] then []
    else
      var init := atts[..|atts| - 1];
      Spots(start, init) + [(start + |Flatten(init)|, U32(|Last(atts)|))]
  }

  /** The attachments whose bytes were kept. */
  function KeptData(attachments: seq<Attachment>): seq<seq<Byte>> {
    if attachments == [] then []
    else
      KeptData(attachments[..|attachments| - 1]) +
      (if Last(attachments).data.Some? then [Last(attachments).data.value] else [])
  }

  function BodyOf(id: nat, msg: NewMessage, spots: seq<(nat, nat)>): BodyRec {
    BodyRec(id, msg.mail.text, msg.mail.html, msg.mail.attachments, msg.mail.headers, spots, msg.raw)
  }

  function FromAddr(mail: Mail): string {
    if mail.from.Some? then mail.from.value.addr else ""
  }

  function MetaOf(env: Env, id: nat, msg: NewMessage, seg: nat, off: nat, len: nat): MetaRec {
    var from := if FromAddr(msg.mail) == "" then msg.envelopeFrom else FromAddr(msg.mail);
    var fromName := if msg.mail.from.Some? then msg.mail.from.value.name else "";
    MetaRec(id, msg.receivedAt,
            Columns(msg.mail.date, msg.envelopeFrom, from, fromName, msg.mail.subject,
                    env.preview(msg.mail.text), msg.rcpt, msg.peer, msg.origin, msg.authUser,
                    msg.size, |msg.mail.attachments|, msg.mail.html.Some?),
            msg.group, seg, off, len)
  }

  const HEADROOM: nat := 4096

  function Incoming(msg: NewMessage): nat {
    |Flatten(KeptData(msg.mail.attachments))| + HEADROOM
  }

  function AttBytes(f: Files): seq<Byte> {
    if f.att.Some? then f.att.value else []
  }

  /** Where the attachments of the next message start in the open segment. */
  function AttStart(s: Segs): nat
    requires s.cur.Some? && s.cur.value.num in s.disk
  {
    if s.cur.value.attLen.Some? then s.cur.value.attLen.value
    else |AttBytes(s.disk[s.cur.value.num])|
  }

  /** The body line the next append writes into the open segment. */
  function NextBody(s: Segs, id: nat, msg: NewMessage): BodyRec
    requires s.cur.Some? && s.cur.value.num in s.disk
  {
    BodyOf(id, msg, Spots(AttStart(s), KeptData(msg.mail.attachments)))
  }

  function NextRec(env: Env, s: Segs, id: nat, msg: NewMessage): MetaRec
    requires s.cur.Some? && s.cur.value.num in s.disk
  {
    var c := s.cur.value;
    MetaOf(env, id, msg, c.num, c.bodyLen, U32(|env.enc(NextBody(s, id, msg))|))
  }

  /** Writing one message into the open segment: attachments, body line, metadata line. */
  function PutMessage(env: Env, s: Segs, id: nat, msg: NewMessage): Segs
    requires s.cur.Some? && s.cur.value.num in s.disk
  {
    var c := s.cur.value;
    var f := s.disk[c.num];
    var atts := KeptData(msg.mail.attachments);
    var json := env.enc(NextBody(s, id, msg));
    var att := if atts == [] then f.att else Some(AttBytes(f) + Flatten(atts));
    var attLen := if atts == [] then c.attLen else Some(AttStart(s) + |Flatten(atts)|);
    Segs(s.disk[c.num := Files(f.meta + [Msg(NextRec(env, s, id, msg))], f.body + json + [LF], att)],
         s.nums,
         Some(Open(c.num, c.bodyLen + |json| + 1, c.records + 1, attLen)))
  }

  function PutLine(s: Segs, line: MetaLine): Segs
    requires s.cur.Some? && s.cur.value.num in s.disk
  {
    var n := s.cur.value.num;
    s.(disk := s.disk[n := s.disk[n].(meta := s.disk[n].meta + [line])])
  }

  /** `append_meta`. */
  function AppendMeta(env: Env, s: Segs, line: MetaLine): Segs
    requires DirOk(s)
  {
    EnsureOpenIsOpen(env, s, 0);
    PutLine(EnsureOpen(env, s, 0), line)
  }

  lemma EnsureOpenIsOpen(env: Env, s: Segs, incoming: nat)
    requires DirOk(s)
    ensures var t := EnsureOpen(env, s, incoming); t.cur.Some? && t.cur.value.num in t.disk
  {
  }

  function Without(nums: seq<nat>, n: nat): seq<nat> {
    if nums == [] then []
    else Without(nums[..|nums| - 1], n) + (if Last(nums) == n then [] else [Last(nums)])
  }

  /** `drop_segment`: the open segment is never dropped. */
  function DropSegment(s: Segs, n: nat): Segs {
    if s.cur.Some? && s.cur.value.num == n then s
    else s.(disk := s.disk - {n}, nums := Without(s.nums, n))
  }

  function DropAll(s: Segs, orphans: seq<nat>): Segs {
    if orphans == [] then s
    else DropSegment(DropAll(s, orphans[..|orphans| - 1]), Last(orphans))
  }

  // ----- reading -----

  function ReadBodyAt(env: Env, s: Segs, rec: MetaRec): Option<BodyRec> {
    if rec.seg !in s.disk then None
    else
      var body := s.disk[rec.seg].body;
      if rec.off + rec.len > |body| then None else env.dec(body[rec.off..rec.off + rec.len])
  }

  function ReadAtt(s: Segs, seg: nat, off: nat, len: nat): Option<seq<Byte>> {
    if seg !in s.disk || s.disk[seg].att.None? then None
    else
      var att := s.disk[seg].att.value;
      if off + len > |att| then None else Some(att[off..off + len])
  }

  function DropCr(line: seq<Byte>): seq<Byte> {
    if line != [] && Last(line) == CR then line[..|line| - 1] else line
  }

  /** A file read line by line: LF or CRLF ends a line. */
  function Lines(bytes: seq<Byte>): seq<seq<Byte>>
    decreases |bytes|
  {
    if bytes == [] then []
    else
      var e := LineFeed(bytes, 0);
      if e == |bytes| then [bytes] else [DropCr(bytes[..e])] + Lines(bytes[e + 1..])
  }

  /** The records a body file yields when it is streamed; unreadable lines are skipped. */
  function Decoded(env: Env, lines: seq<seq<Byte>>): seq<BodyRec> {
    if lines == [] then []
    else
      (match env.dec(lines[0]) case Some(b) => [b] case None => []) + Decoded(env, lines[1..])
  }

  function StreamBody(env: Env, s: Segs, n: nat): seq<BodyRec> {
    if n in s.disk then Decoded(env, Lines(s.disk[n].body)) else []
  }

  // ----- the store -----

  datatype State = State(segs: Segs, index: seq<MetaRec>, nextId: nat, floor: nat, retention: Retention)

  /** The position of the first record with this id. */
  function Position(index: seq<MetaRec>, id: nat): (p: Option<nat>)
    ensures p.None? ==> forall i :: 0 <= i < |index| ==> index[i].id != id
    ensures p.Some? ==> p.value < |index| && index[p.value].id == id
    ensures p.Some? ==> forall i :: 0 <= i < p.value ==> index[i].id != id
  {
    if index == [] then None
    else if Position(index[..|index| - 1], id).Some? then Position(index[..|index| - 1], id)
    else if Last(index).id == id then Some(|index| - 1)
    else None
  }

  function Get(env: Env, s: State, id: nat): Option<Message> {
    match Position(s.index, id)
    case None => None
    case Some(p) =>
      var rec := s.index[p];
      Some(Message(rec, match ReadBodyAt(env, s.segs, rec)
                        case Some(b) => b
                        case None => BodyRec(id, "", None, [], [], [], None)))
  }

  function AttachmentBytes(env: Env, s: State, id: nat, k: nat): Option<seq<Byte>> {
    match Position(s.index, id)
    case None => None
    case Some(p) =>
      match ReadBodyAt(env, s.segs, s.index[p])
      case None => None
      case Some(b) =>
        if k < |b.spots| then ReadAtt(s.segs, s.index[p].seg, b.spots[k].0, b.spots[k].1) else None
  }

  function NewestOnly(index: seq<MetaRec>, maxEntries: nat): (r: seq<MetaRec>)
    ensures |r| <= |index| && r == index[|index| - |r|..]
  {
    if |index| > maxEntries then index[|index| - maxEntries..] else index
  }

  function DropOlder(index: seq<MetaRec>, cutoff: int): (r: seq<MetaRec>)
    ensures |r| <= |index| && r == index[|index| - |r|..]
  {
    if index != [] && index[0].ts < cutoff then DropOlder(index[1..], cutoff) else index
  }

  const MS_PER_DAY: int := 24 * 3600 * 1000

  /** Records older than this have to go. */
  function Cutoff(r: Retention, now: int): int {
    now - r.maxDays * MS_PER_DAY
  }

  /** What retention leaves of the index: always a suffix. */
  function Retained(index: seq<MetaRec>, r: Retention, now: int): (kept: seq<MetaRec>)
    ensures |kept| <= |index| && kept == index[|index| - |kept|..]
  {
    var newest := NewestOnly(index, r.maxEntries);
    if r.maxDays > 0 then DropOlder(newest, Cutoff(r, now)) else newest
  }

  function Referenced(index: seq<MetaRec>): set<nat> {
    set i | 0 <= i < |index| :: index[i].seg
  }

  function Orphans(nums: seq<nat>, live: set<nat>): seq<nat> {
    if nums == [] then []
    else Orphans(nums[..|nums| - 1], live) + (if Last(nums) in live then [] else [Last(nums)])
  }

  function Reclaim(s: State): State {
    s.(segs := DropAll(s.segs, Orphans(s.segs.nums, Referenced(s.index))))
  }

  /** `enforce`: evict from the front; if anything went, write a floor and reclaim. */
  function Enforce(env: Env, s: State, now: int): State
    requires DirOk(s.segs)
  {
    var kept := Retained(s.index, s.retention, now);
    if |kept| == |s.index| then s
    else
      var floor := if kept == [] then s.nextId else kept[0].id;
      Reclaim(s.(index := kept, floor := floor, segs := AppendMeta(env, s.segs, Floor(floor))))
  }

  /** `append` before retention is enforced. */
  function Store(env: Env, s: State, msg: NewMessage): State
    requires DirOk(s.segs)
  {
    EnsureOpenIsOpen(env, s.segs, Incoming(msg));
    var open := EnsureOpen(env, s.segs, Incoming(msg));
    s.(segs := PutMessage(env, open, s.nextId, msg),
       index := s.index + [NextRec(env, open, s.nextId, msg)],
       nextId := s.nextId + 1)
  }

  function Survivors(index: seq<MetaRec>, ids: seq<nat>): (r: seq<MetaRec>)
    ensures |r| <= |index|
  {
    if index == [] then []
    else Survivors(index[..|index| - 1], ids) + (if Last(index).id in ids then [] else [Last(index)])
  }

  function PutDels(s: Segs, ids: seq<nat>): (t: Segs)
    requires s.cur.Some? && s.cur.value.num in s.disk
    ensures t.cur == s.cur && t.nums == s.nums && t.disk.Keys == s.disk.Keys
  {
    if ids == [] then s else PutLine(PutDels(s, ids[..|ids| - 1]), Del(Last(ids)))
  }

  /** `delete`. Only the first of its lines can find the segment full, so the
      segment is checked once. */
  function Delete(env: Env, s: State, ids: seq<nat>): State
    requires DirOk(s.segs)
  {
    var left := Survivors(s.index, ids);
    if |left| == |s.index| then s
    else
      EnsureOpenIsOpen(env, s.segs, 0);
      Reclaim(s.(index := left, segs := PutDels(EnsureOpen(env, s.segs, 0), ids)))
  }

  function Clear(env: Env, s: State): State
    requires DirOk(s.segs)
  {
    Reclaim(s.(index := [], floor := s.nextId, segs := AppendMeta(env, s.segs, Floor(s.nextId))))
  }

  function SetGroup(env: Env, s: State, id: nat, group: Option<nat>): State
    requires DirOk(s.segs)
  {
    match Position(s.index, id)
    case None => s
    case Some(p) =>
      if s.index[p].group == group then s
      else
        var rec := s.index[p].(group := group);
        s.(index := s.index[p := rec], segs := AppendMeta(env, s.segs, Msg(rec)))
  }

  // ----- replay -----

  datatype Replay = Replay(live: map<nat, MetaRec>, floor: nat, maxSeen: nat)

  function Max(a: nat, b: nat): nat {
    if a < b then b else a
  }

  function ReplayLine(r: Replay, line: MetaLine): Replay {
    match line
    case Msg(rec) => Replay(r.live[rec.id := rec], r.floor, Max(r.maxSeen, rec.id))
    case Del(id) => Replay(r.live - {id}, r.floor, Max(r.maxSeen, id))
    case Floor(id) => Replay(r.live, Max(r.floor, id), Max(r.maxSeen, id))
  }

  function ReplayMeta(r: Replay, meta: seq<MetaLine>): Replay {
    if meta == [] then r else ReplayLine(ReplayMeta(r, meta[..|meta| - 1]), Last(meta))
  }

  function ReplayDisk(disk: map<nat, Files>, nums: seq<nat>): Replay {
    if nums == [] then Replay(map[], 0, 0)
    else
      var before := ReplayDisk(disk, nums[..|nums| - 1]);
      if Last(nums) in disk then ReplayMeta(before, disk[Last(nums)].meta) else before
  }

  /** The values of `live` with key in [floor, bound), in key order. */
  function Collect(live: map<nat, MetaRec>, floor: nat, bound: nat): seq<MetaRec> {
    if bound == 0 then []
    else
      Collect(live, floor, bound - 1) +
      (if bound - 1 in live && bound - 1 >= floor then [live[bound - 1]] else [])
  }

  /** `Store::open` on what the disk holds, before retention is enforced. */
  function Reopened(s: Segs, retention: Retention): State {
    var r := ReplayDisk(s.disk, s.nums);
    State(s.(cur := None), Collect(r.live, r.floor, r.maxSeen + 1), r.maxSeen + 1, r.floor, retention)
  }
}
