/** Queries (crates/s2l-store/src/lib.rs and query.rs): which records a page shows, in which
    order, and that the search behind it finds the right ones. */
module StoreQuery {
  import opened Texts
  import opened Wrappers
  import opened StoreModel
  import opened StoreInvariant
  import opened StoreRuns
  import opened StoreTheorems

  const DEFAULT_LIMIT: nat := 50
  const MAX_LIMIT: nat := 500

  datatype Sort = TimeDesc | TimeAsc

  /** What is asked for: a condition on the metadata, and a text that the body must contain. */
  datatype Query = Query(matches: MetaRec -> bool, body: Option<string>, sort: Sort, offset: nat, limit: nat)

  datatype Page = Page(items: seq<MetaRec>, total: nat)

  function Needle(q: Query): string {
    if q.body.Some? then Trim(q.body.value) else ""
  }

  function Min(a: nat, b: nat): nat {
    if a < b then a else b
  }

  function Clamped(limit: nat): nat {
    Min(if limit == 0 then DEFAULT_LIMIT else limit, MAX_LIMIT)
  }

  predicate Ahead(sort: Sort, a: MetaRec, b: MetaRec) {
    match sort
    case TimeDesc => a.ts > b.ts || (a.ts == b.ts && a.id > b.id)
    case TimeAsc => a.ts < b.ts || (a.ts == b.ts && a.id < b.id)
  }

  /** The records that pass a test, in index order. */
  function Filter(index: seq<MetaRec>, p: MetaRec -> bool): seq<MetaRec> {
    if index == [] then []
    else Filter(index[..|index| - 1], p) + (if p(Last(index)) then [Last(index)] else [])
  }

  lemma {:induction false} FilterMembers(index: seq<MetaRec>, p: MetaRec -> bool)
    ensures forall rec :: rec in Filter(index, p) <==> rec in index && p(rec)
  {
    if index != [] {
      FilterMembers(index[..|index| - 1], p);
      assert index == index[..|index| - 1] + [Last(index)];
    }
  }

  /** The records with one of these ids, in index order. */
  function Restrict(index: seq<MetaRec>, ids: set<nat>): seq<MetaRec> {
    if index == [] then []
    else Restrict(index[..|index| - 1], ids) + (if Last(index).id in ids then [Last(index)] else [])
  }

  lemma {:induction false} RestrictMembers(index: seq<MetaRec>, ids: set<nat>)
    ensures forall rec :: rec in Restrict(index, ids) <==> rec in index && rec.id in ids
  {
    if index != [] {
      RestrictMembers(index[..|index| - 1], ids);
      assert index == index[..|index| - 1] + [Last(index)];
    }
  }

  /** The hits in index order: what matches, and with a needle what the streaming search keeps. */
  ghost function Hits(env: Env, s: State, matches: MetaRec -> bool, needle: string): seq<MetaRec> {
    var hits := Filter(s.index, matches);
    if needle == "" then hits else Restrict(hits, BodyMatches(env, s, hits, needle))
  }

  // ----- sorting and paging -----

  function Place(s: seq<MetaRec>, rec: MetaRec, sort: Sort): (t: seq<MetaRec>)
    ensures |t| == |s| + 1
  {
    if s == [] || Ahead(sort, rec, s[0]) then [rec] + s else [s[0]] + Place(s[1..], rec, sort)
  }

  function Arranged(hits: seq<MetaRec>, sort: Sort): (t: seq<MetaRec>)
    ensures |t| == |hits|
  {
    if hits == [] then [] else Place(Arranged(hits[..|hits| - 1], sort), Last(hits), sort)
  }

  function PageOf(all: seq<MetaRec>, q: Query): Page {
    Page(all[Min(q.offset, |all|)..Min(q.offset + Clamped(q.limit), |all|)], |all|)
  }

  predicate DistinctIds(s: seq<MetaRec>) {
    forall i, j :: 0 <= i < j < |s| ==> s[i].id != s[j].id
  }

  function Before(sort: Sort): (MetaRec, MetaRec) -> bool {
    (a: MetaRec, b: MetaRec) => Ahead(sort, a, b)
  }

  lemma {:induction false} PlaceKeepsOrder(s: seq<MetaRec>, rec: MetaRec, sort: Sort)
    requires InOrder(s, Before(sort)) && forall i :: 0 <= i < |s| ==> s[i].id != rec.id
    ensures InOrder(Place(s, rec, sort), Before(sort))
    ensures forall x :: x in Place(s, rec, sort) <==> x == rec || x in s
  {
    if s == [] {
    } else if Ahead(sort, rec, s[0]) {
      assert forall i :: 0 < i < |s| ==> Before(sort)(s[0], s[i]);
    } else {
      var rest := Place(s[1..], rec, sort);
      PlaceKeepsOrder(s[1..], rec, sort);
      assert s == [s[0]] + s[1..];
      forall i | 0 <= i < |rest| ensures Before(sort)(s[0], rest[i]) {
        assert rest[i] in rest;
        if rest[i] != rec {
          var j :| 0 <= j < |s[1..]| && s[1..][j] == rest[i];
          assert Before(sort)(s[0], s[j + 1]);
        }
      }
    }
  }

  /** Sorting keeps the records and puts them in order. */
  lemma {:induction false} ArrangedIs(hits: seq<MetaRec>, sort: Sort)
    requires DistinctIds(hits)
    ensures InOrder(Arranged(hits, sort), Before(sort)) && SameMembers(Arranged(hits, sort), hits)
  {
    if hits != [] {
      var init := hits[..|hits| - 1];
      assert hits == init + [Last(hits)];
      ArrangedIs(init, sort);
      forall i | 0 <= i < |Arranged(init, sort)| ensures Arranged(init, sort)[i].id != Last(hits).id {
        assert Arranged(init, sort)[i] in init;
      }
      PlaceKeepsOrder(Arranged(init, sort), Last(hits), sort);
    }
  }

  // ----- what a page shows -----

  /** The records a query is for: in the index, matching, and with a body that contains the
      needle, as it is read. */
  predicate AskedFor(env: Env, s: State, q: Query, rec: MetaRec) {
    && rec in s.index && q.matches(rec)
    && (Needle(q) == "" ||
        (Get(env, s, rec.id).Some? && BodyHit(env, Get(env, s, rec.id).value.body, Needle(q))))
  }

  /** All records wanted, each once, in the order asked for. */
  ghost predicate IsAnswer(env: Env, s: State, q: Query, all: seq<MetaRec>) {
    InOrder(all, Before(q.sort)) && forall rec :: rec in all <==> AskedFor(env, s, q, rec)
  }

  ghost predicate Reachable(env: Env, s: State) {
    Limits(env) && exists r, ops, h :: Run(env, r, ops, s, h)
  }

  lemma {:induction false} FilterSorted(index: seq<MetaRec>, p: MetaRec -> bool)
    requires SortedIndex(index)
    ensures SortedIndex(Filter(index, p))
  {
    if index != [] {
      var init := index[..|index| - 1];
      FilterSorted(init, p);
      FilterMembers(init, p);
      SnocSorted(index, Filter(init, p));
    }
  }

  lemma {:induction false} RestrictSorted(index: seq<MetaRec>, ids: set<nat>)
    requires SortedIndex(index)
    ensures SortedIndex(Restrict(index, ids))
  {
    if index != [] {
      var init := index[..|index| - 1];
      RestrictSorted(init, ids);
      RestrictMembers(init, ids);
      SnocSorted(index, Restrict(init, ids));
    }
  }

  lemma SnocSorted(index: seq<MetaRec>, some: seq<MetaRec>)
    requires SortedIndex(index) && index != [] && SortedIndex(some)
    requires forall rec :: rec in some ==> rec in index[..|index| - 1]
    ensures SortedIndex(some + [Last(index)])
  {
    forall i | 0 <= i < |some| ensures some[i].id < Last(index).id {
      assert some[i] in some;
      var j :| 0 <= j < |index| - 1 && index[..|index| - 1][j] == some[i];
    }
  }

  lemma HitsSorted(env: Env, s: State, q: Query)
    requires SortedIndex(s.index)
    ensures DistinctIds(Hits(env, s, q.matches, Needle(q)))
  {
    var hits := Filter(s.index, q.matches);
    FilterSorted(s.index, q.matches);
    if Needle(q) != "" {
      RestrictSorted(hits, BodyMatches(env, s, hits, Needle(q)));
    }
  }

  lemma HitsAreAskedFor(env: Env, s: State, h: History, q: Query, rec: MetaRec)
    requires Lawful(env) && Inv(env, s, h)
    ensures rec in Hits(env, s, q.matches, Needle(q)) <==> AskedFor(env, s, q, rec)
  {
    var hits := Filter(s.index, q.matches);
    FilterMembers(s.index, q.matches);
    if Needle(q) != "" {
      RestrictMembers(hits, BodyMatches(env, s, hits, Needle(q)));
      if rec in hits {
        SearchOne(env, s, h, hits, Needle(q), rec);
      }
    }
  }

  /** In every reachable state the sorted hits are an answer: exactly the records wanted, in
      the order asked for. */
  lemma FoundIsAnswer(env: Env, s: State, q: Query)
    requires Lawful(env) && Reachable(env, s)
    ensures IsAnswer(env, s, q, Arranged(Hits(env, s, q.matches, Needle(q)), q.sort))
  {
    var r, ops, h :| Run(env, r, ops, s, h);
    RunKeeps(env, r, ops, s, h);
    var hits := Hits(env, s, q.matches, Needle(q));
    HitsSorted(env, s, q);
    ArrangedIs(hits, q.sort);
    forall rec ensures rec in Arranged(hits, q.sort) <==> AskedFor(env, s, q, rec) {
      HitsAreAskedFor(env, s, h, q, rec);
    }
  }

  /** The newest first, and of the same time the one stored last, or the other way round. */
  lemma AnswersAreByTime(all: seq<MetaRec>, sort: Sort, i: nat, j: nat)
    requires InOrder(all, Before(sort)) && i < j < |all|
    ensures sort == TimeDesc ==> all[i].ts > all[j].ts || (all[i].ts == all[j].ts && all[i].id > all[j].id)
    ensures sort == TimeAsc ==> all[i].ts < all[j].ts || (all[i].ts == all[j].ts && all[i].id < all[j].id)
  {
    assert Before(sort)(all[i], all[j]);
  }

  /** There is only one answer. */
  lemma AnswerIsFound(env: Env, s: State, q: Query, all: seq<MetaRec>)
    requires Lawful(env) && Reachable(env, s) && IsAnswer(env, s, q, all)
    ensures all == Arranged(Hits(env, s, q.matches, Needle(q)), q.sort)
  {
    FoundIsAnswer(env, s, q);
    OneListing(all, Arranged(Hits(env, s, q.matches, Needle(q)), q.sort), Before(q.sort));
  }

  // ----- paging through everything -----

  /** A page shows the records from the offset on: as many as were asked for, fifty where no
      number was given, and never more than five hundred. */
  lemma PageShows(all: seq<MetaRec>, q: Query)
    ensures var page, size := PageOf(all, q), if q.limit == 0 then 50 else if q.limit > 500 then 500 else q.limit;
      && page.total == |all|
      && |page.items| == (if q.offset >= |all| then 0 else if q.offset + size > |all| then |all| - q.offset else size)
      && forall i :: 0 <= i < |page.items| ==> page.items[i] == all[q.offset + i]
  {
  }

  /** Pages of the same length, one after the other, show all records of the answer once and
      in order. */
  lemma {:induction false} PagesCover(all: seq<MetaRec>, q: Query, pages: nat)
    ensures Joined(all, q, pages) == all[..Min(pages * Clamped(q.limit), |all|)]
    ensures pages * Clamped(q.limit) >= |all| ==> Joined(all, q, pages) == all
  {
    var n := Clamped(q.limit);
    if pages == 0 {
      assert 0 * n == 0;
    } else {
      PagesCover(all, q, pages - 1);
      var start, end := (pages - 1) * n, pages * n;
      assert end == start + n;
      assert all[..Min(end, |all|)] == all[..Min(start, |all|)] + all[Min(start, |all|)..Min(end, |all|)];
    }
  }

  /** The first pages, in a row. */
  function Joined(all: seq<MetaRec>, q: Query, pages: nat): seq<MetaRec> {
    if pages == 0 then []
    else Joined(all, q, pages - 1) + PageOf(all, q.(offset := (pages - 1) * Clamped(q.limit))).items
  }
}
