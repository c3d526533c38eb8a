/** The retry queue (crates/stmp2log/src/retry.rs): alerts that could not be sent,
    in the order they happened. */
module Retry {
  import opened Wrappers

  /** `id` numbers the pushes in their order of arrival. */
  datatype Pending = Pending(id: nat, at: int, attempts: nat, error: string)

  // ----- insertion by time, eviction from the front -----

  /** One past the last entry that is not newer than `at`. */
  function Slot(q: seq<Pending>, at: int): (pos: nat)
    ensures pos <= |q|
    ensures pos > 0 ==> q[pos - 1].at <= at
    ensures forall i :: pos <= i < |q| ==> q[i].at > at
  {
    if q == [] then 0
    else if q[|q| - 1].at <= at then |q|
    else Slot(q[..|q| - 1], at)
  }

  function InsertByTime(q: seq<Pending>, p: Pending): seq<Pending> {
    var pos := Slot(q, p.at);
    q[..pos] + [p] + q[pos..]
  }

  /** How many entries a limit evicts; zero means no limit. */
  function Excess(q: seq<Pending>, max: nat): (n: nat)
    ensures n <= |q|
  {
    if max == 0 || |q| <= max then 0 else |q| - max
  }

  function Evict(q: seq<Pending>, max: nat): (seq<Pending>, seq<Pending>) {
    (q[Excess(q, max)..], q[..Excess(q, max)])
  }

  /** The oldest go, and as many newest stay as the limit says. */
  lemma EvictKeepsNewest(q: seq<Pending>, max: nat)
    ensures var (kept, evicted) := Evict(q, max);
      && evicted + kept == q
      && |kept| == (if max == 0 || |q| <= max then |q| else max)
      && (Sorted(q) ==> forall i, j :: 0 <= i < |evicted| && 0 <= j < |kept| ==> Before(evicted[i], kept[j]))
  {
    var (kept, evicted) := Evict(q, max);
    assert q == evicted + kept;
    if Sorted(q) {
      forall i, j | 0 <= i < |evicted| && 0 <= j < |kept|
        ensures Before(evicted[i], kept[j])
      {
        assert Before(q[i], q[|evicted| + j]);
      }
    }
  }

  // ----- order -----

  /** Older alerts first, and among equals the one pushed first. */
  predicate Before(a: Pending, b: Pending) {
    a.at < b.at || (a.at == b.at && a.id < b.id)
  }

  predicate Sorted(q: seq<Pending>) {
    forall i, j :: 0 <= i < j < |q| ==> Before(q[i], q[j])
  }

  /** Insertion keeps the order whatever the age of the new entry. */
  lemma InsertKeepsSorted(q: seq<Pending>, p: Pending)
    requires Sorted(q) && forall i :: 0 <= i < |q| ==> q[i].id < p.id
    ensures Sorted(InsertByTime(q, p))
  {
    var pos := Slot(q, p.at);
    var out := InsertByTime(q, p);
    forall i, j | 0 <= i < j < |out| ensures Before(out[i], out[j]) {
      if i < pos && j == pos {
        assert q[i] == q[pos - 1] || Before(q[i], q[pos - 1]);
      }
    }
  }

  /** Taking from the front and evicting from it keep the order. */
  lemma DropKeepsSorted(q: seq<Pending>, n: nat)
    requires Sorted(q) && n <= |q|
    ensures Sorted(q[n..])
  {
  }

  /** Putting an entry back at the front keeps the order exactly when no entry in the
      queue belongs before it. */
  lemma RequeueKeepsSortedIff(q: seq<Pending>, p: Pending)
    requires Sorted(q)
    ensures Sorted([p] + q) <==> forall i :: 0 <= i < |q| ==> Before(p, q[i])
  {
    var out := [p] + q;
    if Sorted(out) {
      forall i | 0 <= i < |q| ensures Before(p, q[i]) {
        assert out[0] == p && out[i + 1] == q[i];
      }
    }
  }

  // ----- backoff -----

  const FIRST_DELAY: nat := 30
  const MAX_DELAY: nat := 300

  function NextDelay(current: nat): nat {
    if current * 2 < MAX_DELAY then current * 2 else MAX_DELAY
  }

  function PowerOfTwo(n: nat): (p: nat)
    ensures p > 0
  {
    if n == 0 then 1 else 2 * PowerOfTwo(n - 1)
  }

  /** The delay after so many passes in a row that got nothing sent: thirty seconds, doubled
      each time, up to five minutes. */
  function DelayAfter(failures: nat): nat {
    if 30 * PowerOfTwo(failures) < 300 then 30 * PowerOfTwo(failures) else 300
  }

  lemma DelayDoubles(failures: nat)
    ensures DelayAfter(0) == FIRST_DELAY
    ensures NextDelay(DelayAfter(failures)) == DelayAfter(failures + 1)
  {
  }

  /** The outcome of sending a queued entry. */
  datatype Verdict = Sent | Later(error: string) | GiveUp

  /** The position of the first entry that still fails, or the length. */
  function FirstLater(q: seq<Pending>, send: Pending -> Verdict): (k: nat)
    ensures k <= |q|
    ensures forall i :: 0 <= i < k ==> !send(Tried(q[i])).Later?
    ensures k < |q| ==> send(Tried(q[k])).Later?
  {
    if q == [] || send(Tried(q[0])).Later? then 0 else 1 + FirstLater(q[1..], send)
  }

  function Tried(p: Pending): Pending {
    p.(attempts := p.attempts + 1)
  }

  function CountSent(q: seq<Pending>, send: Pending -> Verdict): nat {
    if q == [] then 0 else CountSent(q[..|q| - 1], send) + (if send(Tried(q[|q| - 1])).Sent? then 1 else 0)
  }

  /** What one undisturbed pass over the queue leaves behind. */
  function Flushed(q: seq<Pending>, send: Pending -> Verdict): seq<Pending> {
    var k := FirstLater(q, send);
    if k == |q| then [] else [Tried(q[k]).(error := send(Tried(q[k])).error)] + q[k + 1..]
  }

  class Queue {
    var items: seq<Pending>
    var work: bool
    var up: bool
    var dropped: nat

    constructor ()
      ensures items == [] && !work && !up && dropped == 0
    {
      items, work, up, dropped := [], false, false, 0;
    }

    method Insert(p: Pending)
      modifies this`items
      ensures items == InsertByTime(old(items), p)
    {
      var pos := |items|;
      while pos > 0 && items[pos - 1].at > p.at
        invariant 0 <= pos <= |items|
        invariant Slot(items[..pos], p.at) == Slot(items, p.at)
      {
        assert items[..pos][..pos - 1] == items[..pos - 1];
        pos := pos - 1;
      }
      assert pos == Slot(items, p.at);
      items := items[..pos] + [p] + items[pos..];
    }

    method EvictTo(max: nat) returns (evicted: seq<Pending>)
      modifies this`items
      ensures (items, evicted) == Evict(old(items), max)
    {
      evicted := [];
      if max == 0 {
        return;
      }
      while |items| > max
        invariant |evicted| <= Excess(old(items), max)
        invariant evicted == old(items)[..|evicted|] && items == old(items)[|evicted|..]
        decreases |items|
      {
        evicted := evicted + [items[0]];
        items := items[1..];
      }
    }

    /** Inserts by time, evicts the oldest over the limit, counts them and wakes the flusher. */
    method Push(p: Pending, max: nat) returns (evicted: seq<Pending>)
      modifies this
      ensures (items, evicted) == Evict(InsertByTime(old(items), p), max)
      ensures dropped == old(dropped) + |evicted| && work && up == old(up)
      ensures multiset(items) + multiset(evicted) == multiset(old(items)) + multiset{p}
    {
      Insert(p);
      ghost var inserted := items;
      evicted := EvictTo(max);
      dropped := dropped + |evicted|;
      work := true;
      assert inserted == evicted + items;
      InsertAdds(old(items), p);
    }

    method Trim(max: nat) returns (evicted: seq<Pending>)
      modifies this`items, this`dropped
      ensures (items, evicted) == Evict(old(items), max)
      ensures dropped == old(dropped) + |evicted|
    {
      evicted := EvictTo(max);
      dropped := dropped + |evicted|;
    }

    method Pop() returns (p: Option<Pending>)
      modifies this`items
      ensures old(items) == [] ==> p == None && items == []
      ensures old(items) != [] ==> p == Some(old(items)[0]) && items == old(items)[1..]
    {
      if items == [] {
        return None;
      }
      p := Some(items[0]);
      items := items[1..];
    }

    method Requeue(p: Pending)
      modifies this`items
      ensures items == [p] + old(items)
    {
      items := [p] + items;
    }

    method Kick()
      modifies this`work, this`up
      ensures work && up
    {
      work, up := true, true;
    }

    method Recovered()
      modifies this`up
      ensures up == (old(up) || items != [])
    {
      if items != [] {
        up := true;
      }
    }

    /** One pass of the flusher when nobody else touches the queue: it settles the
        entries before the first one that still fails and puts that one back. */
    method Flush(send: Pending -> Verdict) returns (sent: nat, stalled: bool)
      modifies this`items
      ensures items == Flushed(old(items), send)
      ensures stalled <==> FirstLater(old(items), send) < |old(items)|
      ensures sent == CountSent(old(items)[..FirstLater(old(items), send)], send)
    {
      sent, stalled := 0, false;
      ghost var done := 0;
      while items != []
        invariant done <= |old(items)| && items == old(items)[done..]
        invariant FirstLater(old(items), send) == done + FirstLater(items, send)
        invariant sent == CountSent(old(items)[..done], send)
        decreases |items|
      {
        PassesOne(old(items), done, send);
        var popped := Pop();
        var p := Tried(popped.value);
        match send(p) {
          case Sent => sent := sent + 1;
          case Later(e) =>
            Requeue(p.(error := e));
            return sent, true;
          case GiveUp =>
        }
        done := done + 1;
      }
    }
  }

  /** One entry further in a pass. */
  lemma PassesOne(q: seq<Pending>, done: nat, send: Pending -> Verdict)
    requires done < |q| && FirstLater(q, send) == done + FirstLater(q[done..], send)
    ensures q[done..][1..] == q[done + 1..] && q[done..][0] == q[done]
    ensures send(Tried(q[done])).Later? ==> FirstLater(q, send) == done
    ensures !send(Tried(q[done])).Later? ==> FirstLater(q, send) == done + 1 + FirstLater(q[done + 1..], send)
    ensures CountSent(q[..done + 1], send)
         == CountSent(q[..done], send) + (if send(Tried(q[done])).Sent? then 1 else 0)
  {
    assert q[..done + 1][..done] == q[..done];
  }

  lemma InsertAdds(q: seq<Pending>, p: Pending)
    ensures multiset(InsertByTime(q, p)) == multiset(q) + multiset{p}
  {
    var pos := Slot(q, p.at);
    assert q == q[..pos] + q[pos..];
  }
}
