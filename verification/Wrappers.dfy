/** The option type and the list helpers shared by the other modules. */
module Wrappers {
  datatype Option<+T> = None | Some(value: T)

  function Last<T>(s: seq<T>): T
    requires s != []
  {
    s[|s| - 1]
  }

  lemma Shift<T>(done: seq<T>, piece: seq<T>, rest: seq<T>)
    ensures done + (piece + rest) == (done + piece) + rest
  {
  }

  lemma SliceOfDrop<T>(s: seq<T>, from: nat, a: nat, b: nat)
    requires from <= |s| && a <= b <= |s| - from
    ensures s[from..][a..b] == s[from + a..from + b]
  {
  }

  lemma InConcat<T>(a: seq<T>, b: seq<T>, i: nat)
    requires i < |a| + |b|
    ensures (a + b)[i] == if i < |a| then a[i] else b[i - |a|]
  {
  }

  predicate InOrder<T>(s: seq<T>, before: (T, T) -> bool) {
    forall i, j :: 0 <= i < j < |s| ==> before(s[i], s[j])
  }

  ghost predicate Strict<T(!new)>(before: (T, T) -> bool) {
    forall x: T, y: T :: before(x, y) ==> !before(y, x)
  }

  ghost predicate SameMembers<T(!new)>(a: seq<T>, b: seq<T>) {
    forall x: T :: x in a <==> x in b
  }

  lemma SameLast<T(!new)>(a: seq<T>, b: seq<T>, before: (T, T) -> bool)
    requires InOrder(a, before) && InOrder(b, before) && Strict(before) && SameMembers(a, b)
    requires a != [] && b != []
    ensures Last(a) == Last(b)
  {
    assert a[|a| - 1] in a && b[|b| - 1] in b;
    var i :| 0 <= i < |b| && b[i] == a[|a| - 1];
    var j :| 0 <= j < |a| && a[j] == b[|b| - 1];
  }

  lemma AllButLast<T(!new)>(a: seq<T>, x: T, before: (T, T) -> bool)
    requires InOrder(a, before) && Strict(before) && a != []
    ensures x in a[..|a| - 1] <==> x in a && x != Last(a)
  {
    var init := a[..|a| - 1];
    assert a == init + [Last(a)];
    if x in init {
      var i :| 0 <= i < |init| && init[i] == x;
      assert before(a[i], a[|a| - 1]);
    }
  }

  lemma Empty<T(!new)>(s: seq<T>)
    ensures (forall x: T :: x !in s) <==> s == []
  {
    if s != [] {
      assert s[0] in s;
    }
  }

  /** In a strict order the same members have only one listing. */
  lemma {:induction false} OneListing<T(!new)>(a: seq<T>, b: seq<T>, before: (T, T) -> bool)
    requires InOrder(a, before) && InOrder(b, before) && Strict(before) && SameMembers(a, b)
    ensures a == b
  {
    if a == [] {
      Empty(b);
    } else if b == [] {
      Empty(a);
    } else {
      SameLast(a, b, before);
      var a', b' := a[..|a| - 1], b[..|b| - 1];
      forall x: T ensures x in a' <==> x in b' {
        AllButLast(a, x, before);
        AllButLast(b, x, before);
      }
      OneListing(a', b', before);
      assert a == a' + [Last(a)] && b == b' + [Last(b)];
    }
  }
}
