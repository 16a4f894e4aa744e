/** The numerator: committed numbers kept as a list of intervals, and the document events
    that commit and revoke them. Values are mathematical integers. */
module Numerator {
  import opened Collections
  import opened Wrappers

  // ------------------------------------------------------------------ intervals

  datatype Interval = Interval(begin: int, end: int) {
    predicate Holds(v: int) { begin <= v <= end }
  }

  /** Two intervals neither overlap nor touch. */
  predicate Apart(a: Interval, b: Interval) {
    a.end + 1 < b.begin || b.end + 1 < a.begin
  }

  /** Non-empty intervals, pairwise disjoint and non-adjacent. */
  ghost predicate Separated(cover: set<Interval>) {
    && (forall a | a in cover :: a.begin <= a.end)
    && (forall a, b | a in cover && b in cover && a != b :: Apart(a, b))
  }

  /** The numbers a set of intervals stands for. */
  ghost function Values(cover: set<Interval>): (values: set<int>)
    ensures forall v :: v in values <==> exists a :: a in cover && a.Holds(v)
  {
    set a, v {:trigger a.Holds(v)} | a in cover && a.begin <= v <= a.end && a.Holds(v) :: v
  }

  predicate StartsRun(values: set<int>, v: int) {
    v in values && v - 1 !in values
  }

  /** The first numbers of the runs of consecutive members. */
  ghost function RunStarts(values: set<int>): set<int> {
    set v | v in values && StartsRun(values, v)
  }

  ghost function Begins(cover: set<Interval>): set<int> {
    set a | a in cover :: a.begin
  }

  /** The separated intervals that stand for a set of numbers are determined by it. */
  lemma CoverIsUnique(c: set<Interval>, d: set<Interval>)
    requires Separated(c) && Separated(d) && Values(c) == Values(d)
    ensures c == d
  {
    forall a | a in c
      ensures a in d
    {
      InOtherCover(c, d, a);
    }
    forall a | a in d
      ensures a in c
    {
      InOtherCover(d, c, a);
    }
  }

  lemma InOtherCover(c: set<Interval>, d: set<Interval>, a: Interval)
    requires Separated(c) && Separated(d) && Values(c) == Values(d) && a in c
    ensures a in d
  {
    assert a.Holds(a.begin) && a.begin in Values(d);
    var b :| b in d && b.Holds(a.begin);
    NothingBefore(c, a);
    assert b.Holds(a.begin - 1) ==> a.begin - 1 in Values(d);
    assert b.begin == a.begin;
    NothingAfter(c, a);
    NothingAfter(d, b);
    assert b.Holds(a.end + 1) ==> a.end + 1 in Values(d);
    assert a.Holds(b.end + 1) ==> b.end + 1 in Values(c);
    assert b == a;
  }

  lemma NothingBefore(c: set<Interval>, a: Interval)
    requires Separated(c) && a in c
    ensures a.begin - 1 !in Values(c)
  {
  }

  lemma NothingAfter(c: set<Interval>, a: Interval)
    requires Separated(c) && a in c
    ensures a.end + 1 !in Values(c)
  {
  }

  lemma {:induction false} BeginsCount(c: set<Interval>)
    ensures |Begins(c)| <= |c|
    ensures Separated(c) ==> |Begins(c)| == |c|
    decreases c
  {
    if c != {} {
      var a :| a in c;
      BeginsCount(c - {a});
      OneLess(c, a);
      hide Begins, Separated;
    }
  }

  lemma OneLess(c: set<Interval>, a: Interval)
    requires a in c
    ensures Begins(c) == Begins(c - {a}) + {a.begin}
    ensures Separated(c) ==> Separated(c - {a}) && a.begin !in Begins(c - {a})
  {
  }

  /** There are as many intervals as there are runs of consecutive members. */
  lemma CoverCount(c: set<Interval>)
    requires Separated(c)
    ensures |c| == |RunStarts(Values(c))|
  {
    forall v
      ensures v in Begins(c) <==> v in RunStarts(Values(c))
    {
      if v in Begins(c) {
        var a :| a in c && a.begin == v;
        assert a.Holds(v);
        NothingBefore(c, a);
      }
      if v in RunStarts(Values(c)) {
        var a :| a in c && a.Holds(v);
        assert a.begin == v || a.Holds(v - 1);
      }
    }
    assert Begins(c) == RunStarts(Values(c));
    BeginsCount(c);
  }

  /** No other set of intervals for the same numbers is smaller. */
  lemma CoverIsMinimal(c: set<Interval>, d: set<Interval>)
    requires Separated(c) && Values(c) == Values(d)
    ensures |c| <= |d|
  {
    CoverCount(c);
    forall v | v in RunStarts(Values(d))
      ensures v in Begins(d)
    {
      var a :| a in d && a.Holds(v);
      assert a.begin == v || a.Holds(v - 1);
    }
    BeginsCount(d);
    SubsetSize(RunStarts(Values(c)), Begins(d));
  }

  // ------------------------------------------------------------------ the scope

  /** Individuals are named by numbers; `generated` names have been given out. */
  type Uri = nat

  class Scope {
    var store: map<Uri, Interval>
    var deleted: set<Uri>             // the interval individuals marked as deleted
    var listed: Option<seq<Uri>>      // v-s:numerationCommitedInterval
    var generated: nat

    ghost function Uris(): seq<Uri>
      reads this
    {
      if listed.Some? then listed.value else []
    }

    ghost predicate Valid()
      reads this
    {
      && (forall u | u in store :: u < generated)
      && (forall u | u in deleted :: u < generated)
      && Lists(Uris(), store)
      && SeparatedAt(Uris(), store)
      && (forall u | u in Uris() :: u !in deleted)
    }

    ghost function Cover(): set<Interval>
      requires Valid()
      reads this
    {
      CoverOf(Uris(), store)
    }

    /** The committed numbers. */
    ghost function Committed(): set<int>
      requires Valid()
      reads this
    {
      Values(Cover())
    }

    constructor ()
      ensures Valid() && Committed() == {}
    {
      store, deleted, listed, generated := map[], {}, None, 0;
    }

    method GenUri() returns (u: Uri)
      modifies this`generated
      ensures u == old(generated) && generated == u + 1
    {
      u := generated;
      generated := generated + 1;
    }

    /** Adds a number. `false` means it was there. */
    method CommitValue(value: int) returns (added: bool)
      requires Valid()
      modifies this
      ensures Valid()
      ensures added <==> value !in old(Committed())
      ensures Committed() == old(Committed()) + {value}
      ensures !added ==> Cover() == old(Cover())
    {
      ValuesAt(Uris(), store);
      hide Values, CoverOf, SeparatedAt, Distinct;
      if listed.Some? {
        var found, prev, next := FindNeighbours(listed.value, value);
        if found {
          return false;
        }
        if prev.Some? && next.Some? {
          MergeIntervals(prev.value, next.value, value);
        } else if prev.Some? {
          var p := prev.value;
          ExtendUp(listed.value, store, p, value);
          SetInterval(p, Interval(store[p].begin, value));
        } else if next.Some? {
          var n := next.value;
          ExtendDown(listed.value, store, n, value);
          SetInterval(n, Interval(value, store[n].end));
        } else {
          AddInterval(value);
        }
      } else {
        AddInterval(value);
      }
      return true;
    }

    /** The loop over the listed intervals: is the value there, and which intervals end
        just before and begin just after it. */
    method FindNeighbours(uris: seq<Uri>, value: int) returns (found: bool, prev: Option<Uri>, next: Option<Uri>)
      requires Lists(uris, store)
      ensures found ==> exists u :: u in uris && store[u].Holds(value)
      ensures !found ==> forall u | u in uris :: !store[u].Holds(value)
      ensures !found && prev.None? ==> forall u | u in uris :: store[u].end != value - 1 || store[u].begin == value + 1
      ensures !found && next.None? ==> forall u | u in uris :: store[u].begin != value + 1
      ensures prev.Some? ==> prev.value in uris && store[prev.value].end == value - 1
      ensures next.Some? ==> next.value in uris && store[next.value].begin == value + 1
    {
      prev, next := None, None;
      for i := 0 to |uris|
        invariant forall u | u in uris[..i] :: !store[u].Holds(value)
        invariant prev.None? ==> forall u | u in uris[..i] :: store[u].end != value - 1 || store[u].begin == value + 1
        invariant next.None? ==> forall u | u in uris[..i] :: store[u].begin != value + 1
        invariant prev.Some? ==> prev.value in uris && store[prev.value].end == value - 1
        invariant next.Some? ==> next.value in uris && store[next.value].begin == value + 1
      {
        var interval := store[uris[i]];
        if interval.begin <= value <= interval.end {
          return true, prev, next;
        } else if interval.begin == value + 1 {
          next := Some(uris[i]);
        } else if interval.end == value - 1 {
          prev := Some(uris[i]);
        }
      }
      return false, prev, next;
    }

    /** The number between two intervals joins them: the second one goes. */
    method MergeIntervals(p: Uri, n: Uri, value: int)
      requires Valid() && p in Uris() && n in Uris() && store[p].end == value - 1 && store[n].begin == value + 1
      modifies this
      ensures Valid() && Committed() == old(Committed()) + {value}
    {
      hide Values, CoverOf, SeparatedAt, Distinct;
      MergeBoth(Uris(), store, p, n, value);
      store := store[p := Interval(store[p].begin, store[n].end)];
      deleted := deleted + {n};
      listed := Some(Without(listed.value, n));
    }

    method SetInterval(u: Uri, interval: Interval)
      requires Valid() && u in Uris() && SeparatedAt(Uris(), store[u := interval])
      modifies this`store
      ensures Valid() && Committed() == Values(CoverOf(Uris(), old(store)[u := interval]))
    {
      hide Values, CoverOf, SeparatedAt, Distinct;
      store := store[u := interval];
    }

    /** A new interval of one number. */
    method AddInterval(value: int)
      requires Valid()
      requires forall u | u in Uris() :: !store[u].Holds(value) && store[u].begin != value + 1 && store[u].end != value - 1
      modifies this
      ensures Valid() && Committed() == old(Committed()) + {value}
    {
      var u := GenUri();
      AddAlone(Uris(), store, u, value);
      store := store[u := Interval(value, value)];
      listed := if listed.Some? then Some(listed.value + [u]) else Some([u]);
    }

    /** Removes a number. */
    method RevokeValue(value: int)
      requires Valid()
      modifies this
      ensures Valid()
      ensures Committed() == old(Committed()) - {value}
    {
      ghost var uris, before := Uris(), store;
      ValuesAt(uris, before);
      hide Values, CoverOf, SeparatedAt, Distinct, RevisedTo;
      ghost var deletedBefore := deleted;
      var intervals, hit := ReviseAll(if listed.Some? then listed.value else [], value);
      if hit.Some? {
        Revoked(uris, hit.value, value, before, deletedBefore, old(generated), intervals);
      }
      listed := Some(intervals);
    }

    /** The loop over the listed intervals; `hit` is the place of the interval that holds
        the value. */
    method ReviseAll(uris: seq<Uri>, value: int) returns (intervals: seq<Uri>, ghost hit: Option<nat>)
      requires Lists(uris, store) && SeparatedAt(uris, store) && forall u | u in store :: u < generated
      modifies this`store, this`deleted, this`generated
      ensures forall u | u in store :: u < generated
      ensures old(generated) <= generated
      ensures hit.None? ==> intervals == uris && store == old(store) && deleted == old(deleted)
                            && forall u | u in uris :: !store[u].Holds(value)
      ensures hit.Some? ==> RevisedTo(uris, hit.value, |uris|, value, old(store), old(deleted), old(generated), intervals)
    {
      intervals, hit := [], None;
      for i := 0 to |uris|
        invariant old(generated) <= generated && forall u | u in store :: u < generated
        invariant forall k | i <= k < |uris| :: uris[k] in store && store[uris[k]] == old(store)[uris[k]]
        invariant hit.None? ==> intervals == uris[..i] && store == old(store) && deleted == old(deleted) && generated == old(generated)
        invariant hit.None? ==> forall k | 0 <= k < i :: !old(store)[uris[k]].Holds(value)
        invariant hit.Some? ==> RevisedTo(uris, hit.value, i, value, old(store), old(deleted), old(generated), intervals)
      {
        var u := uris[i];
        if hit.Some? {
          assert Apart(old(store)[u], old(store)[uris[hit.value]]);
        }
        var kept := ReviseInterval(u, value);
        assert uris[..i + 1] == uris[..i] + [u];
        if old(store)[u].Holds(value) {
          hit := Some(i);
          assert uris[i + 1..i + 1] == [];
        } else if hit.Some? {
          assert uris[hit.value + 1..i + 1] == uris[hit.value + 1..i] + [u];
        }
        intervals := intervals + kept;
      }
      assert uris[..|uris|] == uris;
    }

    /** The first `i` intervals have been gone through; the one at `at` held `v`. */
    ghost predicate RevisedTo(uris: seq<Uri>, at: nat, i: nat, v: int, before: map<Uri, Interval>,
            deletedBefore: set<Uri>, spare: Uri, intervals: seq<Uri>)
      reads this
    {
      && at < i <= |uris| && uris[at] in before
      && var u := uris[at];
      && before[u].Holds(v)
      && intervals == uris[..at] + Kept(u, before[u], v, spare) + uris[at + 1..i]
      && Revised(u, v, before, spare, store)
      && deleted == (if before[u].begin == before[u].end then deletedBefore + {u} else deletedBefore)
    }

    lemma Revoked(uris: seq<Uri>, at: nat, v: int, before: map<Uri, Interval>, deletedBefore: set<Uri>, spare: Uri,
            intervals: seq<Uri>)
      requires RevisedTo(uris, at, |uris|, v, before, deletedBefore, spare, intervals) && spare <= generated
      requires Lists(uris, before) && SeparatedAt(uris, before) && forall w | w in uris :: w < spare && w !in deletedBefore
      requires forall w | w in deletedBefore :: w < spare
      ensures Lists(intervals, store) && SeparatedAt(intervals, store)
      ensures Values(CoverOf(intervals, store)) == Values(CoverOf(uris, before)) - {v}
      ensures (forall w | w in intervals :: w !in deleted) && forall w | w in deleted :: w < generated
    {
      hide Values, CoverOf, SeparatedAt, Distinct;
      RevisedScope(uris, before, at, v, spare, store);
      assert uris[at + 1..] == uris[at + 1..|uris|];
    }

    /** One turn of the loop: the interval `u` without `value`, as zero, one or two
        intervals. */
    method ReviseInterval(u: Uri, value: int) returns (kept: seq<Uri>)
      requires u in store && store[u].begin <= store[u].end && forall w | w in store :: w < generated
      modifies this`store, this`deleted, this`generated
      ensures var interval := old(store[u]);
              if interval.Holds(value) then
                && kept == Kept(u, interval, value, old(generated))
                && Revised(u, value, old(store), old(generated), store)
                && deleted == (if interval.begin == interval.end then old(deleted) + {u} else old(deleted))
                && generated == old(generated) + (if interval.begin < value < interval.end then 1 else 0)
              else
                kept == [u] && store == old(store) && deleted == old(deleted) && generated == old(generated)
    {
      var interval := store[u];
      if interval.begin == value {
        if interval.begin < interval.end {
          store := store[u := Interval(value + 1, interval.end)];
          kept := [u];
        } else {
          deleted := deleted + {u};
          kept := [];
        }
      } else if interval.end == value {
        if interval.begin < interval.end {
          store := store[u := Interval(interval.begin, value - 1)];
          kept := [u];
        } else {
          assert false;
        }
      } else if interval.begin < value && value < interval.end {
        store := store[u := Interval(interval.begin, value - 1)];
        var n := GenUri();
        store := store[n := Interval(value + 1, interval.end)];
        kept := [u, n];
      } else {
        kept := [u];
      }
    }

    /** The number after the greatest committed one (from 0 up), or the first number of an
        empty scope. */
    method GetNextValueSimple(firstValue: int) returns (next: int)
      requires Valid()
      ensures next !in Committed()
      ensures next == NextValue(Committed(), firstValue)
      ensures if Committed() == {} then next == firstValue else IsLeastAbove(Committed(), next)
    {
      ValuesAt(Uris(), store);
      if listed.None? || |listed.value| == 0 {
        assert Committed() == {};
        return firstValue;
      }
      var uris := listed.value;
      var max := 0;
      for i := 0 to |uris|
        invariant 0 <= max && forall u | u in uris[..i] :: store[u].end <= max
        invariant max == 0 || exists u :: u in uris && store[u].end == max
      {
        if store[uris[i]].end > max {
          max := store[uris[i]].end;
        }
      }
      assert store[uris[0]].Holds(store[uris[0]].begin);
      assert store[uris[0]].begin in Committed();
      if max > 0 {
        var u :| u in uris && store[u].end == max;
        assert store[u].Holds(max);
      }
      assert IsMaxFromZero(Committed(), max);
      NextIsFresh(Committed(), firstValue);
      NextIsLeast(Committed(), firstValue);
      hide IsLeastAbove;
      return max + 1;
    }

    method IsNumerationValueAvailable(value: int) returns (available: bool)
      requires Valid()
      ensures available <==> value !in Committed()
    {
      ValuesAt(Uris(), store);
      if listed.None? {
        return true;
      }
      for i := 0 to |listed.value|
        invariant forall u | u in listed.value[..i] :: !store[u].Holds(value)
      {
        if store[listed.value[i]].begin <= value <= store[listed.value[i]].end {
          return false;
        }
      }
      return true;
    }
  }

  /** `max` is the greatest member, or 0 when that is greater. */
  ghost predicate IsMaxFromZero(values: set<int>, max: int) {
    0 <= max && (max == 0 || max in values) && forall v | v in values :: v <= max
  }

  lemma {:induction false} MaxFromZero(values: set<int>) returns (max: int)
    ensures IsMaxFromZero(values, max)
    decreases values
  {
    if forall v :: v !in values {
      max := 0;
    } else {
      var v :| v in values;
      max := MaxFromZero(values - {v});
      assert forall x | x in values :: x == v || x in values - {v};
      max := if v > max then v else max;
    }
  }

  ghost function NextValue(values: set<int>, firstValue: int): int {
    if values == {} then firstValue
    else
      assert exists max :: IsMaxFromZero(values, max) by { var max := MaxFromZero(values); }
      var max :| IsMaxFromZero(values, max);
      max + 1
  }

  /** The automatic number is fresh, and not less than the first one when that is 1. */
  lemma NextIsFresh(values: set<int>, firstValue: int)
    ensures NextValue(values, firstValue) !in values
    ensures firstValue >= 1 ==> NextValue(values, firstValue) >= 1
  {
  }

  /** In an empty scope the automatic number is the first one, otherwise the least number from
      1 up that is above every committed one. */
  lemma NextIsLeast(values: set<int>, firstValue: int)
    ensures values == {} ==> NextValue(values, firstValue) == firstValue
    ensures values != {} ==> IsLeastAbove(values, NextValue(values, firstValue))
  {
    if values != {} {
      var next := NextValue(values, firstValue);
      assert IsMaxFromZero(values, next - 1);
    }
  }

  ghost predicate IsAbove(values: set<int>, n: int) {
    n >= 1 && forall v | v in values :: v < n
  }

  ghost predicate IsLeastAbove(values: set<int>, n: int) {
    IsAbove(values, n) && forall m | IsAbove(values, m) :: n <= m
  }

  // ------------------------------------------------------- runs on one scope

  datatype Change = Commit(value: int) | Revoke(value: int)

  /** Committed and not revoked since. */
  function RunValues(changes: seq<Change>): set<int> {
    if changes == [] then {}
    else
      var last, before := changes[|changes| - 1], RunValues(changes[..|changes| - 1]);
      if last.Commit? then before + {last.value} else before - {last.value}
  }

  /** Any run from an empty scope: the intervals stay separated, stand for the numbers
      committed and not revoked, and are as few as possible. */
  method Run(changes: seq<Change>) returns (scope: Scope)
    ensures scope.Valid() && Separated(scope.Cover())
    ensures scope.Committed() == RunValues(changes)
    ensures |scope.Cover()| == |RunStarts(RunValues(changes))|
  {
    scope := new Scope();
    for i := 0 to |changes|
      invariant scope.Valid() && scope.Committed() == RunValues(changes[..i])
      invariant fresh(scope)
    {
      assert changes[..i + 1][..i] == changes[..i];
      match changes[i] {
        case Commit(v) => var _ := scope.CommitValue(v);
        case Revoke(v) => scope.RevokeValue(v);
      }
    }
    assert changes[..|changes|] == changes;
    CoverCount(scope.Cover());
  }

  /** Committing an absent number and revoking it restores the intervals. */
  lemma UndoRestores(c: set<Interval>, c1: set<Interval>, c2: set<Interval>, v: int)
    requires Separated(c) && Separated(c1) && Separated(c2) && v !in Values(c)
    requires Values(c1) == Values(c) + {v} && Values(c2) == Values(c1) - {v}
    ensures c2 == c
  {
    assert Values(c2) == Values(c);
    CoverIsUnique(c2, c);
  }

  /** What stays listed for an interval that holds the revoked number. */
  function Kept(u: Uri, interval: Interval, v: int, spare: Uri): seq<Uri> {
    if interval.begin == interval.end then []
    else if interval.begin < v < interval.end then [u, spare]
    else [u]
  }

  predicate Revised(u: Uri, v: int, store: map<Uri, Interval>, spare: Uri, store': map<Uri, Interval>)
    requires u in store
  {
    var interval := store[u];
    if interval.begin == interval.end then store' == store
    else if interval.begin == v then store' == store[u := Interval(v + 1, interval.end)]
    else if interval.end == v then store' == store[u := Interval(interval.begin, v - 1)]
    else store' == store[u := Interval(interval.begin, v - 1)][spare := Interval(v + 1, interval.end)]
  }

  /** The scope after the interval that holds `v` has been revised. */
  lemma RevisedScope(uris: seq<Uri>, store: map<Uri, Interval>, at: nat, v: int, spare: Uri, store': map<Uri, Interval>)
    requires Lists(uris, store) && SeparatedAt(uris, store) && spare !in uris
    requires at < |uris| && store[uris[at]].Holds(v) && Revised(uris[at], v, store, spare, store')
    ensures var uris' := uris[..at] + Kept(uris[at], store[uris[at]], v, spare) + uris[at + 1..];
            && Lists(uris', store') && SeparatedAt(uris', store')
            && Values(CoverOf(uris', store')) == Values(CoverOf(uris, store)) - {v}
            && forall w :: w in uris' <==> (w in uris && w != uris[at]) || w in Kept(uris[at], store[uris[at]], v, spare)
  {
    hide Values, CoverOf;
    var u := uris[at];
    var kept := Kept(u, store[u], v, spare);
    var uris' := uris[..at] + kept + uris[at + 1..];
    KeptListed(uris, at, kept, spare);
    forall w | w in uris && w != u
      ensures Apart(store[w], store[u]) && Apart(store[u], store[w])
    {
    }
    RevisedValues(uris, store, u, v, spare, uris', store');
  }

  lemma RevisedValues(uris: seq<Uri>, store: map<Uri, Interval>, u: Uri, v: int, spare: Uri, uris': seq<Uri>,
          store': map<Uri, Interval>)
    requires Lists(uris, store) && Lists(uris', store') && spare !in uris && u in uris
    requires store[u].Holds(v) && Revised(u, v, store, spare, store')
    requires forall w | w in uris && w != u :: !store[w].Holds(v)
    requires forall w :: w in uris' <==> (w in uris && w != u) || w in Kept(u, store[u], v, spare)
    ensures Values(CoverOf(uris', store')) == Values(CoverOf(uris, store)) - {v}
  {
    ValuesAt(uris, store);
    ValuesAt(uris', store');
    hide Values, CoverOf, Distinct;
    forall x
      ensures x in Values(CoverOf(uris', store')) <==> x in Values(CoverOf(uris, store)) && x != v
    {
      if x in Values(CoverOf(uris, store)) && x != v {
        var w :| w in uris && store[w].Holds(x);
        assert w in uris' && (store'[w].Holds(x) || (w == u && spare in uris' && store'[spare].Holds(x)));
      }
      if x in Values(CoverOf(uris', store')) {
        var w :| w in uris' && store'[w].Holds(x);
        assert store[if w == spare then u else w].Holds(x);
      }
    }
  }

  lemma KeptListed(uris: seq<Uri>, at: nat, kept: seq<Uri>, spare: Uri)
    requires Distinct(uris) && at < |uris| && spare !in uris
    requires kept in {[], [uris[at]], [uris[at], spare]}
    ensures var uris' := uris[..at] + kept + uris[at + 1..];
            && Distinct(uris')
            && forall w :: w in uris' <==> (w in uris && w != uris[at]) || w in kept
  {
    var uris' := uris[..at] + kept + uris[at + 1..];
    forall w
      ensures w in uris' <==> (w in uris && w != uris[at]) || w in kept
    {
      assert uris == uris[..at] + [uris[at]] + uris[at + 1..];
      assert w in uris' <==> w in uris[..at] || w in kept || w in uris[at + 1..];
      assert uris[at] !in uris[..at] && uris[at] !in uris[at + 1..];
    }
  }

  function Without(uris: seq<Uri>, u: Uri): (rest: seq<Uri>)
    ensures forall w :: w in rest <==> w in uris && w != u
    ensures Distinct(uris) ==> Distinct(rest)
  {
    if uris == [] then []
    else
      var rest := Without(uris[1..], u);
      assert Distinct(uris) ==> Distinct(uris[1..]) && uris[0] !in rest;
      if uris[0] == u then rest else [uris[0]] + rest
  }

  ghost predicate Lists(uris: seq<Uri>, store: map<Uri, Interval>) {
    Distinct(uris) && forall u | u in uris :: u in store
  }

  ghost predicate SeparatedAt(uris: seq<Uri>, store: map<Uri, Interval>)
    requires Lists(uris, store)
  {
    && (forall u | u in uris :: store[u].begin <= store[u].end)
    && (forall u, w | u in uris && w in uris && u != w :: Apart(store[u], store[w]))
  }

  ghost function CoverOf(uris: seq<Uri>, store: map<Uri, Interval>): set<Interval>
    requires Lists(uris, store)
  {
    set u | u in uris :: store[u]
  }

  lemma ValuesAt(uris: seq<Uri>, store: map<Uri, Interval>)
    requires Lists(uris, store)
    ensures forall v :: v in Values(CoverOf(uris, store)) <==> exists u :: u in uris && store[u].Holds(v)
  {
    forall v
      ensures v in Values(CoverOf(uris, store)) <==> exists u :: u in uris && store[u].Holds(v)
    {
      if u :| u in uris && store[u].Holds(v) {
        assert store[u] in CoverOf(uris, store);
      }
    }
  }

  lemma MergeBoth(uris: seq<Uri>, store: map<Uri, Interval>, p: Uri, n: Uri, v: int)
    requires Lists(uris, store) && SeparatedAt(uris, store) && p in uris && n in uris
    requires store[p].end == v - 1 && store[n].begin == v + 1
    ensures var uris', store' := Without(uris, n), store[p := Interval(store[p].begin, store[n].end)];
            && Lists(uris', store') && SeparatedAt(uris', store')
            && Values(CoverOf(uris', store')) == Values(CoverOf(uris, store)) + {v}
  {
    hide Values, CoverOf;
    var uris', store' := Without(uris, n), store[p := Interval(store[p].begin, store[n].end)];
    forall w | w in uris' && w != p
      ensures Apart(store'[w], store'[p]) && Apart(store'[p], store'[w])
    {
      assert Apart(store[w], store[p]) && Apart(store[w], store[n]);
    }
    ValuesAt(uris, store);
    ValuesAt(uris', store');
    forall x
      ensures x in Values(CoverOf(uris', store')) <==> x in Values(CoverOf(uris, store)) || x == v
    {
      MergedHolds(uris, store, p, n, v, x);
    }
  }

  lemma MergedHolds(uris: seq<Uri>, store: map<Uri, Interval>, p: Uri, n: Uri, v: int, x: int)
    requires Lists(uris, store) && SeparatedAt(uris, store) && p in uris && n in uris
    requires store[p].end == v - 1 && store[n].begin == v + 1
    ensures var uris', store' := Without(uris, n), store[p := Interval(store[p].begin, store[n].end)];
            (exists u :: u in uris' && store'[u].Holds(x)) <==> (exists u :: u in uris && store[u].Holds(x)) || x == v
  {
    var uris', store' := Without(uris, n), store[p := Interval(store[p].begin, store[n].end)];
    if x == v {
      assert p in uris' && store'[p].Holds(x);
    } else if u :| u in uris && store[u].Holds(x) {
      var w := if u == n then p else u;
      assert w in uris' && store'[w].Holds(x);
    }
  }

  lemma ExtendUp(uris: seq<Uri>, store: map<Uri, Interval>, p: Uri, v: int)
    requires Lists(uris, store) && SeparatedAt(uris, store) && p in uris
    requires store[p].end == v - 1 && forall u | u in uris :: !store[u].Holds(v) && store[u].begin != v + 1
    ensures var store' := store[p := Interval(store[p].begin, v)];
            && Lists(uris, store') && SeparatedAt(uris, store')
            && Values(CoverOf(uris, store')) == Values(CoverOf(uris, store)) + {v}
  {
    ReplacedValues(uris, store, p, Interval(store[p].begin, v), {v}, {});
  }

  lemma ExtendDown(uris: seq<Uri>, store: map<Uri, Interval>, n: Uri, v: int)
    requires Lists(uris, store) && SeparatedAt(uris, store) && n in uris
    requires store[n].begin == v + 1 && forall u | u in uris :: !store[u].Holds(v) && store[u].end != v - 1
    ensures var store' := store[n := Interval(v, store[n].end)];
            && Lists(uris, store') && SeparatedAt(uris, store')
            && Values(CoverOf(uris, store')) == Values(CoverOf(uris, store)) + {v}
  {
    ReplacedValues(uris, store, n, Interval(v, store[n].end), {v}, {});
  }

  /** One interval is replaced by another that holds `more` and does not hold `less`. */
  lemma ReplacedValues(uris: seq<Uri>, store: map<Uri, Interval>, u: Uri, interval: Interval, more: set<int>,
          less: set<int>)
    requires Lists(uris, store) && u in uris
    requires forall x :: interval.Holds(x) <==> (store[u].Holds(x) || x in more) && x !in less
    requires forall w, x | w in uris && w != u && x in less :: !store[w].Holds(x)
    ensures Values(CoverOf(uris, store[u := interval])) == Values(CoverOf(uris, store)) + more - less
  {
    var store' := store[u := interval];
    ValuesAt(uris, store);
    ValuesAt(uris, store');
    forall x | x in Values(CoverOf(uris, store)) + more - less
      ensures x in Values(CoverOf(uris, store'))
    {
      if interval.Holds(x) {
        assert store'[u].Holds(x);
      } else {
        var w :| w in uris && store[w].Holds(x);
        assert store'[w].Holds(x);
      }
    }
    forall x | x in Values(CoverOf(uris, store'))
      ensures x in Values(CoverOf(uris, store)) + more - less
    {
      var w :| w in uris && store'[w].Holds(x);
      assert w != u ==> store[w].Holds(x);
    }
  }

  lemma AddAlone(uris: seq<Uri>, store: map<Uri, Interval>, u: Uri, v: int)
    requires Lists(uris, store) && SeparatedAt(uris, store) && u !in uris
    requires forall w | w in uris :: !store[w].Holds(v) && store[w].begin != v + 1 && store[w].end != v - 1
    ensures var store' := store[u := Interval(v, v)];
            && Lists(uris + [u], store') && SeparatedAt(uris + [u], store')
            && Values(CoverOf(uris + [u], store')) == Values(CoverOf(uris, store)) + {v}
  {
    AddedValues(uris, store, u, Interval(v, v));
    assert forall x :: Interval(v, v).Holds(x) <==> x in {v};
  }

  lemma AddedValues(uris: seq<Uri>, store: map<Uri, Interval>, u: Uri, interval: Interval)
    requires Lists(uris, store) && u !in uris
    ensures Lists(uris + [u], store[u := interval])
    ensures forall x :: x in Values(CoverOf(uris + [u], store[u := interval])) <==> x in Values(CoverOf(uris, store)) || interval.Holds(x)
  {
    var uris', store' := uris + [u], store[u := interval];
    ValuesAt(uris, store);
    ValuesAt(uris', store');
    forall x
      ensures x in Values(CoverOf(uris', store')) <==> x in Values(CoverOf(uris, store)) || interval.Holds(x)
    {
      if w :| w in uris && store[w].Holds(x) {
        assert w in uris' && store'[w].Holds(x);
      }
      if interval.Holds(x) {
        assert u in uris' && store'[u].Holds(x);
      }
      if w :| w in uris' && store'[w].Holds(x) {
        assert w != u ==> w in uris && store[w].Holds(x);
      }
    }
  }

  // ------------------------------------------------------------------ numerate

  /** A numbered document; 0 stands for a number that is missing or is not one. */
  datatype Doc = Doc(number: int, deleted: bool)

  /** What `numerate` makes of the committed numbers and of the document. `next` is the
      automatic number. */
  function Numerated(values: set<int>, next: int, doc: Doc, prev: Option<Doc>): (set<int>, Doc) {
    var prevNumber := if prev.Some? then prev.value.number else 0;
    if doc.number != 0 && prevNumber != 0 && doc.number == prevNumber && doc.deleted == prev.value.deleted then (values, doc)
    else if doc.number == 0 && prevNumber == 0 then (values + {next}, doc.(number := next))
    else if doc.number == 0 then (values, doc.(number := prevNumber))
    else if prev.None? then (values + {doc.number}, doc)
    else if doc.deleted then (values - {doc.number}, doc)
    else if prevNumber != 0 && doc.number != prevNumber then (values + {doc.number} - {prevNumber}, doc)
    else (values, doc)
  }

  /** The same when the document's earlier state belongs to a scope of its own, with the
      numbers `prevValues`: only a change of the number touches it. */
  function NumeratedApart(values: set<int>, prevValues: set<int>, next: int, doc: Doc, prev: Option<Doc>)
    : (set<int>, set<int>, Doc)
  {
    if Changes(doc, prev) then (values + {doc.number}, prevValues - {prev.value.number}, doc)
    else
      var (v, d) := Numerated(values, next, doc, prev);
      (v, prevValues, d)
  }

  /** A document that is not deleted, whose number was another one before. */
  predicate Changes(doc: Doc, prev: Option<Doc>) {
    doc.number != 0 && !doc.deleted && prev.Some? && prev.value.number != 0 && doc.number != prev.value.number
  }

  /** The script that runs when a document has been saved. `prevScope`, the scope of the
      earlier state, may be the same object as `scope`. */
  method Numerate(scope: Scope, prevScope: Scope, firstValue: int, doc: Doc, prev: Option<Doc>) returns (saved: Doc)
    requires scope.Valid() && prevScope.Valid()
    modifies scope, prevScope
    ensures scope.Valid() && prevScope.Valid()
    ensures scope == prevScope ==>
              (scope.Committed(), saved)
              == Numerated(old(scope.Committed()), NextValue(old(scope.Committed()), firstValue), doc, prev)
    ensures scope != prevScope ==>
              (scope.Committed(), prevScope.Committed(), saved)
              == NumeratedApart(old(scope.Committed()), old(prevScope.Committed()),
                                NextValue(old(scope.Committed()), firstValue), doc, prev)
  {
    hide Scope.Valid, Scope.Committed, NextValue;
    saved := doc;
    var prevNumber := if prev.Some? then prev.value.number else 0;
    if doc.number != 0 && prevNumber != 0 && doc.number == prevNumber && doc.deleted == prev.value.deleted {
      return;
    }
    if doc.number == 0 && prevNumber == 0 {
      var number := scope.GetNextValueSimple(firstValue);
      var _ := scope.CommitValue(number);
      saved := doc.(number := number);
    } else if doc.number == 0 && prevNumber != 0 {
      saved := doc.(number := prevNumber);
    } else if doc.number != 0 && prev.None? {
      var _ := scope.CommitValue(doc.number);
    } else if doc.number != 0 && doc.deleted {
      scope.RevokeValue(doc.number);
    } else if doc.number != 0 && prevNumber != 0 && doc.number != prevNumber {
      var _ := scope.CommitValue(doc.number);
      prevScope.RevokeValue(prevNumber);
    }
  }

  // ------------------------------------------------------- runs of documents

  datatype Registry = Registry(docs: map<nat, Doc>, values: set<int>)

  /** A document is saved, and the script runs. */
  ghost function Save(r: Registry, firstValue: int, id: nat, doc: Doc): Registry {
    var prev := if id in r.docs then Some(r.docs[id]) else None;
    var (values, saved) := Numerated(r.values, NextValue(r.values, firstValue), doc, prev);
    Registry(r.docs[id := saved], values)
  }

  /** What any save does: the document keeps the number it is given, or else the one it had, or
      else gets the least number above all committed ones. A new document's number and a changed
      one are committed, the one a changed number replaces and that of a deleted document are
      given back, and no third number is touched; a first number given to a document that had
      none is not committed. */
  lemma SaveIs(r: Registry, firstValue: int, id: nat, doc: Doc)
    ensures var t := Save(r, firstValue, id, doc);
            var was := if id in r.docs then r.docs[id].number else 0;
            && t.docs.Keys == r.docs.Keys + {id} && t.docs[id].deleted == doc.deleted
            && (forall other | other in r.docs && other != id :: t.docs[other] == r.docs[other])
            && (doc.number != 0 ==> t.docs[id].number == doc.number)
            && (doc.number == 0 && was != 0 ==> t.docs[id].number == was)
            && (doc.number == 0 && was == 0 ==>
                  if r.values == {} then t.docs[id].number == firstValue else IsLeastAbove(r.values, t.docs[id].number))
            && (forall v | v != was && v != t.docs[id].number :: v in t.values <==> v in r.values)
            && (doc.number == 0 && was == 0 ==> t.docs[id].number in t.values)
            && (id !in r.docs ==> t.docs[id].number in t.values)
            && (!doc.deleted && was != 0 && t.docs[id].number != was ==> t.docs[id].number in t.values && was !in t.values)
            && (doc.deleted && id in r.docs && doc.number != 0 && !(doc.number == was && r.docs[id].deleted) ==>
                  doc.number !in t.values)
            && (!doc.deleted && id in r.docs && doc.number != 0 && was == 0 ==> t.values == r.values)
  {
    NextIsLeast(r.values, firstValue);
    hide IsLeastAbove, NextValue;
  }

  predicate Live(docs: map<nat, Doc>, id: nat) {
    id in docs && !docs[id].deleted
  }

  /** Every document has a number, the live ones different numbers, and those are the
      committed ones. */
  ghost predicate Consistent(r: Registry) {
    && (forall id | id in r.docs :: r.docs[id].number != 0)
    && (forall id, other | Live(r.docs, id) && Live(r.docs, other) && id != other :: r.docs[id].number != r.docs[other].number)
    && (forall id | Live(r.docs, id) :: r.docs[id].number in r.values)
    && (forall v | v in r.values :: exists id :: Live(r.docs, id) && r.docs[id].number == v)
  }

  /** The saves that keep a registry consistent, by what the document was:
      - new: it is live and its number is missing or available, or it is deleted and its
        number is taken (nothing is committed for it);
      - live: it stays live and its number is missing, unchanged or available, or it is
        deleted with the number unchanged;
      - deleted: it stays deleted and its number is missing, unchanged or not committed, or
        it is restored with an available number and its old number is not in use. */
  predicate Keeps(r: Registry, id: nat, doc: Doc) {
    if id !in r.docs then
      if doc.deleted then doc.number != 0 && doc.number in r.values else doc.number == 0 || doc.number !in r.values
    else if !r.docs[id].deleted then
      if doc.deleted then doc.number == r.docs[id].number
      else doc.number == 0 || doc.number == r.docs[id].number || doc.number !in r.values
    else if doc.deleted then
      doc.number == 0 || doc.number == r.docs[id].number || doc.number !in r.values
    else
      doc.number != 0 && doc.number != r.docs[id].number && doc.number !in r.values && r.docs[id].number !in r.values
  }

  /** A save keeps the registry consistent if and only if it is one of those. */
  lemma SaveKeeps(r: Registry, firstValue: int, id: nat, doc: Doc)
    requires Consistent(r) && firstValue >= 1
    ensures Consistent(Save(r, firstValue, id, doc)) <==> Keeps(r, id, doc)
  {
    var t := Save(r, firstValue, id, doc);
    var n := t.docs[id].number;
    if Keeps(r, id, doc) {
      SaveKept(r, firstValue, id, doc);
    } else {
      SaveBroken(r, firstValue, id, doc);
    }
  }

  lemma SaveKept(r: Registry, firstValue: int, id: nat, doc: Doc)
    requires Consistent(r) && firstValue >= 1 && Keeps(r, id, doc)
    ensures Consistent(Save(r, firstValue, id, doc))
  {
    var t := Save(r, firstValue, id, doc);
    NextIsFresh(r.values, firstValue);
    var was := if id in r.docs then r.docs[id].number else 0;
    assert t.docs[id].number == (if doc.number != 0 then doc.number else if was != 0 then was else NextValue(r.values, firstValue));
    forall v | v in t.values
      ensures exists w :: Live(t.docs, w) && t.docs[w].number == v
    {
      KeptNumberIsLive(r, firstValue, id, doc, v);
    }
    forall w | Live(t.docs, w)
      ensures t.docs[w].number in t.values && (w != id && Live(t.docs, id) ==> t.docs[w].number != t.docs[id].number)
    {
      KeptNumberIsOwn(r, firstValue, id, doc, w);
    }
    hide Keeps, Numerated;
  }

  lemma KeptNumberIsOwn(r: Registry, firstValue: int, id: nat, doc: Doc, w: nat)
    requires Consistent(r) && firstValue >= 1 && Keeps(r, id, doc) && Live(Save(r, firstValue, id, doc).docs, w)
    ensures var t := Save(r, firstValue, id, doc);
            && t.docs[w].number in t.values
            && (w != id && Live(t.docs, id) ==> t.docs[w].number != t.docs[id].number)
  {
    NextIsFresh(r.values, firstValue);
    var t := Save(r, firstValue, id, doc);
    assert w != id ==> Live(r.docs, w) && t.docs[w].number == r.docs[w].number;
  }

  lemma KeptNumberIsLive(r: Registry, firstValue: int, id: nat, doc: Doc, v: int)
    requires Consistent(r) && firstValue >= 1 && Keeps(r, id, doc)
    requires v in Save(r, firstValue, id, doc).values
    ensures exists w :: Live(Save(r, firstValue, id, doc).docs, w) && Save(r, firstValue, id, doc).docs[w].number == v
  {
    var t := Save(r, firstValue, id, doc);
    if v in r.values {
      var w :| Live(r.docs, w) && r.docs[w].number == v;
      assert Live(t.docs, w) && t.docs[w].number == v;
    } else {
      assert Live(t.docs, id) && t.docs[id].number == v;
    }
  }

  lemma SaveBroken(r: Registry, firstValue: int, id: nat, doc: Doc)
    requires Consistent(r) && firstValue >= 1 && !Keeps(r, id, doc)
    ensures !Consistent(Save(r, firstValue, id, doc))
  {
    var t := Save(r, firstValue, id, doc);
    var was := if id in r.docs then r.docs[id].number else 0;
    if id !in r.docs && doc.deleted {
      // a number is committed for a document that is not live
      CommittedForNone(r, t, id, t.docs[id].number);
    } else if id in r.docs && !r.docs[id].deleted && doc.deleted {
      // the old number stays committed
      CommittedForNone(Registry(r.docs, r.values - {was}), t, id, was);
    } else if doc.number != 0 && doc.number != was && doc.number in r.values {
      // the number belongs to another live document
      var w :| Live(r.docs, w) && r.docs[w].number == doc.number;
      assert w != id && Live(t.docs, w) && t.docs[w].number == doc.number;
      assert if doc.deleted then doc.number !in t.values else Live(t.docs, id) && t.docs[id].number == doc.number;
    } else if was in r.values {
      // the old number belongs to another live document by now
      var w :| Live(r.docs, w) && r.docs[w].number == was;
      assert w != id && Live(t.docs, w) && t.docs[w].number == was;
    } else {
      // the number comes back without being committed
      assert Live(t.docs, id) && t.docs[id].number == was;
    }
  }

  /** No live document but `id` has a number outside the committed ones. */
  lemma CommittedForNone(r: Registry, t: Registry, id: nat, v: int)
    requires forall w | Live(r.docs, w) && w != id :: r.docs[w].number in r.values
    requires v !in r.values && v in t.values && !Live(t.docs, id)
    requires forall w | Live(t.docs, w) :: Live(r.docs, w) && t.docs[w].number == r.docs[w].number
    ensures !Consistent(t)
  {
    assert forall w | Live(t.docs, w) :: t.docs[w].number != v;
  }

  datatype Event = Event(id: nat, doc: Doc)

  ghost function SaveAll(firstValue: int, events: seq<Event>): Registry {
    if events == [] then Registry(map[], {})
    else
      var last := events[|events| - 1];
      Save(SaveAll(firstValue, events[..|events| - 1]), firstValue, last.id, last.doc)
  }

  /** Over any run of such saves the committed numbers are those of the live documents,
      which are pairwise distinct, and the next automatic number is fresh. */
  lemma {:induction false} RunConsistent(firstValue: int, events: seq<Event>)
    requires firstValue >= 1
    requires forall i | 0 <= i < |events| :: Keeps(SaveAll(firstValue, events[..i]), events[i].id, events[i].doc)
    ensures Consistent(SaveAll(firstValue, events))
    ensures NextValue(SaveAll(firstValue, events).values, firstValue) !in SaveAll(firstValue, events).values
  {
    if events != [] {
      var before := events[..|events| - 1];
      forall i | 0 <= i < |before|
        ensures Keeps(SaveAll(firstValue, before[..i]), before[i].id, before[i].doc)
      {
        assert before[..i] == events[..i];
      }
      RunConsistent(firstValue, before);
      var last := events[|events| - 1];
      SaveKept(SaveAll(firstValue, before), firstValue, last.id, last.doc);
    }
  }
}
