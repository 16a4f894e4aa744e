/** Stopping a process: a walk over work items, work orders and processes that stops what is
    not completed. The walk marks an element by its position in the path, and the first
    position, 0, reads as no mark at all. */
module WorkflowStop {

  type Uris = seq<string>

  /** `completed` is false when the property is absent or false. */
  datatype Item = Item(uri: string, decisionForms: Uris, workItems: Uris, workOrders: Uris, processes: Uris,
                       completed: bool, deleted: bool, stopped: bool)

  type Docs = map<string, Item>

  // --------------------------------------------------------------- what is to be stopped

  /** What the walk goes on to. */
  function Links(e: Item): set<string> {
    (set u | u in e.workItems) + (set u | u in e.workOrders) + (set u | u in e.processes)
  }

  /** Every individual the walk asks the store for on behalf of `e`. */
  function Mentioned(e: Item): set<string> {
    Links(e) + set u | u in e.decisionForms
  }

  predicate Open(base: Docs, d: string) {
    d in base && !base[d].completed
  }

  predicate IsPath(base: Docs, p: seq<string>) {
    && p != []
    && (forall i | 0 <= i < |p| :: p[i] in base)
    && (forall i | 0 <= i < |p| - 1 :: p[i + 1] in Links(base[p[i]]))
  }

  /** `u` is reached from `e` along links. */
  ghost predicate Reached(base: Docs, e: Item, u: string) {
    exists p :: IsPath(base, p) && p[0] in Links(e) && p[|p| - 1] == u
  }

  ghost function ReachedSet(base: Docs, e: Item): set<string> {
    set u | u in base && Reached(base, e, u)
  }

  /** An element the walk visits. */
  ghost predicate Visits(base: Docs, e: Item, x: Item) {
    x == e || exists u | u in base :: x == base[u] && Reached(base, e, u)
  }

  /** A decision form of a visited element is stopped and deleted, a process stopped, unless
      it is completed. */
  ghost predicate ToDelete(base: Docs, e: Item, d: string) {
    Open(base, d) && exists x :: Visits(base, e, x) && d in x.decisionForms
  }

  ghost predicate ToStop(base: Docs, e: Item, d: string) {
    Open(base, d) && exists x :: Visits(base, e, x) && (d in x.decisionForms || d in x.processes)
  }

  /** Some visited element mentions an individual that is not there. */
  ghost predicate Dangling(base: Docs, e: Item) {
    exists x, d :: Visits(base, e, x) && d in Mentioned(x) && d !in base
  }

  // ------------------------------------------------------------------------- the walk

  /** The marks that read as set. */
  function Marked(path: map<string, nat>): set<string> {
    set u | u in path && path[u] != 0
  }

  function Stopped(base: Docs, stops: set<string>, deletes: set<string>): (docs: Docs)
    ensures docs.Keys == base.Keys
  {
    map u | u in base :: base[u].(stopped := base[u].stopped || u in stops, deleted := base[u].deleted || u in deletes)
  }

  /** Nothing more is to be done for `x`: what it links to is marked, what it names is
      stopped. */
  ghost predicate Finished(base: Docs, x: Item, marked: set<string>, stops: set<string>, deletes: set<string>) {
    && Mentioned(x) <= base.Keys
    && Links(x) <= marked
    && (forall d | d in x.decisionForms && Open(base, d) :: d in stops && d in deletes)
    && (forall d | d in x.processes && Open(base, d) :: d in stops)
  }

  lemma FinishedStays(base: Docs, x: Item, marked: set<string>, stops: set<string>, deletes: set<string>,
          marked': set<string>, stops': set<string>, deletes': set<string>)
    requires marked <= marked' && stops <= stops' && deletes <= deletes'
    ensures Finished(base, x, marked, stops, deletes) ==> Finished(base, x, marked', stops', deletes')
  {
  }

  lemma OneStopped(base: Docs, stops: set<string>, deletes: set<string>, d: string)
    requires d in base
    ensures var docs := Stopped(base, stops, deletes);
            && docs[d := docs[d].(stopped := true)] == Stopped(base, stops + {d}, deletes)
            && docs[d := docs[d].(stopped := true, deleted := true)] == Stopped(base, stops + {d}, deletes + {d})
            && docs[d].completed == base[d].completed
  {
  }

  /** What a walk may mark and stop. */
  datatype Bounds = Bounds(reach: set<string>, stops: set<string>, deletes: set<string>)

  /** An element whose visit stays within the bounds. */
  ghost predicate Within(base: Docs, x: Item, b: Bounds) {
    && Links(x) * base.Keys <= b.reach
    && (forall d | d in x.decisionForms && Open(base, d) :: d in b.stops && d in b.deletes)
    && (forall d | d in x.processes && Open(base, d) :: d in b.stops)
  }

  ghost predicate Bounded(base: Docs, b: Bounds) {
    forall u | u in b.reach && u in base :: Within(base, base[u], b)
  }

  lemma ListsWithin(base: Docs, x: Item, b: Bounds)
    requires Within(base, x, b)
    ensures forall d | d in x.decisionForms && Open(base, d) :: d in b.stops && d in b.deletes
    ensures forall u | (u in x.workItems || u in x.workOrders || u in x.processes) && u in base :: u in b.reach
    ensures forall d | d in x.processes && Open(base, d) :: d in b.stops
    ensures Mentioned(x) <= base.Keys <==>
      forall u | u in x.decisionForms || u in x.workItems || u in x.workOrders || u in x.processes :: u in base
  {
    hide Open;
    forall u | (u in x.workItems || u in x.workOrders || u in x.processes) && u in base ensures u in b.reach {
      assert u in Links(x);
    }
    forall u | u in x.decisionForms || u in x.workItems || u in x.workOrders || u in x.processes ensures u in Mentioned(x) {
    }
  }

  lemma ListsFinished(base: Docs, x: Item, marked: set<string>, stops: set<string>, deletes: set<string>)
    requires forall u | u in x.workItems || u in x.workOrders || u in x.processes :: u in base && u in marked
    requires forall d | d in x.decisionForms :: d in base && (Open(base, d) ==> d in stops && d in deletes)
    requires forall d | d in x.processes && Open(base, d) :: d in stops
    ensures Finished(base, x, marked, stops, deletes)
  {
    hide Open;
  }

  class Walker {
    var docs: Docs
    var path: map<string, nat>
    ghost const base: Docs
    ghost var stops: set<string>
    ghost var deletes: set<string>
    ghost const bounds: Bounds
    /** An element that mentions something missing, once the walk has thrown. */
    ghost var culprit: Item

    ghost predicate Valid()
      reads this
    {
      && docs == Stopped(base, stops, deletes)
      && (forall u | u in base :: base[u].uri == u)
      && bounds.reach <= base.Keys && Bounded(base, bounds)
      && Marked(path) <= bounds.reach && stops <= bounds.stops && deletes <= bounds.deletes
    }

    constructor (docs: Docs, ghost bounds: Bounds)
      requires (forall u | u in docs :: docs[u].uri == u) && bounds.reach <= docs.Keys && Bounded(docs, bounds)
      ensures Valid() && this.docs == base == docs && path == map[] && stops == deletes == {} && this.bounds == bounds
    {
      this.docs := docs;
      this.base := docs;
      this.path := map[];
      this.stops := {};
      this.deletes := {};
      this.bounds := bounds;
      this.culprit := Item("", [], [], [], [], false, false, false);
    }

    /** Same element, whatever its flags. */
    ghost predicate Is(e: Item, x: Item)
    {
      e.(deleted := x.deleted, stopped := x.stopped) == x
    }

    /** What is marked and was not marked in `since` is finished. */
    ghost predicate Done(since: set<string>)
      requires Valid()
      reads this
    {
      forall u | u in Marked(path) - since :: Finished(base, base[u], Marked(path), stops, deletes)
    }

    /** Marks and stops only grow. */
    twostate predicate Grows()
      reads this
    {
      && Valid()
      && old(Marked(path)) <= Marked(path) && old(stops) <= stops && old(deletes) <= deletes
      && (old(path) != map[] ==> path != map[])
    }

    /** The element to blame for a failure is one the walk may visit. */
    ghost predicate Guilty()
      reads this
    {
      !(Mentioned(culprit) <= base.Keys) && exists u :: u in bounds.reach && u in base && culprit == base[u]
    }

    method StopForm(d: string, ghost since: set<string>) returns (ok: bool)
      requires Valid() && Done(since) && (Open(base, d) ==> d in bounds.stops && d in bounds.deletes)
      modifies this`docs, this`stops, this`deletes
      ensures Grows() && Done(since) && ok == (d in base)
      ensures ok && Open(base, d) ==> d in stops && d in deletes
    {
      hide Stopped, Finished, Bounded;
      if d !in docs {
        return false;
      }
      OneStopped(base, stops, deletes, d);
      var df := docs[d];
      if !df.completed {
        forall u | u in Marked(path) - since ensures Finished(base, base[u], Marked(path), stops + {d}, deletes + {d}) {
          FinishedStays(base, base[u], Marked(path), stops, deletes, Marked(path), stops + {d}, deletes + {d});
        }
        df := df.(deleted := true);
        df := df.(stopped := true);
        docs := docs[d := df];
        stops := stops + {d};
        deletes := deletes + {d};
      }
      return true;
    }

    method StopProcess(d: string, ghost since: set<string>) returns (df: Item)
      requires Valid() && Done(since) && d in docs && (Open(base, d) ==> d in bounds.stops)
      modifies this`docs, this`stops
      ensures Grows() && Done(since) && df == docs[d]
      ensures Open(base, d) ==> d in stops
    {
      hide Stopped, Finished, Bounded;
      df := docs[d];
      OneStopped(base, stops, deletes, d);
      if !df.completed {
        forall u | u in Marked(path) - since ensures Finished(base, base[u], Marked(path), stops + {d}, deletes) {
          FinishedStays(base, base[u], Marked(path), stops, deletes, Marked(path), stops + {d}, deletes);
        }
        df := df.(stopped := true);
        docs := docs[d := df];
        stops := stops + {d};
      }
    }

    method StopForms(forms: Uris, ghost since: set<string>) returns (ok: bool)
      requires Valid() && Done(since) && forall d | d in forms && Open(base, d) :: d in bounds.stops && d in bounds.deletes
      modifies this`docs, this`stops, this`deletes
      ensures Grows() && Done(since) && ok == forall d | d in forms :: d in base
      ensures ok ==> forall d | d in forms && Open(base, d) :: d in stops && d in deletes
    {
      hide Done, Open, Bounded, Stopped;
      for i := 0 to |forms|
        invariant Grows() && Done(since)
        invariant forall k | 0 <= k < i :: forms[k] in base
        invariant forall k | 0 <= k < i && Open(base, forms[k]) :: forms[k] in stops && forms[k] in deletes
      {
        ok := StopForm(forms[i], since);
        if !ok {
          return;
        }
      }
      return true;
    }

    /** Work items and work orders. */
    method VisitAll(uris: Uris, ghost since: set<string>) returns (ok: bool)
      requires Valid() && path != map[] && Done(since) && forall u | u in uris && u in base :: u in bounds.reach
      modifies this
      ensures Grows() && (ok ==> Done(since) && forall u | u in uris :: u in base && u in Marked(path))
      ensures !ok ==> Guilty() || exists u :: u in uris && u !in base
      decreases base.Keys - Marked(path), 0, 1
    {
      hide Done, Within, Guilty, Marked;
      for i := 0 to |uris|
        invariant Grows() && Done(since) && path != map[]
        invariant forall k | 0 <= k < i :: uris[k] in base && uris[k] in Marked(path)
      {
        if uris[i] !in docs {
          return false;
        }
        StoredWithin(uris[i]);
        ok := RecursiveCall(docs[uris[i]], since);
        if !ok {
          return;
        }
      }
      return true;
    }

    method VisitProcesses(uris: Uris, ghost since: set<string>) returns (ok: bool)
      requires Valid() && path != map[] && Done(since) && forall u | u in uris && u in base :: u in bounds.reach
      requires forall u | u in uris && Open(base, u) :: u in bounds.stops
      modifies this
      ensures Grows() && (ok ==> Done(since) && forall u | u in uris :: u in base && u in Marked(path))
      ensures ok ==> forall u | u in uris && Open(base, u) :: u in stops
      ensures !ok ==> Guilty() || exists u :: u in uris && u !in base
      decreases base.Keys - Marked(path), 0, 1
    {
      hide Done, Within, Guilty, Marked, Open, Bounded, Stopped;
      for i := 0 to |uris|
        invariant Grows() && Done(since) && path != map[]
        invariant forall k | 0 <= k < i :: uris[k] in base && uris[k] in Marked(path)
        invariant forall k | 0 <= k < i && Open(base, uris[k]) :: uris[k] in stops
      {
        if uris[i] !in docs {
          return false;
        }
        var df := StopProcess(uris[i], since);
        StoredWithin(uris[i]);
        ok := RecursiveCall(df, since);
        if !ok {
          return;
        }
      }
      return true;
    }

    method VisitLinks(elem: Item, ghost since: set<string>) returns (ok: bool)
      requires Valid() && path != map[] && Done(since)
      requires forall u | (u in elem.workItems || u in elem.workOrders || u in elem.processes) && u in base :: u in bounds.reach
      requires forall u | u in elem.processes && Open(base, u) :: u in bounds.stops
      modifies this
      ensures Grows() && (ok ==> Done(since))
      ensures ok ==> forall u | u in elem.workItems || u in elem.workOrders || u in elem.processes :: u in base && u in Marked(path)
      ensures ok ==> forall u | u in elem.processes && Open(base, u) :: u in stops
      ensures !ok ==> Guilty() || exists u :: (u in elem.workItems || u in elem.workOrders || u in elem.processes) && u !in base
      decreases base.Keys - Marked(path), 0, 2
    {
      hide Done, Guilty, Marked, Open, Bounded, Stopped;
      ok := VisitAll(elem.workItems, since);
      if !ok {
        return;
      }
      ok := VisitAll(elem.workOrders, since);
      if !ok {
        return;
      }
      ok := VisitProcesses(elem.processes, since);
    }

    /** The four lists of an element, in their order. */
    method Expand(elem: Item, ghost since: set<string>) returns (ok: bool)
      requires Valid() && path != map[] && Within(base, elem, bounds) && Done(since)
      modifies this
      ensures Grows() && (ok ==> Done(since) && Finished(base, elem, Marked(path), stops, deletes))
      ensures !ok ==> Guilty() || !(Mentioned(elem) <= base.Keys)
      decreases base.Keys - Marked(path), 0, 3
    {
      hide Done, Guilty, Marked, Open, Bounded, Stopped, Finished, Within, Links, Mentioned;
      ListsWithin(base, elem, bounds);
      ok := StopForms(elem.decisionForms, since);
      if !ok {
        return;
      }
      ok := VisitLinks(elem, since);
      if ok {
        ListsFinished(base, elem, Marked(path), stops, deletes);
      }
    }

    /** `recursiveCall`. Only the first call of a walk finds the path empty; its element gets
        the position 0, so that it is visited once more if it is met again. */
    method RecursiveCall(elem: Item, ghost since: set<string>) returns (ok: bool)
      requires Valid() && Within(base, elem, bounds) && Done(since)
      requires path != map[] ==> elem.uri in bounds.reach && Is(elem, base[elem.uri])
      modifies this
      ensures Grows() && path != map[] && (ok ==> Done(since))
      ensures ok && old(path) != map[] ==> elem.uri in Marked(path)
      ensures ok && old(path) == map[] ==> Finished(base, elem, Marked(path), stops, deletes)
      ensures !ok ==> Guilty() || (old(path) == map[] && !(Mentioned(elem) <= base.Keys))
      decreases base.Keys - Marked(path), if path == map[] then 1 else 0, 0
    {
      hide Within, Open, Bounded, Stopped;
      if elem.uri in path && path[elem.uri] != 0 {
        return true;
      }
      ghost var first := path == map[];
      ghost var marks := Marked(path);
      MarkAt(path, elem.uri, |path|);
      path := path[elem.uri := |path|];
      ok := ExpandMarked(elem, since, marks, first);
    }

    /** The element has just been marked. */
    method ExpandMarked(elem: Item, ghost since: set<string>, ghost marks: set<string>,
            ghost first: bool) returns (ok: bool)
      requires Valid() && path != map[] && Within(base, elem, bounds)
      requires Marked(path) == if first then {} else marks + {elem.uri}
      requires marks <= base.Keys && forall u | u in marks - since :: Finished(base, base[u], marks, stops, deletes)
      requires !first ==> elem.uri in base && elem.uri in bounds.reach && Is(elem, base[elem.uri])
      modifies this
      ensures Grows() && (ok ==> Done(since))
      ensures ok && first ==> Finished(base, elem, Marked(path), stops, deletes)
      ensures !ok ==> Guilty() || (first && !(Mentioned(elem) <= base.Keys))
      decreases base.Keys - Marked(path), 0, 4
    {
      hide Within, Open, Bounded, Stopped, Marked;
      ghost var since' := if first then since else since + {elem.uri};
      assert Done(since');
      ok := Expand(elem, since');
      if !first {
        SameMentioned(elem, base[elem.uri]);
        if ok {
          SameFinished(elem, base[elem.uri]);
        } else if !Guilty() {
          culprit := base[elem.uri];
        }
      }
    }

    lemma StoredWithin(u: string)
      requires Valid() && u in bounds.reach
      ensures u in docs && docs[u].uri == u && Is(docs[u], base[u]) && Within(base, docs[u], bounds)
    {
      assert Within(base, base[u], bounds);
    }

    lemma SameMentioned(e: Item, x: Item)
      requires Is(e, x)
      ensures Mentioned(e) == Mentioned(x)
    {
    }

    lemma SameFinished(e: Item, x: Item)
      requires Is(e, x) && Finished(base, e, Marked(path), stops, deletes)
      ensures Finished(base, x, Marked(path), stops, deletes)
    {
    }
  }

  lemma MarkAt(path: map<string, nat>, u: string, position: nat)
    requires position == |path| && u !in Marked(path)
    ensures Marked(path[u := position]) == if path == map[] then {} else Marked(path) + {u}
  {
    if path != map[] {
      var v :| v in path;
      assert v in path.Keys && |path.Keys| == |path|;
    }
  }

  // ---------------------------------------------------------------- the whole walk

  ghost function StopSet(base: Docs, e: Item): set<string> {
    set d | d in base && ToStop(base, e, d)
  }

  ghost function DeleteSet(base: Docs, e: Item): set<string> {
    set d | d in base && ToDelete(base, e, d)
  }

  ghost function BoundsOf(base: Docs, e: Item): Bounds {
    Bounds(ReachedSet(base, e), StopSet(base, e), DeleteSet(base, e))
  }

  lemma LinkReached(base: Docs, e: Item, u: string)
    requires u in Links(e) && u in base
    ensures Reached(base, e, u)
  {
    assert IsPath(base, [u]) && [u][0] == u;
  }

  lemma ReachedOn(base: Docs, e: Item, u: string, v: string)
    requires u in base && v in base && Reached(base, e, u) && v in Links(base[u])
    ensures Reached(base, e, v)
  {
    var p :| IsPath(base, p) && p[0] in Links(e) && p[|p| - 1] == u;
    var q := p + [v];
    assert IsPath(base, q) by {
      forall i | 0 <= i < |q| - 1 ensures q[i + 1] in Links(base[q[i]]) {
        if i < |p| - 1 {
          assert q[i] == p[i] && q[i + 1] == p[i + 1];
        }
      }
    }
    assert q[0] == p[0] && q[|q| - 1] == v;
  }

  lemma VisitedWithin(base: Docs, e: Item, x: Item)
    requires Visits(base, e, x)
    ensures Within(base, x, BoundsOf(base, e))
  {
    forall v | v in Links(x) && v in base ensures v in ReachedSet(base, e) {
      if x == e {
        LinkReached(base, e, v);
      } else {
        var u :| u in base && x == base[u] && Reached(base, e, u);
        ReachedOn(base, e, u, v);
      }
    }
  }

  lemma BoundsAreBounded(base: Docs, e: Item)
    ensures Within(base, e, BoundsOf(base, e)) && Bounded(base, BoundsOf(base, e)) && BoundsOf(base, e).reach <= base.Keys
  {
    hide Within;
    VisitedWithin(base, e, e);
    forall u | u in BoundsOf(base, e).reach && u in base ensures Within(base, base[u], BoundsOf(base, e)) {
      VisitedWithin(base, e, base[u]);
    }
  }

  /** A set of marks that is closed under links holds everything that is reached. */
  lemma {:induction false} ClosedHolds(base: Docs, e: Item, marked: set<string>, p: seq<string>)
    requires Links(e) <= marked && marked <= base.Keys && forall u | u in marked :: Links(base[u]) <= marked
    requires IsPath(base, p) && p[0] in Links(e)
    ensures p[|p| - 1] in marked
    decreases |p|
  {
    if |p| > 1 {
      var q := p[..|p| - 1];
      assert IsPath(base, q) by {
        forall i | 0 <= i < |q| - 1 ensures q[i + 1] in Links(base[q[i]]) {
          assert p[i + 1] in Links(base[p[i]]);
        }
      }
      ClosedHolds(base, e, marked, q);
      assert p[|p| - 2 + 1] in Links(base[p[|p| - 2]]);
    }
  }

  /** When the walk has come to its end, every visited element is finished. */
  lemma AllFinished(base: Docs, e: Item, x: Item, marked: set<string>, stops: set<string>, deletes: set<string>)
    requires marked <= base.Keys && Finished(base, e, marked, stops, deletes)
    requires forall u | u in marked :: Finished(base, base[u], marked, stops, deletes)
    requires Visits(base, e, x)
    ensures Finished(base, x, marked, stops, deletes)
  {
    if x != e {
      var u :| u in base && x == base[u] && Reached(base, e, u);
      var p :| IsPath(base, p) && p[0] in Links(e) && p[|p| - 1] == u;
      ClosedHolds(base, e, marked, p);
    }
  }

  /** The walk from `e`, on any store, with cycles or without: it comes to an end; it throws
      if and only if a visited element mentions something that is not there; and otherwise
      it stops exactly the processes and decision forms of visited elements that are not
      completed, deletes exactly those decision forms, and changes nothing else. */
  method StopWorkflow(docs: Docs, e: Item) returns (ok: bool, after: Docs)
    requires forall u | u in docs :: docs[u].uri == u
    ensures ok <==> !Dangling(docs, e)
    ensures ok ==> after == Stopped(docs, StopSet(docs, e), DeleteSet(docs, e))
  {
    BoundsAreBounded(docs, e);
    hide Bounded, Within, Stopped, ReachedSet, StopSet, DeleteSet;
    var walker := new Walker(docs, BoundsOf(docs, e));
    assert Marked(map[]) == {};
    ok := walker.RecursiveCall(e, {});
    after := walker.docs;
    ghost var marked, stops, deletes := Marked(walker.path), walker.stops, walker.deletes;
    if ok {
      assert marked - {} == marked;
      WalkIsExact(docs, e, marked, stops, deletes);
    } else {
      if !(Mentioned(e) <= docs.Keys) {
        Blamed(docs, e, e);
      } else {
        ghost var u :| u in walker.bounds.reach && u in docs && walker.culprit == docs[u];
        ReachIsVisited(docs, e, u);
        Blamed(docs, e, walker.culprit);
      }
    }
  }

  lemma ReachIsVisited(base: Docs, e: Item, u: string)
    requires u in ReachedSet(base, e) && u in base
    ensures Visits(base, e, base[u])
  {
  }

  lemma Blamed(base: Docs, e: Item, x: Item)
    requires Visits(base, e, x) && !(Mentioned(x) <= base.Keys)
    ensures Dangling(base, e)
  {
    hide Mentioned, Visits;
    var d :| d in Mentioned(x) && d !in base;
  }

  lemma WalkIsExact(base: Docs, e: Item, marked: set<string>, stops: set<string>, deletes: set<string>)
    requires marked <= base.Keys && Finished(base, e, marked, stops, deletes)
    requires forall u | u in marked :: Finished(base, base[u], marked, stops, deletes)
    requires stops <= StopSet(base, e) && deletes <= DeleteSet(base, e)
    ensures stops == StopSet(base, e) && deletes == DeleteSet(base, e) && !Dangling(base, e)
  {
    hide Visits;
    forall d | d in StopSet(base, e) ensures d in stops {
      var x :| Visits(base, e, x) && (d in x.decisionForms || d in x.processes);
      AllFinished(base, e, x, marked, stops, deletes);
    }
    forall d | d in DeleteSet(base, e) ensures d in deletes {
      var x :| Visits(base, e, x) && d in x.decisionForms;
      AllFinished(base, e, x, marked, stops, deletes);
    }
    forall x, d | Visits(base, e, x) && d in Mentioned(x) ensures d in base {
      AllFinished(base, e, x, marked, stops, deletes);
    }
  }
}
