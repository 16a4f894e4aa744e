/** The chain of versions behind every document, over any run of saves and handled events. */
module VersionChains {
  import opened Wrappers
  import opened Versioning

  datatype Saved = Saved(id: string, content: string, types: seq<string>)

  function Snapshot(id: string, d: Doc): Saved {
    Saved(id, d.content, d.types)
  }

  /** The versions made so far of every document, oldest first. */
  type History = map<string, seq<Saved>>

  datatype Step =
    | Save(uri: string, content: string, types: seq<string>)
    | HandleEvent(id: string)

  // ------------------------------------------------------------------------ the steps

  /** A user saves a document: the links it has are kept. */
  function SaveDoc(st: Store, u: string, content: string, types: seq<string>): Store {
    Put(st, if u in st.docs then st.docs[u].(content := content, types := types) else Doc(u, content, types, None, None, None))
  }

  /** The oldest event is handled, on the latest state of its document; `id` is the name a
      new version would get. */
  function Handle(st: Store, id: string): Store {
    if st.queue == [] || st.queue[0].uri !in st.docs then st
    else CreateVersion(st.(queue := st.queue[1..]), st.docs[st.queue[0].uri], st.queue[0].prev, id).0
  }

  /** An event of a document makes a version if none has been made since it was saved. */
  predicate IsLive(e: Event, u: string, h: seq<Saved>) {
    e.uri == u && (h == [] || (e.prev.Some? && e.prev.value.previous == LastOf(h)))
  }

  function LastOf(h: seq<Saved>): Links {
    if h == [] then None else Some([h[|h| - 1].id])
  }

  /** Handling the oldest event is to add a version of its document. */
  predicate AddsVersion(st: Store, hist: History) {
    st.queue != [] && st.queue[0].uri in hist && IsLive(st.queue[0], st.queue[0].uri, hist[st.queue[0].uri])
  }

  function Next(st: Store, step: Step): Store {
    match step
    case Save(u, content, types) => SaveDoc(st, u, content, types)
    case HandleEvent(id) => Handle(st, id)
  }

  function NextHistory(st: Store, hist: History, step: Step): History {
    match step
    case Save(u, _, _) => if u in hist then hist else hist[u := []]
    case HandleEvent(id) =>
      if AddsVersion(st, hist) && st.queue[0].uri in st.docs then
        var u := st.queue[0].uri;
        hist[u := hist[u] + [Snapshot(id, st.docs[u])]]
      else hist
  }

  /** Users save documents, not versions, and the names of versions are new. */
  predicate Fair(st: Store, hist: History, step: Step) {
    match step
    case Save(u, _, _) => u in st.docs ==> u in hist
    case HandleEvent(id) => id !in st.docs
  }

  // -------------------------------------------------------------------- the invariant

  predicate IsVersion(hist: History, u: string, i: int) {
    u in hist && 0 <= i < |hist[u]|
  }

  function IdOf(hist: History, u: string, i: int): string
    requires IsVersion(hist, u, i)
  {
    hist[u][i].id
  }

  /** The links of a document and of its `i`-th version. */
  predicate DocLinked(docs: map<string, Doc>, u: string, h: seq<Saved>) {
    && u in docs && docs[u].uri == u
    && docs[u].previous == LastOf(h)
    && (if h == [] then docs[u].actual == None && docs[u].next == None
        else docs[u].actual == Some([u]) && docs[u].next == Some([]))
  }

  predicate VersionLinked(docs: map<string, Doc>, u: string, h: seq<Saved>, i: nat)
    requires i < |h|
  {
    var id := h[i].id;
    && id in docs && docs[id].uri == id && docs[id].content == h[i].content
    && docs[id].types == h[i].types + ["v-s:Version"]
    && docs[id].actual == Some([u])
    && docs[id].previous == Some(if i == 0 then [] else [h[i - 1].id])
    && docs[id].next == Some([if i == |h| - 1 then u else h[i + 1].id])
  }

  ghost predicate Linked(docs: map<string, Doc>, hist: History) {
    && (forall u | u in hist :: DocLinked(docs, u, hist[u]))
    && (forall u, i | IsVersion(hist, u, i) :: VersionLinked(docs, u, hist[u], i))
  }

  /** No individual is two versions, or a version and a document. */
  ghost predicate Apart(hist: History) {
    && (forall u, i, v, j {:trigger IdOf(hist, u, i), IdOf(hist, v, j)}
          | IsVersion(hist, u, i) && IsVersion(hist, v, j) && IdOf(hist, u, i) == IdOf(hist, v, j) :: u == v && i == j)
    && (forall u, i | IsVersion(hist, u, i) :: IdOf(hist, u, i) !in hist)
  }

  /** An event is of a version, or of a document in one of its earlier states. */
  ghost predicate Sound(e: Event, docs: map<string, Doc>, hist: History) {
    e.uri in docs
    && (e.uri in hist ==> e.prev.Some? ==> exists k | 0 <= k <= |hist[e.uri]| :: e.prev.value.previous == LastOf(hist[e.uri][..k]))
    && (e.uri !in hist ==> exists u, i :: IsVersion(hist, u, i) && IdOf(hist, u, i) == e.uri)
  }

  /** The newest version is up to date, or an event is waiting that will bring it so. */
  ghost predicate UpToDate(st: Store, u: string, h: seq<Saved>) {
    || (h != [] && u in st.docs && h[|h| - 1].content == st.docs[u].content && h[|h| - 1].types == st.docs[u].types)
    || (exists e | e in st.queue :: IsLive(e, u, h))
  }

  ghost predicate Inv(st: Store, hist: History) {
    && Linked(st.docs, hist)
    && Apart(hist)
    && (forall u | u in st.docs :: u in hist || exists v, i :: IsVersion(hist, v, i) && IdOf(hist, v, i) == u)
    && (forall e | e in st.queue :: Sound(e, st.docs, hist))
    && (forall u | u in hist :: UpToDate(st, u, hist[u]))
    && (forall u, i | IsVersion(hist, u, i) :: (u, IdOf(hist, u, i)) in st.grants)
  }

  lemma EmptyStore()
    ensures Inv(Store(map[], {}, []), map[])
  {
  }

  // ---------------------------------------------------------------- what the guard says

  /** The guard lets an event through if and only if it is live; a version never passes. */
  lemma GuardIsLive(st: Store, hist: History, e: Event)
    requires Inv(st, hist) && Sound(e, st.docs, hist)
    ensures Guard(st.docs[e.uri], e.prev) == Some(e.uri in hist && IsLive(e, e.uri, hist[e.uri]))
  {
    hide UpToDate, VersionLinked, Apart;
    if e.uri in hist {
      assert DocLinked(st.docs, e.uri, hist[e.uri]);
      if hist[e.uri] != [] && e.prev.Some? {
        var k :| 0 <= k <= |hist[e.uri]| && e.prev.value.previous == LastOf(hist[e.uri][..k]);
      }
    } else {
      VersionNeverPasses(st, hist, e);
    }
  }

  lemma VersionNeverPasses(st: Store, hist: History, e: Event)
    requires Inv(st, hist) && Sound(e, st.docs, hist) && e.uri !in hist
    ensures Guard(st.docs[e.uri], e.prev) == Some(false)
  {
    hide UpToDate, DocLinked;
    var u, i :| IsVersion(hist, u, i) && IdOf(hist, u, i) == e.uri;
    assert VersionLinked(st.docs, u, hist[u], i);
  }

  // ----------------------------------------------------------------- handling an event

  /** The documents after a version `id` of `u` has been put in front of the versions `h`. */
  ghost predicate Grown(docs: map<string, Doc>, after: map<string, Doc>, u: string, h: seq<Saved>, id: string) {
    && u in docs && id !in docs && after.Keys == docs.Keys + {id} && id != u
    && after[u] == Latest(docs[u], id)
    && after[id] == Doc(id, docs[u].content, docs[u].types + ["v-s:Version"], Some(if h == [] then [] else [h[|h| - 1].id]), Some([u]), Some([u]))
    && (h != [] ==> var last := h[|h| - 1].id;
                    last in docs && last != u && after[last] == docs[last].(next := Some([id])))
    && forall v | v in docs && v != u && !(h != [] && v == h[|h| - 1].id) :: after[v] == docs[v]
  }

  function NewEvents(docs: map<string, Doc>, u: string, h: seq<Saved>, id: string): seq<Event>
    requires u in docs && (h != [] ==> h[|h| - 1].id in docs)
  {
    [Event(id, None)]
    + (if h == [] then [] else [Event(h[|h| - 1].id, Some(docs[h[|h| - 1].id]))])
    + [Event(u, Some(docs[u]))]
  }

  lemma VersionMade(st: Store, u: string, h: seq<Saved>, prev: Option<Doc>, id: string)
    requires DocLinked(st.docs, u, h) && id !in st.docs
    requires h != [] ==> h[|h| - 1].id in st.docs && st.docs[h[|h| - 1].id].uri == h[|h| - 1].id != u
    requires Guard(st.docs[u], prev) == Some(true)
    requires if h == [] then prev.Some? ==> prev.value.previous == None else prev.Some? && prev.value.previous == LastOf(h)
    ensures var r := CreateVersion(st, st.docs[u], prev, id);
            && r.1 && Grown(st.docs, r.0.docs, u, h, id)
            && r.0.queue == st.queue + NewEvents(st.docs, u, h, id) && r.0.grants == st.grants + {(u, id)}
  {
    hide Guard;
    var after := CreateVersion(st, st.docs[u], prev, id).0.docs;
    assert after[id].types == st.docs[u].types + [VERSION];
  }

  // ------------------------------------------------------------- the parts of the invariant

  function Longer(hist: History, u: string, s: Saved): History
    requires u in hist
  {
    hist[u := hist[u] + [s]]
  }

  lemma LinkedAfter(docs: map<string, Doc>, after: map<string, Doc>, hist: History, u: string, id: string)
    requires Linked(docs, hist) && Apart(hist) && u in hist && Grown(docs, after, u, hist[u], id)
    ensures Linked(after, Longer(hist, u, Snapshot(id, docs[u])))
  {
    var hist' := Longer(hist, u, Snapshot(id, docs[u]));
    forall v | v in hist' ensures DocLinked(after, v, hist'[v]) {
      DocLinkedAfter(docs, after, hist, u, id, v);
    }
    forall v, i | IsVersion(hist', v, i) ensures VersionLinked(after, v, hist'[v], i) {
      VersionLinkedAfter(docs, after, hist, u, id, v, i);
    }
  }

  lemma DocLinkedAfter(docs: map<string, Doc>, after: map<string, Doc>, hist: History, u: string, id: string, v: string)
    requires Linked(docs, hist) && Apart(hist) && u in hist && Grown(docs, after, u, hist[u], id) && v in hist
    ensures DocLinked(after, v, Longer(hist, u, Snapshot(id, docs[u]))[v])
  {
    assert DocLinked(docs, v, hist[v]);
    if v != u && hist[u] != [] {
      assert IdOf(hist, u, |hist[u]| - 1) != v;
    }
  }

  lemma VersionLinkedAfter(docs: map<string, Doc>, after: map<string, Doc>, hist: History, u: string, id: string,
          v: string, i: nat)
    requires Linked(docs, hist) && Apart(hist) && u in hist && Grown(docs, after, u, hist[u], id)
    requires IsVersion(Longer(hist, u, Snapshot(id, docs[u])), v, i)
    ensures VersionLinked(after, v, Longer(hist, u, Snapshot(id, docs[u]))[v], i)
  {
    hide DocLinked;
    var h := hist[u];
    if v == u && i == |h| {
    } else {
      assert VersionLinked(docs, v, hist[v], i);
      assert IdOf(hist, v, i) != u;
      if h != [] {
        assert IsVersion(hist, u, |h| - 1);
        if IdOf(hist, v, i) == IdOf(hist, u, |h| - 1) {
          assert v == u && i == |h| - 1;
        }
      }
    }
  }

  lemma ApartAfter(hist: History, u: string, s: Saved)
    requires Apart(hist) && u in hist && s.id !in hist
    requires forall v, i | IsVersion(hist, v, i) :: IdOf(hist, v, i) != s.id
    ensures Apart(Longer(hist, u, s))
  {
    var hist' := Longer(hist, u, s);
    forall v, i | IsVersion(hist', v, i)
      ensures if v == u && i == |hist[u]| then IdOf(hist', v, i) == s.id
              else IsVersion(hist, v, i) && IdOf(hist', v, i) == IdOf(hist, v, i) != s.id
    {
    }
  }

  lemma SoundAfter(e: Event, docs: map<string, Doc>, after: map<string, Doc>, hist: History, u: string, s: Saved)
    requires Sound(e, docs, hist) && u in hist && docs.Keys <= after.Keys
    ensures Sound(e, after, Longer(hist, u, s))
  {
    var hist' := Longer(hist, u, s);
    if e.uri in hist && e.prev.Some? {
      var k :| 0 <= k <= |hist[e.uri]| && e.prev.value.previous == LastOf(hist[e.uri][..k]);
      assert hist'[e.uri][..k] == hist[e.uri][..k];
    }
    if e.uri !in hist {
      var v, i :| IsVersion(hist, v, i) && IdOf(hist, v, i) == e.uri;
      assert IsVersion(hist', v, i) && IdOf(hist', v, i) == e.uri;
    }
  }

  lemma NewEventsSound(st: Store, after: map<string, Doc>, hist: History, u: string, id: string, e: Event)
    requires Inv(st, hist) && u in hist && Grown(st.docs, after, u, hist[u], id)
    requires hist[u] != [] ==> hist[u][|hist[u]| - 1].id in st.docs
    requires e in NewEvents(st.docs, u, hist[u], id)
    ensures Sound(e, after, Longer(hist, u, Snapshot(id, st.docs[u])))
  {
    hide UpToDate, VersionLinked;
    var h, hist' := hist[u], Longer(hist, u, Snapshot(id, st.docs[u]));
    if e == Event(u, Some(st.docs[u])) {
      assert hist'[u][..|h|] == h;
      assert DocLinked(st.docs, u, h);
    } else if e.uri == id {
      assert IsVersion(hist', u, |h|) && IdOf(hist', u, |h|) == id;
      assert id in hist ==> DocLinked(st.docs, id, hist[id]);
    } else {
      assert IsVersion(hist, u, |h| - 1) && IdOf(hist, u, |h| - 1) == e.uri;
      assert IsVersion(hist', u, |h| - 1) && IdOf(hist', u, |h| - 1) == e.uri;
    }
  }

  /** Dropping an event that is not live loses nothing. */
  lemma DropKeeps(st: Store, hist: History)
    requires Inv(st, hist) && st.queue != []
    requires forall u | u in hist :: !IsLive(st.queue[0], u, hist[u])
    ensures Inv(st.(queue := st.queue[1..]), hist)
  {
    hide Linked, Apart, Sound;
    var st' := st.(queue := st.queue[1..]);
    assert st.queue == [st.queue[0]] + st'.queue;
    forall u | u in hist ensures UpToDate(st', u, hist[u]) {
      assert UpToDate(st, u, hist[u]);
      if exists e | e in st.queue :: IsLive(e, u, hist[u]) {
        var e :| e in st.queue && IsLive(e, u, hist[u]);
        assert e in st'.queue;
      }
    }
  }

  lemma GrowKeeps(st: Store, hist: History, id: string)
    requires Inv(st, hist) && AddsVersion(st, hist) && id !in st.docs
    ensures st.queue[0].uri in st.docs && Handle(st, id).docs.Keys == st.docs.Keys + {id}
    ensures Inv(Handle(st, id), Longer(hist, st.queue[0].uri, Snapshot(id, st.docs[st.queue[0].uri])))
  {
    var e := st.queue[0];
    var u, h := e.uri, hist[e.uri];
    assert Sound(e, st.docs, hist) && DocLinked(st.docs, u, h);
    GuardIsLive(st, hist, e);
    if h != [] {
      assert IsVersion(hist, u, |h| - 1) && IdOf(hist, u, |h| - 1) == h[|h| - 1].id;
      assert VersionLinked(st.docs, u, h, |h| - 1);
    } else if e.prev.Some? {
      var k :| 0 <= k <= |h| && e.prev.value.previous == LastOf(h[..k]);
    }
    var popped := st.(queue := st.queue[1..]);
    VersionMade(popped, u, h, e.prev, id);
    GrownKeeps(st, Handle(st, id), hist, u, id);
  }

  lemma GrownKeeps(st: Store, after: Store, hist: History, u: string, id: string)
    requires Inv(st, hist) && u in hist && u in st.docs && st.queue != [] && st.queue[0].uri == u
    requires Grown(st.docs, after.docs, u, hist[u], id)
    requires after.queue == st.queue[1..] + NewEvents(st.docs, u, hist[u], id) && after.grants == st.grants + {(u, id)}
    ensures Inv(after, Longer(hist, u, Snapshot(id, st.docs[u])))
  {
    hide Linked, Apart, Sound, UpToDate, Grown;
    var s := Snapshot(id, st.docs[u]);
    var hist' := Longer(hist, u, s);
    IdIsNew(st, hist, u, id, after.docs);
    LinkedAfter(st.docs, after.docs, hist, u, id);
    ApartAfter(hist, u, s);
    forall v | v in after.docs ensures v in hist' || exists w, i :: IsVersion(hist', w, i) && IdOf(hist', w, i) == v {
      KnownAfter(st, hist, u, s, v);
    }
    forall e | e in after.queue ensures Sound(e, after.docs, hist') {
      if e in st.queue[1..] {
        assert e in st.queue;
        SoundAfter(e, st.docs, after.docs, hist, u, s);
      } else {
        NewEventsSound(st, after.docs, hist, u, id, e);
      }
    }
    forall v | v in hist' ensures UpToDate(after, v, hist'[v]) {
      UpToDateAfter(st, after, hist, u, id, v);
    }
    forall v, i | IsVersion(hist', v, i) ensures (v, IdOf(hist', v, i)) in after.grants {
      if v != u || i < |hist[u]| {
        assert IsVersion(hist, v, i);
      }
    }
  }

  lemma IdIsNew(st: Store, hist: History, u: string, id: string, after: map<string, Doc>)
    requires Inv(st, hist) && u in hist && Grown(st.docs, after, u, hist[u], id)
    ensures id !in hist && (forall v, i | IsVersion(hist, v, i) :: IdOf(hist, v, i) != id)
    ensures after.Keys == st.docs.Keys + {id} && (hist[u] != [] ==> hist[u][|hist[u]| - 1].id in st.docs)
  {
    assert id in hist ==> DocLinked(st.docs, id, hist[id]);
    forall v, i | IsVersion(hist, v, i) ensures IdOf(hist, v, i) != id {
      assert VersionLinked(st.docs, v, hist[v], i);
    }
  }

  lemma KnownAfter(st: Store, hist: History, u: string, s: Saved, v: string)
    requires Inv(st, hist) && u in hist && (v in st.docs || v == s.id)
    ensures var hist' := Longer(hist, u, s); v in hist' || exists w, i :: IsVersion(hist', w, i) && IdOf(hist', w, i) == v
  {
    hide Linked, Apart, Sound, UpToDate;
    var hist' := Longer(hist, u, s);
    if v == s.id {
      assert IsVersion(hist', u, |hist[u]|) && IdOf(hist', u, |hist[u]|) == v;
    } else if v !in hist {
      var w, i :| IsVersion(hist, w, i) && IdOf(hist, w, i) == v;
      assert IsVersion(hist', w, i) && IdOf(hist', w, i) == v;
    }
  }

  lemma UpToDateAfter(st: Store, after: Store, hist: History, u: string, id: string, v: string)
    requires Inv(st, hist) && u in hist && v in hist && st.queue != [] && st.queue[0].uri == u
    requires Grown(st.docs, after.docs, u, hist[u], id) && st.queue[1..] <= after.queue
    ensures UpToDate(after, v, Longer(hist, u, Snapshot(id, st.docs[u]))[v])
  {
    hide Apart, Sound;
    assert DocLinked(st.docs, v, hist[v]);
    if v != u {
      assert UpToDate(st, v, hist[v]);
      if hist[v] != [] && hist[v][|hist[v]| - 1].content == st.docs[v].content && hist[v][|hist[v]| - 1].types == st.docs[v].types {
      } else {
        var e :| e in st.queue && IsLive(e, v, hist[v]);
        assert e in st.queue[1..];
        assert forall x | x in st.queue[1..] :: x in after.queue;
      }
    }
  }

  // ------------------------------------------------------------------ saving a document

  lemma SavedIsNewest(st: Store, hist: History, u: string, content: string, types: seq<string>)
    requires Inv(st, hist) && (u in st.docs ==> u in hist)
    ensures var hist' := if u in hist then hist else hist[u := []];
            Linked(SaveDoc(st, u, content, types).docs, hist') && Apart(hist')
  {
    hide Inv, DocLinked, VersionLinked, SaveDoc;
    var hist' := if u in hist then hist else hist[u := []];
    var docs' := SaveDoc(st, u, content, types).docs;
    forall v | v in hist' ensures DocLinked(docs', v, hist'[v]) {
      SavedDoc(st, hist, u, content, types, v);
    }
    forall v, i | IsVersion(hist', v, i)
      ensures IsVersion(hist, v, i) && IdOf(hist', v, i) == IdOf(hist, v, i) && VersionLinked(docs', v, hist'[v], i)
      ensures IdOf(hist', v, i) !in hist'
    {
      SavedVersion(st, hist, u, content, types, v, i);
    }
    assert Apart(hist) by { InvApart(st, hist); }
  }

  lemma InvApart(st: Store, hist: History)
    requires Inv(st, hist)
    ensures Apart(hist)
  {
    hide Apart, Linked;
  }

  lemma SavedDoc(st: Store, hist: History, u: string, content: string, types: seq<string>, v: string)
    requires Inv(st, hist) && (u in st.docs ==> u in hist) && (v in hist || v == u)
    ensures DocLinked(SaveDoc(st, u, content, types).docs, v, if v in hist then hist[v] else [])
  {
    hide Sound, UpToDate, VersionLinked, Apart;
    assert v in hist ==> DocLinked(st.docs, v, hist[v]);
  }

  lemma SavedVersion(st: Store, hist: History, u: string, content: string, types: seq<string>, v: string, i: nat)
    requires Inv(st, hist) && (u in st.docs ==> u in hist) && IsVersion(hist, v, i)
    ensures VersionLinked(SaveDoc(st, u, content, types).docs, v, hist[v], i)
    ensures IdOf(hist, v, i) !in hist && IdOf(hist, v, i) != u
  {
    hide Sound, UpToDate;
    assert VersionLinked(st.docs, v, hist[v], i) && (u in hist ==> DocLinked(st.docs, u, hist[u]));
    VersionIsStored(st, hist, v, i);
  }

  lemma SaveKeeps(st: Store, hist: History, u: string, content: string, types: seq<string>)
    requires Inv(st, hist) && (u in st.docs ==> u in hist)
    ensures Inv(SaveDoc(st, u, content, types), if u in hist then hist else hist[u := []])
  {
    hide Linked, Apart;
    var hist' := if u in hist then hist else hist[u := []];
    var st' := SaveDoc(st, u, content, types);
    SavedIsNewest(st, hist, u, content, types);
    DocsOf(st, hist);
    forall v, i | IsVersion(hist, v, i) ensures IsVersion(hist', v, i) && IdOf(hist', v, i) == IdOf(hist, v, i) {
    }
    forall v | v in st'.docs ensures v in hist' || exists w, i :: IsVersion(hist', w, i) && IdOf(hist', w, i) == v {
      if v !in hist' {
        var w, i :| IsVersion(hist, w, i) && IdOf(hist, w, i) == v;
        assert IsVersion(hist', w, i) && IdOf(hist', w, i) == v;
      }
    }
    forall e | e in st'.queue ensures Sound(e, st'.docs, hist') {
      SavedSound(st, hist, u, content, types, e);
    }
    forall v | v in hist' ensures UpToDate(st', v, hist'[v]) {
      SavedUpToDate(st, hist, u, content, types, v);
    }
  }

  lemma DocsOf(st: Store, hist: History)
    requires Inv(st, hist)
    ensures forall u | u in hist :: u in st.docs && st.docs[u].uri == u && st.docs[u].previous == LastOf(hist[u])
  {
    forall u | u in hist ensures u in st.docs && st.docs[u].uri == u && st.docs[u].previous == LastOf(hist[u]) {
      assert DocLinked(st.docs, u, hist[u]);
    }
  }

  lemma SoundWhenSaved(st: Store, hist: History, u: string, content: string, types: seq<string>, e: Event)
    requires (u in st.docs ==> u in hist) && Sound(e, st.docs, hist)
    ensures Sound(e, SaveDoc(st, u, content, types).docs, if u in hist then hist else hist[u := []])
  {
    var hist' := if u in hist then hist else hist[u := []];
    if e.uri !in hist' {
      var v, i :| IsVersion(hist, v, i) && IdOf(hist, v, i) == e.uri;
      assert IsVersion(hist', v, i) && IdOf(hist', v, i) == e.uri;
    }
  }

  lemma SavedSound(st: Store, hist: History, u: string, content: string, types: seq<string>, e: Event)
    requires Inv(st, hist) && (u in st.docs ==> u in hist) && e in SaveDoc(st, u, content, types).queue
    ensures Sound(e, SaveDoc(st, u, content, types).docs, if u in hist then hist else hist[u := []])
  {
    hide Linked, Apart, UpToDate;
    var hist' := if u in hist then hist else hist[u := []];
    DocsOf(st, hist);
    if e in st.queue {
      SoundWhenSaved(st, hist, u, content, types, e);
    } else if u in hist {
      assert hist[u][..|hist[u]|] == hist[u];
    }
  }

  lemma SavedUpToDate(st: Store, hist: History, u: string, content: string, types: seq<string>, v: string)
    requires Inv(st, hist) && (u in st.docs ==> u in hist) && (v in hist || v == u)
    ensures UpToDate(SaveDoc(st, u, content, types), v, if v in hist then hist[v] else [])
  {
    hide Linked, Apart, Sound;
    DocsOf(st, hist);
    var st' := SaveDoc(st, u, content, types);
    var e' := st'.queue[|st'.queue| - 1];
    assert e' in st'.queue;
    if v == u {
      assert IsLive(e', u, if v in hist then hist[v] else []);
    } else {
      assert UpToDate(st, v, hist[v]);
      if exists e | e in st.queue :: IsLive(e, v, hist[v]) {
        var e :| e in st.queue && IsLive(e, v, hist[v]);
        assert e in st'.queue;
      }
    }
  }

  // --------------------------------------------------------------------- dead events

  /** An event that will make no version. */
  predicate Dead(e: Event, hist: History) {
    forall u | u in hist :: !IsLive(e, u, hist[u])
  }

  lemma VersionIsStored(st: Store, hist: History, u: string, i: nat)
    requires Inv(st, hist) && IsVersion(hist, u, i)
    ensures var id := hist[u][i].id; id in st.docs && id !in hist && st.docs[id].uri == id
  {
    hide Sound, UpToDate;
    assert IdOf(hist, u, i) == hist[u][i].id;
    assert VersionLinked(st.docs, u, hist[u], i);
  }

  /** What handling a live event does to the store. */
  lemma Grows(st: Store, hist: History, id: string)
    requires Inv(st, hist) && AddsVersion(st, hist) && id !in st.docs
    ensures var u := st.queue[0].uri;
            && u in st.docs && u in hist && st.docs[u].uri == u && st.docs[u].previous == LastOf(hist[u])
            && (hist[u] != [] ==> hist[u][|hist[u]| - 1].id in st.docs)
            && Handle(st, id).queue == st.queue[1..] + NewEvents(st.docs, u, hist[u], id)
  {
    var e := st.queue[0];
    DocsOf(st, hist);
    GuardIsLive(st, hist, e);
    assert Sound(e, st.docs, hist) && DocLinked(st.docs, e.uri, hist[e.uri]);
    if hist[e.uri] != [] {
      VersionIsStored(st, hist, e.uri, |hist[e.uri]| - 1);
      VersionsAreOthers(st, hist, e.uri);
    } else if e.prev.Some? {
      var k :| 0 <= k <= |hist[e.uri]| && e.prev.value.previous == LastOf(hist[e.uri][..k]);
    }
    hide Inv, Guard;
    VersionMade(st.(queue := st.queue[1..]), e.uri, hist[e.uri], e.prev, id);
  }

  /** The script's own writes make the guard false: their events are dead from the start. */
  lemma OwnWritesDead(st: Store, hist: History, id: string)
    requires Inv(st, hist) && AddsVersion(st, hist) && id !in st.docs
    ensures st.queue[1..] <= Handle(st, id).queue
    ensures forall e | e in Handle(st, id).queue[|st.queue| - 1..] :: Dead(e, NextHistory(st, hist, HandleEvent(id)))
  {
    hide Inv, Handle, NewEvents, Dead;
    var u := st.queue[0].uri;
    Grows(st, hist, id);
    forall e | e in NewEvents(st.docs, u, hist[u], id) ensures Dead(e, NextHistory(st, hist, HandleEvent(id))) {
      NewEventDead(st, hist, u, id, e);
    }
    assert Handle(st, id).queue[|st.queue| - 1..] == NewEvents(st.docs, u, hist[u], id);
  }

  lemma NewEventDead(st: Store, hist: History, u: string, id: string, e: Event)
    requires Inv(st, hist) && u in hist && u in st.docs && st.docs[u].previous == LastOf(hist[u]) && id !in st.docs
    requires hist[u] != [] ==> hist[u][|hist[u]| - 1].id in st.docs
    requires e in NewEvents(st.docs, u, hist[u], id)
    ensures Dead(e, Longer(hist, u, Snapshot(id, st.docs[u])))
  {
    hide Inv;
    DocsOf(st, hist);
    if hist[u] != [] {
      VersionIsStored(st, hist, u, |hist[u]| - 1);
    }
  }

  /** A new version takes the events of its document that still wait out of date. */
  lemma GrowthKills(st: Store, hist: History, u: string, id: string, e: Event)
    requires Inv(st, hist) && u in hist && u in st.docs && id !in st.docs
    requires Sound(e, st.docs, hist) && (e.uri == u || Dead(e, hist))
    ensures Dead(e, Longer(hist, u, Snapshot(id, st.docs[u])))
  {
    hide Inv;
    if e.uri == u && e.prev.Some? {
      var k :| 0 <= k <= |hist[u]| && e.prev.value.previous == LastOf(hist[u][..k]);
      if k > 0 {
        VersionIsStored(st, hist, u, k - 1);
      }
    }
  }

  /** A dead event stays dead, whatever is saved or handled later. */
  lemma DeadStays(st: Store, hist: History, step: Step, e: Event)
    requires Inv(st, hist) && Fair(st, hist, step) && Sound(e, st.docs, hist) && Dead(e, hist)
    ensures Sound(e, Next(st, step).docs, NextHistory(st, hist, step)) && Dead(e, NextHistory(st, hist, step))
  {
    match step {
      case Save(u, content, types) => SoundWhenSaved(st, hist, u, content, types, e);
      case HandleEvent(id) =>
        if AddsVersion(st, hist) {
          var u := st.queue[0].uri;
          GrowKeeps(st, hist, id);
          SoundAfter(e, st.docs, Handle(st, id).docs, hist, u, Snapshot(id, st.docs[u]));
          GrowthKills(st, hist, u, id, e);
        } else if st.queue != [] {
          QuietKeeps(st, hist, id);
        }
    }
  }

  // ------------------------------------------------------------------------------ runs

  /** A step keeps the chains. Handling an event adds one version if the event is live and
      changes no document otherwise; the events of the script's own writes are dead. */
  lemma StepKeeps(st: Store, hist: History, step: Step)
    requires Inv(st, hist) && Fair(st, hist, step)
    ensures Inv(Next(st, step), NextHistory(st, hist, step))
    ensures step.HandleEvent? && !AddsVersion(st, hist) ==> Next(st, step).docs == st.docs
    ensures step.HandleEvent? && st.queue != [] ==>
              && st.queue[1..] <= Next(st, step).queue
              && forall e | e in Next(st, step).queue[|st.queue| - 1..] :: Dead(e, NextHistory(st, hist, step))
  {
    hide Inv, Dead;
    match step {
      case Save(u, content, types) => SaveKeeps(st, hist, u, content, types);
      case HandleEvent(id) =>
        if AddsVersion(st, hist) {
          GrowKeeps(st, hist, id);
          OwnWritesDead(st, hist, id);
        } else if st.queue != [] {
          QuietKeeps(st, hist, id);
        }
    }
  }

  lemma QuietKeeps(st: Store, hist: History, id: string)
    requires Inv(st, hist) && st.queue != [] && !AddsVersion(st, hist)
    ensures Handle(st, id) == st.(queue := st.queue[1..]) && Inv(Handle(st, id), hist)
  {
    var e := st.queue[0];
    assert Sound(e, st.docs, hist);
    GuardIsLive(st, hist, e);
    hide Inv;
    DropKeeps(st, hist);
  }

  function Run(st: Store, steps: seq<Step>): Store
    decreases |steps|
  {
    if steps == [] then st else Run(Next(st, steps[0]), steps[1..])
  }

  function RunHistory(st: Store, hist: History, steps: seq<Step>): History
    decreases |steps|
  {
    if steps == [] then hist else RunHistory(Next(st, steps[0]), NextHistory(st, hist, steps[0]), steps[1..])
  }

  predicate FairRun(st: Store, hist: History, steps: seq<Step>)
    decreases |steps|
  {
    steps == [] || (Fair(st, hist, steps[0]) && FairRun(Next(st, steps[0]), NextHistory(st, hist, steps[0]), steps[1..]))
  }

  /** Over any run of saves of any documents and of events handled sooner or later, the
      chains of versions stay linked in both directions. */
  lemma {:induction false} RunKeeps(st: Store, hist: History, steps: seq<Step>)
    requires Inv(st, hist) && FairRun(st, hist, steps)
    ensures Inv(Run(st, steps), RunHistory(st, hist, steps))
    decreases |steps|
  {
    hide Inv, Next, NextHistory, Fair;
    if steps != [] {
      StepKeeps(st, hist, steps[0]);
      RunKeeps(Next(st, steps[0]), NextHistory(st, hist, steps[0]), steps[1..]);
    }
  }

  /** In particular any run from an empty store. */
  lemma RunFromNothing(steps: seq<Step>)
    requires FairRun(Store(map[], {}, []), map[], steps)
    ensures Inv(Run(Store(map[], {}, []), steps), RunHistory(Store(map[], {}, []), map[], steps))
  {
    EmptyStore();
    RunKeeps(Store(map[], {}, []), map[], steps);
  }

  /** A dead event is dead for the rest of any run. */
  lemma {:induction false} DeadForever(st: Store, hist: History, steps: seq<Step>, e: Event)
    requires Inv(st, hist) && FairRun(st, hist, steps) && Sound(e, st.docs, hist) && Dead(e, hist)
    ensures Dead(e, RunHistory(st, hist, steps))
    decreases |steps|
  {
    hide Inv, Next, NextHistory, Fair, Sound, Dead;
    if steps != [] {
      StepKeeps(st, hist, steps[0]);
      DeadStays(st, hist, steps[0], e);
      DeadForever(Next(st, steps[0]), NextHistory(st, hist, steps[0]), steps[1..], e);
    }
  }

  /** When no event is waiting, every document has a version, and its newest version is what
      the document is. */
  lemma Quiescent(st: Store, hist: History, u: string)
    requires Inv(st, hist) && st.queue == [] && u in hist
    ensures u in st.docs && hist[u] != [] && hist[u][|hist[u]| - 1] == Snapshot(hist[u][|hist[u]| - 1].id, st.docs[u])
  {
    assert UpToDate(st, u, hist[u]);
  }

  // --------------------------------------------------------------------------- walking

  /** From `u` back along `previousVersion`, or forth along `nextVersion`, until there is no
      such link or a place is met again. */
  function Walk(docs: map<string, Doc>, u: string, back: bool, seen: set<string>): seq<string>
    decreases docs.Keys - seen
  {
    if u in seen || u !in docs then []
    else
      var link := if back then docs[u].previous else docs[u].next;
      if link.None? || link.value == [] then [u] else [u] + Walk(docs, link.value[0], back, seen + {u})
  }

  function Ids(h: seq<Saved>): (ids: seq<string>)
    ensures |ids| == |h|
  {
    if h == [] then [] else Ids(h[..|h| - 1]) + [h[|h| - 1].id]
  }

  function IdsBack(h: seq<Saved>): seq<string> {
    if h == [] then [] else [h[|h| - 1].id] + IdsBack(h[..|h| - 1])
  }

  lemma PreviousLinks(st: Store, hist: History, u: string, n: nat)
    requires Inv(st, hist) && u in hist && n < |hist[u]|
    ensures var h, id := hist[u], hist[u][n].id;
            && id in st.docs && st.docs[id].previous == Some(if n == 0 then [] else [h[n - 1].id])
            && forall i | 0 <= i < n :: h[i].id != id
  {
    hide Sound, UpToDate;
    var h := hist[u];
    assert IsVersion(hist, u, n) && IdOf(hist, u, n) == h[n].id && VersionLinked(st.docs, u, h, n);
    forall i | 0 <= i < n ensures h[i].id != h[n].id {
      assert IsVersion(hist, u, i) && IdOf(hist, u, i) == h[i].id;
    }
  }

  lemma {:induction false} WalkBackFrom(st: Store, hist: History, u: string, n: nat, seen: set<string>)
    requires Inv(st, hist) && u in hist && 0 < n <= |hist[u]|
    requires forall i | 0 <= i < n :: hist[u][i].id !in seen
    ensures Walk(st.docs, hist[u][n - 1].id, true, seen) == IdsBack(hist[u][..n])
    decreases n
  {
    hide Inv;
    var h := hist[u];
    PreviousLinks(st, hist, u, n - 1);
    assert h[..n][..n - 1] == h[..n - 1];
    if n > 1 {
      WalkBackFrom(st, hist, u, n - 1, seen + {h[n - 1].id});
    } else {
      assert IdsBack(h[..n - 1]) == [];
    }
  }

  lemma WalkOn(docs: map<string, Doc>, u: string, back: bool, id: string)
    requires u in docs && (if back then docs[u].previous else docs[u].next) == Some([id])
    ensures Walk(docs, u, back, {}) == [u] + Walk(docs, id, back, {u})
  {
    assert {} + {u} == {u};
  }

  lemma VersionsAreOthers(st: Store, hist: History, u: string)
    requires Inv(st, hist) && u in hist
    ensures forall i | 0 <= i < |hist[u]| :: hist[u][i].id != u
  {
    hide Linked, Sound, UpToDate;
    forall i | 0 <= i < |hist[u]| ensures hist[u][i].id != u {
      assert IsVersion(hist, u, i) && IdOf(hist, u, i) == hist[u][i].id;
    }
  }

  /** Walking back from a document visits the document and every version once, the newest
      first, and ends at the oldest. */
  lemma WalkBack(st: Store, hist: History, u: string)
    requires Inv(st, hist) && u in hist
    ensures Walk(st.docs, u, true, {}) == [u] + IdsBack(hist[u])
  {
    hide Inv;
    var h := hist[u];
    DocsOf(st, hist);
    if h != [] {
      VersionsAreOthers(st, hist, u);
      WalkOn(st.docs, u, true, h[|h| - 1].id);
      WalkBackFrom(st, hist, u, |h|, {u});
      assert h[..|h|] == h;
    }
  }

  lemma NextLinks(st: Store, hist: History, u: string, n: nat)
    requires Inv(st, hist) && u in hist && n < |hist[u]|
    ensures var h, id := hist[u], hist[u][n].id;
            && id in st.docs && st.docs[id].next == Some([if n == |h| - 1 then u else h[n + 1].id])
            && u in st.docs && st.docs[u].next == Some([]) && id != u
            && forall i | n < i < |h| :: h[i].id != id
  {
    var h := hist[u];
    assert IsVersion(hist, u, n) && IdOf(hist, u, n) == h[n].id;
    assert VersionLinked(st.docs, u, h, n) && DocLinked(st.docs, u, h);
    forall i | n < i < |h| ensures h[i].id != h[n].id {
      assert IsVersion(hist, u, i) && IdOf(hist, u, i) == h[i].id;
    }
  }

  lemma {:induction false} WalkForthFrom(st: Store, hist: History, u: string, n: nat, seen: set<string>)
    requires Inv(st, hist) && u in hist && n < |hist[u]| && u !in seen
    requires forall i | n <= i < |hist[u]| :: hist[u][i].id !in seen
    ensures Walk(st.docs, hist[u][n].id, false, seen) == Ids(hist[u])[n..] + [u]
    decreases |hist[u]| - n
  {
    hide Inv, Ids;
    var h := hist[u];
    NextLinks(st, hist, u, n);
    IdsAt(h, n);
    var seen' := seen + {h[n].id};
    if n + 1 < |h| {
      WalkForthFrom(st, hist, u, n + 1, seen');
    } else {
      assert Walk(st.docs, u, false, seen') == [u];
    }
  }

  lemma {:induction false} IdsAt(h: seq<Saved>, n: nat)
    requires n < |h|
    ensures Ids(h)[n] == h[n].id && Ids(h)[n..] == [h[n].id] + Ids(h)[n + 1..]
  {
    if |h| > 1 {
      IdsAt(h[..|h| - 1], if n < |h| - 1 then n else 0);
    } else {
      assert Ids(h[..0]) == [];
    }
  }

  /** Walking forth from the oldest version visits the versions in the order they were made
      and ends at the document. */
  lemma WalkForth(st: Store, hist: History, u: string)
    requires Inv(st, hist) && u in hist && hist[u] != []
    ensures Walk(st.docs, hist[u][0].id, false, {}) == Ids(hist[u]) + [u]
  {
    WalkForthFrom(st, hist, u, 0, {});
    IdsAt(hist[u], 0);
  }

  // ------------------------------------------------------------ saves and their versions

  function Saves(u: string, contents: seq<string>, types: seq<string>): seq<Step> {
    if contents == [] then [] else Saves(u, contents[..|contents| - 1], types) + [Save(u, contents[|contents| - 1], types)]
  }

  function Handlings(ids: seq<string>): seq<Step> {
    if ids == [] then [] else [HandleEvent(ids[0])] + Handlings(ids[1..])
  }

  lemma {:induction false} RunSplit(st: Store, hist: History, x: seq<Step>, y: seq<Step>)
    ensures Run(st, x + y) == Run(Run(st, x), y)
    ensures RunHistory(st, hist, x + y) == RunHistory(Run(st, x), RunHistory(st, hist, x), y)
    decreases |x|
  {
    hide Next, NextHistory;
    if x == [] {
      assert x + y == y;
    } else {
      assert (x + y)[1..] == x[1..] + y;
      RunSplit(Next(st, x[0]), NextHistory(st, hist, x[0]), x[1..], y);
    }
  }

  lemma OneStep(st: Store, hist: History, step: Step)
    ensures Run(st, [step]) == Next(st, step) && RunHistory(st, hist, [step]) == NextHistory(st, hist, step)
  {
    hide Next, NextHistory;
    assert [step][1..] == [];
  }

  /** Handling dead events empties the queue and changes nothing else. */
  lemma {:induction false} DrainDead(st: Store, hist: History, ids: seq<string>)
    requires Inv(st, hist) && |st.queue| <= |ids| && forall e | e in st.queue :: Dead(e, hist)
    ensures Run(st, Handlings(ids)) == st.(queue := []) && RunHistory(st, hist, Handlings(ids)) == hist
    decreases |ids|
  {
    hide Inv;
    if ids != [] {
      var st' := Handle(st, ids[0]);
      assert Handlings(ids)[1..] == Handlings(ids[1..]);
      if st.queue != [] {
        assert st.queue[0] in st.queue;
        QuietKeeps(st, hist, ids[0]);
      }
      DrainDead(st', hist, ids[1..]);
    }
  }

  function With(hist: History, u: string): History {
    if u in hist then hist else hist[u := []]
  }

  /** The state after some saves of `u` whose events all wait. */
  predicate Waiting(st: Store, hist: History, u: string, n: nat, content: string, types: seq<string>) {
    && |st.queue| == n > 0 && (forall e | e in st.queue :: e.uri == u)
    && u in hist && IsLive(st.queue[0], u, hist[u])
    && u in st.docs && st.docs[u].content == content && st.docs[u].types == types && st.docs[u].uri == u
  }

  lemma {:induction false} SavesWait(st: Store, hist: History, u: string, contents: seq<string>, types: seq<string>)
    requires Inv(st, hist) && st.queue == [] && (u in st.docs ==> u in hist) && contents != []
    ensures var st', hist' := Run(st, Saves(u, contents, types)), RunHistory(st, hist, Saves(u, contents, types));
            && hist' == With(hist, u) && Inv(st', hist') && st'.docs.Keys == st.docs.Keys + {u}
            && Waiting(st', hist', u, |contents|, contents[|contents| - 1], types)
    decreases |contents|
  {
    hide Inv, Run, RunHistory, IsLive;
    var init, last := contents[..|contents| - 1], Save(u, contents[|contents| - 1], types);
    DocsOf(st, hist);
    if init == [] {
      assert Saves(u, contents, types) == [last];
      OneStep(st, hist, last);
      SaveKeeps(st, hist, u, last.content, types);
      FirstSaveWaits(st, hist, u, last.content, types);
    } else {
      SavesWait(st, hist, u, init, types);
      var st1 := Run(st, Saves(u, init, types));
      assert Saves(u, contents, types) == Saves(u, init, types) + [last];
      RunSplit(st, hist, Saves(u, init, types), [last]);
      OneStep(st1, With(hist, u), last);
      SaveKeeps(st1, With(hist, u), u, last.content, types);
      NextSaveWaits(st1, With(hist, u), u, |init|, init[|init| - 1], last.content, types);
    }
  }

  lemma NextSaveWaits(st: Store, hist: History, u: string, n: nat, was: string, content: string, types: seq<string>)
    requires Waiting(st, hist, u, n, was, types)
    ensures Waiting(SaveDoc(st, u, content, types), hist, u, n + 1, content, types)
    ensures SaveDoc(st, u, content, types).docs.Keys == st.docs.Keys
  {
    hide IsLive;
  }

  lemma FirstSaveWaits(st: Store, hist: History, u: string, content: string, types: seq<string>)
    requires st.queue == [] && (u in st.docs ==> u in hist)
    requires u in hist ==> u in st.docs && st.docs[u].uri == u && st.docs[u].previous == LastOf(hist[u])
    ensures Waiting(SaveDoc(st, u, content, types), With(hist, u), u, 1, content, types)
  {
  }

  /** Saves of one document whose events are handled only afterwards: once the queue is
      empty there is exactly one version more, with the content saved last. The other
      events, and those of the script's own writes, add nothing. `ids` are enough names. */
  lemma LateEventsMerge(st: Store, hist: History, u: string, contents: seq<string>, types: seq<string>, ids: seq<string>)
    requires Inv(st, hist) && st.queue == [] && (u in st.docs ==> u in hist) && contents != []
    requires |ids| >= |contents| + 3 && ids[0] !in st.docs && ids[0] != u
    ensures var steps := Saves(u, contents, types) + Handlings(ids);
            && Run(st, steps).queue == []
            && Inv(Run(st, steps), RunHistory(st, hist, steps))
            && RunHistory(st, hist, steps) == hist[u := With(hist, u)[u] + [Saved(ids[0], contents[|contents| - 1], types)]]
  {
    hide Inv, Run, RunHistory, IsLive, Dead, Sound;
    var first, content := Saves(u, contents, types), contents[|contents| - 1];
    SavesWait(st, hist, u, contents, types);
    var st1, hist1 := Run(st, first), With(hist, u);
    RunSplit(st, hist, first, Handlings(ids));
    FirstHandled(st1, hist1, u, |contents|, content, types, ids[0]);
    var st2, hist2 := Handle(st1, ids[0]), Longer(hist1, u, Saved(ids[0], content, types));
    DrainDead(st2, hist2, ids[1..]);
    assert Handlings(ids) == [HandleEvent(ids[0])] + Handlings(ids[1..]);
    RunSplit(st1, hist1, [HandleEvent(ids[0])], Handlings(ids[1..]));
    OneStep(st1, hist1, HandleEvent(ids[0]));
    DrainKeeps(st2, hist2);
  }

  /** After the first of the waiting events all the others are dead. */
  lemma FirstHandled(st: Store, hist: History, u: string, n: nat, content: string, types: seq<string>, id: string)
    requires Inv(st, hist) && Waiting(st, hist, u, n, content, types) && id !in st.docs
    ensures var st', hist' := Handle(st, id), Longer(hist, u, Saved(id, content, types));
            && NextHistory(st, hist, HandleEvent(id)) == hist' && Inv(st', hist')
            && |st'.queue| <= n + 2 && forall e | e in st'.queue :: Dead(e, hist')
  {
    hide Inv, Dead, Sound;
    assert st.queue[0] in st.queue;
    Grows(st, hist, id);
    GrowKeeps(st, hist, id);
    OwnWritesDead(st, hist, id);
    var st', hist' := Handle(st, id), Longer(hist, u, Saved(id, content, types));
    var front, back := st.queue[1..], st'.queue[|st.queue| - 1..];
    forall e | e in front ensures Dead(e, hist') {
      assert e in st.queue;
      WaitingIsSound(st, hist, e);
      GrowthKills(st, hist, u, id, e);
    }
    assert st'.queue == front + back;
  }

  lemma WaitingIsSound(st: Store, hist: History, e: Event)
    requires Inv(st, hist) && e in st.queue
    ensures Sound(e, st.docs, hist)
  {
    hide Linked, Apart, UpToDate, Sound;
  }

  lemma DrainKeeps(st: Store, hist: History)
    requires Inv(st, hist) && forall e | e in st.queue :: Dead(e, hist)
    ensures Inv(st.(queue := []), hist)
  {
    hide Linked, Apart, Sound;
    forall u | u in hist ensures UpToDate(st.(queue := []), u, hist[u]) {
      assert UpToDate(st, u, hist[u]);
    }
  }

  /** So a single save, handled until the queue is empty, adds exactly one version with the
      saved content. */
  lemma SaveThenHandle(st: Store, hist: History, u: string, content: string, types: seq<string>, ids: seq<string>)
    requires Inv(st, hist) && st.queue == [] && (u in st.docs ==> u in hist)
    requires |ids| >= 4 && ids[0] !in st.docs && ids[0] != u
    ensures var steps := [Save(u, content, types)] + Handlings(ids);
            && Run(st, steps).queue == []
            && RunHistory(st, hist, steps) == hist[u := (if u in hist then hist[u] else []) + [Saved(ids[0], content, types)]]
  {
    hide Inv, Run, RunHistory, Handlings;
    assert [content][..0] == [];
    assert Saves(u, [content], types) == [Save(u, content, types)];
    LateEventsMerge(st, hist, u, [content], types, ids);
  }
}
