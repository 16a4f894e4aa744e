/** Snapshots of documents. Every save of a document queues an event; handling the event may
    add a version, which is linked in front of the document's earlier versions. */
module Versioning {
  import opened Wrappers

  /** A property that holds uris; `None` stands for a property the document does not have. */
  type Links = Option<seq<string>>

  /** `content` stands for all the properties that versioning copies and never reads. */
  datatype Doc = Doc(uri: string, content: string, types: seq<string>, previous: Links, actual: Links, next: Links)

  /** A put of the document `uri`, whose state before was `prev`. */
  datatype Event = Event(uri: string, prev: Option<Doc>)

  /** `grants` holds the memberships (document, version) that let a version be read. */
  datatype Store = Store(docs: map<string, Doc>, grants: set<(string, string)>, queue: seq<Event>)

  const VERSION: string := "v-s:Version"

  // ------------------------------------------------------------------ what is computed

  function Put(st: Store, d: Doc): Store {
    st.(docs := st.docs[d.uri := d],
        queue := st.queue + [Event(d.uri, if d.uri in st.docs then Some(st.docs[d.uri]) else None)])
  }

  lemma PutKeepsGrants(st: Store, d: Doc)
    ensures Put(st, d).grants == st.grants
  {
  }

  /** Whether a version is to be made; `None` when the first element of an empty list is
      asked for, which throws. */
  function Guard(d: Doc, prev: Option<Doc>): Option<bool> {
    if d.actual.None? then Some(true)
    else if d.actual.value == [] then None
    else if d.actual.value[0] != d.uri then Some(false)
    else if d.previous.None? && (prev.None? || prev.value.previous.None?) then Some(true)
    else if prev.Some? && d.previous.Some? && prev.value.previous.Some? then
      if d.previous.value == [] || prev.value.previous.value == [] then None
      else Some(d.previous.value[0] == prev.value.previous.value[0])
    else Some(false)
  }

  function VersionOf(stored: Doc, prev: Doc, id: string): Doc {
    Doc(id, stored.content, stored.types + [VERSION], if prev.previous.Some? then prev.previous else Some([]),
        Some([stored.uri]), Some([stored.uri]))
  }

  /** The store after `create_version`, and whether it came to its end. */
  function CreateVersion(st: Store, d: Doc, prev: Option<Doc>, id: string): (Store, bool) {
    if Guard(d, prev) == None then (st, false)
    else if Guard(d, prev) == Some(false) then (st, true)
    else if d.uri !in st.docs then (st, false)
    else
      var version := VersionOf(st.docs[d.uri].(uri := d.uri), if prev.Some? then prev.value else d, id);
      var granted := Put(st, version).(grants := st.grants + {(d.uri, id)});
      if d.previous.None? then (Put(granted, Latest(d, id)), true)
      else if d.previous.value == [] || d.previous.value[0] !in granted.docs then (granted, false)
      else
        var linked := Put(granted, granted.docs[d.previous.value[0]].(next := Some([id])));
        (Put(linked, Latest(d, id)), true)
  }

  /** The document in front of its new version. */
  function Latest(d: Doc, id: string): Doc {
    d.(previous := Some([id]), actual := Some([d.uri]), next := Some([]))
  }

  // ------------------------------------------------------------------------ the script

  /** An individual held by a script. */
  class Draft {
    var uri: string
    var content: string
    var types: seq<string>
    var previous: Links
    var actual: Links
    var next: Links

    constructor (d: Doc)
      ensures Value() == d
    {
      uri, content, types, previous, actual, next := d.uri, d.content, d.types, d.previous, d.actual, d.next;
    }

    function Value(): Doc
      reads this
    {
      Doc(uri, content, types, previous, actual, next)
    }
  }

  class Storage {
    var docs: map<string, Doc>
    var grants: set<(string, string)>
    var queue: seq<Event>

    ghost function State(): Store
      reads this
    {
      Store(docs, grants, queue)
    }

    constructor ()
      ensures State() == Store(map[], {}, [])
    {
      docs, grants, queue := map[], {}, [];
    }

    /** `get_individual` gives a new object. */
    method Get(uri: string) returns (d: Draft?)
      ensures d == null <==> uri !in docs
      ensures d != null ==> fresh(d) && d.Value() == docs[uri]
    {
      d := null;
      if uri in docs {
        d := new Draft(docs[uri]);
      }
    }

    method PutIndividual(d: Draft)
      modifies this
      ensures State() == Put(old(State()), d.Value())
    {
      queue := queue + [Event(d.uri, if d.uri in docs then Some(docs[d.uri]) else None)];
      docs := docs[d.uri := d.Value()];
    }

    method MakeVersion(document: Draft, prevState: Option<Doc>, id: string) returns (ok: bool)
      modifies this, document
      ensures (State(), ok) == CreateVersion(old(State()), old(document.Value()), prevState, id)
    {
      hide Guard, Put;
      ghost var st, d := State(), document.Value();
      var act := Guard(document.Value(), prevState);
      if act.None? {
        return false;
      }
      if !act.value {
        return true;
      }
      var prev := if prevState.Some? then prevState.value else document.Value();
      var actualId := document.uri;
      var version := Get(actualId);
      if version == null {
        return false;
      }
      version.uri := id;
      version.previous := if prev.previous.Some? then prev.previous else Some([]);
      version.actual := Some([actualId]);
      version.next := Some([actualId]);
      version.types := version.types + [VERSION];
      assert version.Value() == VersionOf(st.docs[d.uri].(uri := d.uri), prev, id);
      PutKeepsGrants(st, version.Value());
      PutIndividual(version);
      hide VersionOf;
      grants := grants + {(actualId, id)};
      if document.previous.Some? {
        if document.previous.value == [] {
          return false;
        }
        var previous := Get(document.previous.value[0]);
        if previous == null {
          return false;
        }
        previous.next := Some([id]);
        PutIndividual(previous);
      }
      document.previous := Some([id]);
      document.actual := Some([document.uri]);
      document.next := Some([]);
      assert document.Value() == Latest(d, id);
      PutIndividual(document);
      return true;
    }
  }
}
