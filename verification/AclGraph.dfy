/** The membership graph stored in the access-rights index, and reachability in it. */
module AclGraph {
  import opened AccessBits
  import opened AclIndex

  const PERMISSION_PREFIX: char := 'P'
  const FILTER_PREFIX: char := 'F'
  const MEMBERSHIP_PREFIX: char := 'M'

  /** The index: a read never fails, it finds a record or it does not. */
  type Db = map<string, string>

  /** A right as the walks use it, the access byte as the set of its bits. */
  datatype Entry = Entry(id: string, access: Access, marker: char, level: nat)

  /** The records under one prefix, read once for all. */
  type Table = map<string, seq<Entry>>

  function ToEntry(r: Right): Entry {
    Entry(r.id, Bits(r.access), r.marker, r.level)
  }

  function Entries(rights: seq<Right>): seq<Entry> {
    if rights == [] then [] else [ToEntry(rights[0])] + Entries(rights[1..])
  }

  /** What follows `prefix` in the keys that start with it. */
  function Names(db: Db, prefix: char): (names: set<string>)
    ensures forall name :: name in names <==> [prefix] + name in db
  {
    var names := set k | k in db && k != "" && k[0] == prefix :: k[1..];
    assert forall k | k in db && k != "" && k[0] == prefix :: k == [prefix] + k[1..];
    assert forall name | [prefix] + name in db :: ([prefix] + name)[1..] == name;
    names
  }

  function Decode(db: Db, prefix: char): Table {
    map name | name in Names(db, prefix) :: Entries(Elements(db[[prefix] + name]))
  }

  /** Looking a name up in the table is looking it up in the index with the prefix put
      before it. */
  ghost predicate Decodes(db: Db, prefix: char, table: Table) {
    forall name {:trigger [prefix] + name} ::
      && (name in table <==> [prefix] + name in db)
      && (name in table ==> table[name] == Entries(Elements(db[[prefix] + name])))
  }

  lemma DecodeDecodes(db: Db, prefix: char)
    ensures Decodes(db, prefix, Decode(db, prefix))
  {
  }

  function Edges(table: Table, uri: string): seq<Entry> {
    if uri in table then table[uri] else []
  }

  /** Which memberships count: on the subject side all of them, on the object side those
      that carry a given access bit and are not marked exclusive; or those without a marker. */
  datatype Links = AnyMembership | Carrying(bit: Bit) | Avoiding(marker: char)

  predicate Follows(links: Links, e: Entry) {
    && e.id != ""
    && (links.Carrying? ==> links.bit in e.access && e.marker != IS_EXCLUSIVE)
    && (links.Avoiding? ==> e.marker != links.marker)
  }

  predicate Step(table: Table, links: Links, u: string, g: string) {
    exists e | e in Edges(table, u) :: Follows(links, e) && e.id == g
  }

  /** `p` is a chain of memberships. */
  predicate IsPath(table: Table, links: Links, p: seq<string>) {
    |p| >= 1 && forall i | 0 <= i < |p| - 1 :: Step(table, links, p[i], p[i + 1])
  }

  ghost predicate Reaches(table: Table, links: Links, u: string, g: string) {
    exists p: seq<string> :: IsPath(table, links, p) && p[0] == u && p[|p| - 1] == g
  }

  /** How deep the walks go. */
  const MAX_LEVEL := 32

  /** No chain of 33 memberships starts at `root`. */
  ghost predicate Shallow(table: Table, root: string) {
    forall c: seq<string> | IsPath(table, AnyMembership, c) && c[0] == root :: |c| <= MAX_LEVEL + 1
  }

  /** `all` holds the groups of `uri`, their groups, and so on. */
  ghost predicate HoldsGroups(memberships: Table, uri: string, all: set<string>) {
    && (forall e | e in Edges(memberships, uri) && e.id != "" :: e.id in all)
    && (forall u, e | u in all && e in Edges(memberships, u) && e.id != "" :: e.id in all)
  }

  lemma ReachesSelf(table: Table, links: Links, u: string)
    ensures Reaches(table, links, u, u)
  {
    assert IsPath(table, links, [u]);
  }

  lemma ReachesStep(table: Table, links: Links, u: string, v: string, g: string)
    requires Reaches(table, links, u, v) && Step(table, links, v, g)
    ensures Reaches(table, links, u, g)
  {
    var p: seq<string> :| IsPath(table, links, p) && p[0] == u && p[|p| - 1] == v;
    var q := p + [g];
    forall i | 0 <= i < |q| - 1
      ensures Step(table, links, q[i], q[i + 1])
    {
      if i < |p| - 1 {
        assert q[i] == p[i] && q[i + 1] == p[i + 1];
      } else {
        assert q[i] == v && q[i + 1] == g;
      }
    }
    assert IsPath(table, links, q) && q[0] == u && q[|q| - 1] == g;
  }

  /** A set that holds `u` and is closed under the memberships holds all that `u` reaches. */
  lemma {:induction false} ClosedHoldsPath(table: Table, links: Links, s: set<string>, p: seq<string>, k: nat)
    requires IsPath(table, links, p) && k < |p| && p[0] in s
    requires forall v, g | v in s && Step(table, links, v, g) :: g in s
    ensures p[k] in s
  {
    if k > 0 {
      ClosedHoldsPath(table, links, s, p, k - 1);
      assert Step(table, links, p[k - 1], p[k - 1 + 1]);
    }
  }

  lemma ClosedHoldsReachable(table: Table, links: Links, s: set<string>, u: string, g: string)
    requires u in s && Reaches(table, links, u, g)
    requires forall v, h | v in s && Step(table, links, v, h) :: h in s
    ensures g in s
  {
    var p: seq<string> :| IsPath(table, links, p) && p[0] == u && p[|p| - 1] == g;
    ClosedHoldsPath(table, links, s, p, |p| - 1);
  }

  lemma ExtendPath(table: Table, uri: string, e: Entry, p: seq<string>)
    requires IsPath(table, AnyMembership, p) && p[|p| - 1] == uri
    requires e in Edges(table, uri) && e.id != ""
    ensures IsPath(table, AnyMembership, p + [e.id])
  {
    var q := p + [e.id];
    assert Step(table, AnyMembership, uri, e.id);
    forall i | 0 <= i < |q| - 1
      ensures Step(table, AnyMembership, q[i], q[i + 1])
    {
      if i < |p| - 1 {
        assert q[i] == p[i] && q[i + 1] == p[i + 1];
      }
    }
  }
}
