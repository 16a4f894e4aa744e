/** The answer of `_authorize` in terms of what has been put into the index: the lists of
    rights behind the memberships, permissions and filters, as `rights_as_string` writes them
    under the keys that start with M, P and F. Access bytes are numbers here: 1, 2, 4 and 8
    permit, sixteen times as much denies. */
module WrittenIndex {
  import opened AccessBits
  import opened AclIndex
  import opened AclGraph
  import opened Authorization
  import opened AuthorizationTheorems
  import opened Text
  import opened Wrappers
  import ObjectWalk
  import SubjectWalk

  type Rights = map<string, seq<Right>>

  datatype Tables = Tables(memberships: Rights, permissions: Rights, filters: Rights)

  /** A right that is read back as it was written. */
  predicate Survives(r: Right) {
    Writable(r) && r.level == 0 && (r.access < 16 || r.access >> 4 == r.access & 0x0F)
  }

  ghost predicate IsWritten(db: Db, prefix: char, table: Rights) {
    forall name {:trigger [prefix] + name} ::
      && ([prefix] + name in db <==> name in table)
      && (name in table ==> db[[prefix] + name] == RightsAsString(table[name]) && forall r | r in table[name] :: Survives(r))
  }

  ghost predicate Written(db: Db, t: Tables) {
    IsWritten(db, 'M', t.memberships) && IsWritten(db, 'P', t.permissions) && IsWritten(db, 'F', t.filters)
  }

  /** The rights under a name that have not been deleted. */
  function Live(rights: seq<Right>): seq<Right> {
    if rights == [] then [] else (if rights[0].isDeleted then [] else [rights[0]]) + Live(rights[1..])
  }

  function RightsOf(table: Rights, name: string): seq<Right> {
    if name in table then Live(table[name]) else []
  }

  // ------------------------------------------------------------- what is entitled

  predicate Allows(r: Right, m: bv8) { r.access & m != 0 }

  predicate Denies(r: Right, m: bv8) { r.access & (m << 4) != 0 }

  /** A membership that carries the permission `m` and is not exclusive; any membership if `m`
      is zero. */
  predicate Member(table: Rights, m: bv8, u: string, g: string) {
    exists r | r in RightsOf(table, u) :: r.id == g && g != "" && (m != 0 ==> Allows(r, m) && r.marker != 'X')
  }

  predicate IsChain(table: Rights, m: bv8, p: seq<string>) {
    |p| >= 1 && forall i | 0 <= i < |p| - 1 :: Member(table, m, p[i], p[i + 1])
  }

  ghost predicate LeadsTo(table: Rights, m: bv8, u: string, g: string) {
    exists p: seq<string> :: IsChain(table, m, p) && p[0] == u && p[|p| - 1] == g
  }

  /** A group that hands the permission `m` to the object permits it, under keys that start with
      `prefix`, to a group of the user, and does not deny it to that group. */
  ghost predicate Given(t: Tables, uri: string, user: string, prefix: string, m: bv8) {
    exists g, r ::
      && (g == "v-s:AllResourcesGroup" || LeadsTo(t.memberships, m, uri, g))
      && r in RightsOf(t.permissions, prefix + g) && Allows(r, m) && !Denies(r, m)
      && LeadsTo(t.memberships, 0, user, r.id)
  }

  /** The filter of an object: the first right of its record, if that has a name. */
  function FilterOf(t: Tables, uri: string): Option<Right> {
    var rights := RightsOf(t.filters, uri);
    if rights == [] || rights[0].id == "" then None else Some(rights[0])
  }

  /** What a user is to get: through the filter's own permissions, and through the plain ones
      as far as the filter lets them. */
  ghost predicate Deserved(t: Tables, uri: string, user: string, m: bv8) {
    match FilterOf(t, uri)
    case None => Given(t, uri, user, "", m)
    case Some(f) => (Allows(f, m) && Given(t, uri, user, "", m)) || Given(t, uri, user, f.id, m)
  }

  // ----------------------------------------------------------- reading what was written

  lemma {:induction false} LiveIsReadBack(rights: seq<Right>)
    requires forall r | r in rights :: Survives(r)
    ensures ReadBack(rights) == Live(rights)
  {
    if rights != [] {
      LiveIsReadBack(rights[1..]);
      SwapNibblesFixed(rights[0].access);
      hide SwapNibbles;
      assert rights[0] in rights;
      assert rights[0].(access := SwapNibbles(rights[0].access), level := 0) == rights[0];
    }
  }

  lemma ReadsLive(rights: seq<Right>)
    requires forall r | r in rights :: Survives(r)
    ensures Elements(RightsAsString(rights)) == Live(rights)
  {
    ReadWritten(rights);
    LiveIsReadBack(rights);
    assert ReadTokens([""]) == [];
  }

  lemma {:induction false} EntriesAre(rights: seq<Right>)
    ensures |Entries(rights)| == |rights| && forall i | 0 <= i < |rights| :: Entries(rights)[i] == ToEntry(rights[i])
  {
    if rights != [] {
      EntriesAre(rights[1..]);
    }
  }

  lemma EdgesAre(db: Db, prefix: char, table: Rights, name: string)
    requires IsWritten(db, prefix, table)
    ensures var es, rs := Edges(Decode(db, prefix), name), RightsOf(table, name);
            |es| == |rs| && forall i | 0 <= i < |rs| :: es[i] == ToEntry(rs[i])
  {
    DecodeDecodes(db, prefix);
    hide Decode, Live, Elements, RightsAsString;
    assert [prefix] + name in db <==> name in table;
    if name in table {
      ReadsLive(table[name]);
      EntriesAre(Live(table[name]));
    }
  }

  lemma EdgeFor(db: Db, prefix: char, table: Rights, name: string, r: Right)
    requires IsWritten(db, prefix, table) && r in RightsOf(table, name)
    ensures ToEntry(r) in Edges(Decode(db, prefix), name)
  {
    hide Decode, IsWritten, RightsOf, ToEntry;
    EdgesAre(db, prefix, table, name);
    var i :| 0 <= i < |RightsOf(table, name)| && RightsOf(table, name)[i] == r;
    assert Edges(Decode(db, prefix), name)[i] == ToEntry(r);
  }

  lemma RightFor(db: Db, prefix: char, table: Rights, name: string, e: Entry) returns (r: Right)
    requires IsWritten(db, prefix, table) && e in Edges(Decode(db, prefix), name)
    ensures r in RightsOf(table, name) && e == ToEntry(r)
  {
    hide Decode, IsWritten, RightsOf, ToEntry;
    EdgesAre(db, prefix, table, name);
    var es := Edges(Decode(db, prefix), name);
    var i :| 0 <= i < |es| && es[i] == e;
    r := RightsOf(table, name)[i];
  }

  /** The bit of a permission, and its number. */
  function NumberOf(b: Bit): bv8
    requires b in ALLOW
  {
    match b
    case Create => 1
    case Read => 2
    case Update => 4
    case Delete => 8
  }

  lemma BitOfRight(r: Right, b: Bit)
    requires b in ALLOW
    ensures b in ToEntry(r).access <==> Allows(r, NumberOf(b))
    ensures DenialOf(b) in ToEntry(r).access <==> Denies(r, NumberOf(b))
    ensures NumberOf(b) != 0
  {
    BitsOf(r.access);
    hide Bits;
    match b {
      case Create => case Read => case Update => case Delete =>
    }
  }

  function LinksOf(b: Option<Bit>): Links {
    match b
    case None => AnyMembership
    case Some(bit) => Carrying(bit)
  }

  function MaskOf(b: Option<Bit>): bv8
    requires b.Some? ==> b.value in ALLOW
  {
    if b.Some? then NumberOf(b.value) else 0
  }

  lemma StepIsMember(db: Db, table: Rights, b: Option<Bit>, u: string, g: string)
    requires IsWritten(db, 'M', table) && (b.Some? ==> b.value in ALLOW)
    ensures Step(Decode(db, 'M'), LinksOf(b), u, g) <==> Member(table, MaskOf(b), u, g)
  {
    hide Decode, IsWritten, RightsOf, Allows, NumberOf;
    if Step(Decode(db, 'M'), LinksOf(b), u, g) {
      var e :| e in Edges(Decode(db, 'M'), u) && Follows(LinksOf(b), e) && e.id == g;
      var r := RightFor(db, 'M', table, u, e);
      if b.Some? {
        BitOfRight(r, b.value);
      }
    }
    if Member(table, MaskOf(b), u, g) {
      var r :| r in RightsOf(table, u) && r.id == g && g != "" && (MaskOf(b) != 0 ==> Allows(r, MaskOf(b)) && r.marker != 'X');
      EdgeFor(db, 'M', table, u, r);
      if b.Some? {
        BitOfRight(r, b.value);
      }
      assert Follows(LinksOf(b), ToEntry(r));
    }
  }

  lemma ReachesIsLeadsTo(db: Db, table: Rights, b: Option<Bit>, u: string, g: string)
    requires IsWritten(db, 'M', table) && (b.Some? ==> b.value in ALLOW)
    ensures Reaches(Decode(db, 'M'), LinksOf(b), u, g) <==> LeadsTo(table, MaskOf(b), u, g)
  {
    hide Decode, IsWritten, MaskOf, LinksOf, Step, Member;
    forall p ensures IsPath(Decode(db, 'M'), LinksOf(b), p) <==> IsChain(table, MaskOf(b), p) {
      forall i | 0 <= i < |p| - 1
        ensures Step(Decode(db, 'M'), LinksOf(b), p[i], p[i + 1]) <==> Member(table, MaskOf(b), p[i], p[i + 1])
      {
        StepIsMember(db, table, b, p[i], p[i + 1]);
      }
    }
  }

  lemma EntitledIsGiven(db: Db, t: Tables, uri: string, user: string, prefix: string, b: Bit)
    requires Written(db, t) && b in ALLOW
    ensures Entitled(IndexOf(db), uri, user, prefix, b) <==> Given(t, uri, user, prefix, NumberOf(b))
  {
    hide Decode, IsWritten, RightsOf, NumberOf, Reaches, LeadsTo, ToEntry, Allows, Denies;
    var ix, m := IndexOf(db), NumberOf(b);
    if Entitled(ix, uri, user, prefix, b) {
      var g, e :| ObjectWalk.ObjectGroup(ix.memberships, uri, b, g) && e in Edges(ix.permissions, prefix + g)
        && Reaches(ix.memberships, AnyMembership, user, e.id) && b in e.access && DenialOf(b) !in e.access;
      var r := RightFor(db, 'P', t.permissions, prefix + g, e);
      EntryHasId(r);
      BitOfRight(r, b);
      ReachesIsLeadsTo(db, t.memberships, Some(b), uri, g);
      ReachesIsLeadsTo(db, t.memberships, None, user, r.id);
    }
    if Given(t, uri, user, prefix, m) {
      var g, r :| (g == "v-s:AllResourcesGroup" || LeadsTo(t.memberships, m, uri, g))
        && r in RightsOf(t.permissions, prefix + g) && Allows(r, m) && !Denies(r, m) && LeadsTo(t.memberships, 0, user, r.id);
      EdgeFor(db, 'P', t.permissions, prefix + g, r);
      EntryHasId(r);
      BitOfRight(r, b);
      ReachesIsLeadsTo(db, t.memberships, Some(b), uri, g);
      ReachesIsLeadsTo(db, t.memberships, None, user, r.id);
      assert ObjectWalk.ObjectGroup(ix.memberships, uri, b, g);
    }
  }

  lemma EntryHasId(r: Right)
    ensures ToEntry(r).id == r.id
  {
  }

  // ------------------------------------------------------------------ the filter

  lemma TextOfLive(rights: seq<Right>)
    requires forall r | r in rights :: Survives(r)
    ensures Live(rights) == [] <==> |RightsAsString(rights)| < 3
  {
    if Live(rights) == [] {
      NoText(rights);
    } else {
      SomeText(rights);
    }
  }

  lemma {:induction false} NoText(rights: seq<Right>)
    requires Live(rights) == []
    ensures RightsAsString(rights) == ""
  {
    if rights != [] {
      NoText(rights[1..]);
    }
  }

  lemma {:induction false} SomeText(rights: seq<Right>)
    requires Live(rights) != []
    ensures |RightsAsString(rights)| >= 3
  {
    hide AccessText;
    if rights[0].isDeleted {
      SomeText(rights[1..]);
    } else {
      AccessHasText(rights[0]);
    }
  }

  lemma AccessHasText(r: Right)
    ensures |AccessText(r)| >= 1
  {
  }

  lemma FilterIsRead(db: Db, t: Tables, uri: string)
    requires Written(db, t)
    ensures var (prefix, allow) := Filter(db, uri);
            match FilterOf(t, uri)
            case None => prefix == ""
            case Some(f) => prefix == f.id && allow == Bits(f.access)
  {
    hide Live, Elements, RightsAsString, Bits, Survives;
    assert ['F'] + uri in db <==> uri in t.filters;
    if uri in t.filters {
      var rights := t.filters[uri];
      assert db[['F'] + uri] == RightsAsString(rights);
      ReadsLive(rights);
      TextOfLive(rights);
    }
  }

  // ---------------------------------------------------------------------- the answer

  lemma RequestedBit(request: bv8, b: Bit)
    requires b in ALLOW
    ensures b in Bits(request) <==> request & NumberOf(b) != 0
  {
    BitsOf(request);
    hide Bits;
    match b {
      case Create => case Read => case Update => case Delete =>
    }
  }

  function BitFor(m: bv8): Bit
    requires m in {1, 2, 4, 8}
  {
    if m == 1 then Create else if m == 2 then Read else if m == 4 then Update else Delete
  }

  lemma BitHasNumber(m: bv8)
    requires m in {1, 2, 4, 8}
    ensures BitFor(m) in ALLOW && NumberOf(BitFor(m)) == m
  {
  }

  /** For an index written from lists of rights, whatever its filters, an untraced answer holds a
      permission if and only if it was requested, the user deserves it and he is admitted. */
  lemma WrittenAnswer(db: Db, t: Tables, uri: string, user: string, request: bv8, answer: bv8, m: bv8)
    requires Written(db, t) && m in {1, 2, 4, 8}
    requires Bits(answer) == Answer(db, uri, user, Bits(request), false)
    requires SubjectWalk.SmallOrShallow(Decode(db, 'M'), user) && ObjectWalk.SmallOrShallow(Decode(db, 'M'), uri)
    ensures answer & m != 0
       <==> request & m != 0 && Deserved(t, uri, user, m) && Admitted(IndexOf(db), uri, user)
  {
    var b := BitFor(m);
    BitHasNumber(m);
    RequestedBit(answer, b);
    DeservedBit(db, t, uri, user, Bits(request), b);
    RequestedBit(request, b);
    hide Bits, Answer, Written, Deserved, Admitted;
  }

  lemma DeservedBit(db: Db, t: Tables, uri: string, user: string, bits: Access, b: Bit)
    requires Written(db, t) && b in ALLOW
    requires SubjectWalk.SmallOrShallow(Decode(db, 'M'), user) && ObjectWalk.SmallOrShallow(Decode(db, 'M'), uri)
    ensures b in Answer(db, uri, user, bits, false)
       <==> b in bits && Deserved(t, uri, user, NumberOf(b)) && Admitted(IndexOf(db), uri, user)
  {
    hide Written, AnswerIn, Entitled, Given, Admitted, Bits, Decode, NumberOf, Filter, FilterOf, Uncut, Allows;
    hide SubjectWalk.SmallOrShallow, ObjectWalk.SmallOrShallow;
    var ix := IndexOf(db);
    var (filter, allow) := Filter(db, uri);
    var r := Request(uri, user, bits, filter, allow);
    FilterIsRead(db, t, uri);
    UncutWhenShallow(ix, r);
    AnswerToAdmitted(ix, r, b);
    EntitledIsGiven(db, t, uri, user, "", b);
    EntitledIsGiven(db, t, uri, user, filter, b);
    match FilterOf(t, uri) {
      case None =>
      case Some(f) => AllowedBit(f, b);
    }
  }

  lemma AllowedBit(r: Right, b: Bit)
    requires b in ALLOW
    ensures b in Bits(r.access) <==> Allows(r, NumberOf(b))
  {
    RequestedBit(r.access, b);
  }

  /** The code itself, on such an index: the byte it returns. */
  method AuthorizeWritten(db: Db, ghost t: Tables, uri: string, user: string, request: bv8, trace: Trace)
    returns (answer: bv8)
    requires Written(db, t) && trace.Off()
    requires SubjectWalk.SmallOrShallow(Decode(db, 'M'), user) && ObjectWalk.SmallOrShallow(Decode(db, 'M'), uri)
    ensures forall m: bv8 | m in {1, 2, 4, 8} :: PermittedExactly(db, t, uri, user, request, answer, m)
    ensures answer & 0xF0 == 0
  {
    hide Written, Bits, Answer, Deserved, Admitted, Decode, SubjectWalk.SmallOrShallow, ObjectWalk.SmallOrShallow;
    answer := AuthorizeByte(db, uri, user, request, trace);
    assert Bits(answer) == Answer(db, uri, user, Bits(request), false);
    forall m: bv8 | m in {1, 2, 4, 8} ensures PermittedExactly(db, t, uri, user, request, answer, m) {
      WrittenAnswer(db, t, uri, user, request, answer, m);
    }
    NoDenials(db, uri, user, request, answer);
  }

  ghost predicate PermittedExactly(db: Db, t: Tables, uri: string, user: string, request: bv8, answer: bv8, m: bv8) {
    answer & m != 0 <==> request & m != 0 && Deserved(t, uri, user, m) && Admitted(IndexOf(db), uri, user)
  }

  lemma NoDenials(db: Db, uri: string, user: string, request: bv8, answer: bv8)
    requires Bits(answer) == Answer(db, uri, user, Bits(request), false)
    ensures answer & 0xF0 == 0
  {
    hide Bits, AnswerIn, Filter, Decode;
    var (filter, allow) := Filter(db, uri);
    RestrictedAnswer(IndexOf(db), Request(uri, user, Bits(request), filter, allow));
    OnlyPermissions(answer);
  }

  lemma OnlyPermissions(a: bv8)
    requires Bits(a) <= ALLOW
    ensures a & 0xF0 == 0
  {
    BitsOf(a);
    hide Bits;
    HighBits(a);
  }

  lemma HighBits(a: bv8)
    ensures a & 16 == 0 && a & 32 == 0 && a & 64 == 0 && a & 128 == 0 ==> a & 0xF0 == 0
  {
  }

  // ------------------------------------------------------------- other filter records

  /** A filter record of fewer than three characters is as good as none. */
  lemma ShortFilter(db: Db, uri: string, user: string, bits: Access, traced: bool)
    requires "F" + uri in db ==> |db["F" + uri]| < 3
    ensures Answer(db, uri, user, bits, traced) == Answer(db - {"F" + uri}, uri, user, bits, traced)
  {
    hide AnswerIn, Elements;
    var without := db - {"F" + uri};
    assert "F" + uri == ['F'] + uri;
    OtherPrefix(db, uri, 'M');
    OtherPrefix(db, uri, 'P');
    assert Filter(db, uri).0 == "" && Filter(without, uri) == ("", {});
    SameUnfiltered(IndexOf(db), uri, user, bits, Filter(db, uri).1, traced);
  }

  lemma SameUnfiltered(ix: Index, uri: string, user: string, bits: Access, allow: Access, traced: bool)
    ensures AnswerIn(ix, Request(uri, user, bits, "", allow), traced) == AnswerIn(ix, Request(uri, user, bits, "", {}), traced)
  {
  }

  lemma OtherPrefix(db: Db, uri: string, prefix: char)
    requires prefix != 'F'
    ensures Decode(db - {"F" + uri}, prefix) == Decode(db, prefix)
  {
    hide Elements, Entries;
    var without := db - {"F" + uri};
    forall name ensures name in Names(without, prefix) <==> name in Names(db, prefix) {
      assert ([prefix] + name)[0] == prefix && ("F" + uri)[0] == 'F';
    }
    forall name | name in Names(db, prefix) ensures without[[prefix] + name] == db[[prefix] + name] {
      assert ([prefix] + name)[0] == prefix && ("F" + uri)[0] == 'F';
    }
  }

  /** A filter record without a separator holds no right: it is itself put before the keys of the
      permissions, and no plain permission counts. */
  lemma FilterWithoutRight(db: Db, uri: string, user: string, bits: Access, b: Bit)
    requires "F" + uri in db && |db["F" + uri]| >= 3 && ';' !in db["F" + uri]
    requires SubjectWalk.SmallOrShallow(Decode(db, 'M'), user) && ObjectWalk.SmallOrShallow(Decode(db, 'M'), uri)
    ensures b in Answer(db, uri, user, bits, false)
       <==> b in bits && Entitled(IndexOf(db), uri, user, db["F" + uri], b) && Admitted(IndexOf(db), uri, user)
  {
    hide AnswerIn, Entitled, Admitted, Decode, Uncut, SubjectWalk.SmallOrShallow, ObjectWalk.SmallOrShallow;
    var text := db["F" + uri];
    assert "F" + uri == ['F'] + uri;
    SplitLast(text, ';');
    assert Elements(text) == [];
    var r := Request(uri, user, bits, text, {});
    assert Filter(db, uri) == (text, {});
    UncutWhenShallow(IndexOf(db), r);
    AnswerToAdmitted(IndexOf(db), r, b);
  }
}
