/** The walk over the groups of an object: `prepare_obj_group` and `authorize_obj_group`
    as functions of the state they update, with no memo and no early exit, and what they
    compute. */
module ObjectWalk {
  import opened AccessBits
  import opened AclIndex
  import opened AclGraph
  import opened Collections
  import opened Text

  /** What one phase of a request is about. `filter` is put before the group in the
      permission keys. */
  datatype Query = Query(memberships: Table, permissions: Table, subjects: map<string, Entry>,
                         needExclusive: bool, request: Access, filter: string)

  /** `walked`, `found` (the exclusive group was found) and `granted` are what the walk
      updates; `cut` records that the level guard stopped it somewhere. */
  datatype State = State(walked: map<string, Access>, found: bool, granted: Access, cut: bool)

  function WalkedBits(walked: map<string, Access>, id: string): Access {
    if id in walked then walked[id] else {}
  }

  /** What the permission entries of the user's groups grant, all together. */
  function Granted(entries: seq<Entry>, subjects: map<string, Entry>): Access {
    if entries == [] then {}
    else
      (if entries[0].id in subjects then PermissionAccess(entries[0].access) else {})
      + Granted(entries[1..], subjects)
  }

  /** What the permission record of one object group contributes when the group was
      reached with the rights `access`. */
  function GroupGrant(q: Query, group: string, access: Access): Access {
    Granted(Edges(q.permissions, q.filter + group), q.subjects) * q.request * access * ALLOW
  }

  function Walk(q: Query, uri: string, access: Access, level: nat, s: State): State
    requires level <= MAX_LEVEL + 1
    decreases MAX_LEVEL + 1 - level, 1, 0
  {
    if level > MAX_LEVEL then s.(cut := true)
    else if uri in q.memberships then
      var t := WalkFrom(q, uri, access, level, q.memberships[uri], 0, false, s);
      if q.memberships[uri] == [] then FoundIfNeeded(q, t) else t
    else if level == 0 then FoundIfNeeded(q, s)
    else s
  }

  /** `found` matters only when an exclusive group is needed; it stays false otherwise. */
  function FoundIfNeeded(q: Query, s: State): State {
    s.(found := s.found || q.needExclusive)
  }

  function WalkFrom(q: Query, uri: string, access: Access, level: nat, gs: seq<Entry>, idx: nat, suffix: bool,
          s: State): State
    requires level <= MAX_LEVEL && idx <= |gs|
    decreases MAX_LEVEL + 1 - level, 0, |gs| - idx
  {
    if idx == |gs| then s
    else
      WalkFrom(q, uri, access, level, gs, idx + 1, SuffixAfter(q, level, gs[idx], suffix, s.found),
               Visit(q, uri, access, level, gs[idx], Note(q, uri, level, gs[idx], idx == |gs| - 1, suffix, s)))
  }

  /** One membership of `uri`: skipped, or its group is entered and walked in turn. */
  function Visit(q: Query, uri: string, access: Access, level: nat, g: Entry, s: State): State
    requires level <= MAX_LEVEL
    decreases MAX_LEVEL + 1 - level, 0, 0
  {
    var newAccess := g.access * access;
    if g.id == "" || g.marker == IS_EXCLUSIVE || Pruned(s.walked, g.id, newAccess) then s
    else if uri == g.id then Mark(s, g.id, newAccess)
    else Walk(q, g.id, newAccess, level + 1, Enter(q, g.id, newAccess, s))
  }

  function Enter(q: Query, id: string, access: Access, s: State): State {
    Mark(s, id, access).(granted := s.granted + GroupGrant(q, id, access))
  }

  function Note(q: Query, uri: string, level: nat, g: Entry, last: bool, suffix: bool, s: State): State {
    if g.id == "" then s else s.(found := FoundAfter(q, uri, level, g, last, suffix, s.found))
  }

  predicate Pruned(walked: map<string, Access>, id: string, access: Access) {
    id in walked && access <= walked[id]
  }

  function Mark(s: State, id: string, access: Access): State {
    s.(walked := s.walked[id := access + WalkedBits(s.walked, id)])
  }

  /** Whether a name with the suffix `_group` was seen among the object's own groups. */
  predicate SuffixAfter(q: Query, level: nat, g: Entry, suffix: bool, found: bool) {
    suffix || (g.id != "" && q.needExclusive && !found && level == 0 && Contains(g.id, "_group"))
  }

  predicate FoundAfter(q: Query, uri: string, level: nat, g: Entry, last: bool, suffix: bool, found: bool) {
    if !q.needExclusive || found then found
    else
      || (level == 0 && last && !(suffix || Contains(g.id, "_group")))
      || (level == 0 && Contains(g.id, "cfg:TTLResourcesGroup"))
      || ((level == 0 || Contains(uri, "_group")) && g.id in q.subjects && q.subjects[g.id].marker == IS_EXCLUSIVE)
  }

  // ------------------------------------------------------- the walk only adds

  ghost predicate Grows(q: Query, s: State, t: State) {
    && (forall g | g in s.walked :: g in t.walked && s.walked[g] <= t.walked[g])
    && (s.cut ==> t.cut)
    && (s.found ==> t.found)
    && (!q.needExclusive ==> t.found == s.found)
    && s.granted <= t.granted <= s.granted + q.request * ALLOW
  }

  lemma {:induction false} WalkGrows(q: Query, uri: string, access: Access, level: nat, s: State)
    requires level <= MAX_LEVEL + 1
    ensures Grows(q, s, Walk(q, uri, access, level, s))
    decreases MAX_LEVEL + 1 - level, 1, 0
  {
    if level <= MAX_LEVEL && uri in q.memberships {
      WalkFromGrows(q, uri, access, level, q.memberships[uri], 0, false, s);
    }
  }

  lemma {:induction false} WalkFromGrows(q: Query, uri: string, access: Access, level: nat, gs: seq<Entry>, idx: nat,
          suffix: bool, s: State)
    requires level <= MAX_LEVEL && idx <= |gs|
    ensures Grows(q, s, WalkFrom(q, uri, access, level, gs, idx, suffix, s))
    decreases MAX_LEVEL + 1 - level, 0, |gs| - idx
  {
    if idx < |gs| {
      var s1 := Note(q, uri, level, gs[idx], idx == |gs| - 1, suffix, s);
      VisitGrows(q, uri, access, level, gs[idx], s1);
      WalkFromGrows(q, uri, access, level, gs, idx + 1, SuffixAfter(q, level, gs[idx], suffix, s.found),
                    Visit(q, uri, access, level, gs[idx], s1));
    }
  }

  lemma {:induction false} VisitGrows(q: Query, uri: string, access: Access, level: nat, g: Entry, s: State)
    requires level <= MAX_LEVEL
    ensures Grows(q, s, Visit(q, uri, access, level, g, s))
    decreases MAX_LEVEL + 1 - level, 0, 0
  {
    var newAccess := g.access * access;
    if g.id != "" && g.marker != IS_EXCLUSIVE && !Pruned(s.walked, g.id, newAccess) && uri != g.id {
      WalkGrows(q, g.id, newAccess, level + 1, Enter(q, g.id, newAccess, s));
    }
  }

  /** Nothing can be added to the answer any more. */
  predicate Settled(q: Query, s: State) {
    q.request <= s.granted && (q.needExclusive ==> s.found)
  }

  predicate SameAnswer(s: State, t: State) {
    s.granted == t.granted && s.found == t.found
  }

  lemma SettledStays(q: Query, s: State, t: State)
    requires Settled(q, s) && Grows(q, s, t)
    ensures SameAnswer(s, t)
  {
  }

  lemma SettledWalk(q: Query, uri: string, access: Access, level: nat, s: State)
    requires Settled(q, s) && level <= MAX_LEVEL + 1
    ensures SameAnswer(s, Walk(q, uri, access, level, s))
  {
    WalkGrows(q, uri, access, level, s);
    SettledStays(q, s, Walk(q, uri, access, level, s));
  }

  /** Whatever was walked, the answer of a settled walk stays what it is. */
  lemma SettledWalkFrom(q: Query, uri: string, access: Access, level: nat, gs: seq<Entry>, idx: nat, suffix: bool,
          s: State)
    requires Settled(q, s) && level <= MAX_LEVEL && idx <= |gs|
    ensures SameAnswer(s, WalkFrom(q, uri, access, level, gs, idx, suffix, s))
  {
    WalkFromGrows(q, uri, access, level, gs, idx, suffix, s);
    SettledStays(q, s, WalkFrom(q, uri, access, level, gs, idx, suffix, s));
  }

  // ------------------------------------------------------------- completeness

  /** What was added to the walked rights of `g` between two states. */
  ghost function Added(s: State, t: State, g: string): Access {
    WalkedBits(t.walked, g) - WalkedBits(s.walked, g)
  }

  /** The groups of `g` have been walked with all the rights of `bits` they carry. */
  ghost predicate Covered(q: Query, g: string, bits: Access, walked: map<string, Access>) {
    forall e | e in Edges(q.memberships, g) && e.id != "" && e.marker != IS_EXCLUSIVE ::
      e.access * bits <= WalkedBits(walked, e.id)
  }

  /** Whatever was added to a group other than `uri` has been carried on to its groups,
      and what the group's permissions grant of it has been granted. */
  ghost predicate AddedIsDone(q: Query, uri: string, s: State, t: State) {
    forall g | g in t.walked && g != uri ::
      && Covered(q, g, Added(s, t, g), t.walked)
      && GroupGrant(q, g, Added(s, t, g)) <= t.granted
  }

  ghost predicate AddedWithin(s: State, t: State, access: Access) {
    forall g | g in t.walked :: Added(s, t, g) <= access
  }

  ghost predicate Done(q: Query, uri: string, access: Access, s: State, t: State) {
    && Grows(q, s, t)
    && AddedWithin(s, t, access)
    && (!t.cut ==> AddedIsDone(q, uri, s, t))
  }

  lemma {:induction false} WalkComplete(q: Query, uri: string, access: Access, level: nat, s: State)
    requires level <= MAX_LEVEL + 1
    ensures var t := Walk(q, uri, access, level, s);
            Done(q, uri, access, s, t) && (!t.cut ==> Covered(q, uri, access, t.walked))
    decreases MAX_LEVEL + 1 - level, 1, 0
  {
    if level <= MAX_LEVEL && uri in q.memberships {
      WalkFromComplete(q, uri, access, level, q.memberships[uri], 0, false, s);
    }
  }

  ghost predicate AllWalked(gs: seq<Entry>, idx: nat, access: Access, walked: map<string, Access>) {
    forall k | idx <= k < |gs| && gs[k].id != "" && gs[k].marker != IS_EXCLUSIVE ::
      gs[k].access * access <= WalkedBits(walked, gs[k].id)
  }

  lemma {:induction false} WalkFromComplete(q: Query, uri: string, access: Access, level: nat, gs: seq<Entry>, idx: nat,
          suffix: bool, s: State)
    requires level <= MAX_LEVEL && idx <= |gs|
    ensures var t := WalkFrom(q, uri, access, level, gs, idx, suffix, s);
            Done(q, uri, access, s, t) && (!t.cut ==> AllWalked(gs, idx, access, t.walked))
    decreases MAX_LEVEL + 1 - level, 0, |gs| - idx
  {
    if idx < |gs| {
      var suffix' := SuffixAfter(q, level, gs[idx], suffix, s.found);
      var s1 := Note(q, uri, level, gs[idx], idx == |gs| - 1, suffix, s);
      var m := Visit(q, uri, access, level, gs[idx], s1);
      var t := WalkFrom(q, uri, access, level, gs, idx + 1, suffix', m);
      VisitComplete(q, uri, access, level, gs[idx], s1);
      assert Done(q, uri, access, s, m);
      WalkFromComplete(q, uri, access, level, gs, idx + 1, suffix', m);
      DoneThenDone(q, uri, access, s, m, t);
    }
  }

  lemma {:induction false} VisitComplete(q: Query, uri: string, access: Access, level: nat, g: Entry, s: State)
    requires level <= MAX_LEVEL
    ensures var t := Visit(q, uri, access, level, g, s);
            Done(q, uri, access, s, t) && (!t.cut && g.id != "" && g.marker != IS_EXCLUSIVE
              ==> g.access * access <= WalkedBits(t.walked, g.id))
    decreases MAX_LEVEL + 1 - level, 0, 0
  {
    var newAccess := g.access * access;
    if g.id != "" && g.marker != IS_EXCLUSIVE && !Pruned(s.walked, g.id, newAccess) {
      if uri != g.id {
        var s3 := Enter(q, g.id, newAccess, s);
        WalkComplete(q, g.id, newAccess, level + 1, s3);
        EnterThenDone(q, uri, access, s, g, Walk(q, g.id, newAccess, level + 1, s3));
      } else {
        SelfLoopDone(q, uri, access, s, g, Mark(s, g.id, newAccess));
      }
    }
  }

  lemma SelfLoopDone(q: Query, uri: string, access: Access, s: State, g: Entry, t: State)
    requires t == Mark(s, uri, g.access * access)
    ensures Done(q, uri, access, s, t)
    ensures g.access * access <= WalkedBits(t.walked, uri)
  {
    forall h | h in t.walked
      ensures Added(s, t, h) <= access
      ensures h != uri ==> Added(s, t, h) == {}
    {
    }
  }

  lemma DoneThenDone(q: Query, uri: string, access: Access, s: State, m: State, t: State)
    requires Done(q, uri, access, s, m) && Done(q, uri, access, m, t)
    ensures Done(q, uri, access, s, t)
  {
    forall g | g in t.walked
      ensures Added(s, t, g) <= Added(s, m, g) + Added(m, t, g)
    {
    }
    if !t.cut {
      forall g | g in t.walked && g != uri
        ensures Covered(q, g, Added(s, t, g), t.walked)
        ensures GroupGrant(q, g, Added(s, t, g)) <= t.granted
      {
        if g !in m.walked {
          assert Added(s, t, g) == Added(m, t, g);
        }
      }
    }
  }

  /** Entering group `g` with `newAccess` from a node other than itself, then walking it. */
  lemma EnterThenDone(q: Query, uri: string, access: Access, s: State, g: Entry, t: State)
    requires var s3 := Enter(q, g.id, g.access * access, s);
             && Done(q, g.id, g.access * access, s3, t)
             && (!t.cut ==> Covered(q, g.id, g.access * access, t.walked))
    ensures Done(q, uri, access, s, t)
    ensures g.access * access <= WalkedBits(t.walked, g.id)
  {
    var newAccess := g.access * access;
    var s3 := Enter(q, g.id, newAccess, s);
    forall h | h in t.walked
      ensures Added(s, t, h) <= access
      ensures h != g.id ==> Added(s, t, h) == Added(s3, t, h)
      ensures h == g.id ==> Added(s, t, h) <= newAccess
    {
      assert Added(s3, t, h) <= newAccess <= access;
      assert h != g.id ==> WalkedBits(s3.walked, h) == WalkedBits(s.walked, h);
    }
  }

  // ---------------------------------------------------------------- soundness

  const ALL_RESOURCES := "v-s:AllResourcesGroup"

  /** The object groups that hand bit `b` to the object: the group of all resources, the
      object itself, and the groups it reaches by memberships that all carry `b` and are
      not exclusive. */
  ghost predicate ObjectGroup(memberships: Table, uri: string, b: Bit, g: string) {
    g == ALL_RESOURCES || Reaches(memberships, Carrying(b), uri, g)
  }

  /** Some permission entry of group `g` for one of the user's groups allows `b` and does
      not deny it. */
  ghost predicate Permits(q: Query, g: string, b: Bit) {
    exists e | e in Edges(q.permissions, q.filter + g) ::
      e.id in q.subjects && b in ALLOW && b in e.access && DenialOf(b) !in e.access
  }

  ghost predicate Witness(q: Query, uri: string, b: Bit) {
    b in q.request && exists g :: ObjectGroup(q.memberships, uri, b, g) && Permits(q, g, b)
  }

  lemma {:induction false} GrantedBit(entries: seq<Entry>, subjects: map<string, Entry>, b: Bit)
    ensures b in Granted(entries, subjects)
       <==> exists e | e in entries :: e.id in subjects && b in ALLOW && b in e.access && DenialOf(b) !in e.access
  {
    if entries != [] {
      GrantedBit(entries[1..], subjects, b);
      assert entries == [entries[0]] + entries[1..];
    }
  }

  lemma GroupGrantBit(q: Query, g: string, access: Access, b: Bit)
    ensures b in GroupGrant(q, g, access) <==> b in q.request && b in access && Permits(q, g, b)
  {
    GrantedBit(Edges(q.permissions, q.filter + g), q.subjects, b);
  }

  lemma {:induction false} WalkSound(q: Query, root: string, b: Bit, uri: string, access: Access, level: nat, s: State)
    requires level <= MAX_LEVEL + 1
    requires b in access ==> Reaches(q.memberships, Carrying(b), root, uri)
    ensures b in Walk(q, uri, access, level, s).granted ==> b in s.granted || Witness(q, root, b)
    decreases MAX_LEVEL + 1 - level, 1, 0
  {
    if level <= MAX_LEVEL && uri in q.memberships {
      WalkFromSound(q, root, b, uri, access, level, 0, false, s);
    }
  }

  lemma {:induction false} WalkFromSound(q: Query, root: string, b: Bit, uri: string, access: Access, level: nat,
          idx: nat, suffix: bool, s: State)
    requires level <= MAX_LEVEL && uri in q.memberships && idx <= |q.memberships[uri]|
    requires b in access ==> Reaches(q.memberships, Carrying(b), root, uri)
    ensures b in WalkFrom(q, uri, access, level, q.memberships[uri], idx, suffix, s).granted ==> b in s.granted || Witness(q, root, b)
    decreases MAX_LEVEL + 1 - level, 0, |q.memberships[uri]| - idx
  {
    var gs := q.memberships[uri];
    if idx < |gs| {
      var s1 := Note(q, uri, level, gs[idx], idx == |gs| - 1, suffix, s);
      VisitSound(q, root, b, uri, access, level, gs[idx], s1);
      WalkFromSound(q, root, b, uri, access, level, idx + 1, SuffixAfter(q, level, gs[idx], suffix, s.found),
                    Visit(q, uri, access, level, gs[idx], s1));
    }
  }

  lemma {:induction false} VisitSound(q: Query, root: string, b: Bit, uri: string, access: Access, level: nat, g: Entry,
          s: State)
    requires level <= MAX_LEVEL && g in Edges(q.memberships, uri)
    requires b in access ==> Reaches(q.memberships, Carrying(b), root, uri)
    ensures b in Visit(q, uri, access, level, g, s).granted ==> b in s.granted || Witness(q, root, b)
    decreases MAX_LEVEL + 1 - level, 0, 0
  {
    var newAccess := g.access * access;
    if g.id != "" && g.marker != IS_EXCLUSIVE && !Pruned(s.walked, g.id, newAccess) && uri != g.id {
      if b in newAccess {
        assert Step(q.memberships, Carrying(b), uri, g.id);
        ReachesStep(q.memberships, Carrying(b), root, uri, g.id);
      }
      var s3 := Enter(q, g.id, newAccess, s);
      GroupGrantBit(q, g.id, newAccess, b);
      assert b in GroupGrant(q, g.id, newAccess) ==> ObjectGroup(q.memberships, root, b, g.id) && Witness(q, root, b);
      WalkSound(q, root, b, g.id, newAccess, level + 1, s3);
    }
  }

  // ---------------------------------------------------------------- one phase

  /** One phase of a request: the group of all resources, the object, and its groups. */
  function Phase(q: Query, uri: string, s: State): State {
    Walk(q, uri, ALLOW, 0,
         s.(granted := s.granted + GroupGrant(q, ALL_RESOURCES, ALLOW) + GroupGrant(q, uri, ALLOW)))
  }

  lemma PhaseGrows(q: Query, uri: string, s: State)
    ensures Grows(q, s, Phase(q, uri, s))
  {
    WalkGrows(q, uri, ALLOW, 0, s.(granted := s.granted + GroupGrant(q, ALL_RESOURCES, ALLOW) + GroupGrant(q, uri, ALLOW)));
  }

  /** A phase adds exactly the requested bits that have a witness; all of them, when the
      level guard did not stop the walk. Memberships may form cycles. */
  lemma PhaseExact(q: Query, uri: string, s: State, b: Bit)
    requires s.walked == map[]
    ensures var t := Phase(q, uri, s);
            && (b in t.granted ==> b in s.granted || Witness(q, uri, b))
            && (b in s.granted || (Witness(q, uri, b) && !t.cut) ==> b in t.granted)
  {
    var s1 := s.(granted := s.granted + GroupGrant(q, ALL_RESOURCES, ALLOW) + GroupGrant(q, uri, ALLOW));
    var t := Walk(q, uri, ALLOW, 0, s1);
    GroupGrantBit(q, ALL_RESOURCES, ALLOW, b);
    GroupGrantBit(q, uri, ALLOW, b);
    ReachesSelf(q.memberships, Carrying(b), uri);
    if b in GroupGrant(q, uri, ALLOW) {
      assert ObjectGroup(q.memberships, uri, b, uri);
    }
    WalkSound(q, uri, b, uri, ALLOW, 0, s1);
    WalkComplete(q, uri, ALLOW, 0, s1);
    if Witness(q, uri, b) && !t.cut {
      var g :| ObjectGroup(q.memberships, uri, b, g) && Permits(q, g, b);
      if g != ALL_RESOURCES && g != uri {
        WalkReachesBit(q, uri, b, s1, g);
        GroupGrantBit(q, g, Added(s1, t, g), b);
      }
    }
  }

  lemma WalkReachesBit(q: Query, uri: string, b: Bit, s: State, g: string)
    requires s.walked == map[] && b in ALLOW
    requires var t := Walk(q, uri, ALLOW, 0, s);
             !t.cut && AddedIsDone(q, uri, s, t) && Covered(q, uri, ALLOW, t.walked)
    requires Reaches(q.memberships, Carrying(b), uri, g) && g != uri
    ensures var t := Walk(q, uri, ALLOW, 0, s);
            g in t.walked && b in Added(s, t, g)
  {
    var t := Walk(q, uri, ALLOW, 0, s);
    var closed := {uri} + set h | h in t.walked && b in t.walked[h];
    forall v, h | v in closed && Step(q.memberships, Carrying(b), v, h)
      ensures h in closed
    {
      var e :| e in Edges(q.memberships, v) && Follows(Carrying(b), e) && e.id == h;
      if v == uri {
        assert b in e.access * ALLOW;
      } else {
        assert b in e.access * Added(s, t, v);
      }
    }
    ClosedHoldsReachable(q.memberships, Carrying(b), closed, uri, g);
  }

  // ---------------------------------------------------------- the level guard

  /** A walk is not cut when no chain of 33 memberships starts at the object. */
  lemma {:induction false} ShallowNotCut(q: Query, uri: string, access: Access, level: nat, s: State, p: seq<string>)
    requires level <= MAX_LEVEL + 1 && !s.cut
    requires IsPath(q.memberships, AnyMembership, p) && |p| == level + 1 && p[level] == uri
    requires Shallow(q.memberships, p[0])
    ensures !Walk(q, uri, access, level, s).cut
    decreases MAX_LEVEL + 1 - level, 1, 0
  {
    if level <= MAX_LEVEL && uri in q.memberships {
      ShallowFromNotCut(q, uri, access, level, 0, false, s, p);
    }
  }

  lemma {:induction false} ShallowFromNotCut(q: Query, uri: string, access: Access, level: nat, idx: nat, suffix: bool,
          s: State, p: seq<string>)
    requires level <= MAX_LEVEL && uri in q.memberships && idx <= |q.memberships[uri]| && !s.cut
    requires IsPath(q.memberships, AnyMembership, p) && |p| == level + 1 && p[level] == uri
    requires Shallow(q.memberships, p[0])
    ensures !WalkFrom(q, uri, access, level, q.memberships[uri], idx, suffix, s).cut
    decreases MAX_LEVEL + 1 - level, 0, |q.memberships[uri]| - idx
  {
    var gs := q.memberships[uri];
    if idx < |gs| {
      var g := gs[idx];
      var newAccess := g.access * access;
      var s1 := Note(q, uri, level, g, idx == |gs| - 1, suffix, s);
      var s2 := Visit(q, uri, access, level, g, s1);
      if g.id != "" && g.marker != IS_EXCLUSIVE && !Pruned(s1.walked, g.id, newAccess) && uri != g.id {
        ExtendPath(q.memberships, uri, g, p);
        ShallowNotCut(q, g.id, newAccess, level + 1, Enter(q, g.id, newAccess, s1), p + [g.id]);
      }
      assert !s2.cut;
      ShallowFromNotCut(q, uri, access, level, idx + 1, SuffixAfter(q, level, g, suffix, s.found), s2, p);
    }
  }

  /** Nor is it cut when the object's groups, however they cycle, are 32 at most: along
      the walk's current chain of groups no group comes twice, because the rights only
      shrink and a group already walked with them is skipped. */
  lemma {:induction false} SmallNotCut(q: Query, uri: string, access: Access, level: nat, s: State, all: set<string>,
          chain: set<string>)
    requires level <= MAX_LEVEL + 1 && !s.cut
    requires |all| <= MAX_LEVEL && chain <= all && |chain| == level && (level == 0 || uri in chain)
    requires forall g | g in chain :: g in s.walked && access <= s.walked[g]
    requires forall u, e | u in all && e in Edges(q.memberships, u) && e.id != "" :: e.id in all
    requires forall e | e in Edges(q.memberships, uri) && e.id != "" :: e.id in all
    ensures !Walk(q, uri, access, level, s).cut
    decreases MAX_LEVEL + 1 - level, 1, 0
  {
    SubsetSize(chain, all);
    if uri in q.memberships {
      SmallFromNotCut(q, uri, access, level, 0, false, s, all, chain);
    }
  }

  lemma {:induction false} SmallFromNotCut(q: Query, uri: string, access: Access, level: nat, idx: nat, suffix: bool,
          s: State, all: set<string>, chain: set<string>)
    requires level <= MAX_LEVEL && uri in q.memberships && idx <= |q.memberships[uri]| && !s.cut
    requires |all| <= MAX_LEVEL && chain <= all && |chain| == level && (level == 0 || uri in chain)
    requires forall g | g in chain :: g in s.walked && access <= s.walked[g]
    requires forall u, e | u in all && e in Edges(q.memberships, u) && e.id != "" :: e.id in all
    requires forall e | e in Edges(q.memberships, uri) && e.id != "" :: e.id in all
    ensures !WalkFrom(q, uri, access, level, q.memberships[uri], idx, suffix, s).cut
    decreases MAX_LEVEL + 1 - level, 0, |q.memberships[uri]| - idx
  {
    var gs := q.memberships[uri];
    if idx < |gs| {
      var s1 := Note(q, uri, level, gs[idx], idx == |gs| - 1, suffix, s);
      SmallVisitNotCut(q, uri, access, level, gs[idx], s1, all, chain);
      VisitGrows(q, uri, access, level, gs[idx], s1);
      SmallFromNotCut(q, uri, access, level, idx + 1, SuffixAfter(q, level, gs[idx], suffix, s.found),
                      Visit(q, uri, access, level, gs[idx], s1), all, chain);
    }
  }

  lemma {:induction false} SmallVisitNotCut(q: Query, uri: string, access: Access, level: nat, g: Entry, s: State,
          all: set<string>, chain: set<string>)
    requires level <= MAX_LEVEL && g in Edges(q.memberships, uri) && !s.cut
    requires |all| <= MAX_LEVEL && chain <= all && |chain| == level && (g.id != "" ==> g.id in all)
    requires forall h | h in chain :: h in s.walked && access <= s.walked[h]
    requires forall u, e | u in all && e in Edges(q.memberships, u) && e.id != "" :: e.id in all
    ensures !Visit(q, uri, access, level, g, s).cut
    decreases MAX_LEVEL + 1 - level, 0, 0
  {
    var newAccess := g.access * access;
    if g.id != "" && g.marker != IS_EXCLUSIVE && !Pruned(s.walked, g.id, newAccess) && uri != g.id {
      assert g.id !in chain;
      SmallNotCut(q, g.id, newAccess, level + 1, Enter(q, g.id, newAccess, s), all, chain + {g.id});
    }
  }

  ghost predicate SmallOrShallow(memberships: Table, uri: string) {
    || Shallow(memberships, uri)
    || exists all: set<string> :: |all| <= MAX_LEVEL && HoldsGroups(memberships, uri, all)
  }

  lemma PhaseNotCut(q: Query, uri: string, s: State)
    requires !s.cut && SmallOrShallow(q.memberships, uri)
    ensures !Phase(q, uri, s).cut
  {
    var s1 := s.(granted := s.granted + GroupGrant(q, ALL_RESOURCES, ALLOW) + GroupGrant(q, uri, ALLOW));
    if Shallow(q.memberships, uri) {
      assert IsPath(q.memberships, AnyMembership, [uri]);
      ShallowNotCut(q, uri, ALLOW, 0, s1, [uri]);
    } else {
      var all: set<string> :| |all| <= MAX_LEVEL && HoldsGroups(q.memberships, uri, all);
      SmallNotCut(q, uri, ALLOW, 0, s1, all, {});
    }
  }
}
