/** When an object counts as open to a user who needs an exclusive group: the rules by which
    the walk over its groups finds one, stated by paths alone. */
module ObjectExclusive {
  import opened AccessBits
  import opened AclIndex
  import opened AclGraph
  import opened ObjectWalk
  import opened Text

  /** The memberships the walk follows. */
  const OPEN: Links := Avoiding('X')

  /** A group of the object that the user has by an exclusive membership. */
  predicate IsShared(q: Query, e: Entry) {
    e.id != "" && e.id in q.subjects && q.subjects[e.id].marker == 'X'
  }

  /** A group on the way settles it when its record is empty, or when its own name holds
      `_group` and it is a member of a shared group. */
  predicate Opens(q: Query, u: string) {
    || (u in q.memberships && q.memberships[u] == [])
    || (Contains(u, "_group") && exists e | e in Edges(q.memberships, u) :: IsShared(q, e))
  }

  predicate NamesGroup(e: Entry) {
    e.id != "" && Contains(e.id, "_group")
  }

  /** The object itself settles it when it has no record or an empty one, when it is a member of
      a shared group or of a TTL resources group, or when none of its groups has a name with
      `_group` and the last one has a name. */
  predicate OpensItself(q: Query, uri: string) {
    var gs := Edges(q.memberships, uri);
    || gs == []
    || (exists e | e in gs :: IsShared(q, e))
    || (exists e | e in gs :: e.id != "" && Contains(e.id, "cfg:TTLResourcesGroup"))
    || (gs[|gs| - 1].id != "" && forall e | e in gs :: !NamesGroup(e))
  }

  /** The object, or a group it reaches by memberships that are not exclusive, settles it. */
  ghost predicate IsOpen(q: Query, uri: string) {
    OpensItself(q, uri) || exists u :: Reaches(q.memberships, OPEN, uri, u) && Opens(q, u)
  }

  predicate GroupBefore(gs: seq<Entry>, idx: nat)
    requires idx <= |gs|
  {
    exists j | 0 <= j < idx :: NamesGroup(gs[j])
  }

  // ---------------------------------------------------------------------- only then

  lemma {:induction false} WalkFinds(q: Query, root: string, uri: string, access: Access, level: nat, s: State)
    requires level <= MAX_LEVEL + 1 && q.needExclusive && Reaches(q.memberships, OPEN, root, uri)
    requires level == 0 ==> uri == root
    ensures Walk(q, uri, access, level, s).found ==> s.found || IsOpen(q, root)
    decreases MAX_LEVEL + 1 - level, 1, 0
  {
    if level <= MAX_LEVEL && uri in q.memberships {
      if q.memberships[uri] == [] {
        assert Opens(q, uri);
      }
      WalkFromFinds(q, root, uri, access, level, 0, false, s);
    }
  }

  lemma {:induction false} WalkFromFinds(q: Query, root: string, uri: string, access: Access, level: nat, idx: nat,
          suffix: bool, s: State)
    requires level <= MAX_LEVEL && q.needExclusive && Reaches(q.memberships, OPEN, root, uri) && uri in q.memberships
    requires idx <= |q.memberships[uri]| && (level == 0 ==> uri == root)
    requires level == 0 && !s.found ==> (suffix <==> GroupBefore(q.memberships[uri], idx))
    ensures WalkFrom(q, uri, access, level, q.memberships[uri], idx, suffix, s).found ==> s.found || IsOpen(q, root)
    decreases MAX_LEVEL + 1 - level, 0, |q.memberships[uri]| - idx
  {
    hide Reaches, IsOpen;
    var gs := q.memberships[uri];
    if idx < |gs| {
      var last := idx == |gs| - 1;
      var suffix' := SuffixAfter(q, level, gs[idx], suffix, s.found);
      var s1 := Note(q, uri, level, gs[idx], last, suffix, s);
      var m := Visit(q, uri, access, level, gs[idx], s1);
      NoteFinds(q, root, uri, level, idx, suffix, s);
      VisitGrows(q, uri, access, level, gs[idx], s1);
      VisitFinds(q, root, uri, access, level, gs[idx], s1);
      SuffixIs(q, level, gs, idx, suffix, s);
      WalkFromFinds(q, root, uri, access, level, idx + 1, suffix', m);
    }
  }

  lemma SuffixIs(q: Query, level: nat, gs: seq<Entry>, idx: nat, suffix: bool, s: State)
    requires idx < |gs| && q.needExclusive
    requires level == 0 && !s.found ==> (suffix <==> GroupBefore(gs, idx))
    ensures level == 0 && !s.found ==> (SuffixAfter(q, level, gs[idx], suffix, s.found) <==> GroupBefore(gs, idx + 1))
  {
    hide Contains;
  }

  lemma NoteFinds(q: Query, root: string, uri: string, level: nat, idx: nat, suffix: bool, s: State)
    requires q.needExclusive && Reaches(q.memberships, OPEN, root, uri) && uri in q.memberships
    requires idx < |q.memberships[uri]| && (level == 0 ==> uri == root)
    requires level == 0 && !s.found ==> (suffix <==> GroupBefore(q.memberships[uri], idx))
    ensures var gs := q.memberships[uri];
            Note(q, uri, level, gs[idx], idx == |gs| - 1, suffix, s).found ==> s.found || IsOpen(q, root)
  {
    hide Reaches, Contains;
    var gs := q.memberships[uri];
    var g := gs[idx];
    assert g in Edges(q.memberships, uri);
    if level > 0 && Contains(uri, "_group") && IsShared(q, g) {
      assert Opens(q, uri);
    }
    if level == 0 && idx == |gs| - 1 && !suffix && !NamesGroup(g) && !s.found {
      forall e | e in gs ensures !NamesGroup(e) {
        var j :| 0 <= j < |gs| && gs[j] == e;
      }
    }
  }

  lemma {:induction false} VisitFinds(q: Query, root: string, uri: string, access: Access, level: nat, g: Entry, s: State)
    requires level <= MAX_LEVEL && q.needExclusive && Reaches(q.memberships, OPEN, root, uri)
    requires g in Edges(q.memberships, uri)
    ensures Visit(q, uri, access, level, g, s).found ==> s.found || IsOpen(q, root)
    decreases MAX_LEVEL + 1 - level, 0, 0
  {
    hide Reaches, IsOpen;
    var newAccess := g.access * access;
    if g.id != "" && g.marker != IS_EXCLUSIVE && !Pruned(s.walked, g.id, newAccess) && uri != g.id {
      assert Step(q.memberships, OPEN, uri, g.id);
      ReachesStep(q.memberships, OPEN, root, uri, g.id);
      WalkFinds(q, root, g.id, newAccess, level + 1, Enter(q, g.id, newAccess, s));
    }
  }

  // ------------------------------------------------------------------- exactly then

  ghost predicate Entered(q: Query, u: string, walked: map<string, Access>) {
    forall e | e in Edges(q.memberships, u) && e.id != "" && e.marker != 'X' :: e.id in walked
  }

  /** What has been walked since `s`, other than `uri`, does not open the object. */
  ghost predicate NewAreClosed(q: Query, uri: string, s: State, t: State) {
    forall u | u in t.walked && u !in s.walked && u != uri :: !Opens(q, u) && Entered(q, u, t.walked)
  }

  lemma {:induction false} WalkClosed(q: Query, uri: string, access: Access, level: nat, s: State)
    requires level <= MAX_LEVEL + 1 && q.needExclusive
    ensures var t := Walk(q, uri, access, level, s);
            !t.cut && !t.found ==>
              && !Opens(q, uri) && (level == 0 ==> !OpensItself(q, uri))
              && Entered(q, uri, t.walked) && NewAreClosed(q, uri, s, t)
    decreases MAX_LEVEL + 1 - level, 1, 0
  {
    if level <= MAX_LEVEL && uri in q.memberships {
      var gs := q.memberships[uri];
      WalkFromClosed(q, uri, access, level, 0, false, s);
      var t := WalkFrom(q, uri, access, level, gs, 0, false, s);
      if gs != [] && !t.cut && !t.found {
        EdgesClosed(q, uri, level);
      }
    }
  }

  /** What the memberships from the `idx`-th on would have found. */
  ghost predicate RestClosed(q: Query, uri: string, level: nat, idx: nat, walked: map<string, Access>)
    requires uri in q.memberships && idx <= |q.memberships[uri]|
  {
    var gs := q.memberships[uri];
    && (forall k | idx <= k < |gs| && gs[k].id != "" && gs[k].marker != 'X' :: gs[k].id in walked)
    && (forall k | idx <= k < |gs| && (level == 0 || Contains(uri, "_group")) :: !IsShared(q, gs[k]))
    && (forall k | idx <= k < |gs| && level == 0 && gs[k].id != "" :: !Contains(gs[k].id, "cfg:TTLResourcesGroup"))
    && (level == 0 && idx < |gs| ==> gs[|gs| - 1].id == "" || GroupBefore(gs, |gs|))
  }

  lemma EdgesClosed(q: Query, uri: string, level: nat)
    requires uri in q.memberships && q.memberships[uri] != []
    requires exists walked :: RestClosed(q, uri, level, 0, walked)
    ensures !Opens(q, uri) && (level == 0 ==> !OpensItself(q, uri))
  {
    hide Contains;
    var gs := q.memberships[uri];
    var walked :| RestClosed(q, uri, level, 0, walked);
    forall e | e in gs ensures (level == 0 || Contains(uri, "_group")) ==> !IsShared(q, e) {
      var k :| 0 <= k < |gs| && gs[k] == e;
    }
    forall e | e in gs && level == 0 && e.id != "" ensures !Contains(e.id, "cfg:TTLResourcesGroup") {
      var k :| 0 <= k < |gs| && gs[k] == e;
    }
    if level == 0 && GroupBefore(gs, |gs|) {
      var j :| 0 <= j < |gs| && NamesGroup(gs[j]);
      assert gs[j] in gs;
    }
  }

  lemma {:induction false} WalkFromClosed(q: Query, uri: string, access: Access, level: nat, idx: nat, suffix: bool,
          s: State)
    requires level <= MAX_LEVEL && q.needExclusive && uri in q.memberships && idx <= |q.memberships[uri]|
    requires level == 0 && !s.found ==> (suffix <==> GroupBefore(q.memberships[uri], idx))
    ensures var gs := q.memberships[uri];
            var t := WalkFrom(q, uri, access, level, gs, idx, suffix, s);
            !t.cut && !t.found ==> RestClosed(q, uri, level, idx, t.walked) && NewAreClosed(q, uri, s, t)
    decreases MAX_LEVEL + 1 - level, 0, |q.memberships[uri]| - idx
  {
    var gs := q.memberships[uri];
    if idx < |gs| {
      var suffix' := SuffixAfter(q, level, gs[idx], suffix, s.found);
      var s1 := Note(q, uri, level, gs[idx], idx == |gs| - 1, suffix, s);
      var m := Visit(q, uri, access, level, gs[idx], s1);
      var t := WalkFrom(q, uri, access, level, gs, idx + 1, suffix', m);
      VisitGrows(q, uri, access, level, gs[idx], s1);
      VisitClosed(q, uri, access, level, gs[idx], s1);
      SuffixIs(q, level, gs, idx, suffix, s);
      WalkFromGrows(q, uri, access, level, gs, idx + 1, suffix', m);
      WalkFromClosed(q, uri, access, level, idx + 1, suffix', m);
      hide Visit, WalkFrom;
      if !t.cut && !t.found {
        NoteClosed(q, uri, level, idx, suffix, s);
        MoreClosed(q, uri, level, idx, s, m, t);
      }
    }
  }

  lemma NoteClosed(q: Query, uri: string, level: nat, idx: nat, suffix: bool, s: State)
    requires q.needExclusive && uri in q.memberships && idx < |q.memberships[uri]|
    requires level == 0 && !s.found ==> (suffix <==> GroupBefore(q.memberships[uri], idx))
    requires var gs := q.memberships[uri]; !Note(q, uri, level, gs[idx], idx == |gs| - 1, suffix, s).found
    ensures var gs := q.memberships[uri];
            && (level == 0 || Contains(uri, "_group") ==> !IsShared(q, gs[idx]))
            && (level == 0 && gs[idx].id != "" ==> !Contains(gs[idx].id, "cfg:TTLResourcesGroup"))
            && (level == 0 && idx == |gs| - 1 ==> gs[idx].id == "" || GroupBefore(gs, |gs|))
  {
    hide Contains;
  }

  lemma MoreClosed(q: Query, uri: string, level: nat, idx: nat, s: State, m: State, t: State)
    requires uri in q.memberships && idx < |q.memberships[uri]|
    requires m.walked.Keys <= t.walked.Keys
    requires var gs := q.memberships[uri];
             && (level == 0 || Contains(uri, "_group") ==> !IsShared(q, gs[idx]))
             && (level == 0 && gs[idx].id != "" ==> !Contains(gs[idx].id, "cfg:TTLResourcesGroup"))
             && (level == 0 && idx == |gs| - 1 ==> gs[idx].id == "" || GroupBefore(gs, |gs|))
             && (gs[idx].id != "" && gs[idx].marker != 'X' ==> gs[idx].id in m.walked)
    requires NewAreClosed(q, uri, s, m) && NewAreClosed(q, uri, m, t) && RestClosed(q, uri, level, idx + 1, t.walked)
    ensures RestClosed(q, uri, level, idx, t.walked) && NewAreClosed(q, uri, s, t)
  {
    hide Contains, IsShared, GroupBefore, Opens;
  }

  lemma {:induction false} VisitClosed(q: Query, uri: string, access: Access, level: nat, g: Entry, s: State)
    requires level <= MAX_LEVEL && q.needExclusive
    ensures var t := Visit(q, uri, access, level, g, s);
            !t.cut && !t.found ==> NewAreClosed(q, uri, s, t) && (g.id != "" && g.marker != 'X' ==> g.id in t.walked)
    decreases MAX_LEVEL + 1 - level, 0, 0
  {
    var newAccess := g.access * access;
    if g.id != "" && g.marker != IS_EXCLUSIVE && !Pruned(s.walked, g.id, newAccess) && uri != g.id {
      var s1 := Enter(q, g.id, newAccess, s);
      WalkGrows(q, g.id, newAccess, level + 1, s1);
      WalkClosed(q, g.id, newAccess, level + 1, s1);
      hide Walk, Opens;
    }
  }

  /** A phase for a user who needs an exclusive group finds one exactly when the object is open,
      if the level guard does not cut the walk; memberships may form cycles. */
  lemma FoundExact(q: Query, uri: string, s: State)
    requires s.walked == map[] && q.needExclusive
    ensures var t := Phase(q, uri, s);
            && (t.found ==> s.found || IsOpen(q, uri))
            && (!t.cut && (s.found || IsOpen(q, uri)) ==> t.found)
  {
    var s1 := s.(granted := s.granted + GroupGrant(q, ALL_RESOURCES, ALLOW) + GroupGrant(q, uri, ALLOW));
    var t := Phase(q, uri, s);
    ReachesSelf(q.memberships, OPEN, uri);
    WalkFinds(q, uri, uri, ALLOW, 0, s1);
    WalkGrows(q, uri, ALLOW, 0, s1);
    WalkClosed(q, uri, ALLOW, 0, s1);
    if !t.cut && !t.found {
      forall u | Reaches(q.memberships, OPEN, uri, u) ensures !Opens(q, u) {
        ReachedIsEntered(q, uri, t, u);
      }
    }
  }

  lemma ReachedIsEntered(q: Query, uri: string, t: State, u: string)
    requires Entered(q, uri, t.walked) && forall v | v in t.walked && v != uri :: Entered(q, v, t.walked)
    requires Reaches(q.memberships, OPEN, uri, u)
    ensures u == uri || u in t.walked
  {
    var closed := t.walked.Keys + {uri};
    forall v, h | v in closed && Step(q.memberships, OPEN, v, h) ensures h in closed {
      assert Entered(q, v, t.walked);
    }
    ClosedHoldsReachable(q.memberships, OPEN, closed, uri, u);
  }
}
