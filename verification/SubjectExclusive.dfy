/** When a user needs an exclusive group: an exclusive membership that he reaches without
    passing one that is marked to ignore such restrictions. */
module SubjectExclusive {
  import opened AccessBits
  import opened AclIndex
  import opened AclGraph
  import opened SubjectWalk

  /** Memberships that do not ignore restrictions. */
  const PLAIN: Links := Avoiding('N')

  /** An exclusive membership of `u` in another group. */
  predicate HasExclusive(table: Table, u: string) {
    exists e | e in Edges(table, u) :: e.id != "" && e.id != u && e.marker == 'X'
  }

  ghost predicate ReachesExclusive(table: Table, user: string) {
    exists u :: Reaches(table, PLAIN, user, u) && HasExclusive(table, u)
  }

  // ------------------------------------------------------------- only then

  lemma {:induction false} WalkNeeds(table: Table, user: string, uri: string, access: Access, level: nat, ignore: bool,
          s: State)
    requires level <= MAX_LEVEL + 1 && (!ignore ==> Reaches(table, PLAIN, user, uri))
    requires s.exclusive ==> ReachesExclusive(table, user)
    ensures Walk(table, uri, access, level, ignore, s).exclusive ==> ReachesExclusive(table, user)
    decreases MAX_LEVEL + 1 - level, 1, 0
  {
    if level <= MAX_LEVEL {
      WalkFromNeeds(table, user, uri, access, level, ignore, 0, s);
    }
  }

  lemma {:induction false} WalkFromNeeds(table: Table, user: string, uri: string, access: Access, level: nat,
          ignore: bool, idx: nat, s: State)
    requires level <= MAX_LEVEL && idx <= |Edges(table, uri)| && (!ignore ==> Reaches(table, PLAIN, user, uri))
    requires s.exclusive ==> ReachesExclusive(table, user)
    ensures WalkFrom(table, uri, access, level, ignore, Edges(table, uri), idx, s).exclusive ==> ReachesExclusive(table, user)
    decreases MAX_LEVEL + 1 - level, 0, |Edges(table, uri)| - idx
  {
    hide Reaches, ReachesExclusive;
    var gs := Edges(table, uri);
    if idx < |gs| {
      WalkOneNeeds(table, user, uri, access, level, ignore, gs, idx, s);
      WalkFromNeeds(table, user, uri, access, level, ignore, idx + 1, WalkOne(table, uri, access, level, ignore, gs, idx, s));
    }
  }

  lemma {:induction false} WalkOneNeeds(table: Table, user: string, uri: string, access: Access, level: nat,
          ignore: bool, gs: seq<Entry>, idx: nat, s: State)
    requires level <= MAX_LEVEL && idx < |gs| && gs[idx] in Edges(table, uri)
    requires (!ignore ==> Reaches(table, PLAIN, user, uri)) && (s.exclusive ==> ReachesExclusive(table, user))
    ensures WalkOne(table, uri, access, level, ignore, gs, idx, s).exclusive ==> ReachesExclusive(table, user)
    decreases MAX_LEVEL + 1 - level, 0, |gs| - idx - 1
  {
    hide Reaches;
    var g := gs[idx];
    var newAccess := g.access * access;
    if g.id != "" && !Pruned(s.walked, g.id, newAccess, g.marker) && uri != g.id {
      var ignore' := ignore || g.marker == IGNORE_EXCLUSIVE;
      if !ignore' {
        assert Step(table, PLAIN, uri, g.id);
        ReachesStep(table, PLAIN, user, uri, g.id);
      }
      if !ignore && g.marker == IS_EXCLUSIVE {
        assert HasExclusive(table, uri);
      }
      WalkNeeds(table, user, g.id, ALLOW, level + 1, ignore', Mark(s, g.id, newAccess, g.marker));
    }
  }

  /** Who needs an exclusive group reaches, without passing a membership that ignores
      restrictions, an exclusive membership. */
  lemma NeedsOnlyThen(table: Table, user: string)
    ensures NeedsExclusive(table, user) ==> ReachesExclusive(table, user)
  {
    ReachesSelf(table, PLAIN, user);
    WalkNeeds(table, user, user, ALLOW, 0, false, SubjectWalk.START);
  }

  // ------------------------------------------------------------------ exactly then

  /** No membership ahead of the user ignores restrictions, and no group is an exclusive
      member of itself. */
  ghost predicate Ordinary(table: Table, user: string) {
    forall u, e | Reaches(table, AnyMembership, user, u) && e in Edges(table, u) ::
      e.marker != 'N' && !(e.marker == 'X' && e.id == u)
  }

  predicate Marked(s: State, g: string) {
    g in s.walked && s.walked[g].1 == 'X'
  }

  ghost predicate MarkedBefore(s: State, t: State) {
    forall g :: Marked(t, g) ==> Marked(s, g)
  }

  /** The exclusive memberships of `g` lead to groups that were marked in `s`. */
  ghost predicate AreMarked(table: Table, g: string, s: State) {
    forall e | e in Edges(table, g) :: e.id != "" && e.marker == 'X' ==> Marked(s, e.id)
  }

  ghost predicate NewAreMarked(table: Table, uri: string, s: State, t: State) {
    forall g | g in t.walked && g !in s.walked && g != uri :: AreMarked(table, g, s)
  }

  /** A walk that is not cut and asks for nothing has met no exclusive membership, except in
      groups that an exclusive membership had led to before. */
  lemma {:induction false} WalkMarks(table: Table, user: string, uri: string, access: Access, level: nat, s: State)
    requires level <= MAX_LEVEL + 1 && Ordinary(table, user) && Reaches(table, AnyMembership, user, uri)
    ensures var t := Walk(table, uri, access, level, false, s);
            !t.cut && !t.exclusive ==> MarkedBefore(s, t) && AreMarked(table, uri, s) && NewAreMarked(table, uri, s, t)
    decreases MAX_LEVEL + 1 - level, 1, 0
  {
    if level <= MAX_LEVEL {
      WalkFromMarks(table, user, uri, access, level, 0, s);
    }
  }

  lemma {:induction false} WalkFromMarks(table: Table, user: string, uri: string, access: Access, level: nat, idx: nat,
          s: State)
    requires level <= MAX_LEVEL && idx <= |Edges(table, uri)| && Ordinary(table, user)
    requires Reaches(table, AnyMembership, user, uri)
    ensures var gs := Edges(table, uri);
            var t := WalkFrom(table, uri, access, level, false, gs, idx, s);
            !t.cut && !t.exclusive ==>
              && MarkedBefore(s, t) && NewAreMarked(table, uri, s, t)
              && forall k | idx <= k < |gs| && gs[k].id != "" && gs[k].marker == 'X' :: Marked(s, gs[k].id)
    decreases MAX_LEVEL + 1 - level, 0, |Edges(table, uri)| - idx
  {
    hide Reaches, Ordinary;
    var gs := Edges(table, uri);
    if idx < |gs| {
      var m := WalkOne(table, uri, access, level, false, gs, idx, s);
      WalkOneMarks(table, user, uri, access, level, gs, idx, s);
      WalkOneComplete(table, uri, access, level, false, gs, idx, s);
      WalkFromComplete(table, uri, access, level, false, gs, idx + 1, m);
      WalkFromMarks(table, user, uri, access, level, idx + 1, m);
    }
  }

  lemma {:induction false} WalkOneMarks(table: Table, user: string, uri: string, access: Access, level: nat,
          gs: seq<Entry>, idx: nat, s: State)
    requires level <= MAX_LEVEL && idx < |gs| && gs[idx] in Edges(table, uri) && Ordinary(table, user)
    requires Reaches(table, AnyMembership, user, uri)
    ensures var t := WalkOne(table, uri, access, level, false, gs, idx, s);
            !t.cut && !t.exclusive ==>
              && MarkedBefore(s, t) && NewAreMarked(table, uri, s, t)
              && (gs[idx].id != "" && gs[idx].marker == 'X' ==> Marked(s, gs[idx].id))
    decreases MAX_LEVEL + 1 - level, 0, |gs| - idx - 1
  {
    hide Reaches;
    var g := gs[idx];
    var newAccess := g.access * access;
    assert g.marker != 'N' && !(g.marker == 'X' && g.id == uri);
    if g.id != "" && !Pruned(s.walked, g.id, newAccess, g.marker) && uri != g.id {
      assert Step(table, AnyMembership, uri, g.id);
      ReachesStep(table, AnyMembership, user, uri, g.id);
      var s1 := Mark(s, g.id, newAccess, g.marker);
      WalkMarks(table, user, g.id, ALLOW, level + 1, s1);
      var s2 := Walk(table, g.id, ALLOW, level + 1, false, s1);
      assert WalkOne(table, uri, access, level, false, gs, idx, s) == Record(s2, g, newAccess, level, false);
      hide Walk, WalkOne, Ordinary;
      RecordMarks(table, uri, s, g, newAccess, level, s2);
    }
  }

  lemma RecordMarks(table: Table, uri: string, s: State, g: Entry, access: Access, level: nat, s2: State)
    requires g.id != uri && g.id != ""
    requires var s1 := Mark(s, g.id, access, g.marker);
             !s2.cut && !s2.exclusive ==> MarkedBefore(s1, s2) && AreMarked(table, g.id, s1) && NewAreMarked(table, g.id, s1, s2)
    ensures var t := Record(s2, g, access, level, false);
            !t.cut && !t.exclusive ==> g.marker != 'X' && MarkedBefore(s, t) && NewAreMarked(table, uri, s, t)
  {
    var s1, t := Mark(s, g.id, access, g.marker), Record(s2, g, access, level, false);
    if !t.cut && !t.exclusive {
      assert MarkedBefore(s, s1);
      forall h ensures Marked(t, h) ==> Marked(s, h) {
        assert Marked(t, h) ==> Marked(s2, h);
      }
      forall h | h in t.walked && h !in s.walked && h != uri ensures AreMarked(table, h, s) {
        assert AreMarked(table, h, s1);
      }
    }
  }

  /** Where no membership ignores restrictions and the level guard does not cut the walk, a user
      needs an exclusive group if and only if he reaches an exclusive membership. */
  lemma NeedsExactlyThen(table: Table, user: string)
    requires Ordinary(table, user) && !SubjectWalkCut(table, user)
    ensures NeedsExclusive(table, user)
       <==> exists u, e :: Reaches(table, AnyMembership, user, u) && e in Edges(table, u) && e.id != "" && e.marker == 'X'
  {
    NeedsOnlyThen(table, user);
    if NeedsExclusive(table, user) {
      var u :| Reaches(table, PLAIN, user, u) && HasExclusive(table, u);
      PlainlyIsReaching(table, user, u);
      var e :| e in Edges(table, u) && e.id != "" && e.id != u && e.marker == 'X';
    } else {
      ReachesSelf(table, AnyMembership, user);
      WalkMarks(table, user, user, ALLOW, 0, SubjectWalk.START);
      WalkComplete(table, user, ALLOW, 0, false, SubjectWalk.START);
      var t := Walk(table, user, ALLOW, 0, false, SubjectWalk.START);
      forall u, e | Reaches(table, AnyMembership, user, u) && e in Edges(table, u) && e.id != "" ensures e.marker != 'X' {
        ReachedIsWalked(table, user, u);
        assert AreMarked(table, u, SubjectWalk.START);
      }
    }
  }

  lemma ReachedIsWalked(table: Table, user: string, u: string)
    requires !SubjectWalkCut(table, user) && Reaches(table, AnyMembership, user, u)
    ensures u == user || u in Walk(table, user, ALLOW, 0, false, SubjectWalk.START).walked
  {
    WalkComplete(table, user, ALLOW, 0, false, SubjectWalk.START);
    var t := Walk(table, user, ALLOW, 0, false, SubjectWalk.START);
    var closed := t.walked.Keys + {user};
    forall v, h | v in closed && Step(table, AnyMembership, v, h) ensures h in closed {
      assert Covered(table, v, t.walked);
    }
    ClosedHoldsReachable(table, AnyMembership, closed, user, u);
  }

  lemma PlainlyIsReaching(table: Table, user: string, u: string)
    requires Reaches(table, PLAIN, user, u)
    ensures Reaches(table, AnyMembership, user, u)
  {
    var p: seq<string> :| IsPath(table, PLAIN, p) && p[0] == user && p[|p| - 1] == u;
    forall i | 0 <= i < |p| - 1 ensures Step(table, AnyMembership, p[i], p[i + 1]) {
      assert Step(table, PLAIN, p[i], p[i + 1]);
    }
    assert IsPath(table, AnyMembership, p);
  }

  // ------------------------------------------------------------ markers of the groups

  /** A membership of a reached group leads to `g` with the marker. */
  ghost predicate ComesMarked(table: Table, root: string, g: string, marker: char) {
    exists u, e :: Reaches(table, AnyMembership, root, u) && e in Edges(table, u) && e.id == g && e.marker == marker
  }

  ghost predicate AllComeMarked(table: Table, root: string, s: State) {
    forall g | g in s.results :: ComesMarked(table, root, g, s.results[g].marker)
  }

  lemma {:induction false} WalkComesMarked(table: Table, root: string, uri: string, access: Access, level: nat,
          ignore: bool, s: State)
    requires level <= MAX_LEVEL + 1
    requires Reaches(table, AnyMembership, root, uri) && AllComeMarked(table, root, s)
    ensures AllComeMarked(table, root, Walk(table, uri, access, level, ignore, s))
    decreases MAX_LEVEL + 1 - level, 1, 0
  {
    if level <= MAX_LEVEL {
      WalkFromComesMarked(table, root, uri, access, level, ignore, 0, s);
    }
  }

  lemma {:induction false} WalkFromComesMarked(table: Table, root: string, uri: string, access: Access, level: nat,
          ignore: bool, idx: nat, s: State)
    requires level <= MAX_LEVEL && idx <= |Edges(table, uri)|
    requires Reaches(table, AnyMembership, root, uri) && AllComeMarked(table, root, s)
    ensures AllComeMarked(table, root, WalkFrom(table, uri, access, level, ignore, Edges(table, uri), idx, s))
    decreases MAX_LEVEL + 1 - level, 0, |Edges(table, uri)| - idx
  {
    hide Reaches, AllComeMarked;
    var gs := Edges(table, uri);
    if idx < |gs| {
      WalkOneComesMarked(table, root, uri, access, level, ignore, gs, idx, s);
      WalkFromComesMarked(table, root, uri, access, level, ignore, idx + 1,
        WalkOne(table, uri, access, level, ignore, gs, idx, s));
    }
  }

  lemma {:induction false} WalkOneComesMarked(table: Table, root: string, uri: string, access: Access, level: nat,
          ignore: bool, gs: seq<Entry>, idx: nat, s: State)
    requires level <= MAX_LEVEL && idx < |gs| && gs[idx] in Edges(table, uri)
    requires Reaches(table, AnyMembership, root, uri) && AllComeMarked(table, root, s)
    ensures AllComeMarked(table, root, WalkOne(table, uri, access, level, ignore, gs, idx, s))
    decreases MAX_LEVEL + 1 - level, 0, |gs| - idx - 1
  {
    hide Reaches, IsPath;
    var g := gs[idx];
    var newAccess := g.access * access;
    if g.id != "" && !Pruned(s.walked, g.id, newAccess, g.marker) && uri != g.id {
      assert Step(table, AnyMembership, uri, g.id);
      ReachesStep(table, AnyMembership, root, uri, g.id);
      assert ComesMarked(table, root, g.id, g.marker);
      var ignore' := ignore || g.marker == IGNORE_EXCLUSIVE;
      var s1 := Mark(s, g.id, newAccess, g.marker);
      var s2 := Walk(table, g.id, ALLOW, level + 1, ignore', s1);
      assert WalkOne(table, uri, access, level, ignore, gs, idx, s) == Record(s2, g, newAccess, level, ignore);
      WalkComesMarked(table, root, g.id, ALLOW, level + 1, ignore', s1);
      hide Walk, WalkOne;
      RecordComesMarked(table, root, s2, g, newAccess, level, ignore);
    }
  }

  lemma RecordComesMarked(table: Table, root: string, s: State, g: Entry, access: Access, level: nat, ignore: bool)
    requires AllComeMarked(table, root, s) && ComesMarked(table, root, g.id, g.marker)
    ensures AllComeMarked(table, root, Record(s, g, access, level, ignore))
  {
    hide ComesMarked;
  }

  /** A group of the user, other than himself, has the marker of one of the memberships through
      which he reaches it. */
  lemma MarkersComeFromMemberships(table: Table, user: string, g: string)
    requires g in SubjectGroups(table, user) && g != user
    ensures ComesMarked(table, user, g, SubjectGroups(table, user)[g].marker)
  {
    ReachesSelf(table, AnyMembership, user);
    WalkComesMarked(table, user, user, ALLOW, 0, false, SubjectWalk.START);
  }

  // ------------------------------------------------------------------ two exceptions

  function To(id: string, marker: char): Entry {
    Entry(id, ALLOW, marker, 0)
  }

  lemma WalkNone(table: Table, uri: string, level: nat, ignore: bool, s: State)
    requires level <= MAX_LEVEL && Edges(table, uri) == []
    ensures Walk(table, uri, ALLOW, level, ignore, s) == s
  {
  }

  lemma WalkSingle(table: Table, uri: string, level: nat, ignore: bool, s: State, g: Entry)
    requires level <= MAX_LEVEL && Edges(table, uri) == [g]
    ensures Walk(table, uri, ALLOW, level, ignore, s) == WalkOne(table, uri, ALLOW, level, ignore, [g], 0, s)
  {
    hide WalkOne;
    var t := WalkOne(table, uri, ALLOW, level, ignore, [g], 0, s);
    assert WalkFrom(table, uri, ALLOW, level, ignore, [g], 1, t) == t;
  }

  lemma WalkPair(table: Table, uri: string, level: nat, ignore: bool, s: State, g: Entry, h: Entry)
    requires level <= MAX_LEVEL && Edges(table, uri) == [g, h]
    ensures Walk(table, uri, ALLOW, level, ignore, s)
         == WalkOne(table, uri, ALLOW, level, ignore, [g, h], 1, WalkOne(table, uri, ALLOW, level, ignore, [g, h], 0, s))
  {
    hide WalkOne;
    var t := WalkOne(table, uri, ALLOW, level, ignore, [g, h], 0, s);
    var r := WalkOne(table, uri, ALLOW, level, ignore, [g, h], 1, t);
    assert WalkFrom(table, uri, ALLOW, level, ignore, [g, h], 2, r) == r;
    assert WalkFrom(table, uri, ALLOW, level, ignore, [g, h], 1, t) == r;
  }

  /** A membership in a group not entered before. */
  lemma EntersGroup(table: Table, uri: string, level: nat, ignore: bool, gs: seq<Entry>, idx: nat, s: State)
    requires level <= MAX_LEVEL && idx < |gs| && gs[idx].id != "" && gs[idx].id != uri && gs[idx].id !in s.walked
    requires gs[idx].access == ALLOW
    ensures var g := gs[idx];
            var r := Walk(table, g.id, ALLOW, level + 1, ignore || g.marker == 'N', Entered(s, g));
            var t := WalkOne(table, uri, ALLOW, level, ignore, gs, idx, s);
            t.walked == r.walked && t.exclusive == (r.exclusive || (!ignore && g.marker == 'X'))
  {
    assert ALLOW * ALLOW == ALLOW && ALLOW + {} == ALLOW;
    assert Mark(s, gs[idx].id, ALLOW, gs[idx].marker) == Entered(s, gs[idx]);
  }

  function Entered(s: State, g: Entry): State {
    s.(walked := s.walked[g.id := (ALLOW, g.marker)])
  }

  /** A group that was entered first while restrictions were ignored is not entered again:
      here `c` is reached through `a`, which ignores them, before it is reached directly. */
  lemma IgnoredFirst()
    ensures exists table: Table, user :: ReachesExclusive(table, user) && !NeedsExclusive(table, user)
  {
    var a, c, d := To("a", 'N'), To("c", NO_MARKER), To("d", 'X');
    var table: Table := map["u" := [a, c], "a" := [c], "c" := [d]];
    assert Edges(table, "u") == [a, c] && Edges(table, "a") == [c] && Edges(table, "c") == [d] && Edges(table, "d") == [];
    hide Edges, ReachesExclusive, NeedsExclusive;
    ExclusiveBehind(table, c, d);
    NotAskedFor(table, a, c, d);
  }

  lemma NotAskedFor(table: Table, a: Entry, c: Entry, d: Entry)
    requires a == To("a", 'N') && c == To("c", NO_MARKER) && d == To("d", 'X') && Edges(table, "u") == [a, c]
    requires Edges(table, "a") == [c] && Edges(table, "c") == [d] && Edges(table, "d") == []
    ensures !NeedsExclusive(table, "u")
  {
    hide Edges, Walk, WalkOne, Pruned;
    var s1 := Entered(SubjectWalk.START, a);
    var s2 := Entered(s1, c);
    BehindIgnoring(table, s1, s2, c, d);
    WalkPair(table, "u", 0, false, SubjectWalk.START, a, c);
    EntersGroup(table, "u", 0, false, [a, c], 0, SubjectWalk.START);
    var t := WalkOne(table, "u", ALLOW, 0, false, [a, c], 0, SubjectWalk.START);
    SkipsGroup(table, "u", 0, false, [a, c], 1, t);
  }

  /** Nor is one that an exclusive membership of itself has marked. */
  lemma SelfFirst()
    ensures exists table: Table, user :: ReachesExclusive(table, user) && !NeedsExclusive(table, user)
  {
    var g, x := To("g", NO_MARKER), To("g", 'X');
    var table: Table := map["u" := [g, x], "g" := [x]];
    assert Edges(table, "u") == [g, x] && Edges(table, "g") == [x];
    ReachesSelf(table, PLAIN, "u");
    assert x in Edges(table, "u") && HasExclusive(table, "u");
    assert ReachesExclusive(table, "u");
    hide Edges, ReachesExclusive, Walk, WalkOne, Pruned;
    var s1 := Entered(SubjectWalk.START, g);
    WalkPair(table, "u", 0, false, SubjectWalk.START, g, x);
    EntersGroup(table, "u", 0, false, [g, x], 0, SubjectWalk.START);
    WalkSingle(table, "g", 1, false, s1, x);
    MarksItself(table, "g", 1, s1, x);
    var t := WalkOne(table, "u", ALLOW, 0, false, [g, x], 0, SubjectWalk.START);
    SkipsGroup(table, "u", 0, false, [g, x], 1, t);
  }

  lemma MarksItself(table: Table, uri: string, level: nat, s: State, g: Entry)
    requires level <= MAX_LEVEL && g == To(uri, 'X') && uri != "" && uri in s.walked && s.walked[uri] == (ALLOW, NO_MARKER)
    ensures WalkOne(table, uri, ALLOW, level, false, [g], 0, s) == Entered(s, g)
  {
    assert ALLOW * ALLOW == ALLOW && ALLOW + ALLOW == ALLOW;
  }

  lemma BehindIgnoring(table: Table, s1: State, s2: State, c: Entry, d: Entry)
    requires Edges(table, "a") == [c] && Edges(table, "c") == [d] && Edges(table, "d") == []
    requires c == To("c", NO_MARKER) && d == To("d", 'X') && s2 == Entered(s1, c) && s1.walked.Keys == {"a"}
    ensures var t := Walk(table, "a", ALLOW, 1, true, s1);
            t.exclusive == s1.exclusive && "c" in t.walked && t.walked["c"] == (ALLOW, NO_MARKER)
  {
    hide Walk, WalkOne;
    WalkSingle(table, "a", 1, true, s1, c);
    EntersGroup(table, "a", 1, true, [c], 0, s1);
    WalkSingle(table, "c", 2, true, s2, d);
    EntersGroup(table, "c", 2, true, [d], 0, s2);
    WalkNone(table, "d", 3, true, Entered(s2, d));
  }

  lemma SkipsGroup(table: Table, uri: string, level: nat, ignore: bool, gs: seq<Entry>, idx: nat, s: State)
    requires level <= MAX_LEVEL && idx < |gs| && gs[idx].id in s.walked && gs[idx].access == ALLOW
    requires s.walked[gs[idx].id] == (ALLOW, gs[idx].marker)
    ensures WalkOne(table, uri, ALLOW, level, ignore, gs, idx, s) == s
  {
  }

  lemma ExclusiveBehind(table: Table, c: Entry, d: Entry)
    requires c in Edges(table, "u") && c == To("c", NO_MARKER) && d in Edges(table, "c") && d == To("d", 'X')
    ensures ReachesExclusive(table, "u")
  {
    ReachesSelf(table, PLAIN, "u");
    assert Step(table, PLAIN, "u", "c");
    ReachesStep(table, PLAIN, "u", "u", "c");
    assert HasExclusive(table, "c");
  }
}
