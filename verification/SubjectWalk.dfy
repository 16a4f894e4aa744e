/** The groups a user belongs to: `get_resource_groups` as a function of the state it
    updates, and what it computes. */
module SubjectWalk {
  import opened AccessBits
  import opened AclIndex
  import opened AclGraph
  import opened Collections

  /** `walked`, `results` and `exclusive` are what the walk updates; `cut` records that
      the level guard stopped it somewhere. */
  datatype State = State(walked: map<string, (Access, char)>, results: map<string, Entry>, exclusive: bool, cut: bool)

  const START := State(map[], map[], false, false)

  function WalkedBits(walked: map<string, (Access, char)>, id: string): Access {
    if id in walked then walked[id].0 else {}
  }

  /** The group was already walked with these bits and the same marker. */
  predicate Pruned(walked: map<string, (Access, char)>, id: string, access: Access, marker: char) {
    id in walked && access <= walked[id].0 && walked[id].1 == marker
  }

  function ResultMarker(results: map<string, Entry>, g: Entry): char {
    if g.id in results && results[g.id].marker != NO_MARKER then results[g.id].marker else g.marker
  }

  /** What is recorded once the group's own groups have been walked. */
  function Record(s: State, g: Entry, access: Access, level: nat, ignore: bool): State {
    s.(exclusive := s.exclusive || (!ignore && g.marker == IS_EXCLUSIVE),
       results := s.results[g.id := Entry(g.id, access, ResultMarker(s.results, g), level)])
  }

  function Walk(table: Table, uri: string, access: Access, level: nat, ignore: bool, s: State): State
    requires level <= MAX_LEVEL + 1
    decreases MAX_LEVEL + 1 - level, 1, 0
  {
    if level > MAX_LEVEL then s.(cut := true)
    else WalkFrom(table, uri, access, level, ignore, Edges(table, uri), 0, s)
  }

  /** The groups of `uri` from the `idx`-th on. */
  function WalkFrom(table: Table, uri: string, access: Access, level: nat, ignore: bool, gs: seq<Entry>, idx: nat,
          s: State): State
    requires level <= MAX_LEVEL && idx <= |gs|
    decreases MAX_LEVEL + 1 - level, 0, |gs| - idx
  {
    if idx == |gs| then s
    else WalkFrom(table, uri, access, level, ignore, gs, idx + 1, WalkOne(table, uri, access, level, ignore, gs, idx, s))
  }

  function WalkOne(table: Table, uri: string, access: Access, level: nat, ignore: bool, gs: seq<Entry>, idx: nat,
          s: State): State
    requires level <= MAX_LEVEL && idx < |gs|
    decreases MAX_LEVEL + 1 - level, 0, |gs| - idx - 1
  {
    var g := gs[idx];
    var newAccess := g.access * access;
    if g.id == "" || Pruned(s.walked, g.id, newAccess, g.marker) then s
    else
      var s1 := Mark(s, g.id, newAccess, g.marker);
      if uri == g.id then s1
      else
        var s2 := Walk(table, g.id, ALLOW, level + 1, ignore || g.marker == IGNORE_EXCLUSIVE, s1);
        Record(s2, g, newAccess, level, ignore)
  }

  function Mark(s: State, id: string, access: Access, marker: char): State {
    s.(walked := s.walked[id := (access + WalkedBits(s.walked, id), marker)])
  }

  // ------------------------------------------------------------- completeness

  ghost predicate Covered(table: Table, g: string, walked: map<string, (Access, char)>) {
    forall e | e in Edges(table, g) :: e.id != "" ==> e.id in walked
  }

  /** Every group first met between `s` and `t`, other than `uri`, is a result and has all
      its groups walked. */
  ghost predicate NewAreDone(table: Table, uri: string, s: State, t: State) {
    forall g | g in t.walked && g !in s.walked && g != uri :: g in t.results && Covered(table, g, t.walked)
  }

  ghost predicate AllWalked(gs: seq<Entry>, idx: nat, walked: map<string, (Access, char)>) {
    forall k | idx <= k < |gs| :: gs[k].id != "" ==> gs[k].id in walked
  }

  ghost predicate Grows(s: State, t: State) {
    && s.walked.Keys <= t.walked.Keys
    && s.results.Keys <= t.results.Keys
    && (s.cut ==> t.cut)
    && (s.exclusive ==> t.exclusive)
  }

  lemma {:induction false} WalkComplete(table: Table, uri: string, access: Access, level: nat, ignore: bool, s: State)
    requires level <= MAX_LEVEL + 1
    ensures var t := Walk(table, uri, access, level, ignore, s);
            Grows(s, t) && (!t.cut ==> Covered(table, uri, t.walked) && NewAreDone(table, uri, s, t))
    decreases MAX_LEVEL + 1 - level, 1, 0
  {
    if level <= MAX_LEVEL {
      WalkFromComplete(table, uri, access, level, ignore, Edges(table, uri), 0, s);
    }
  }

  lemma {:induction false} WalkFromComplete(table: Table, uri: string, access: Access, level: nat, ignore: bool,
          gs: seq<Entry>, idx: nat, s: State)
    requires level <= MAX_LEVEL && idx <= |gs|
    ensures var t := WalkFrom(table, uri, access, level, ignore, gs, idx, s);
            Grows(s, t) && (!t.cut ==> NewAreDone(table, uri, s, t) && AllWalked(gs, idx, t.walked))
    decreases MAX_LEVEL + 1 - level, 0, |gs| - idx
  {
    if idx < |gs| {
      var m := WalkOne(table, uri, access, level, ignore, gs, idx, s);
      WalkOneComplete(table, uri, access, level, ignore, gs, idx, s);
      WalkFromComplete(table, uri, access, level, ignore, gs, idx + 1, m);
    }
  }

  lemma {:induction false} WalkOneComplete(table: Table, uri: string, access: Access, level: nat, ignore: bool,
          gs: seq<Entry>, idx: nat, s: State)
    requires level <= MAX_LEVEL && idx < |gs|
    ensures var t := WalkOne(table, uri, access, level, ignore, gs, idx, s);
            Grows(s, t) && (!t.cut ==> NewAreDone(table, uri, s, t) && (gs[idx].id != "" ==> gs[idx].id in t.walked))
    decreases MAX_LEVEL + 1 - level, 0, |gs| - idx - 1
  {
    var g := gs[idx];
    var newAccess := g.access * access;
    if g.id != "" && !Pruned(s.walked, g.id, newAccess, g.marker) && uri != g.id {
      var s1 := Mark(s, g.id, newAccess, g.marker);
      var s2 := Walk(table, g.id, ALLOW, level + 1, ignore || g.marker == IGNORE_EXCLUSIVE, s1);
      WalkComplete(table, g.id, ALLOW, level + 1, ignore || g.marker == IGNORE_EXCLUSIVE, s1);
      RecordComplete(table, uri, s, g, newAccess, level, ignore, s2);
    }
  }

  lemma RecordComplete(table: Table, uri: string, s: State, g: Entry, access: Access, level: nat, ignore: bool,
          s2: State)
    requires Grows(Mark(s, g.id, access, g.marker), s2)
    requires !s2.cut ==> Covered(table, g.id, s2.walked) && NewAreDone(table, g.id, Mark(s, g.id, access, g.marker), s2)
    ensures var t := Record(s2, g, access, level, ignore);
            Grows(s, t) && g.id in t.walked && (!t.cut ==> NewAreDone(table, uri, s, t))
  {
  }

  // ---------------------------------------------------------------- soundness

  ghost predicate AllReached(table: Table, root: string, s: State) {
    forall g | g in s.results :: Reaches(table, AnyMembership, root, g)
  }

  lemma {:induction false} WalkSound(table: Table, root: string, uri: string, access: Access, level: nat, ignore: bool,
          s: State)
    requires level <= MAX_LEVEL + 1
    requires Reaches(table, AnyMembership, root, uri) && AllReached(table, root, s)
    ensures AllReached(table, root, Walk(table, uri, access, level, ignore, s))
    decreases MAX_LEVEL + 1 - level, 1, 0
  {
    if level <= MAX_LEVEL {
      WalkFromSound(table, root, uri, access, level, ignore, 0, s);
    }
  }

  lemma {:induction false} WalkFromSound(table: Table, root: string, uri: string, access: Access, level: nat,
          ignore: bool, idx: nat, s: State)
    requires level <= MAX_LEVEL && idx <= |Edges(table, uri)|
    requires Reaches(table, AnyMembership, root, uri) && AllReached(table, root, s)
    ensures AllReached(table, root, WalkFrom(table, uri, access, level, ignore, Edges(table, uri), idx, s))
    decreases MAX_LEVEL + 1 - level, 0, |Edges(table, uri)| - idx
  {
    var gs := Edges(table, uri);
    if idx < |gs| {
      WalkOneSound(table, root, uri, access, level, ignore, gs, idx, s);
      WalkFromSound(table, root, uri, access, level, ignore, idx + 1, WalkOne(table, uri, access, level, ignore, gs, idx, s));
    }
  }

  lemma {:induction false} WalkOneSound(table: Table, root: string, uri: string, access: Access, level: nat,
          ignore: bool, gs: seq<Entry>, idx: nat, s: State)
    requires level <= MAX_LEVEL && idx < |gs| && gs[idx] in Edges(table, uri)
    requires Reaches(table, AnyMembership, root, uri) && AllReached(table, root, s)
    ensures AllReached(table, root, WalkOne(table, uri, access, level, ignore, gs, idx, s))
    decreases MAX_LEVEL + 1 - level, 0, |gs| - idx - 1
  {
    var g := gs[idx];
    var newAccess := g.access * access;
    if g.id != "" && !Pruned(s.walked, g.id, newAccess, g.marker) && uri != g.id {
      assert Step(table, AnyMembership, uri, g.id);
      ReachesStep(table, AnyMembership, root, uri, g.id);
      WalkSound(table, root, g.id, ALLOW, level + 1, ignore || g.marker == IGNORE_EXCLUSIVE, Mark(s, g.id, newAccess, g.marker));
    }
  }

  // ------------------------------------------------------------ the user's groups

  /** The subject groups of `_authorize`: the walk's results and the user himself. */
  function SubjectGroups(table: Table, user: string): map<string, Entry> {
    Walk(table, user, ALLOW, 0, false, START).results[user := Entry(user, ALLOW, NO_MARKER, 0)]
  }

  predicate SubjectWalkCut(table: Table, user: string) {
    Walk(table, user, ALLOW, 0, false, START).cut
  }

  /** The subject groups are the user and the groups he reaches by memberships; unless the
      level guard stopped the walk, they are all of those, however the memberships
      cycle. */
  lemma SubjectGroupsExact(table: Table, user: string, g: string)
    ensures g in SubjectGroups(table, user) ==> Reaches(table, AnyMembership, user, g)
    ensures !SubjectWalkCut(table, user) && Reaches(table, AnyMembership, user, g) ==> g in SubjectGroups(table, user)
  {
    ReachesSelf(table, AnyMembership, user);
    WalkSound(table, user, user, ALLOW, 0, false, START);
    WalkComplete(table, user, ALLOW, 0, false, START);
    var t := Walk(table, user, ALLOW, 0, false, START);
    if !t.cut && Reaches(table, AnyMembership, user, g) {
      var closed := t.walked.Keys + {user};
      forall v, h | v in closed && Step(table, AnyMembership, v, h)
        ensures h in closed
      {
        assert Covered(table, v, t.walked);
      }
      ClosedHoldsReachable(table, AnyMembership, closed, user, g);
    }
  }

  // ------------------------------------------- when nothing is cut or restricted

  /** The walk is not cut when no chain of 33 memberships starts at the user, and asks for
      no exclusive group when he reaches no exclusive membership. */
  lemma {:induction false} WalkCalm(table: Table, uri: string, access: Access, level: nat, ignore: bool, s: State,
          p: seq<string>)
    requires level <= MAX_LEVEL + 1
    requires IsPath(table, AnyMembership, p) && |p| == level + 1 && p[level] == uri
    ensures var t := Walk(table, uri, access, level, ignore, s);
            (Shallow(table, p[0]) && !s.cut ==> !t.cut) && (NoneExclusive(table, p[0]) && !s.exclusive ==> !t.exclusive)
    decreases MAX_LEVEL + 1 - level, 1, 0
  {
    if level <= MAX_LEVEL {
      WalkFromCalm(table, uri, access, level, ignore, 0, s, p);
    }
  }

  ghost predicate NoneExclusive(table: Table, root: string) {
    forall u, e | Reaches(table, AnyMembership, root, u) && e in Edges(table, u) :: e.marker != IS_EXCLUSIVE
  }

  lemma {:induction false} WalkFromCalm(table: Table, uri: string, access: Access, level: nat, ignore: bool, idx: nat,
          s: State, p: seq<string>)
    requires level <= MAX_LEVEL && idx <= |Edges(table, uri)|
    requires IsPath(table, AnyMembership, p) && |p| == level + 1 && p[level] == uri
    ensures var t := WalkFrom(table, uri, access, level, ignore, Edges(table, uri), idx, s);
            (Shallow(table, p[0]) && !s.cut ==> !t.cut) && (NoneExclusive(table, p[0]) && !s.exclusive ==> !t.exclusive)
    decreases MAX_LEVEL + 1 - level, 0, |Edges(table, uri)| - idx
  {
    var gs := Edges(table, uri);
    if idx < |gs| {
      WalkOneCalm(table, uri, access, level, ignore, gs, idx, s, p);
      WalkFromCalm(table, uri, access, level, ignore, idx + 1, WalkOne(table, uri, access, level, ignore, gs, idx, s), p);
    }
  }

  lemma {:induction false} WalkOneCalm(table: Table, uri: string, access: Access, level: nat, ignore: bool,
          gs: seq<Entry>, idx: nat, s: State, p: seq<string>)
    requires level <= MAX_LEVEL && idx < |gs| && gs[idx] in Edges(table, uri)
    requires IsPath(table, AnyMembership, p) && |p| == level + 1 && p[level] == uri
    ensures var t := WalkOne(table, uri, access, level, ignore, gs, idx, s);
            (Shallow(table, p[0]) && !s.cut ==> !t.cut) && (NoneExclusive(table, p[0]) && !s.exclusive ==> !t.exclusive)
    decreases MAX_LEVEL + 1 - level, 0, |gs| - idx - 1
  {
    var g := gs[idx];
    var newAccess := g.access * access;
    if g.id != "" && !Pruned(s.walked, g.id, newAccess, g.marker) && uri != g.id {
      ExtendPath(table, uri, g, p);
      assert Reaches(table, AnyMembership, p[0], uri);
      WalkCalm(table, g.id, ALLOW, level + 1, ignore || g.marker == IGNORE_EXCLUSIVE, Mark(s, g.id, newAccess, g.marker), p + [g.id]);
    }
  }

  /** Whether the user needs an exclusive group. */
  predicate NeedsExclusive(table: Table, user: string) {
    Walk(table, user, ALLOW, 0, false, START).exclusive
  }

  // --------------------------------------------------------- small, cyclic hierarchies

  /** The memberships from `user` and from `all` name every group with one set of rights and
      one marker. */
  ghost predicate Uniform(table: Table, user: string, all: set<string>) {
    forall u, v, e, f | u in all + {user} && v in all + {user} && e in Edges(table, u) && f in Edges(table, v) && e.id == f.id ::
      e.access * ALLOW == f.access * ALLOW && e.marker == f.marker
  }

  /** No membership from `sources` leads into the group any more. */
  ghost predicate Skipped(table: Table, sources: set<string>, walked: map<string, (Access, char)>, g: string) {
    forall u, e | u in sources && e in Edges(table, u) && e.id == g :: Pruned(walked, g, e.access * ALLOW, e.marker)
  }

  ghost predicate SkippedStay(table: Table, sources: set<string>, s: State, t: State) {
    forall g :: Skipped(table, sources, s.walked, g) ==> Skipped(table, sources, t.walked, g)
  }

  lemma MarkSkips(table: Table, user: string, all: set<string>, u: string, e: Entry, s: State)
    requires Uniform(table, user, all) && u in all + {user} && e in Edges(table, u)
    ensures var t := Mark(s, e.id, e.access * ALLOW, e.marker);
            Skipped(table, all + {user}, t.walked, e.id) && SkippedStay(table, all + {user}, s, t)
  {
  }

  /** The walk is not cut either when the user's groups, however they cycle, are 32 at most
      and each is named in one way: no group is entered twice. */
  lemma {:induction false} SmallCalm(table: Table, user: string, all: set<string>, uri: string, level: nat,
          ignore: bool, s: State, chain: set<string>)
    requires level <= MAX_LEVEL + 1 && !s.cut && uri in all + {user}
    requires |all| <= MAX_LEVEL && HoldsGroups(table, user, all) && Uniform(table, user, all)
    requires chain <= all && |chain| == level && forall g | g in chain :: Skipped(table, all + {user}, s.walked, g)
    ensures var t := Walk(table, uri, ALLOW, level, ignore, s);
            !t.cut && SkippedStay(table, all + {user}, s, t)
    decreases MAX_LEVEL + 1 - level, 1, 0
  {
    hide Uniform, Skipped, HoldsGroups;
    SubsetSize(chain, all);
    SmallFromCalm(table, user, all, uri, level, ignore, 0, s, chain);
  }

  lemma {:induction false} SmallFromCalm(table: Table, user: string, all: set<string>, uri: string, level: nat,
          ignore: bool, idx: nat, s: State, chain: set<string>)
    requires level <= MAX_LEVEL && !s.cut && uri in all + {user} && idx <= |Edges(table, uri)|
    requires |all| <= MAX_LEVEL && HoldsGroups(table, user, all) && Uniform(table, user, all)
    requires chain <= all && |chain| == level && forall g | g in chain :: Skipped(table, all + {user}, s.walked, g)
    ensures var t := WalkFrom(table, uri, ALLOW, level, ignore, Edges(table, uri), idx, s);
            !t.cut && SkippedStay(table, all + {user}, s, t)
    decreases MAX_LEVEL + 1 - level, 0, |Edges(table, uri)| - idx
  {
    hide Uniform, Skipped, HoldsGroups;
    var gs := Edges(table, uri);
    if idx < |gs| {
      SmallOneCalm(table, user, all, uri, level, ignore, idx, s, chain);
      SmallFromCalm(table, user, all, uri, level, ignore, idx + 1, WalkOne(table, uri, ALLOW, level, ignore, gs, idx, s), chain);
    }
  }

  lemma {:induction false} SmallOneCalm(table: Table, user: string, all: set<string>, uri: string, level: nat,
          ignore: bool, idx: nat, s: State, chain: set<string>)
    requires level <= MAX_LEVEL && !s.cut && uri in all + {user} && idx < |Edges(table, uri)|
    requires |all| <= MAX_LEVEL && HoldsGroups(table, user, all) && Uniform(table, user, all)
    requires chain <= all && |chain| == level && forall g | g in chain :: Skipped(table, all + {user}, s.walked, g)
    ensures var t := WalkOne(table, uri, ALLOW, level, ignore, Edges(table, uri), idx, s);
            !t.cut && SkippedStay(table, all + {user}, s, t)
    decreases MAX_LEVEL + 1 - level, 0, |Edges(table, uri)| - idx - 1
  {
    hide Uniform;
    var g := Edges(table, uri)[idx];
    var newAccess := g.access * ALLOW;
    if g.id != "" && !Pruned(s.walked, g.id, newAccess, g.marker) {
      MarkSkips(table, user, all, uri, g, s);
      if uri != g.id {
        assert !Skipped(table, all + {user}, s.walked, g.id);
        hide Skipped;
        SmallCalm(table, user, all, g.id, level + 1, ignore || g.marker == IGNORE_EXCLUSIVE,
          Mark(s, g.id, newAccess, g.marker), chain + {g.id});
      }
    }
  }

  /** Hierarchies in which the level guard does not cut the walk. */
  ghost predicate SmallOrShallow(table: Table, user: string) {
    || Shallow(table, user)
    || exists all: set<string> :: |all| <= MAX_LEVEL && HoldsGroups(table, user, all) && Uniform(table, user, all)
  }

  lemma SubjectWalkCalm(table: Table, user: string)
    ensures SmallOrShallow(table, user) ==> !SubjectWalkCut(table, user)
    ensures NoneExclusive(table, user) ==> !NeedsExclusive(table, user)
  {
    assert IsPath(table, AnyMembership, [user]);
    WalkCalm(table, user, ALLOW, 0, false, START, [user]);
    if SmallOrShallow(table, user) && !Shallow(table, user) {
      var all: set<string> :| |all| <= MAX_LEVEL && HoldsGroups(table, user, all) && Uniform(table, user, all);
      SmallCalm(table, user, all, user, 0, false, START, {});
    }
  }

  // ------------------------------------------------------------ where the guard cuts

  /** The groups follow each other in one line. */
  predicate IsLine(table: Table, p: seq<string>) {
    && Distinct(p)
    && forall i | 0 <= i < |p| - 1 :: OnlyLeadsTo(table, p[i], p[i + 1])
  }

  predicate OnlyLeadsTo(table: Table, u: string, g: string) {
    |Edges(table, u)| == 1 && Edges(table, u)[0].id == g != ""
  }

  lemma {:induction false} LineCut(table: Table, p: seq<string>, level: nat, access: Access, ignore: bool, s: State)
    requires |p| == 34 && IsLine(table, p) && level <= 33 && level <= MAX_LEVEL + 1
    requires forall i | level < i < 34 :: p[i] !in s.walked
    ensures Walk(table, p[level], access, level, ignore, s).cut
    decreases 33 - level
  {
    if level < 33 {
      assert OnlyLeadsTo(table, p[level], p[level + 1]);
      var gs := Edges(table, p[level]);
      var g := gs[0];
      assert g.id == p[level + 1] && p[level] != p[level + 1];
      var ignore' := ignore || g.marker == IGNORE_EXCLUSIVE;
      var s1 := Mark(s, g.id, g.access * access, g.marker);
      LineCut(table, p, level + 1, ALLOW, ignore', s1);
      var t := WalkOne(table, p[level], access, level, ignore, gs, 0, s);
      assert t.cut;
      assert WalkFrom(table, p[level], access, level, ignore, gs, 1, t) == t;
    }
  }

  /** A line of 34 is cut, a line of 33 is not: the guard fires at the level 33. */
  lemma GuardLevel(table: Table, p: seq<string>)
    requires IsLine(table, p)
    ensures |p| == 34 ==> SubjectWalkCut(table, p[0])
    ensures |p| == 33 && Edges(table, p[32]) == [] ==> !SubjectWalkCut(table, p[0])
  {
    if |p| == 34 {
      LineCut(table, p, 0, ALLOW, false, START);
    }
    if |p| == 33 && Edges(table, p[32]) == [] {
      LineNotCut(table, p, 0, ALLOW, false, START);
    }
  }

  lemma {:induction false} LineNotCut(table: Table, p: seq<string>, level: nat, access: Access, ignore: bool, s: State)
    requires |p| == 33 && IsLine(table, p) && Edges(table, p[32]) == [] && level <= 32 && level <= MAX_LEVEL + 1 && !s.cut
    ensures !Walk(table, p[level], access, level, ignore, s).cut
    decreases 32 - level
  {
    if level < 32 {
      assert OnlyLeadsTo(table, p[level], p[level + 1]);
      var gs := Edges(table, p[level]);
      var g := gs[0];
      var newAccess := g.access * access;
      if !Pruned(s.walked, g.id, newAccess, g.marker) {
        var s1 := Mark(s, g.id, newAccess, g.marker);
        LineNotCut(table, p, level + 1, ALLOW, ignore || g.marker == IGNORE_EXCLUSIVE, s1);
      }
      var t := WalkOne(table, p[level], access, level, ignore, gs, 0, s);
      assert !t.cut;
      assert WalkFrom(table, p[level], access, level, ignore, gs, 1, t) == t;
    }
  }
}
