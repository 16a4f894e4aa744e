/** `_authorize`: the answer as a function of the index (the slow form: every group is
    consulted, no memo, no early exit), and the code that computes it with memos, with a
    "left to check" cut and with early exits, in trace mode and without. */
module Authorization {
  import opened AccessBits
  import opened AclIndex
  import opened AclGraph
  import opened ObjectWalk
  import opened Text
  import opened Wrappers
  import SubjectWalk

  // ------------------------------------------------------------- the slow form

  /** The filter of an object: a prefix for its permission keys, and what the filter
      leaves to the unfiltered permissions. An object is unfiltered when it is empty. */
  function Filter(db: Db, uri: string): (string, Access) {
    var key := [FILTER_PREFIX] + uri;
    if key !in db || |db[key]| < 3 then ("", {})
    else
      var filters := Elements(db[key]);
      if filters == [] then (db[key], {}) else (filters[0].id, Bits(filters[0].access))
  }

  /** The records of the index, taken apart. */
  datatype Index = Index(memberships: Table, permissions: Table)

  function IndexOf(db: Db): Index {
    Index(Decode(db, MEMBERSHIP_PREFIX), Decode(db, PERMISSION_PREFIX))
  }

  /** A request for one object by one user. */
  datatype Request = Request(uri: string, user: string, bits: Access, filter: string, allow: Access)

  function QueryOf(ix: Index, user: string, bits: Access, filter: string): Query {
    Query(ix.memberships, ix.permissions, SubjectWalk.SubjectGroups(ix.memberships, user),
          SubjectWalk.NeedsExclusive(ix.memberships, user), bits, filter)
  }

  /** What the plain permissions may answer of a request. */
  function PlainBits(r: Request): Access {
    if r.filter == "" then r.bits else r.bits * r.allow
  }

  const NOTHING := State(map[], false, {}, false)

  /** The first phase looks at the plain permission keys. */
  function PlainPhase(ix: Index, r: Request): State {
    Phase(QueryOf(ix, r.user, PlainBits(r), ""), r.uri, NOTHING)
  }

  /** The second, for a filtered object, at the keys that start with the filter. */
  function FilterPhase(ix: Index, r: Request): State {
    Phase(QueryOf(ix, r.user, r.bits, r.filter), r.uri, PlainPhase(ix, r).(walked := map[]))
  }

  /** An exclusive group is needed and was not found. */
  predicate Refused(ix: Index, r: Request, s: State) {
    SubjectWalk.NeedsExclusive(ix.memberships, r.user) && !s.found
  }

  /** The answer. In trace mode the code returns after the plain phase when it may. */
  function AnswerIn(ix: Index, r: Request, traced: bool): Access {
    var plain := PlainPhase(ix, r);
    if r.filter == "" || (traced && !Refused(ix, r, plain)) then
      if Refused(ix, r, plain) then {} else plain.granted
    else
      var filtered := FilterPhase(ix, r);
      if Refused(ix, r, filtered) then {} else filtered.granted
  }

  function Answer(db: Db, uri: string, user: string, bits: Access, traced: bool): Access {
    var (filter, allow) := Filter(db, uri);
    AnswerIn(IndexOf(db), Request(uri, user, bits, filter, allow), traced)
  }

  /** The three trace modes. */
  datatype Trace = Trace(isAcl: bool, isGroup: bool, isInfo: bool) {
    predicate Off() { !isAcl && !isGroup && !isInfo }
  }

  // ------------------------------------------------------------------ the code

  class AzContext {
    const db: Db
    const uri: string
    const userUri: string
    ghost const index: Index
    var granted: Access                           // calc_right_res
    var needExclusive: bool
    var foundExclusive: bool
    var walkedGroupsS: map<string, (Access, char)>
    var walkedGroupsO: map<string, Access>
    var treeGroupsO: map<string, string>
    var treeGroupsS: map<string, string>
    var subjectGroups: map<string, Entry>
    var checkedGroups: map<string, Access>

    /** The ghost copy of the index. */
    ghost predicate Valid() {
      Decodes(db, MEMBERSHIP_PREFIX, index.memberships) && Decodes(db, PERMISSION_PREFIX, index.permissions)
    }

    constructor (db: Db, uri: string, userUri: string, ghost index: Index)
      requires Decodes(db, MEMBERSHIP_PREFIX, index.memberships) && Decodes(db, PERMISSION_PREFIX, index.permissions)
      ensures Valid() && this.db == db && this.uri == uri && this.userUri == userUri && this.index == index
      ensures granted == {} && !needExclusive && !foundExclusive
      ensures walkedGroupsS == map[] && walkedGroupsO == map[] && subjectGroups == map[] && checkedGroups == map[]
    {
      this.db, this.uri, this.userUri, this.index := db, uri, userUri, index;
      granted, needExclusive, foundExclusive := {}, false, false;
      walkedGroupsS, walkedGroupsO, subjectGroups, checkedGroups := map[], map[], map[], map[];
      treeGroupsO, treeGroupsS := map[], map[];
    }

    ghost function TheQuery(request: Access, filter: string): Query
      reads this
    {
      Query(index.memberships, index.permissions, subjectGroups, needExclusive, request, filter)
    }

    /** The fields as a state of the slow form. */
    ghost function StateNow(): State
      reads this
    {
      State(walkedGroupsO, needExclusive && foundExclusive, granted, false)
    }

    ghost predicate Agrees(s: State)
      reads this
    {
      walkedGroupsO == s.walked && SameAnswer(StateNow(), s)
    }

    /** The answer so far is that of the slow form, and the walked groups are too unless
        the answer is settled. */
    ghost predicate Tracks(q: Query, trace: Trace, s: State)
      reads this
    {
      SameAnswer(StateNow(), s) && (walkedGroupsO == s.walked || (trace.Off() && Settled(q, s)))
    }

    /** Whatever a memo entry stands for has been granted. */
    ghost predicate MemoHolds(q: Query)
      reads this
    {
      forall g | g in checkedGroups :: GroupGrant(q, g, checkedGroups[g]) <= granted
    }

    /** The permission record of one object group. */
    method AuthorizeObjGroup(trace: Trace, request: Access, group: string, access: Access, filter: string)
      returns (isAuthorized: bool)
      requires Valid() && MemoHolds(TheQuery(request, filter))
      modifies this`granted, this`checkedGroups, this`treeGroupsO, this`treeGroupsS
      ensures granted == old(granted) + GroupGrant(TheQuery(request, filter), group, access)
      ensures MemoHolds(TheQuery(request, filter))
      ensures isAuthorized ==> trace.Off() && request <= granted
    {
      ghost var q := TheQuery(request, filter);
      if trace.Off() {
        var leftToCheck := request - granted;
        if leftToCheck * access == {} {
          NothingLeft(q, group, access, granted);
          return false;
        }
        if group in checkedGroups && checkedGroups[group] == access {
          return false;
        }
        checkedGroups := checkedGroups[group := access];
      }
      var done := ConsultRecord(trace, request, group, access, filter);
      return done || (request <= granted && trace.Off());
    }

    /** The part of it behind the memo. */
    method ConsultRecord(trace: Trace, request: Access, group: string, access: Access, filter: string)
      returns (done: bool)
      requires Valid()
      modifies this`granted, this`treeGroupsO, this`treeGroupsS
      ensures granted == old(granted) + GroupGrant(TheQuery(request, filter), group, access)
      ensures done ==> trace.Off() && request <= granted
    {
      ghost var q := TheQuery(request, filter);
      var record := ReadRecord(db, PERMISSION_PREFIX, filter + group, index.permissions);
      if record.None? {
        assert Edges(q.permissions, filter + group) == [];
        return false;
      }
      assert Edges(q.permissions, filter + group) == record.value;
      done := GrantPermissions(trace, request, group, access, record.value);
    }

    /** The loop over the entries of a permission record. */
    method GrantPermissions(trace: Trace, request: Access, group: string, access: Access, permissions: seq<Entry>)
      returns (done: bool)
      modifies this`granted, this`treeGroupsO, this`treeGroupsS
      ensures granted == old(granted) + Granted(permissions, subjectGroups) * request * access * ALLOW
      ensures done ==> trace.Off() && request <= granted
    {
      var idx := 0;
      while idx < |permissions|
        invariant 0 <= idx <= |permissions|
        invariant granted == old(granted) + Granted(permissions[..idx], subjectGroups) * request * access * ALLOW
      {
        var permission := permissions[idx];
        assert permissions[..idx + 1] == permissions[..idx] + [permission];
        GrantedSnoc(permissions[..idx], permission, subjectGroups);
        if permission.id in subjectGroups {
          done := GrantPermission(trace, request, group, access, permission);
          if done {
            GrantedPrefix(permissions, idx + 1, subjectGroups);
            return;
          }
        }
        idx := idx + 1;
      }
      assert permissions[..idx] == permissions;
      return false;
    }

    /** The loop over the four access bits of one permission entry. */
    method GrantPermission(trace: Trace, request: Access, group: string, access: Access, permission: Entry)
      returns (done: bool)
      modifies this`granted, this`treeGroupsO, this`treeGroupsS
      ensures granted == old(granted) + PermissionAccess(permission.access) * request * access
      ensures done ==> trace.Off() && request <= granted
    {
      var permissionAccess := PermissionAccess(permission.access);
      for i := 0 to |ACCESS_LIST|
        invariant granted == old(granted) + (set b | b in ACCESS_LIST[..i]) * permissionAccess * request * access
      {
        var bit := ACCESS_LIST[i];
        assert ACCESS_LIST[..i + 1] == ACCESS_LIST[..i] + [bit];
        if bit in request && bit in access && bit in permissionAccess {
          var previous := granted;
          granted := granted + {bit};
          if request <= granted && trace.Off() {
            return true;
          }
          if trace.isInfo && previous != granted {
            treeGroupsO, treeGroupsS := ForgetPath(treeGroupsO, group), ForgetPath(treeGroupsS, permission.id);
          }
        }
      }
      assert forall b | b in ALLOW :: b in ACCESS_LIST;
      return false;
    }

    /** Whether the exclusive group has been found, as the groups of an object are met. */
    method NoteExclusive(request: Access, filter: string, uri: string, level: nat, g: Entry, last: bool, suffix: bool)
      returns (suffix': bool)
      requires g.id != ""
      modifies this`foundExclusive
      ensures var q := TheQuery(request, filter); var found := needExclusive && old(foundExclusive);
              && suffix' == SuffixAfter(q, level, g, suffix, found)
              && (needExclusive && foundExclusive) == FoundAfter(q, uri, level, g, last, suffix, found)
    {
      suffix' := suffix;
      if needExclusive && !foundExclusive {
        if level == 0 {
          if Contains(g.id, "_group") {
            suffix' := true;
          }
          if last && !suffix' {
            foundExclusive := true;
          }
          if Contains(g.id, "cfg:TTLResourcesGroup") {
            foundExclusive := true;
          }
        }
        if !foundExclusive && (level == 0 || Contains(uri, "_group")) {
          if g.id in subjectGroups && subjectGroups[g.id].marker == IS_EXCLUSIVE {
            foundExclusive := true;
          }
        }
      }
    }

    /** A group is entered: its permissions, then its own groups. */
    method EnterGroup(trace: Trace, request: Access, id: string, access: Access, filter: string, level: nat,
            ghost s: State)
      returns (done: bool)
      requires Valid() && MemoHolds(TheQuery(request, filter)) && level <= MAX_LEVEL
      requires Agrees(Mark(s, id, access))
      modifies this`granted, this`checkedGroups, this`treeGroupsO, this`treeGroupsS, this`walkedGroupsO, this`foundExclusive
      ensures var q := TheQuery(request, filter);
              Tracks(q, trace, Walk(q, id, access, level + 1, Enter(q, id, access, s)))
      ensures MemoHolds(TheQuery(request, filter))
      ensures done ==> trace.Off() && Settled(TheQuery(request, filter), StateNow())
      decreases MAX_LEVEL + 1 - level, 0
    {
      ghost var q := TheQuery(request, filter);
      ghost var entered := Enter(q, id, access, s);
      var res := AuthorizeObjGroup(trace, request, id, access, filter);
      if res && (!needExclusive || foundExclusive) {
        SettledWalk(q, id, access, level + 1, entered);
        return true;
      }
      var _ := PrepareObjGroup(trace, request, id, access, filter, level + 1, entered);
      return false;
    }

    /** One membership of an object or of a group. */
    method VisitGroup(trace: Trace, request: Access, uri: string, access: Access, filter: string, level: nat,
            group: Entry, ghost s: State)
      returns (done: bool)
      requires Valid() && MemoHolds(TheQuery(request, filter)) && Agrees(s) && level <= MAX_LEVEL
      modifies this`granted, this`checkedGroups, this`treeGroupsO, this`treeGroupsS, this`walkedGroupsO, this`foundExclusive
      ensures var q := TheQuery(request, filter);
              Tracks(q, trace, Visit(q, uri, access, level, group, s))
      ensures MemoHolds(TheQuery(request, filter))
      ensures done ==> trace.Off() && Settled(TheQuery(request, filter), StateNow())
      decreases MAX_LEVEL + 1 - level, 1
    {
      var newAccess := group.access * access;
      if group.id == "" || group.marker == IS_EXCLUSIVE {
        return false;
      }
      var previous: Access := {};
      if group.id in walkedGroupsO {
        previous := walkedGroupsO[group.id];
        if newAccess <= previous {
          return false;
        }
      }
      walkedGroupsO := walkedGroupsO[group.id := newAccess + previous];
      if trace.isInfo {
        treeGroupsO := treeGroupsO[group.id := uri];
      }
      if uri == group.id {
        return false;
      }
      done := EnterGroup(trace, request, group.id, newAccess, filter, level, s);
    }

    /** The groups of an object. In every mode the rights granted, and whether the
        exclusive group was found, are those of the slow form; the walked groups are too,
        unless the answer was settled before. */
    method PrepareObjGroup(trace: Trace, request: Access, uri: string, access: Access, filter: string, level: nat,
            ghost s: State)
      returns (done: bool)
      requires Valid() && MemoHolds(TheQuery(request, filter)) && Agrees(s) && level <= MAX_LEVEL + 1
      modifies this`granted, this`checkedGroups, this`treeGroupsO, this`treeGroupsS, this`walkedGroupsO, this`foundExclusive
      ensures var q := TheQuery(request, filter);
              Tracks(q, trace, Walk(q, uri, access, level, s))
      ensures MemoHolds(TheQuery(request, filter))
      ensures done ==> trace.Off() && Settled(TheQuery(request, filter), StateNow())
      decreases MAX_LEVEL + 1 - level, 3
    {
      if level > MAX_LEVEL {
        return false;
      }
      var record := ReadRecord(db, MEMBERSHIP_PREFIX, uri, index.memberships);
      if record.None? {
        if level == 0 {
          foundExclusive := true;
        }
        return false;
      }
      done := PrepareGroups(trace, request, uri, access, filter, level, record.value, s);
      if !done && |record.value| == 0 {
        foundExclusive := true;
      }
    }

    /** One turn of the loop over the memberships of `uri`. */
    method VisitNext(trace: Trace, request: Access, uri: string, access: Access, filter: string, level: nat,
            groups: seq<Entry>, idx: nat, suffix: bool, ghost s: State)
      returns (done: bool, suffix': bool, ghost next: State)
      requires Valid() && MemoHolds(TheQuery(request, filter)) && Agrees(s) && level <= MAX_LEVEL && idx < |groups|
      modifies this`granted, this`checkedGroups, this`treeGroupsO, this`treeGroupsS, this`walkedGroupsO, this`foundExclusive
      ensures var q := TheQuery(request, filter);
              && WalkFrom(q, uri, access, level, groups, idx, suffix, s) == WalkFrom(q, uri, access, level, groups, idx + 1, suffix', next)
              && Tracks(q, trace, next)
              && (Settled(q, s) ==> SameAnswer(s, next))
      ensures MemoHolds(TheQuery(request, filter))
      ensures done ==> trace.Off() && Settled(TheQuery(request, filter), StateNow())
      decreases MAX_LEVEL + 1 - level, 2, 0
    {
      ghost var q := TheQuery(request, filter);
      var group := groups[idx];
      ghost var s1 := Note(q, uri, level, group, idx == |groups| - 1, suffix, s);
      suffix' := suffix;
      if group.id != "" {
        suffix' := NoteExclusive(request, filter, uri, level, group, idx == |groups| - 1, suffix);
      }
      next := Visit(q, uri, access, level, group, s1);
      VisitGrows(q, uri, access, level, group, s1);
      done := VisitGroup(trace, request, uri, access, filter, level, group, s1);
    }

    /** The loop over the memberships of `uri`. */
    method PrepareGroups(trace: Trace, request: Access, uri: string, access: Access, filter: string, level: nat,
            groups: seq<Entry>, ghost s: State)
      returns (done: bool)
      requires Valid() && MemoHolds(TheQuery(request, filter)) && Agrees(s) && level <= MAX_LEVEL
      modifies this`granted, this`checkedGroups, this`treeGroupsO, this`treeGroupsS, this`walkedGroupsO, this`foundExclusive
      ensures var q := TheQuery(request, filter);
              Tracks(q, trace, WalkFrom(q, uri, access, level, groups, 0, false, s))
      ensures MemoHolds(TheQuery(request, filter))
      ensures done ==> trace.Off() && Settled(TheQuery(request, filter), StateNow()) && groups != []
      decreases MAX_LEVEL + 1 - level, 2, 1
    {
      ghost var q := TheQuery(request, filter);
      ghost var total := WalkFrom(q, uri, access, level, groups, 0, false, s);
      ghost var cur := s;
      var suffix := false;
      for idx := 0 to |groups|
        invariant TheQuery(request, filter) == q && MemoHolds(q) && Agrees(cur)
        invariant WalkFrom(q, uri, access, level, groups, idx, suffix, cur) == total
               || (trace.Off() && Settled(q, cur) && SameAnswer(cur, total))
      {
        ghost var next;
        ghost var s0 := cur;
        done, suffix, next := VisitNext(trace, request, uri, access, filter, level, groups, idx, suffix, cur);
        cur := if walkedGroupsO == next.walked then next else StateNow();
        if Settled(q, next) {
          SettledWalkFrom(q, uri, access, level, groups, idx + 1, suffix, next);
        }
        if done {
          return;
        }
      }
      return false;
    }

    // ------------------------------------------------------------- the subject

    ghost predicate SubjectAgrees(s: SubjectWalk.State)
      reads this
    {
      walkedGroupsS == s.walked && subjectGroups == s.results && needExclusive == s.exclusive
    }

    /** The groups of the user, gathered in `subjectGroups`. */
    method GetResourceGroups(trace: Trace, uri: string, access: Access, level: nat, ignore: bool,
            ghost s: SubjectWalk.State)
      requires Valid() && SubjectAgrees(s) && level <= MAX_LEVEL + 1
      modifies this`walkedGroupsS, this`subjectGroups, this`needExclusive, this`treeGroupsS
      ensures SubjectAgrees(SubjectWalk.Walk(index.memberships, uri, access, level, ignore, s))
      decreases MAX_LEVEL + 1 - level, 1
    {
      if level > MAX_LEVEL {
        return;
      }
      var record := ReadRecord(db, MEMBERSHIP_PREFIX, uri, index.memberships);
      if record.None? {
        return;
      }
      var groups := record.value;
      ghost var total := SubjectWalk.WalkFrom(index.memberships, uri, access, level, ignore, groups, 0, s);
      ghost var cur := s;
      for idx := 0 to |groups|
        invariant SubjectAgrees(cur)
        invariant SubjectWalk.WalkFrom(index.memberships, uri, access, level, ignore, groups, idx, cur) == total
      {
        VisitSubjectGroup(trace, uri, access, level, ignore, groups, idx, cur);
        cur := SubjectWalk.WalkOne(index.memberships, uri, access, level, ignore, groups, idx, cur);
      }
    }

    method VisitSubjectGroup(trace: Trace, uri: string, access: Access, level: nat, ignore: bool, groups: seq<Entry>,
            idx: nat, ghost s: SubjectWalk.State)
      requires Valid() && SubjectAgrees(s) && level <= MAX_LEVEL && idx < |groups|
      modifies this`walkedGroupsS, this`subjectGroups, this`needExclusive, this`treeGroupsS
      ensures SubjectAgrees(SubjectWalk.WalkOne(index.memberships, uri, access, level, ignore, groups, idx, s))
      decreases MAX_LEVEL + 1 - level, 0, 1
    {
      var group := groups[idx];
      if group.id == "" {
        return;
      }
      var newAccess := group.access * access;
      var previous: Access := {};
      if group.id in walkedGroupsS {
        previous := walkedGroupsS[group.id].0;
        if newAccess <= previous && group.marker == walkedGroupsS[group.id].1 {
          return;
        }
      }
      walkedGroupsS := walkedGroupsS[group.id := (newAccess + previous, group.marker)];
      if trace.isInfo {
        treeGroupsS := treeGroupsS[group.id := uri];
      }
      if uri == group.id {
        return;
      }
      EnterSubjectGroup(trace, group, newAccess, level, ignore, SubjectWalk.Mark(s, group.id, newAccess, group.marker));
    }

    /** The group's own groups first, then the group itself. */
    method EnterSubjectGroup(trace: Trace, group: Entry, access: Access, level: nat, ignore: bool,
            ghost s: SubjectWalk.State)
      requires Valid() && SubjectAgrees(s) && level <= MAX_LEVEL
      modifies this`walkedGroupsS, this`subjectGroups, this`needExclusive, this`treeGroupsS
      ensures var t := SubjectWalk.Walk(index.memberships, group.id, ALLOW, level + 1, ignore || group.marker == IGNORE_EXCLUSIVE, s);
              SubjectAgrees(SubjectWalk.Record(t, group, access, level, ignore))
      decreases MAX_LEVEL + 1 - level, 0, 0
    {
      GetResourceGroups(trace, group.id, ALLOW, level + 1, ignore || group.marker == IGNORE_EXCLUSIVE, s);
      if !ignore && group.marker == IS_EXCLUSIVE {
        if trace.isInfo {
          treeGroupsS := ForgetPath(treeGroupsS, group.id);
        }
        needExclusive := true;
      }
      var marker := group.marker;
      if group.id in subjectGroups && subjectGroups[group.id].marker != NO_MARKER {
        marker := subjectGroups[group.id].marker;
      }
      subjectGroups := subjectGroups[group.id := Entry(group.id, access, marker, level)];
    }

    // ------------------------------------------------------------- the answer

    method FinalCheck() returns (res: bool)
      ensures res <==> (needExclusive ==> foundExclusive)
    {
      res := false;
      if !needExclusive {
        res := true;
      }
      if needExclusive && foundExclusive {
        res := true;
      }
    }

    /** One consultation of an untraced phase, and whether the code answers at once after it.
        `enough` says what must have been granted for that, besides what the phase asks. */
    method ConsultOnce(trace: Trace, asked: Access, group: string, filter: string, enough: Option<Access>)
      returns (answered: bool)
      requires Valid() && MemoHolds(TheQuery(asked, filter)) && trace.Off()
      modifies this`granted, this`checkedGroups, this`treeGroupsO, this`treeGroupsS
      ensures granted == old(granted) + GroupGrant(TheQuery(asked, filter), group, ALLOW)
      ensures MemoHolds(TheQuery(asked, filter))
      ensures answered ==> asked <= granted && (needExclusive ==> foundExclusive) && (enough.Some? ==> enough.value == granted)
    {
      var res := AuthorizeObjGroup(trace, asked, group, ALLOW, filter);
      var final := FinalCheck();
      answered := res && (enough.None? || enough.value == granted) && final;
    }

    /** What is settled before the walk over the groups is settled after it. */
    lemma SettledPhase(asked: Access, filter: string, s: State)
      requires asked <= granted <= s.granted + GroupGrant(TheQuery(asked, filter), ALL_RESOURCES, ALLOW)
                                  + GroupGrant(TheQuery(asked, filter), uri, ALLOW)
      requires s.granted + GroupGrant(TheQuery(asked, filter), ALL_RESOURCES, ALLOW) <= granted
      requires (needExclusive ==> foundExclusive) && s.found == (needExclusive && foundExclusive)
      ensures SameAnswer(StateNow(), Phase(TheQuery(asked, filter), uri, s))
    {
      var q := TheQuery(asked, filter);
      SettledWalk(q, uri, ALLOW, 0,
        s.(granted := s.granted + GroupGrant(q, ALL_RESOURCES, ALLOW) + GroupGrant(q, uri, ALLOW)));
    }

    /** The three consultations of the plain phase, with the places where the code may
        answer at once. `request` is the whole request, `allowed` what the plain
        permissions may answer of it. */
    method RunPlain(trace: Trace, request: Access, allowed: Access, filtered: bool, ghost s: State)
      returns (answered: bool)
      requires Valid() && Agrees(s) && checkedGroups == map[] && trace.Off()
      modifies this`granted, this`checkedGroups, this`treeGroupsO, this`treeGroupsS, this`walkedGroupsO, this`foundExclusive
      ensures SameAnswer(StateNow(), Phase(TheQuery(allowed, ""), uri, s))
      ensures answered ==> (needExclusive ==> foundExclusive)
      ensures answered && filtered ==> request == granted
    {
      hide Walk;
      var enough := if filtered then Some(request) else None;
      answered := ConsultOnce(trace, allowed, ALL_RESOURCES, "", enough);
      if answered {
        SettledPhase(allowed, "", s);
        return;
      }
      answered := ConsultOnce(trace, allowed, uri, "", enough);
      if answered {
        SettledPhase(allowed, "", s);
        return;
      }
      answered := RunGroups(trace, request, allowed, "", filtered, s);
    }

    /** The last consultation: the groups of the object. */
    method RunGroups(trace: Trace, request: Access, asked: Access, filter: string, filtered: bool, ghost s: State)
      returns (answered: bool)
      requires Valid() && MemoHolds(TheQuery(asked, filter)) && walkedGroupsO == s.walked
      requires s.found == (needExclusive && foundExclusive)
      requires granted == s.granted + GroupGrant(TheQuery(asked, filter), ALL_RESOURCES, ALLOW)
                          + GroupGrant(TheQuery(asked, filter), uri, ALLOW)
      modifies this`granted, this`checkedGroups, this`treeGroupsO, this`treeGroupsS, this`walkedGroupsO, this`foundExclusive
      ensures SameAnswer(StateNow(), Phase(TheQuery(asked, filter), uri, s))
      ensures answered ==> (needExclusive ==> foundExclusive)
      ensures answered && filtered ==> request == granted
    {
      ghost var q := TheQuery(asked, filter);
      ghost var s1 := s.(granted := s.granted + GroupGrant(q, ALL_RESOURCES, ALLOW) + GroupGrant(q, uri, ALLOW));
      assert Agrees(s1);
      var res := PrepareObjGroup(trace, asked, uri, ALLOW, filter, 0, s1);
      var final := FinalCheck();
      return res && (!filtered || request == granted) && final;
    }

    /** The same in trace mode. The consultations never say that the request is
        authorized; after the last of them the code answers if it may. */
    method RunPlainTraced(trace: Trace, allowed: Access, ghost s: State) returns (answered: bool)
      requires Valid() && Agrees(s) && checkedGroups == map[] && !trace.Off()
      modifies this`granted, this`checkedGroups, this`treeGroupsO, this`treeGroupsS, this`walkedGroupsO, this`foundExclusive
      ensures SameAnswer(StateNow(), Phase(TheQuery(allowed, ""), uri, s))
      ensures answered <==> (needExclusive ==> foundExclusive)
    {
      ghost var q := TheQuery(allowed, "");
      ghost var s1 := s.(granted := s.granted + GroupGrant(q, ALL_RESOURCES, ALLOW) + GroupGrant(q, uri, ALLOW));
      var res := AuthorizeObjGroup(trace, allowed, ALL_RESOURCES, ALLOW, "");
      res := AuthorizeObjGroup(trace, allowed, uri, ALLOW, "");
      assert Agrees(s1);
      res := PrepareObjGroup(trace, allowed, uri, ALLOW, "", 0, s1);
      var final := FinalCheck();
      return !res && final;
    }

    /** The same for the phase of the filter. */
    method RunFiltered(trace: Trace, request: Access, filter: string, ghost s: State)
      returns (answered: bool)
      requires Valid() && Agrees(s) && checkedGroups == map[]
      requires !trace.Off() ==> needExclusive && !foundExclusive
      modifies this`granted, this`checkedGroups, this`treeGroupsO, this`treeGroupsS, this`walkedGroupsO, this`foundExclusive
      ensures SameAnswer(StateNow(), Phase(TheQuery(request, filter), uri, s))
      ensures answered ==> (needExclusive ==> foundExclusive)
    {
      hide Walk;
      if trace.Off() {
        answered := ConsultOnce(trace, request, ALL_RESOURCES, filter, None);
        if answered {
          SettledPhase(request, filter, s);
          return;
        }
        answered := ConsultOnce(trace, request, uri, filter, None);
        if answered {
          SettledPhase(request, filter, s);
          return;
        }
        answered := RunGroups(trace, request, request, filter, false, s);
      } else {
        var res := AuthorizeObjGroup(trace, request, ALL_RESOURCES, ALLOW, filter);
        var final := FinalCheck();
        if !res && final {
          return true;
        }
        res := AuthorizeObjGroup(trace, request, uri, ALLOW, filter);
        final := FinalCheck();
        if !res && final {
          return true;
        }
        ghost var q := TheQuery(request, filter);
        ghost var s1 := s.(granted := s.granted + GroupGrant(q, ALL_RESOURCES, ALLOW) + GroupGrant(q, uri, ALLOW));
        assert Agrees(s1);
        res := PrepareObjGroup(trace, request, uri, ALLOW, filter, 0, s1);
        final := FinalCheck();
        return !res && final;
      }
    }

    /** The groups of the user, and the user himself. */
    method GatherSubject(trace: Trace)
      requires Valid() && SubjectAgrees(SubjectWalk.START)
      modifies this`walkedGroupsS, this`subjectGroups, this`needExclusive, this`treeGroupsS
      ensures subjectGroups == SubjectWalk.SubjectGroups(index.memberships, userUri)
      ensures needExclusive == SubjectWalk.NeedsExclusive(index.memberships, userUri)
    {
      GetResourceGroups(trace, userUri, ALLOW, 0, false, SubjectWalk.START);
      subjectGroups := subjectGroups[userUri := Entry(userUri, ALLOW, NO_MARKER, 0)];
    }

    /** The plain phase in either mode. */
    method RunPlainPhase(trace: Trace, r: Request) returns (answered: bool)
      requires Valid() && r.uri == uri && TheQuery(PlainBits(r), "") == QueryOf(index, r.user, PlainBits(r), "")
      requires Agrees(NOTHING) && checkedGroups == map[]
      modifies this`granted, this`checkedGroups, this`treeGroupsO, this`treeGroupsS, this`walkedGroupsO, this`foundExclusive
      ensures SameAnswer(StateNow(), PlainPhase(index, r))
      ensures answered ==> (needExclusive ==> foundExclusive) && (r.filter == "" || !trace.Off() || r.bits == granted)
      ensures !trace.Off() && (needExclusive ==> foundExclusive) ==> answered
    {
      var allowed := if r.filter != "" then r.bits * r.allow else r.bits;
      if trace.Off() {
        answered := RunPlain(trace, r.bits, allowed, r.filter != "", NOTHING);
      } else {
        answered := RunPlainTraced(trace, allowed, NOTHING);
      }
    }
  }

  /** When the plain phase is not refused, its bits are the answer: for an unfiltered
      object, in trace mode, and when they are the whole request. */
  lemma AnsweredAtOnce(ix: Index, r: Request, traced: bool)
    requires var plain := PlainPhase(ix, r);
             !Refused(ix, r, plain) && (r.filter == "" || traced || plain.granted == r.bits)
    ensures AnswerIn(ix, r, traced) == PlainPhase(ix, r).granted
  {
    var plain := PlainPhase(ix, r);
    if r.filter != "" && !traced {
      PhaseGrows(QueryOf(ix, r.user, r.bits, r.filter), r.uri, plain.(walked := map[]));
    }
  }

  /** A request on an index already taken apart: in every trace mode the answer is that of
      the slow form. */
  method AuthorizeIn(db: Db, ghost index: Index, r: Request, trace: Trace) returns (answer: Access)
    requires Decodes(db, MEMBERSHIP_PREFIX, index.memberships) && Decodes(db, PERMISSION_PREFIX, index.permissions)
    ensures answer == AnswerIn(index, r, !trace.Off())
  {
    hide Phase, SubjectWalk.SubjectGroups, SubjectWalk.NeedsExclusive;
    var azc := new AzContext(db, r.uri, r.user, index);
    azc.GatherSubject(trace);
    var answered := azc.RunPlainPhase(trace, r);
    ghost var plain := PlainPhase(index, r);
    if answered {
      AnsweredAtOnce(index, r, !trace.Off());
      return azc.granted;
    }
    if r.filter != "" {
      azc.checkedGroups := map[];
      azc.walkedGroupsO := map[];
      assert azc.TheQuery(r.bits, r.filter) == QueryOf(index, r.user, r.bits, r.filter);
      answered := azc.RunFiltered(trace, r.bits, r.filter, plain.(walked := map[]));
      if answered {
        return azc.granted;
      }
    }
    var final := azc.FinalCheck();
    return if final then azc.granted else {};
  }

  /** The code answers, in every trace mode and for every index, request and object,
      cyclic groups and exclusive groups included, what the slow form answers. */
  method Authorize(db: Db, uri: string, user: string, request: Access, trace: Trace) returns (answer: Access)
    ensures answer == Answer(db, uri, user, request, !trace.Off())
  {
    var (filter, allow) := Filter(db, uri);
    DecodeDecodes(db, MEMBERSHIP_PREFIX);
    DecodeDecodes(db, PERMISSION_PREFIX);
    answer := AuthorizeIn(db, IndexOf(db), Request(uri, user, request, filter, allow), trace);
  }

  /** On bytes, as `authorize` takes and gives them: the byte answered is the one byte whose
      bits the slow form answers. */
  method AuthorizeByte(db: Db, uri: string, user: string, request: bv8, trace: Trace) returns (answer: bv8)
    ensures forall b: bv8 :: Bits(b) == Answer(db, uri, user, Bits(request), !trace.Off()) <==> b == answer
  {
    var access := Authorize(db, uri, user, Bits(request), trace);
    answer := ByteOf(access);
    BitsOfByteOf(access);
    forall b: bv8 ensures Bits(b) == access <==> b == answer {
      BitsInjective(b, answer);
    }
  }

  /** A record read from the index and taken apart. */
  method ReadRecord(db: Db, prefix: char, name: string, ghost table: Table) returns (record: Option<seq<Entry>>)
    requires Decodes(db, prefix, table)
    ensures record == if name in table then Some(table[name]) else None
  {
    var key := [prefix] + name;
    if key !in db {
      return None;
    }
    var rights, _ := GetElementsFromIndex(db[key]);
    record := Some(Entries(rights));
  }

  /** Nothing that is left to check can come of the group. */
  lemma NothingLeft(q: Query, group: string, access: Access, granted: Access)
    requires (q.request - granted) * access == {}
    ensures GroupGrant(q, group, access) <= granted
  {
    forall b | b in GroupGrant(q, group, access)
      ensures b in granted
    {
      assert b !in granted ==> b in (q.request - granted) * access;
    }
  }

  lemma {:induction false} GrantedSnoc(entries: seq<Entry>, e: Entry, subjects: map<string, Entry>)
    ensures Granted(entries + [e], subjects)
         == Granted(entries, subjects) + if e.id in subjects then PermissionAccess(e.access) else {}
  {
    if entries == [] {
      assert [e][1..] == [];
    } else {
      assert (entries + [e])[1..] == entries[1..] + [e];
      GrantedSnoc(entries[1..], e, subjects);
    }
  }

  lemma {:induction false} GrantedPrefix(entries: seq<Entry>, k: nat, subjects: map<string, Entry>)
    requires k <= |entries|
    ensures Granted(entries[..k], subjects) <= Granted(entries, subjects)
  {
    if k > 0 {
      assert entries[..k][1..] == entries[1..][..k - 1];
      GrantedPrefix(entries[1..], k - 1, subjects);
    }
  }

  /** `get_path` takes the chain of an element out of the tree as it follows it, so that it
      ends on a cyclic tree too; the text it builds goes to the trace only. */
  function ForgetPath(tree: map<string, string>, el: string): (rest: map<string, string>)
    ensures rest.Keys <= tree.Keys && el !in rest
    ensures forall k | k in rest :: rest[k] == tree[k]
    decreases |tree|
  {
    if el in tree then ForgetPath(tree - {el}, tree[el]) else tree
  }
}
