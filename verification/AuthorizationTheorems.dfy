/** What the answers of `_authorize` are, stated without the walks: four reachability
    questions, one per access bit, joined to the permission records. */
module AuthorizationTheorems {
  import opened AccessBits
  import opened AclIndex
  import opened AclGraph
  import opened ObjectWalk
  import opened Authorization
  import opened Text
  import ObjectExclusive
  import SubjectWalk

  /** Bit `b` is due to the user: an object group that hands `b` to the object has a
      permission entry, under keys that start with `filter`, for a group the user reaches
      by memberships, and the entry allows `b` and does not deny it. */
  ghost predicate Entitled(ix: Index, uri: string, user: string, filter: string, b: Bit) {
    exists g, e ::
      && ObjectGroup(ix.memberships, uri, b, g)
      && e in Edges(ix.permissions, filter + g)
      && Reaches(ix.memberships, AnyMembership, user, e.id)
      && b in ALLOW && b in e.access && DenialOf(b) !in e.access
  }

  /** The level guard stopped neither the subject's walk nor the object's. */
  predicate Uncut(ix: Index, r: Request) {
    && !SubjectWalk.SubjectWalkCut(ix.memberships, r.user)
    && !PlainPhase(ix, r).cut
    && (r.filter != "" ==> !FilterPhase(ix, r).cut)
  }

  /** A condition on the index alone under which the guard does not fire. */
  lemma UncutWhenShallow(ix: Index, r: Request)
    requires SubjectWalk.SmallOrShallow(ix.memberships, r.user) && SmallOrShallow(ix.memberships, r.uri)
    ensures Uncut(ix, r)
  {
    SubjectWalk.SubjectWalkCalm(ix.memberships, r.user);
    PhaseNotCut(QueryOf(ix, r.user, PlainBits(r), ""), r.uri, NOTHING);
    if r.filter != "" {
      PhaseNotCut(QueryOf(ix, r.user, r.bits, r.filter), r.uri, PlainPhase(ix, r).(walked := map[]));
    }
  }

  /** The witness a walk finds is an entitlement, and every entitlement is found when the
      subject's walk was not cut. */
  lemma WitnessIsEntitlement(ix: Index, uri: string, user: string, bits: Access, filter: string, b: Bit)
    ensures var q := QueryOf(ix, user, bits, filter);
            && (Witness(q, uri, b) ==> b in bits && Entitled(ix, uri, user, filter, b))
            && (!SubjectWalk.SubjectWalkCut(ix.memberships, user) && b in bits && Entitled(ix, uri, user, filter, b)
                ==> Witness(q, uri, b))
  {
    var q := QueryOf(ix, user, bits, filter);
    if Witness(q, uri, b) {
      var g :| ObjectGroup(q.memberships, uri, b, g) && Permits(q, g, b);
      var e :| e in Edges(q.permissions, q.filter + g) && e.id in q.subjects && b in ALLOW && b in e.access && DenialOf(b) !in e.access;
      SubjectWalk.SubjectGroupsExact(ix.memberships, user, e.id);
      assert ObjectGroup(ix.memberships, uri, b, g) && e in Edges(ix.permissions, filter + g);
    }
    if !SubjectWalk.SubjectWalkCut(ix.memberships, user) && b in bits && Entitled(ix, uri, user, filter, b) {
      var g, e :| ObjectGroup(ix.memberships, uri, b, g) && e in Edges(ix.permissions, filter + g)
        && Reaches(ix.memberships, AnyMembership, user, e.id) && b in ALLOW && b in e.access && DenialOf(b) !in e.access;
      SubjectWalk.SubjectGroupsExact(ix.memberships, user, e.id);
      assert e.id in q.subjects;
      assert Permits(q, g, b);
    }
  }

  /** The bits due to a request: what the plain permissions may answer and give, and, for
      a filtered object, what the permissions under the filter give. */
  ghost predicate Due(ix: Index, r: Request, b: Bit) {
    || (b in PlainBits(r) && Entitled(ix, r.uri, r.user, "", b))
    || (r.filter != "" && b in r.bits && Entitled(ix, r.uri, r.user, r.filter, b))
  }

  lemma PlainExact(ix: Index, r: Request, b: Bit)
    ensures b in PlainPhase(ix, r).granted ==> b in PlainBits(r) && Entitled(ix, r.uri, r.user, "", b)
    ensures Uncut(ix, r) && b in PlainBits(r) && Entitled(ix, r.uri, r.user, "", b) ==> b in PlainPhase(ix, r).granted
  {
    PhaseExact(QueryOf(ix, r.user, PlainBits(r), ""), r.uri, NOTHING, b);
    WitnessIsEntitlement(ix, r.uri, r.user, PlainBits(r), "", b);
  }

  lemma FilteredExact(ix: Index, r: Request, b: Bit)
    requires r.filter != ""
    ensures b in FilterPhase(ix, r).granted ==> Due(ix, r, b)
    ensures Uncut(ix, r) && Due(ix, r, b) ==> b in FilterPhase(ix, r).granted
  {
    PlainExact(ix, r, b);
    PhaseExact(QueryOf(ix, r.user, r.bits, r.filter), r.uri, PlainPhase(ix, r).(walked := map[]), b);
    WitnessIsEntitlement(ix, r.uri, r.user, r.bits, r.filter, b);
  }

  /** A user without exclusive restriction gets, untraced, exactly the bits due to him;
      never more, even if the level guard cuts a walk. */
  lemma AnswerExact(ix: Index, r: Request, b: Bit)
    requires !SubjectWalk.NeedsExclusive(ix.memberships, r.user)
    ensures b in AnswerIn(ix, r, false) ==> Due(ix, r, b)
    ensures Uncut(ix, r) ==> (b in AnswerIn(ix, r, false) <==> Due(ix, r, b))
  {
    PlainExact(ix, r, b);
    if r.filter != "" {
      FilteredExact(ix, r, b);
    }
  }

  /** With an exclusive restriction he gets all of them or nothing. */
  lemma RestrictedAnswer(ix: Index, r: Request)
    ensures var free := if r.filter == "" then PlainPhase(ix, r).granted else FilterPhase(ix, r).granted;
            AnswerIn(ix, r, false) == {} || AnswerIn(ix, r, false) == free
    ensures AnswerIn(ix, r, false) <= r.bits * ALLOW
  {
    PhaseGrows(QueryOf(ix, r.user, PlainBits(r), ""), r.uri, NOTHING);
    if r.filter != "" {
      PhaseGrows(QueryOf(ix, r.user, r.bits, r.filter), r.uri, PlainPhase(ix, r).(walked := map[]));
    }
  }

  /** The user needs no exclusive group, or the object is open to him. */
  ghost predicate Admitted(ix: Index, uri: string, user: string) {
    SubjectWalk.NeedsExclusive(ix.memberships, user) ==> ObjectExclusive.IsOpen(QueryOf(ix, user, {}, ""), uri)
  }

  lemma SameOpen(ix: Index, uri: string, user: string, bits: Access, filter: string)
    ensures ObjectExclusive.IsOpen(QueryOf(ix, user, bits, filter), uri)
       <==> ObjectExclusive.IsOpen(QueryOf(ix, user, {}, ""), uri)
  {
    var q, r := QueryOf(ix, user, bits, filter), QueryOf(ix, user, {}, "");
    assert q.memberships == r.memberships && q.subjects == r.subjects;
    hide QueryOf, Reaches, Contains;
    assert forall e :: ObjectExclusive.IsShared(q, e) <==> ObjectExclusive.IsShared(r, e);
    assert forall u :: ObjectExclusive.Opens(q, u) <==> ObjectExclusive.Opens(r, u);
  }

  /** The untraced answer to any user, restricted or not: the bits due to him if he is admitted,
      and nothing otherwise; never more, even if the level guard cuts a walk. */
  lemma AnswerToAdmitted(ix: Index, r: Request, b: Bit)
    ensures b in AnswerIn(ix, r, false) ==> Due(ix, r, b) && Admitted(ix, r.uri, r.user)
    ensures Uncut(ix, r) ==> (b in AnswerIn(ix, r, false) <==> Due(ix, r, b) && Admitted(ix, r.uri, r.user))
  {
    hide ObjectExclusive.IsOpen, Due, Entitled;
    PlainDue(ix, r, b);
    if r.filter != "" {
      FilteredExact(ix, r, b);
    }
    if SubjectWalk.NeedsExclusive(ix.memberships, r.user) {
      SameOpen(ix, r.uri, r.user, PlainBits(r), "");
      ObjectExclusive.FoundExact(QueryOf(ix, r.user, PlainBits(r), ""), r.uri, NOTHING);
      if r.filter != "" {
        SameOpen(ix, r.uri, r.user, r.bits, r.filter);
        ObjectExclusive.FoundExact(QueryOf(ix, r.user, r.bits, r.filter), r.uri, PlainPhase(ix, r).(walked := map[]));
      }
    }
  }

  lemma PlainDue(ix: Index, r: Request, b: Bit)
    ensures r.filter == "" ==> (b in PlainPhase(ix, r).granted ==> Due(ix, r, b))
    ensures r.filter == "" && Uncut(ix, r) ==> (b in PlainPhase(ix, r).granted <==> Due(ix, r, b))
  {
    PlainExact(ix, r, b);
  }

  /** So it is for every hierarchy the guard does not cut and every user who reaches no
      exclusive membership. */
  lemma ShallowAnswerExact(ix: Index, r: Request, b: Bit)
    requires SubjectWalk.SmallOrShallow(ix.memberships, r.user) && SmallOrShallow(ix.memberships, r.uri)
    requires SubjectWalk.NoneExclusive(ix.memberships, r.user)
    ensures b in AnswerIn(ix, r, false) <==> Due(ix, r, b)
  {
    UncutWhenShallow(ix, r);
    SubjectWalk.SubjectWalkCalm(ix.memberships, r.user);
    AnswerExact(ix, r, b);
  }

  // ------------------------------------------------------------- the trace modes

  /** Tracing changes the answer exactly when the object is filtered, the plain phase is
      not refused, and the filter's permissions give a bit the plain ones did not: the
      trace mode returns before it looks at them. */
  lemma TraceModesAgree(ix: Index, r: Request)
    ensures AnswerIn(ix, r, true) == AnswerIn(ix, r, false)
       <==> r.filter == "" || Refused(ix, r, PlainPhase(ix, r)) || FilterPhase(ix, r).granted == PlainPhase(ix, r).granted
  {
    PhaseGrows(QueryOf(ix, r.user, r.bits, r.filter), r.uri, PlainPhase(ix, r).(walked := map[]));
  }

  /** The same in terms of what is due, for uncut walks. */
  lemma TraceModesAgreeWhenDue(ix: Index, r: Request)
    requires Uncut(ix, r) && !SubjectWalk.NeedsExclusive(ix.memberships, r.user)
    ensures AnswerIn(ix, r, true) == AnswerIn(ix, r, false)
       <==> r.filter == "" || forall b | b in r.bits && Entitled(ix, r.uri, r.user, r.filter, b) ::
              b in PlainBits(r) && Entitled(ix, r.uri, r.user, "", b)
  {
    TraceModesAgree(ix, r);
    if r.filter != "" {
      forall b: Bit
        ensures b in FilterPhase(ix, r).granted <==> Due(ix, r, b)
        ensures b in PlainPhase(ix, r).granted <==> b in PlainBits(r) && Entitled(ix, r.uri, r.user, "", b)
      {
        FilteredExact(ix, r, b);
        PlainExact(ix, r, b);
      }
    }
  }

  /** A filtered object whose reader is refused in trace mode only. */
  lemma TraceModesDiffer()
    ensures exists ix: Index, r: Request ::
      AnswerIn(ix, r, false) == {Read} && AnswerIn(ix, r, true) == {}
  {
    var ix := Index(map[], map["fo" := [Entry("u", {Read}, NO_MARKER, 0)]]);
    var r := Request("o", "u", {Read}, "f", {});
    var plain := PlainPhase(ix, r);
    assert plain.granted == {};
    assert r.filter + r.uri == "fo";
    var q := QueryOf(ix, "u", {Read}, "f");
    assert "u" in q.subjects;
    assert Granted(ix.permissions["fo"], q.subjects) == PermissionAccess({Read}) == {Read};
    assert GroupGrant(q, "o", ALLOW) == {Read};
    assert FilterPhase(ix, r).granted == {Read};
    assert AnswerIn(ix, r, false) == {Read} && AnswerIn(ix, r, true) == {};
  }
}
