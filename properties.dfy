/** Properties of the decision engine that relate several calls, several
    sessions or several registries (index.js:18-100). */
module UserIsProperties {

  import opened Wrappers
  import opened UserIs

  /** A session over the same authorizer, with one action's role list replaced. */
  function WithActionRoles<Req, U, E>(s: Session<Req, U, E>, action: string, roles: seq<string>): Session<Req, U, E> {
    s.(auth := s.auth.(actions := s.auth.actions[action := roles]))
  }

  /** The role registry, the flag and the user decide `a`: the action registry
      plays no part, so two sessions that agree on those agree on every role. */
  lemma RoleAnswerIgnoresActions<Req, U, E>(s: Session<Req, U, E>, t: Session<Req, U, E>, role: string)
    requires s.auth.roles == t.auth.roles && s.auth.errorOnMissingDefinitions == t.auth.errorOnMissingDefinitions
    requires s.user == t.user
    ensures A(s, role) == A(t, role)
  {
  }

  /** An undefined role is answered without consulting any predicate: the
      answer is the same for every user and whatever the other roles are. */
  lemma MissingRoleConsultsNoPredicate<Req, U, E>(s: Session<Req, U, E>, t: Session<Req, U, E>, role: string)
    requires role !in s.auth.roles && role !in t.auth.roles
    requires s.auth.errorOnMissingDefinitions == t.auth.errorOnMissingDefinitions
    ensures A(s, role) == A(t, role)
    ensures !A(s, role).decision
  {
  }

  /** The strictness flag only decides whether an error accompanies a missing
      definition: the decisions of `a` and `ableTo` are the same either way. */
  lemma StrictnessNeverChangesDecision<Req, U, E>(s: Session<Req, U, E>, role: string, action: string)
    ensures var t := s.(auth := s.auth.(errorOnMissingDefinitions := !s.auth.errorOnMissingDefinitions));
      && A(t, role).decision == A(s, role).decision
      && AbleTo(t, action).decision == AbleTo(s, action).decision
  {
  }

  /** The scan of a defined action never reports an error, and its decision is
      exactly "some listed role grants", with undefined and failing roles
      counting as not granting. */
  lemma DefinedActionNeverErrs<Req, U, E>(s: Session<Req, U, E>, action: string)
    requires action in s.auth.actions
    ensures AbleTo(s, action).err.None?
    ensures AbleTo(s, action).decision <==>
              exists i :: 0 <= i < |s.auth.actions[action]| && A(s, s.auth.actions[action][i]).decision
  {
  }

  /** An action defined with an empty role list is defined, so it is refused
      with no error even in strict mode. */
  lemma EmptyRoleListDenies<Req, U, E>(s: Session<Req, U, E>, action: string)
    requires action in s.auth.actions && s.auth.actions[action] == []
    ensures AbleTo(s, action) == Reply(None, false)
  {
  }

  /** An action with a single role answers with that role's decision but drops
      its error: a failing predicate, or an undefined role in strict mode,
      becomes a plain refusal. */
  lemma SingleRoleActionDropsError<Req, U, E>(s: Session<Req, U, E>, action: string, role: string)
    requires action in s.auth.actions && s.auth.actions[action] == [role]
    ensures AbleTo(s, action) == Reply(None, A(s, role).decision)
  {
  }

  /** Reordering an action's role list, or repeating or dropping duplicates in
      it, does not change the answer: only the set of listed roles matters. */
  lemma AbleToIgnoresOrderAndDuplicates<Req, U, E>(s: Session<Req, U, E>, action: string, roles: seq<string>)
    requires action in s.auth.actions
    requires forall role :: role in roles <==> role in s.auth.actions[action]
    ensures AbleTo(WithActionRoles(s, action, roles), action) == AbleTo(s, action)
  {
  }

  /** A listed role that does not grant (its predicate failed or said false,
      or it is undefined, in strict mode too) neither aborts the scan nor
      changes its outcome: the answer is that of the list without it. */
  lemma NonGrantingRoleDoesNotAbortScan<Req, U, E>(
    s: Session<Req, U, E>, action: string, before: seq<string>, role: string, after: seq<string>)
    requires action in s.auth.actions && s.auth.actions[action] == before + [role] + after
    requires !A(s, role).decision
    ensures AbleTo(s, action) == AbleTo(WithActionRoles(s, action, before + after), action)
  {
    var t := WithActionRoles(s, action, before + after);
    forall r | r in before + after ensures A(t, r) == A(s, r) {
      RoleAnswerIgnoresActions(s, t, r);
    }
    forall r | r in before + [role] + after && A(s, r).decision ensures r in before + after { }
    assert SomeRoleGrants(t, before + after) == SomeRoleGrants(s, before + [role] + after);
  }

  /** The middleware lets the request through iff the retriever succeeded with
      a user, the action is defined, and one of its roles grants that user. */
  lemma GateProceedsIffGranted<Req, U, E>(auth: Authorizer<Req, U, E>, action: string, req: Req)
    requires auth.retrieveUserFromRequest.Some?
    ensures var got := auth.retrieveUserFromRequest.value(req);
      (EnsureAuthorizedTo(auth, action, req) == Proceed <==>
         && got.err.None? && got.user.Some? && action in auth.actions
         && SomeRoleGrants(ForUser(auth, got.user.value), auth.actions[action]))
  {
  }

  /** The only caller error the middleware passes on is the retriever's: the
      errors of role predicates never reach `next`. */
  lemma GateForwardsOnlyRetrievalErrors<Req, U, E>(auth: Authorizer<Req, U, E>, action: string, req: Req)
    requires auth.retrieveUserFromRequest.Some?
    ensures var o := EnsureAuthorizedTo(auth, action, req);
            var got := auth.retrieveUserFromRequest.value(req);
      (o.Fail? && o.error.Upstream?) <==> got.err.Some?
    ensures var o := EnsureAuthorizedTo(auth, action, req);
      (o.Fail? && o.error.Coded? && o.error.code == MissingDefinition)
        ==> action !in auth.actions && auth.errorOnMissingDefinitions
  {
  }
}
