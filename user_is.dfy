/** The decision engine of node-user-can (index.js): an authorizer built from a
    role registry, an action registry and one flag; per-user sessions answering
    "is the user a <role>?" (`a`) and "is the user able to <action>?" (`ableTo`);
    and the middleware gate `ensureAuthorizedTo`.

    The source is written with callbacks.  Every callback that receives an
    `(err, value)` pair is modelled by the function returning that pair as a
    datatype, and the middleware's single `next(err?)` call by an `Outcome`.
    Role predicates and the user retriever are supplied by the caller; they are
    total functions here. */
module UserIs {

  import opened Wrappers

  // ---------------------------------------------------------------------------
  // Error taxonomy (index.js:7-9, 108-109)
  // ---------------------------------------------------------------------------

  /** The `code` field the library sets on the errors it creates itself. */
  datatype Code = MissingDefinition | NotAuthorized | UserNotFound

  /** The stable string of each code, as callers compare `err.code` against it. */
  function CodeName(c: Code): (name: string)
    ensures |name| > 2 && name[..2] == "E_"
    ensures c == MissingDefinition <==> name == "E_MISSINGDEFINITION"
    ensures c == NotAuthorized <==> name == "E_NOTAUTHORIZED"
    ensures c == UserNotFound <==> name == "E_USERNOTFOUND"
  {
    match c
    case MissingDefinition => "E_MISSINGDEFINITION"
    case NotAuthorized => "E_NOTAUTHORIZED"
    case UserNotFound => "E_USERNOTFOUND"
  }

  /** An error handed to a callback: either one the library creates, carrying a
      code, or one produced by caller-supplied code (a role predicate or the
      user retriever), passed on unchanged. */
  datatype Failure<E> = Coded(code: Code) | Upstream(cause: E)

  /** The `(err, decision)` pair a role predicate, `a` or `ableTo` hands to its
      callback. */
  datatype Reply<X> = Reply(err: Option<X>, decision: bool)

  /** The `(err, user)` pair the user retriever hands to its callback; `None`
      for the user stands for a falsy user. */
  datatype Retrieved<U, E> = Retrieved(err: Option<E>, user: Option<U>)

  /** What the middleware passes to `next`: nothing (`next()`), or one error. */
  datatype Outcome<E> = Proceed | Fail(error: Failure<E>)

  // ---------------------------------------------------------------------------
  // Construction (index.js:11-16)
  // ---------------------------------------------------------------------------

  /** A role predicate: the user in, `(err, isRole)` out. */
  type RolePredicate<!U, E> = U -> Reply<E>

  /** The caller's `options` object; `None` fields are properties left undefined. */
  datatype Options<!Req, !U, E> = Options(
    errorOnMissingDefinitions: Option<bool>,
    retrieveUserFromRequest: Option<Req -> Retrieved<U, E>>)

  /** The registries and the configuration every session and gate reads. */
  datatype Authorizer<!Req, !U, E> = Authorizer(
    roles: map<string, RolePredicate<U, E>>,
    actions: map<string, seq<string>>,
    errorOnMissingDefinitions: bool,
    retrieveUserFromRequest: Option<Req -> Retrieved<U, E>>)

  /** `UserIs(roleFuncs, actionDefinitions, options)`: absent arguments become
      empty registries and empty options, and the strictness flag defaults to
      true when it was not supplied; a supplied value, `false` included, is kept. */
  function New<Req, U, E>(
    roleFuncs: Option<map<string, RolePredicate<U, E>>>,
    actionDefinitions: Option<map<string, seq<string>>>,
    options: Option<Options<Req, U, E>>): (auth: Authorizer<Req, U, E>)
    ensures roleFuncs.None? ==> auth.roles == map[]
    ensures roleFuncs.Some? ==> auth.roles == roleFuncs.value
    ensures actionDefinitions.None? ==> auth.actions == map[]
    ensures actionDefinitions.Some? ==> auth.actions == actionDefinitions.value
    ensures (options.None? || options.value.errorOnMissingDefinitions.None?) ==>
              auth.errorOnMissingDefinitions
    ensures (options.Some? && options.value.errorOnMissingDefinitions.Some?) ==>
              auth.errorOnMissingDefinitions == options.value.errorOnMissingDefinitions.value
    ensures options.None? ==> auth.retrieveUserFromRequest.None?
    ensures options.Some? ==> auth.retrieveUserFromRequest == options.value.retrieveUserFromRequest
  {
    var opts := if options.Some? then options.value else Options(None, None);
    Authorizer(
      if roleFuncs.Some? then roleFuncs.value else map[],
      if actionDefinitions.Some? then actionDefinitions.value else map[],
      match opts.errorOnMissingDefinitions
      case Some(flag) => flag
      case None => true,
      opts.retrieveUserFromRequest)
  }

  /** What `a` and `ableTo` answer for a name that has no definition: a
      missing-definition error with decision false in strict mode, a plain
      false otherwise. */
  function MissingReply<E>(strict: bool): (r: Reply<Failure<E>>)
    ensures !r.decision
    ensures r.err.Some? <==> strict
    ensures r.err.Some? ==> r.err.value == Coded(MissingDefinition)
  {
    if strict then Reply(Some(Coded(MissingDefinition)), false) else Reply(None, false)
  }

  // ---------------------------------------------------------------------------
  // Sessions (index.js:18-74)
  // ---------------------------------------------------------------------------

  /** `forUser(user)`: the authorizer with one user bound. */
  datatype Session<!Req, !U, E> = Session(auth: Authorizer<Req, U, E>, user: U)

  function ForUser<Req, U, E>(auth: Authorizer<Req, U, E>, user: U): (s: Session<Req, U, E>)
    ensures s.auth == auth && s.user == user
  {
    Session(auth, user)
  }

  /** `a(role)` ("user is a <role>"): a role without a predicate follows the
      missing-definition policy and calls no predicate; otherwise the
      predicate's own error and decision for the bound user come back unchanged. */
  function A<Req, U, E>(s: Session<Req, U, E>, role: string): (r: Reply<Failure<E>>)
    ensures role !in s.auth.roles ==> r == MissingReply(s.auth.errorOnMissingDefinitions)
    ensures role in s.auth.roles ==>
              var answer := s.auth.roles[role](s.user);
              && r.decision == answer.decision
              && (r.err.Some? <==> answer.err.Some?)
              && (r.err.Some? ==> r.err.value == Upstream(answer.err.value))
  {
    if role !in s.auth.roles then
      MissingReply(s.auth.errorOnMissingDefinitions)
    else
      var answer := s.auth.roles[role](s.user);
      match answer.err
      case None => Reply(None, answer.decision)
      case Some(e) => Reply(Some(Upstream(e)), answer.decision)
  }

  /** The scan `async.detect` performs over an action's role list: it yields a
      role whose `a` decision is true, or nothing when no listed role grants.
      Only the decision of `a` is consulted; its error is dropped. Which granting
      role is yielded is left open by the contract. */
  function Detect<Req, U, E>(s: Session<Req, U, E>, roles: seq<string>): (found: Option<string>)
    ensures found.Some? ==> found.value in roles && A(s, found.value).decision
    ensures found.None? ==> forall role :: role in roles ==> !A(s, role).decision
  {
    if roles == [] then None
    else if A(s, roles[0]).decision then Some(roles[0])
    else Detect(s, roles[1..])
  }

  /** True iff some role in `roles` is granted to the session's user by `a`. */
  ghost predicate SomeRoleGrants<Req, U, E>(s: Session<Req, U, E>, roles: seq<string>) {
    exists role :: role in roles && A(s, role).decision
  }

  /** `ableTo(action)`: an action without a definition follows the
      missing-definition policy; a defined action (an empty list included)
      never reports an error, and its decision is true iff some listed role
      grants. */
  function AbleTo<Req, U, E>(s: Session<Req, U, E>, action: string): (r: Reply<Failure<E>>)
    ensures action !in s.auth.actions ==> r == MissingReply(s.auth.errorOnMissingDefinitions)
    ensures action in s.auth.actions ==>
              r.err.None? && (r.decision <==> SomeRoleGrants(s, s.auth.actions[action]))
  {
    if action !in s.auth.actions then
      MissingReply(s.auth.errorOnMissingDefinitions)
    else
      Reply(None, Detect(s, s.auth.actions[action]).Some?)
  }

  // ---------------------------------------------------------------------------
  // Middleware gate (index.js:76-100)
  // ---------------------------------------------------------------------------

  /** `ensureAuthorizedTo(action)(req, res, next)`: retrieve the user, check it
      is present, ask `ableTo(action)`, check the decision, proceed. Each
      failing stage ends the pipeline with exactly one error. */
  function EnsureAuthorizedTo<Req, U, E>(auth: Authorizer<Req, U, E>, action: string, req: Req): (o: Outcome<E>)
    requires auth.retrieveUserFromRequest.Some?
    ensures var got := auth.retrieveUserFromRequest.value(req);
      && (got.err.Some? ==> o == Fail(Upstream(got.err.value)))
      && (got.err.None? && got.user.None? ==> o == Fail(Coded(UserNotFound)))
      && (got.err.None? && got.user.Some? ==>
            var verdict := AbleTo(ForUser(auth, got.user.value), action);
            && (verdict.err.Some? ==> o == Fail(verdict.err.value))
            && (verdict.err.None? && !verdict.decision ==> o == Fail(Coded(NotAuthorized)))
            && (verdict.err.None? && verdict.decision ==> o == Proceed))
  {
    var got := auth.retrieveUserFromRequest.value(req);
    if got.err.Some? then Fail(Upstream(got.err.value))
    else if got.user.None? then Fail(Coded(UserNotFound))
    else
      var verdict := AbleTo(ForUser(auth, got.user.value), action);
      if verdict.err.Some? then Fail(verdict.err.value)
      else if !verdict.decision then Fail(Coded(NotAuthorized))
      else Proceed
  }
}
