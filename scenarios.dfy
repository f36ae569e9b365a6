/** The library's own usage scenarios (test/theTests.js) as lemmas: an `admin`
    role that checks a flag on the user, a `user` role everyone has, one action
    for admins only and one for either role. */
module UserIsScenarios {

  import opened Wrappers
  import opened UserIs

  /** The test users: `{}` is a user whose `isAdmin` is falsy. */
  datatype TestUser = TestUser(isAdmin: bool)

  /** The test requests: `{}` carries no user. */
  datatype TestReq = TestReq(user: Option<TestUser>)

  type TestAuthorizer = Authorizer<TestReq, TestUser, string>

  function IsAdmin(u: TestUser): Reply<string> { Reply(None, u.isAdmin) }

  function IsUser(u: TestUser): Reply<string> { Reply(None, true) }

  function RetrieveUser(req: TestReq): Retrieved<TestUser, string> { Retrieved(None, req.user) }

  const NormalUser := TestUser(false)
  const AdminUser := TestUser(true)

  /** `UserIs(roleFuncs, actionDefs, options)` with only a retriever in the options. */
  function AccessDefs(): (auth: TestAuthorizer)
    ensures auth.errorOnMissingDefinitions
    ensures auth.roles.Keys == {"admin", "user"}
    ensures auth.actions == map["add new user" := ["admin"], "do something else" := ["admin", "user"]]
  {
    New(Some(map["admin" := IsAdmin, "user" := IsUser]),
        Some(map["add new user" := ["admin"], "do something else" := ["admin", "user"]]),
        Some(Options(None, Some(RetrieveUser))))
  }

  lemma NormalUserIsNotAdmin()
    ensures A(ForUser(AccessDefs(), NormalUser), "admin") == Reply(None, false)
  {
  }

  lemma NormalUserCannotAddUsers()
    ensures AbleTo(ForUser(AccessDefs(), NormalUser), "add new user") == Reply(None, false)
  {
  }

  lemma NormalUserCanDoSomethingElse()
    ensures AbleTo(ForUser(AccessDefs(), NormalUser), "do something else") == Reply(None, true)
  {
  }

  lemma AdminIsAdmin()
    ensures A(ForUser(AccessDefs(), AdminUser), "admin") == Reply(None, true)
  {
  }

  lemma AdminCanAddUsers()
    ensures AbleTo(ForUser(AccessDefs(), AdminUser), "add new user") == Reply(None, true)
  {
  }

  lemma MiddlewareLetsAdminThrough()
    ensures EnsureAuthorizedTo(AccessDefs(), "add new user", TestReq(Some(AdminUser))) == Proceed
  {
  }

  lemma MiddlewareRefusesNormalUser()
    ensures EnsureAuthorizedTo(AccessDefs(), "add new user", TestReq(Some(NormalUser))) == Fail(Coded(NotAuthorized))
    ensures CodeName(NotAuthorized) == "E_NOTAUTHORIZED"
  {
  }

  lemma MiddlewareReportsMissingUser()
    ensures EnsureAuthorizedTo(AccessDefs(), "add new user", TestReq(None)) == Fail(Coded(UserNotFound))
    ensures CodeName(UserNotFound) == "E_USERNOTFOUND"
  {
  }

  /** `UserIs({}, {})`: strict by default, so an undefined role is an error. */
  lemma UndefinedRoleIsErrorByDefault()
    ensures A(ForUser(New<TestReq, TestUser, string>(Some(map[]), Some(map[]), None), TestUser(false)), "admin")
              == Reply(Some(Coded(MissingDefinition)), false)
  {
  }

  /** `UserIs({}, {}, {errorOnMissingDefinitions: false})`: an undefined role is a plain false. */
  lemma UndefinedRoleIsFalseWhenLenient()
    ensures A(ForUser(New<TestReq, TestUser, string>(Some(map[]), Some(map[]), Some(Options(Some(false), None))), TestUser(false)), "fool")
              == Reply(None, false)
  {
  }
}
