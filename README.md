# node-user-can: a Dafny model of the authorization decision engine

node-user-can builds a role-based authorization checker from three things
supplied once: a role registry (role name → predicate on the user), an action
registry (action name → list of role names) and an options object whose flag
`errorOnMissingDefinitions` chooses between failing and answering `false` when
a role or action has no definition. From it come per-user sessions
(`forUser(user)`) with two questions, `a(role)` ("the user is a <role>") and
`ableTo(action)`, and a middleware factory `ensureAuthorizedTo(action)` that
retrieves the user from a request, asks `ableTo` and calls `next` once.

The model is pure, as the library is: every check is a lookup followed by
branching. Callbacks that receive `(err, value)` become functions returning a
datatype holding the pair (`Reply`, `Retrieved`), and the middleware's single
call to `next` becomes an `Outcome` (`Proceed` or `Fail(error)`). Errors the
library creates carry a `Code`; errors from caller-supplied code are passed on
inside `Upstream`, unchanged. Role predicates and the user retriever are
caller-supplied functions taken as parameters. The `async.detect` scan over an
action's role list is the recursive `Detect`, whose contract only promises
"some granting role" or "no listed role grants", so the model makes no claim
about which role wins when the predicates run concurrently.

Files: `wrappers.dfy` (Option), `user_is.dfy` (module `UserIs`: data model and
operations), `properties.dfy` (module `UserIsProperties`: lemmas relating calls,
sessions and registries), `scenarios.dfy` (module `UserIsScenarios`: the
library's test scenarios as lemmas).

The `ableTo` scan uses only the decision of `a` and discards its error
(`next(isRole)`, index.js:36-37). So a failing role predicate, or a listed role
with no definition even in strict mode, counts as "does not grant". A predicate
that reports an error together with a `true` decision still grants. The model
keeps this behaviour.

## Model

| member | source | states |
|---|---|---|
| UserIs.CodeName | index.js:7-9 | the three error codes are the strings E_MISSINGDEFINITION, E_NOTAUTHORIZED and E_USERNOTFOUND, one per code |
| UserIs.New | index.js:11-16 | absent registries become empty; the strictness flag is true when not supplied, and a supplied value (false included) is kept; the retriever is the one in the options |
| UserIs.MissingReply | index.js:56-64 | an undefined name yields decision false, with a MissingDefinition-coded error exactly in strict mode |
| UserIs.ForUser | index.js:18-74 | a session binds the given user to the given authorizer |
| UserIs.A | index.js:53-68 | an undefined role follows the missing-definition policy; a defined role yields the predicate's own decision and error for the bound user, unchanged |
| UserIs.Detect | index.js:33-39 | the scan yields a listed role whose `a` decision is true, or nothing only when no listed role has a true decision |
| UserIs.AbleTo | index.js:20-49 | an undefined action follows the missing-definition policy; a defined action never reports an error and is granted iff some listed role's `a` decision is true |
| UserIs.EnsureAuthorizedTo | index.js:76-100 | exactly one outcome: the retrieval error verbatim, else E_USERNOTFOUND for no user, else the `ableTo` error verbatim, else E_NOTAUTHORIZED for a false decision, else proceed |
| UserIsProperties.RoleAnswerIgnoresActions | index.js:53-68 | `a` depends only on the role registry, the flag and the user, never on the action registry |
| UserIsProperties.MissingRoleConsultsNoPredicate | index.js:54-64 | an undefined role's answer is the same for every user and every other registry content, so no predicate is consulted, and it is false |
| UserIsProperties.StrictnessNeverChangesDecision | index.js:23-31 | flipping the strictness flag never changes the decision of `a` or `ableTo`, only whether an error comes with it |
| UserIsProperties.DefinedActionNeverErrs | index.js:33-47 | a defined action reports no error and is granted iff some index of its role list holds a role with a true `a` decision |
| UserIsProperties.EmptyRoleListDenies | index.js:21-23 | an action mapped to an empty list counts as defined and is refused with no error, even in strict mode |
| UserIsProperties.SingleRoleActionDropsError | index.js:35-38 | an action with one role answers that role's decision with no error, so a predicate failure or a strict missing-role error is swallowed |
| UserIsProperties.AbleToIgnoresOrderAndDuplicates | index.js:33-46 | replacing an action's role list by any list with the same members (reordered, duplicated) gives the same answer |
| UserIsProperties.NonGrantingRoleDoesNotAbortScan | index.js:35-38 | a listed role that does not grant (failed, false or undefined) can be removed from the list without changing the answer |
| UserIsProperties.GateProceedsIffGranted | index.js:77-97 | the middleware proceeds iff retrieval succeeded with a user, the action is defined and one of its roles grants that user |
| UserIsProperties.GateForwardsOnlyRetrievalErrors | index.js:78-88 | the middleware forwards a caller error iff retrieval failed, and forwards E_MISSINGDEFINITION only for an undefined action in strict mode |
| UserIsScenarios.AccessDefs | test/theTests.js:15-31 | the test authorizer is strict by default and has the admin and user roles and the two test actions |
| UserIsScenarios.NormalUserIsNotAdmin | test/theTests.js:36-43 | a normal user is not an admin, with no error |
| UserIsScenarios.NormalUserCannotAddUsers | test/theTests.js:45-52 | a normal user may not add new users, with no error |
| UserIsScenarios.NormalUserCanDoSomethingElse | test/theTests.js:54-61 | a normal user may do something else, through the user role |
| UserIsScenarios.AdminIsAdmin | test/theTests.js:71-78 | an admin user is an admin |
| UserIsScenarios.AdminCanAddUsers | test/theTests.js:80-87 | an admin user may add new users |
| UserIsScenarios.MiddlewareLetsAdminThrough | test/theTests.js:91-102 | the middleware lets a request carrying an admin through |
| UserIsScenarios.MiddlewareRefusesNormalUser | test/theTests.js:104-115 | the middleware refuses a normal user with E_NOTAUTHORIZED |
| UserIsScenarios.MiddlewareReportsMissingUser | test/theTests.js:117-127 | the middleware reports a request without a user with E_USERNOTFOUND |
| UserIsScenarios.UndefinedRoleIsErrorByDefault | test/theTests.js:131-139 | with default options an undefined role is a MissingDefinition error |
| UserIsScenarios.UndefinedRoleIsFalseWhenLenient | test/theTests.js:141-150 | with errorOnMissingDefinitions false an undefined role is false with no error |

## Left out

- Concurrency of `async.detect` (index.js:33): which granting role wins and the discarding of late results. `Detect` checks the list in order, and its contract does not say which granting role it returns.
- Callback plumbing and the unused `res` argument of the middleware (index.js:77). Results are returned as datatypes.
- Error message texts (index.js:25, 58, 81, 90). Only the `code` is modelled.
- JavaScript truthiness. Decisions are `bool` and a falsy user is `None`. A registry entry that is present but falsy (`null`) counts as missing in the source; the model has only present or absent keys. Prototype-chain lookups (an action named `toString`) are not modelled.
- An `errorOnMissingDefinitions` of `null`, which the source keeps and treats as false. The model has only absent, `true` or `false`.
- The write of the default flag back into the caller's `options` object (index.js:16), and later changes the caller makes to that object. The model takes the configuration as immutable once built.
- UserIs.EnsureAuthorizedTo: requires a configured `retrieveUserFromRequest`. Without one the source throws a TypeError and never calls `next`.
- The bodies of role predicates and of the user retriever are the caller's; they are function parameters. The model treats them as pure, so it does not capture predicates that answer differently on repeated calls.
- The source exports the E_NOTAUTHORIZED and E_USERNOTFOUND codes as constants (index.js:108-109) but not E_MISSINGDEFINITION, which callers see only on `err.code`. `CodeName` gives all three.
- The test harness itself (test/theTests.js). Its scenarios appear only as lemmas.
