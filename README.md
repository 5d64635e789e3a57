# edlAuthorizer, modelled in Dafny

This project models the Earthdata Search API Gateway request authorizer in
`serverless/src/edlAuthorizer/handler.js`. An inbound `Authorization` header
`Bearer <jwt>` is checked in order:

1. The header must be present.
2. The JWT is the second space-separated segment of the header.
3. The JWT's signature is verified.
4. The user's stored Earthdata Login tokens are read from the `user_tokens`
   table, newest first.
5. The newest row is taken. If it has expired, it is deleted, its refresh
   token is exchanged for new tokens (the refresh grant of section 6 of
   RFC 6749), and a new row is inserted.
6. An Allow policy for the requested method ARN is returned.

The model gives every failure the same `Unauthorized`. In the code, most
failures are rethrown as `Error('Unauthorized')`. A failed select instead
rejects with the store's own error (see "## Left out"). A warm-up event
returns `false` before any of this runs.

Files:

- `wrappers.dfy`: `Option`, for JavaScript values that may be undefined.
- `policy.dfy`: `generatePolicy` and the IAM policy document (version
  `2012-10-17`, action `execute-api:Invoke`). `Permits` is an independent
  reading of a response, the way the gateway reads it: some statement allows
  the action on the resource and no statement denies it.
- `bearer.dfy`: JavaScript's `split(' ')` as `Split`, with its partner
  `Join`, and the token as `TokenOf` = segment 1. `SecondWord` is a
  reference definition: the text between the first and the second space.
- `token_table.dfy`: the `user_tokens` rows and the store's invariant. Row
  ids are unique, and the store's id and creation-stamp counters lie ahead of
  every row. The three queries are pure functions: the select ordered by
  `created_at` descending (`Fetch`), the delete by id and the insert. The row
  the authorizer takes, `Newest`, is found in one pass over the table and is
  proved to be the first row of `Fetch` (`NewestHeadsFetch`).
- `authorizer.dfy`: one invocation as the specification function `Run`. `Run`
  returns the outcome, the new table and the database, JWT and token-issuer
  calls made, in order. The file also holds the lemmas about `Run` and the
  class `TokenStore`. Its method `Authorize` runs the steps imperatively
  against the stored rows and is proved equal to `Run`.

The foreign calls are inputs:

- `Oracles.verify` is `jwt.verify` with the signing secret.
- `Oracles.expired` is the OAuth token object's `expired()`, taken as a
  function of the stored `expires_at`.
- `Oracles.refresh` is its `refresh()`, taken as a function of the stored
  refresh token.
- `Oracles.environment` is `cmrEnv()`.
- `StoreFaults` says which database calls raise: the connection, the select,
  the delete or the insert.
- The warm-up test is a boolean.

Points of the code's behaviour that are easy to misread:

- A failed delete (handler.js:112-114, caught at 133-137) gives `Unauthorized`
  and keeps the row. A failed exchange or insert gives `Unauthorized` after
  the row is already gone.
- An Allow response has a policy document only when the event's `methodArn`
  is truthy. This follows from `generatePolicy`'s guard (lines 21-32).
- The header's first word is never compared with `Bearer`: any scheme is
  accepted (`Bearer.SchemeNotChecked`).
- Expiry is the OAuth token object's `expired()` (line 109), kept abstract as
  `Oracles.expired`.

## Model

| member | source | states |
|---|---|---|
| Policy.GeneratePolicy | serverless/src/edlAuthorizer/handler.js:16-35 | principalId is the username and the context carries the JWT, whatever the effect and resource; a policy document exists exactly when both effect and resource are truthy, and then has version 2012-10-17 and exactly one statement: execute-api:Invoke with the given effect on the given resource |
| Policy.GeneratedPolicyPermits | serverless/src/edlAuthorizer/handler.js:21-32 | a generated response permits an action on an ARN exactly when the effect is "Allow", the resource is truthy, the action is execute-api:Invoke and the ARN is the given resource |
| Bearer.TokenOf | serverless/src/edlAuthorizer/handler.js:53-55 | the token taken, segment 1 of the split, never contains a space; what it is exactly is TokenOfIsSecondWord, TokenOfNeedsSpace and SchemeNotChecked |
| Bearer.Split | serverless/src/edlAuthorizer/handler.js:54 | split(' ') gives at least one segment and no segment contains a space |
| Bearer.JoinSplit | serverless/src/edlAuthorizer/handler.js:54 | joining the segments with single spaces gives back the header |
| Bearer.SplitJoin | serverless/src/edlAuthorizer/handler.js:54 | splitting a join of space-free segments gives back those segments, so the split is the unique such decomposition |
| Bearer.TokenOfIsSecondWord | serverless/src/edlAuthorizer/handler.js:53-55 | the token taken is exactly the text between the first and the second space (or the end), and is undefined when there is no space |
| Bearer.TokenOfNeedsSpace | serverless/src/edlAuthorizer/handler.js:53-55 | there is no token segment exactly when the header contains no space |
| Bearer.SchemeNotChecked | serverless/src/edlAuthorizer/handler.js:53-55 | for any space-free first word and token, with or without further segments, the token taken is that token: the scheme word is not checked |
| TokenTable.UserRows | serverless/src/edlAuthorizer/handler.js:85 | the where(user_id) filter keeps a row exactly when it is stored and has that user_id; UserRowsAppend and UserRowsSingle give how it splits over a table's parts |
| TokenTable.SortNewestFirst | serverless/src/edlAuthorizer/handler.js:86 | the created_at DESC ordering is sorted newest first and is a permutation (same multiset) of its input |
| TokenTable.Fetch | serverless/src/edlAuthorizer/handler.js:78-86 | the select is sorted newest first, is a permutation of the user's rows, and holds exactly the stored rows with that user_id |
| TokenTable.Newest | serverless/src/edlAuthorizer/handler.js:88-100 | no row is taken exactly when the user has no row; otherwise the row taken is a stored row of that user; NewestHeadsFetch and NewestSpec say which one |
| TokenTable.NewestHeadsFetch | serverless/src/edlAuthorizer/handler.js:86-93 | the row taken is the first row of the select's result, and none is taken when that result is empty |
| TokenTable.NewestSpec | serverless/src/edlAuthorizer/handler.js:88-100 | there is no selected row exactly when the user has no row; otherwise the selected row is one of the user's rows and no row of the user is newer |
| TokenTable.NewestIsLatest | serverless/src/edlAuthorizer/handler.js:92-93 | a row strictly newer than all of its user's other rows is the one selected |
| TokenTable.RemoveId | serverless/src/edlAuthorizer/handler.js:112-114 | the delete keeps a row exactly when it is stored and has another id; RemoveUniqueId and RemoveAbsentId fix its order |
| TokenTable.RemoveAbsentId | serverless/src/edlAuthorizer/handler.js:112-114 | deleting an id no row carries leaves the rows as they were |
| TokenTable.Delete | serverless/src/edlAuthorizer/handler.js:112-114 | the store counters are untouched and a row stays exactly when it has another id; DeleteKeepsValid, DeleteRemovesOneRow, DeleteKeepsOthers and DeleteKeepsOtherUsers state the rest |
| TokenTable.RemoveUniqueId | serverless/src/edlAuthorizer/handler.js:112-114 | with unique ids, deleting the id of the row at position k removes exactly that position |
| TokenTable.DeleteKeepsValid | serverless/src/edlAuthorizer/handler.js:112-114 | the delete keeps ids unique and the store counters ahead of every row |
| TokenTable.DeleteRemovesOneRow | serverless/src/edlAuthorizer/handler.js:112-114 | deleting a stored row by its id removes that row and no other (one row fewer, the multiset minus that row) |
| TokenTable.DeleteKeepsOthers | serverless/src/edlAuthorizer/handler.js:112-114 | with unique ids, deleting a stored row by its id keeps every other stored row |
| TokenTable.DeleteKeepsOtherUsers | serverless/src/edlAuthorizer/handler.js:112-114 | after that delete the owner has one row fewer and every other user has exactly the rows they had |
| TokenTable.NewRow | serverless/src/edlAuthorizer/handler.js:126-132 | on a valid table the new row's id and creation stamp are above those of every stored row |
| TokenTable.Insert | serverless/src/edlAuthorizer/handler.js:126-132 | the insert keeps ids unique and the store counters ahead of every row; InsertedRowIsNewest states which row is selected next |
| TokenTable.InsertedRowIsNewest | serverless/src/edlAuthorizer/handler.js:126-132 | the inserted row is appended to its user's rows and is the one the next select returns first; other users' rows are unchanged |
| TokenTable.RenewalReplacesRow | serverless/src/edlAuthorizer/handler.js:109-132 | deleting the user's stored row and inserting the refreshed credential removes that row, adds one row with the next id, the user, the new tokens and expiry and the environment, keeps the row count and the user's row count, makes the new row the user's newest, leaves other users' rows as they were and keeps the invariant |
| Authorizer.Run | serverless/src/edlAuthorizer/handler.js:43-147 | the warm-up result comes exactly on a warm-up event; no call is made exactly on a warm-up event or a missing or empty header; an Allow carries the one execute-api:Invoke statement on methodArn when methodArn is truthy and no document otherwise; each path is a lemma below (EarlyExitCallsNothing to BearerHeaderAllowed), and TokenStore.Authorize is proved equal to it |
| Authorizer.Verify | serverless/src/edlAuthorizer/handler.js:64-70 | verification can only succeed for a defined, non-empty token, and then gives the verifier's claims |
| Authorizer.EarlyExitCallsNothing | serverless/src/edlAuthorizer/handler.js:45-51 | a warm-up event gives the warm-up result and a missing or empty header gives Unauthorized, both with the table unchanged and no database, JWT or token-issuer call (loading the OAuth configuration at line 47 is not in the trace) |
| Authorizer.NoTokenSegmentDenied | serverless/src/edlAuthorizer/handler.js:53-70 | a header without a space is denied; the table is unchanged and is not read |
| Authorizer.RejectedTokenDenied | serverless/src/edlAuthorizer/handler.js:64-70 | a token that fails verification is denied whatever the table holds; the table is unchanged and is not read |
| Authorizer.EarlyStoreFaultDenied | serverless/src/edlAuthorizer/handler.js:57-90 | a failed connection (caught at 142-146) or a failed select is denied with the table unchanged and no delete or insert; after a failed connection the table is not accessed at all |
| Authorizer.NoRowsDenied | serverless/src/edlAuthorizer/handler.js:78-90 | a verified user with no stored row is denied and the table is unchanged |
| Authorizer.FreshRowAllows | serverless/src/edlAuthorizer/handler.js:102-140 | a selected row that has not expired gives generatePolicy(username, jwtToken, 'Allow', methodArn) with the table unchanged, so an identical second call decides the same |
| Authorizer.RefreshReplacesRow | serverless/src/edlAuthorizer/handler.js:109-140 | an expired row with a successful refresh makes the calls select, delete, refresh, insert in that order; the result is Allow on methodArn; the old row is gone and one new row is added with the same user, the new tokens and expiry and the environment; the user has as many rows as before, the new row is selected next, and other users' rows are unchanged |
| Authorizer.FailedRefreshForfeitsRow | serverless/src/edlAuthorizer/handler.js:110-137 | a refresh or insert that fails after the delete is denied; the old row stays deleted and nothing is inserted |
| Authorizer.FailedDeleteKeepsRow | serverless/src/edlAuthorizer/handler.js:110-137 | a delete that fails is denied with the table unchanged, and no refresh is attempted |
| Authorizer.OnlyNewestRowChanges | serverless/src/edlAuthorizer/handler.js:92-132 | every row that is not its user's newest survives an invocation, the only row that can appear carries the next id, and a user whose tokens were never selected keeps exactly their rows |
| Authorizer.OlderRowsIrrelevant | serverless/src/edlAuthorizer/handler.js:92-100 | two tables that agree on every user's newest row give the same outcome and the same calls |
| Authorizer.RunKeepsValid | serverless/src/edlAuthorizer/handler.js:109-132 | an invocation keeps ids unique and the store counters ahead of every row |
| Authorizer.BearerHeaderAllowed | serverless/src/edlAuthorizer/handler.js:53-140 | a "Bearer <token>" header whose token verifies, for a user whose one row has not expired, is allowed to invoke exactly the requested ARN, with the username as principal and the token in the context |
| Authorizer.TokenStore.DeleteById | serverless/src/edlAuthorizer/handler.js:112-114 | the stored rows become the delete-by-id of the old rows; the invariant is kept |
| Authorizer.TokenStore.InsertRow | serverless/src/edlAuthorizer/handler.js:126-132 | the stored rows gain the one new row with the next id and stamp; the invariant is kept |
| Authorizer.TokenStore.Authorize | serverless/src/edlAuthorizer/handler.js:43-147 | the outcome, the new table and the calls made are those of Run on the old table, so every lemma about Run holds of the method; the invariant is kept |

## Left out

- JWT signature checking (the jsonwebtoken library) is the oracle `Oracles.verify`. Only the library's rejection of an undefined or empty token is modelled.
- The OAuth token object's `expired()` clock comparison is the oracle `Oracles.expired`. Its network `refresh()` call is the oracle `Oracles.refresh`. The OAuth client configuration (`getEdlConfig`) and `simpleOAuth2.create` are not modelled.
- Connection handling is not modelled. This covers `getDbConnection` and the module-level `dbConnection` handle reused across invocations. A failed connection is the `StoreFaults.connect` flag.
- The Knex query building and the SQL are not modelled. The table is a sequence of rows.
- `created_at` is a strictly increasing stamp assigned by the store, not the database clock. The order the database gives to rows with equal `created_at` is unspecified. The model keeps store order for such rows.
- Secret and environment loading (`getSecretEarthdataConfig`, `cmrEnv`) and the warm-up test `isWarmUp` are inputs. The model does not capture a failure while loading the secret; it would give `Unauthorized` with the table unchanged.
- A failure of `getEdlConfig` before the header check is not modelled, and the trace of calls does not include that load.
- Oracles.refresh: the model takes `refresh()` to yield the new access token, refresh token and expiry at the top level, as lines 120-124 destructure them. In the `simpleOAuth2.create` API used at lines 102-103, `refresh()` may instead resolve to a token object holding these values under `.token`; then the row inserted at lines 126-132 would carry undefined tokens and expiry. The library is not part of this model, so `RefreshReplacesRow`'s statement about the new row's contents rests on this assumption.
- `console.log` output is not modelled.
- Rejections the outer `try` does not catch are merged into `Unauthorized`. The select (lines 78-86) runs inside the async callback of `jwt.verify`. That callback's promise is returned un-awaited at line 64, so the `catch` at 142-146 never sees it.
  - A failed select therefore rejects with the store's own error. So does an exception from `simpleOAuth2.create` or `accessToken.create` (lines 102-107).
  - The model merges these rejections into `Unauthorized`, like the `Error('Unauthorized')` thrown at lines 50, 69, 89, 136 and 145.
  - A failure inside `simpleOAuth2.create` or `accessToken.create` is not modelled at all.
- Races between concurrent refreshes of the same user are outside a sequential model.
- IAM wildcard matching of resources is not modelled. `Permits` compares action and resource names exactly.
