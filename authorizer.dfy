/**
 * The authorizer's decision pipeline: header check, token extraction,
 * signature verification, selection of the caller's newest stored
 * credential, refresh of that credential when it has expired (delete, then
 * exchange the refresh token, then insert), and the final Allow response.
 * Every failure is modelled as the same `Unauthorized`. The code rethrows most
 * failures as `Error('Unauthorized')`. A failed select rejects with the
 * store's own error instead: it runs in the `jwt.verify` callback, whose
 * promise is returned un-awaited, so the outer `catch` never sees it.
 *
 * The foreign calls are parameters: the JWT check, the expiry check of the
 * OAuth token object, the refresh grant (section 6 of RFC 6749) and the
 * deployment environment come in as `Oracles`; which store calls fail comes
 * in as `StoreFaults`.
 */
module Authorizer {
  import opened Wrappers
  import opened Policy
  import opened Bearer
  import opened TokenTable

  /** The claims of a verified JWT that the authorizer uses. */
  datatype Claims = Claims(userId: int, username: string)

  /** The invocation event: the raw header and the ARN of the method being called. */
  datatype Event = Event(authorizationToken: Option<string>, methodArn: Option<string>)

  datatype Oracles = Oracles(
    verify: string -> Option<Claims>,   // jwt.verify with the signing secret
    expired: int -> bool,               // oauthToken.expired(), from the stored expires_at
    refresh: string -> Option<Credential>, // oauthToken.refresh(), from the stored refresh token
    environment: string)                // cmrEnv()

  /** Which store calls raise (the store is unreachable at that point). */
  datatype StoreFaults = StoreFaults(connect: bool, select: bool, delete: bool, insert: bool)

  /** `false` for a warm-up event, the policy, or a rejection (all modelled as `Unauthorized`). */
  datatype Outcome = WarmUp | Allow(response: AuthResponse) | Unauthorized

  /**
   * The database, JWT and token-issuer calls an invocation makes, in order.
   * Loading the OAuth client configuration is not among them.
   */
  datatype Call =
    | Connect
    | VerifyJwt(token: Option<string>)
    | SelectTokens(userId: int)
    | DeleteToken(id: nat)
    | RefreshGrant(refreshToken: string)
    | InsertToken(userId: int)

  /** Calls that read or write `user_tokens`. */
  predicate StoreAccess(c: Call) {
    c.SelectTokens? || c.DeleteToken? || c.InsertToken?
  }

  datatype Step = Step(outcome: Outcome, table: Table, calls: seq<Call>)

  /** `jwt.verify`: an undefined or empty token fails before any signature check. */
  function Verify(token: Option<string>, verify: string -> Option<Claims>): (r: Option<Claims>)
    ensures r.Some? ==> Truthy(token) && r == verify(token.value)
    ensures Truthy(token) ==> r == verify(token.value)
  {
    if Truthy(token) then verify(token.value) else None
  }

  /** The response on every success path. */
  function AllowFor(claims: Claims, jwtToken: string, ev: Event): Outcome {
    Allow(GeneratePolicy(claims.username, jwtToken, Some("Allow"), ev.methodArn))
  }

  /** One invocation of `edlAuthorizer` against the table `t`. */
  function Run(t: Table, ev: Event, warmUp: bool, o: Oracles, f: StoreFaults): (r: Step)
    ensures r.outcome.WarmUp? <==> warmUp
    ensures r.calls == [] <==> warmUp || !Truthy(ev.authorizationToken)
    ensures r.outcome.Allow? ==>
      r.outcome.response.policyDocument ==
        if Truthy(ev.methodArn) then Some(PolicyDocument(PolicyVersion, [Statement(InvokeAction, "Allow", ev.methodArn.value)]))
        else None
  {
    if warmUp then Step(WarmUp, t, [])
    else if !Truthy(ev.authorizationToken) then Step(Unauthorized, t, [])
    else if f.connect then Step(Unauthorized, t, [Connect])
    else
      var token := TokenOf(ev.authorizationToken.value);
      var verified := [Connect, VerifyJwt(token)];
      match Verify(token, o.verify)
      case None => Step(Unauthorized, t, verified)
      case Some(claims) =>
        var selected := verified + [SelectTokens(claims.userId)];
        if f.select then Step(Unauthorized, t, selected)
        else
          match Newest(t.rows, claims.userId)
          case None => Step(Unauthorized, t, selected)
          case Some(row) =>
            if !o.expired(row.expiresAt) then Step(AllowFor(claims, token.value, ev), t, selected)
            else
              var deleted := selected + [DeleteToken(row.id)];
              if f.delete then Step(Unauthorized, t, deleted)
              else
                var t1 := Delete(t, row.id);
                var refreshed := deleted + [RefreshGrant(row.refreshToken)];
                match o.refresh(row.refreshToken)
                case None => Step(Unauthorized, t1, refreshed)
                case Some(c) =>
                  var inserted := refreshed + [InsertToken(claims.userId)];
                  if f.insert then Step(Unauthorized, t1, inserted)
                  else Step(AllowFor(claims, token.value, ev), Insert(t1, claims.userId, c, o.environment), inserted)
  }

  /** The path of an invocation whose token verified as `claims` and whose selected row is `row`. */
  predicate Selects(t: Table, ev: Event, o: Oracles, f: StoreFaults, claims: Claims, row: Row) {
    Truthy(ev.authorizationToken) && !f.connect && !f.select &&
    Verify(TokenOf(ev.authorizationToken.value), o.verify) == Some(claims) &&
    Newest(t.rows, claims.userId) == Some(row)
  }

  /**
   * A warm-up event, or one without a header, ends before any database, JWT
   * or token-issuer call.
   */
  lemma EarlyExitCallsNothing(t: Table, ev: Event, warmUp: bool, o: Oracles, f: StoreFaults)
    requires warmUp || !Truthy(ev.authorizationToken)
    ensures Run(t, ev, warmUp, o, f).outcome == (if warmUp then WarmUp else Unauthorized)
    ensures Run(t, ev, warmUp, o, f).table == t
    ensures Run(t, ev, warmUp, o, f).calls == []
  {
  }

  /**
   * A header without a space has no token segment: verification fails, the
   * result is Unauthorized and the table is neither read nor written.
   */
  lemma NoTokenSegmentDenied(t: Table, ev: Event, o: Oracles, f: StoreFaults)
    requires Truthy(ev.authorizationToken) && Space !in ev.authorizationToken.value
    ensures Run(t, ev, false, o, f).outcome == Unauthorized
    ensures Run(t, ev, false, o, f).table == t
    ensures forall c :: c in Run(t, ev, false, o, f).calls ==> !StoreAccess(c)
  {
    TokenOfNeedsSpace(ev.authorizationToken.value);
  }

  /**
   * Whatever the table holds, a token that fails verification is denied
   * without any read or write of the table.
   */
  lemma RejectedTokenDenied(t: Table, ev: Event, o: Oracles, f: StoreFaults)
    requires Truthy(ev.authorizationToken)
    requires Verify(TokenOf(ev.authorizationToken.value), o.verify).None?
    ensures Run(t, ev, false, o, f).outcome == Unauthorized
    ensures Run(t, ev, false, o, f).table == t
    ensures forall c :: c in Run(t, ev, false, o, f).calls ==> !StoreAccess(c)
  {
  }

  /**
   * A store that cannot be reached, at the connection or at the select, ends
   * denied with the table unchanged (for the select, the store's own error
   * stands in as Unauthorized); a failed connection means the table is not
   * touched at all.
   */
  lemma EarlyStoreFaultDenied(t: Table, ev: Event, o: Oracles, f: StoreFaults)
    requires f.connect || f.select
    ensures Run(t, ev, false, o, f).outcome == Unauthorized
    ensures Run(t, ev, false, o, f).table == t
    ensures forall c :: c in Run(t, ev, false, o, f).calls ==> !c.DeleteToken? && !c.InsertToken?
    ensures f.connect ==> forall c :: c in Run(t, ev, false, o, f).calls ==> !StoreAccess(c)
  {
  }

  /** A verified user with no stored row is denied and the table is unchanged. */
  lemma NoRowsDenied(t: Table, ev: Event, o: Oracles, f: StoreFaults, claims: Claims)
    requires Truthy(ev.authorizationToken)
    requires Verify(TokenOf(ev.authorizationToken.value), o.verify) == Some(claims)
    requires forall x :: x in t.rows ==> x.userId != claims.userId
    ensures Run(t, ev, false, o, f).outcome == Unauthorized
    ensures Run(t, ev, false, o, f).table == t
  {
  }

  /**
   * A selected row that has not expired gives Allow on the requested method
   * and leaves the table as it was, so a second identical call decides the same.
   */
  lemma FreshRowAllows(t: Table, ev: Event, o: Oracles, f: StoreFaults, claims: Claims, row: Row)
    requires Selects(t, ev, o, f, claims, row) && !o.expired(row.expiresAt)
    ensures Run(t, ev, false, o, f).outcome ==
      Allow(GeneratePolicy(claims.username, TokenOf(ev.authorizationToken.value).value, Some("Allow"), ev.methodArn))
    ensures Run(t, ev, false, o, f).table == t
    ensures Run(Run(t, ev, false, o, f).table, ev, false, o, f) == Run(t, ev, false, o, f)
  {
  }

  /**
   * An expired selected row is refreshed by delete, exchange, insert, in that
   * order. On success the result is Allow on the requested method, the old
   * row is gone, the one new row carries the user, the new tokens, the new
   * expiry and the environment, the user has as many rows as before, the new
   * row is the one the next select returns first, and no other user's rows
   * change.
   */
  lemma RefreshReplacesRow(t: Table, ev: Event, o: Oracles, f: StoreFaults, claims: Claims, row: Row, c: Credential)
    requires TableValid(t)
    requires Selects(t, ev, o, f, claims, row) && o.expired(row.expiresAt)
    requires !f.delete && !f.insert && o.refresh(row.refreshToken) == Some(c)
    ensures var s := Run(t, ev, false, o, f);
      var token := TokenOf(ev.authorizationToken.value);
      var renewed := Row(t.nextId, claims.userId, t.nextStamp, c.accessToken, c.refreshToken, c.expiresAt, o.environment);
      s.outcome == Allow(GeneratePolicy(claims.username, token.value, Some("Allow"), ev.methodArn)) &&
      s.calls == [Connect, VerifyJwt(token), SelectTokens(claims.userId), DeleteToken(row.id),
                  RefreshGrant(row.refreshToken), InsertToken(claims.userId)] &&
      s.table.rows == RemoveId(t.rows, row.id) + [renewed] &&
      row !in s.table.rows &&
      |s.table.rows| == |t.rows| &&
      |UserRows(s.table.rows, claims.userId)| == |UserRows(t.rows, claims.userId)| &&
      Newest(s.table.rows, claims.userId) == Some(renewed) &&
      forall v :: v != claims.userId ==> UserRows(s.table.rows, v) == UserRows(t.rows, v)
  {
    RenewalReplacesRow(t, row, c, o.environment);
  }

  /**
   * A refresh that fails after the delete, at the exchange or at the insert,
   * denies; the old row stays deleted and nothing is inserted.
   */
  lemma FailedRefreshForfeitsRow(t: Table, ev: Event, o: Oracles, f: StoreFaults, claims: Claims, row: Row)
    requires TableValid(t)
    requires Selects(t, ev, o, f, claims, row) && o.expired(row.expiresAt) && !f.delete
    requires o.refresh(row.refreshToken).None? || f.insert
    ensures var s := Run(t, ev, false, o, f);
      s.outcome == Unauthorized &&
      s.table == Delete(t, row.id) &&
      multiset(s.table.rows) == multiset(t.rows) - multiset{row} &&
      DeleteToken(row.id) in s.calls && RefreshGrant(row.refreshToken) in s.calls
  {
    DeleteRemovesOneRow(t, row);
  }

  /** A store that cannot delete the expired row denies and keeps the row. */
  lemma FailedDeleteKeepsRow(t: Table, ev: Event, o: Oracles, f: StoreFaults, claims: Claims, row: Row)
    requires Selects(t, ev, o, f, claims, row) && o.expired(row.expiresAt) && f.delete
    ensures Run(t, ev, false, o, f).outcome == Unauthorized
    ensures Run(t, ev, false, o, f).table == t
    ensures forall c :: c in Run(t, ev, false, o, f).calls ==> !c.RefreshGrant?
  {
  }

  /**
   * Only the newest row of the verified user can change. Every row that is
   * not its user's newest survives; the only row that can appear is a new
   * one with the next id; and a user whose rows were never selected keeps
   * them all.
   */
  lemma OnlyNewestRowChanges(t: Table, ev: Event, warmUp: bool, o: Oracles, f: StoreFaults, v: int)
    requires TableValid(t)
    ensures forall x :: x in t.rows && Newest(t.rows, x.userId) != Some(x) ==> x in Run(t, ev, warmUp, o, f).table.rows
    ensures forall x :: x in Run(t, ev, warmUp, o, f).table.rows && x !in t.rows ==> x.id == t.nextId
    ensures SelectTokens(v) !in Run(t, ev, warmUp, o, f).calls ==> UserRows(Run(t, ev, warmUp, o, f).table.rows, v) == UserRows(t.rows, v)
  {
    var s := Run(t, ev, warmUp, o, f);
    if s.table != t {
      var claims := Verify(TokenOf(ev.authorizationToken.value), o.verify).value;
      var row := Newest(t.rows, claims.userId).value;
      assert SelectTokens(claims.userId) in s.calls;
      DeleteKeepsOthers(t, row);
      DeleteKeepsOtherUsers(t, row);
      if s.table != Delete(t, row.id) {
        RenewalReplacesRow(t, row, o.refresh(row.refreshToken).value, o.environment);
      }
    }
  }

  /**
   * Older rows never influence a decision: two tables that agree on every
   * user's newest row give the same outcome and the same calls.
   */
  lemma OlderRowsIrrelevant(t1: Table, t2: Table, ev: Event, warmUp: bool, o: Oracles, f: StoreFaults)
    requires forall u :: Newest(t1.rows, u) == Newest(t2.rows, u)
    ensures Run(t1, ev, warmUp, o, f).outcome == Run(t2, ev, warmUp, o, f).outcome
    ensures Run(t1, ev, warmUp, o, f).calls == Run(t2, ev, warmUp, o, f).calls
  {
    if !warmUp && Truthy(ev.authorizationToken) && !f.connect {
      var verified := Verify(TokenOf(ev.authorizationToken.value), o.verify);
      if verified.Some? {
        var u := verified.value.userId;
        assert Newest(t1.rows, u) == Newest(t2.rows, u);
      }
    }
  }

  /** An invocation keeps the store's invariant. */
  lemma RunKeepsValid(t: Table, ev: Event, warmUp: bool, o: Oracles, f: StoreFaults)
    requires TableValid(t)
    ensures TableValid(Run(t, ev, warmUp, o, f).table)
  {
    var s := Run(t, ev, warmUp, o, f);
    if s.table != t {
      var claims := Verify(TokenOf(ev.authorizationToken.value), o.verify).value;
      var row := Newest(t.rows, claims.userId).value;
      DeleteKeepsValid(t, row.id);
    }
  }

  /**
   * A `Bearer <token>` header, for any space-free token and any claims: a
   * header whose token verifies, for a user whose one stored row
   * has not expired, is allowed to invoke exactly the requested method, with
   * the username as principal and the token passed on in the context.
   */
  lemma BearerHeaderAllowed(token: string, claims: Claims, arn: string, row: Row, o: Oracles, f: StoreFaults)
    requires token != "" && Space !in token && arn != "" && row.userId == claims.userId
    requires o.verify(token) == Some(claims) && !o.expired(row.expiresAt)
    requires !f.connect && !f.select
    ensures var s := Run(Table([row], row.id + 1, row.createdAt + 1), Event(Some("Bearer " + token), Some(arn)), false, o, f);
      s.outcome.Allow? &&
      s.outcome.response.principalId == claims.username &&
      s.outcome.response.context == Context(token) &&
      (forall x :: Permits(s.outcome.response, InvokeAction, x) <==> x == arn)
  {
    var header := "Bearer " + token;
    var t := Table([row], row.id + 1, row.createdAt + 1);
    var ev := Event(Some(header), Some(arn));
    assert header == "Bearer" + [Space] + token;
    SchemeNotChecked("Bearer", token, None);
    NewestIsLatest([row], row);
    assert Selects(t, ev, o, f, claims, row);
    FreshRowAllows(t, ev, o, f, claims, row);
    var response := GeneratePolicy(claims.username, token, Some("Allow"), Some(arn));
    assert Run(t, ev, false, o, f).outcome == Allow(response);
    forall x ensures Permits(response, InvokeAction, x) <==> x == arn {
      GeneratedPolicyPermits(claims.username, token, Some("Allow"), Some(arn), InvokeAction, x);
    }
  }

  /**
   * The `user_tokens` table as the authorizer's store sees it, with the
   * authorizer itself as a method that runs the calls in order.
   */
  class TokenStore {
    var rows: seq<Row>
    var nextId: nat
    var nextStamp: int

    ghost function Snapshot(): Table
      reads this
    {
      Table(rows, nextId, nextStamp)
    }

    ghost predicate Valid()
      reads this
    {
      TableValid(Snapshot())
    }

    constructor ()
      ensures Valid() && Snapshot() == Table([], 0, 0)
    {
      rows, nextId, nextStamp := [], 0, 0;
    }

    /** `where({ id }).del()`. */
    method DeleteById(id: nat)
      requires Valid()
      modifies this
      ensures Valid() && Snapshot() == Delete(old(Snapshot()), id)
    {
      DeleteKeepsValid(Snapshot(), id);
      rows := RemoveId(rows, id);
    }

    /** `insert({ ... })`: the store assigns the id and the creation stamp. */
    method InsertRow(userId: int, c: Credential, environment: string)
      requires Valid()
      modifies this
      ensures Valid() && Snapshot() == Insert(old(Snapshot()), userId, c, environment)
    {
      rows := rows + [Row(nextId, userId, nextStamp, c.accessToken, c.refreshToken, c.expiresAt, environment)];
      nextId := nextId + 1;
      nextStamp := nextStamp + 1;
    }

    /** `edlAuthorizer(event)`, returning the outcome and the calls made. */
    method Authorize(ev: Event, warmUp: bool, o: Oracles, f: StoreFaults) returns (outcome: Outcome, ghost calls: seq<Call>)
      requires Valid()
      modifies this
      ensures Valid()
      ensures outcome == Run(old(Snapshot()), ev, warmUp, o, f).outcome
      ensures Snapshot() == Run(old(Snapshot()), ev, warmUp, o, f).table
      ensures calls == Run(old(Snapshot()), ev, warmUp, o, f).calls
    {
      ghost var t := Snapshot();
      calls := [];
      if warmUp {
        return WarmUp, calls;
      }
      if !Truthy(ev.authorizationToken) {
        return Unauthorized, calls;
      }
      var token := TokenOf(ev.authorizationToken.value);
      calls := calls + [Connect];
      if f.connect {
        return Unauthorized, calls;
      }
      calls := calls + [VerifyJwt(token)];
      var verified := Verify(token, o.verify);
      if verified.None? {
        return Unauthorized, calls;
      }
      var claims := verified.value;
      calls := calls + [SelectTokens(claims.userId)];
      if f.select {
        return Unauthorized, calls;
      }
      var newest := Newest(rows, claims.userId);
      if newest.None? {
        return Unauthorized, calls;
      }
      var row := newest.value;
      if o.expired(row.expiresAt) {
        calls := calls + [DeleteToken(row.id)];
        if f.delete {
          return Unauthorized, calls;
        }
        DeleteById(row.id);
        ghost var t1 := Snapshot();
        assert t1 == Delete(t, row.id);
        calls := calls + [RefreshGrant(row.refreshToken)];
        var refreshed := o.refresh(row.refreshToken);
        if refreshed.None? {
          return Unauthorized, calls;
        }
        calls := calls + [InsertToken(claims.userId)];
        if f.insert {
          return Unauthorized, calls;
        }
        InsertRow(claims.userId, refreshed.value, o.environment);
      }
      outcome := AllowFor(claims, token.value, ev);
    }
  }
}
