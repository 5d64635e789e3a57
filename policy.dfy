/**
 * The response an API Gateway request authorizer returns: the principal, a
 * context map handed to downstream handlers, and optionally an IAM policy
 * document (policy language version 2012-10-17) with one statement.
 */
module Policy {
  import opened Wrappers

  /** The IAM policy language version written into every policy document. */
  const PolicyVersion: string := "2012-10-17"
  /** The one action a generated statement covers: invoking an API Gateway method. */
  const InvokeAction: string := "execute-api:Invoke"

  datatype Statement = Statement(action: string, effect: string, resource: string)

  datatype PolicyDocument = PolicyDocument(version: string, statements: seq<Statement>)

  /** The `context` object of the response; downstream handlers read the JWT from it. */
  datatype Context = Context(jwtToken: string)

  datatype AuthResponse = AuthResponse(
    principalId: string,
    context: Context,
    policyDocument: Option<PolicyDocument>)

  /** JavaScript truthiness of a value that is a string or undefined. */
  predicate Truthy(v: Option<string>) {
    v.Some? && v.value != ""
  }

  /**
   * `generatePolicy`: the principal and the context are always set; the
   * policy document is attached only when both the effect and the resource
   * are truthy, and then holds exactly one statement for that effect on that
   * resource.
   */
  function GeneratePolicy(username: string, jwtToken: string, effect: Option<string>, resource: Option<string>): (r: AuthResponse)
    ensures r.principalId == username && r.context == Context(jwtToken)
    ensures r.policyDocument.Some? <==> Truthy(effect) && Truthy(resource)
    ensures r.policyDocument.Some? ==>
      r.policyDocument.value.version == PolicyVersion &&
      |r.policyDocument.value.statements| == 1 &&
      r.policyDocument.value.statements[0] == Statement(InvokeAction, effect.value, resource.value)
  {
    var document :=
      if Truthy(effect) && Truthy(resource) then
        Some(PolicyDocument(PolicyVersion, [Statement(InvokeAction, effect.value, resource.value)]))
      else
        None;
    AuthResponse(username, Context(jwtToken), document)
  }

  predicate Matches(s: Statement, effect: string, action: string, arn: string) {
    s.effect == effect && s.action == action && s.resource == arn
  }

  /**
   * How the gateway reads a response, for exact action and resource names:
   * some statement allows the action on the resource and none denies it.
   * A response without a policy document permits nothing.
   */
  predicate Permits(r: AuthResponse, action: string, arn: string) {
    r.policyDocument.Some? &&
    var ss := r.policyDocument.value.statements;
    (exists i :: 0 <= i < |ss| && Matches(ss[i], "Allow", action, arn)) &&
    !(exists i :: 0 <= i < |ss| && Matches(ss[i], "Deny", action, arn))
  }

  /**
   * A generated response permits exactly one thing: invoking the given
   * resource, and only when the effect is "Allow" and the resource is truthy.
   */
  lemma GeneratedPolicyPermits(username: string, jwtToken: string, effect: Option<string>, resource: Option<string>,
                               action: string, arn: string)
    ensures Permits(GeneratePolicy(username, jwtToken, effect, resource), action, arn) <==>
      effect == Some("Allow") && Truthy(resource) && action == InvokeAction && arn == resource.value
  {
    var r := GeneratePolicy(username, jwtToken, effect, resource);
    if effect == Some("Allow") && Truthy(resource) && action == InvokeAction && arn == resource.value {
      assert Matches(r.policyDocument.value.statements[0], "Allow", action, arn);
    }
  }
}
