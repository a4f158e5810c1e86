/**
 * The types the checker takes from the IAM client library it calls
 * (aws-sdk-go-wrapper's iam package), and the client itself as data:
 * every API call is a total function whose missing result stands for
 * the error the call would return.
 */
module Iam {
  import opened Wrappers

  /** Statement.Effect; Statement.IsAllow is `effect == Allow`. */
  datatype Effect = Allow | Deny

  /** One statement of a policy document. */
  datatype Statement = Statement(effect: Effect, action: seq<string>, resource: seq<string>)

  /** A parsed policy document (NewPolicyDocumentFromDocument). */
  datatype PolicyDocument = PolicyDocument(statement: seq<Statement>)

  /** PolicyEntity.IsUser / IsGroup / IsRole; anything else is OtherEntity. */
  datatype EntityKind = UserEntity | GroupEntity | RoleEntity | OtherEntity

  /** One entity a managed policy is attached to (ListEntitiesForPolicy). */
  datatype PolicyEntity = PolicyEntity(kind: EntityKind, name: string)

  /** One managed policy from ListAttachedPolicies. */
  datatype ManagedPolicy = ManagedPolicy(arn: string, versionId: string, policyName: string)

  /** The three identity kinds that can own inline policies. */
  datatype IdentityKind = UserIdentity | GroupIdentity | RoleIdentity

  /** The three outcomes of Get{User,Group,Role}PolicyDocument: an error, a nil document, a document. */
  datatype Fetched = FetchFailed | NilDocument | Fetched(document: PolicyDocument)

  /** The cloud client, with each call's answers fixed in advance. */
  datatype Client = Client(
    // ListAttachedPolicies: the policies or the error message.
    listAttachedPolicies: Result<seq<ManagedPolicy>, string>,
    // GetPolicyVersion(arn, versionId): the raw document text of that version.
    getPolicyVersion: (string, string) -> Option<string>,
    // NewPolicyDocumentFromDocument: parsing a raw document.
    parseDocument: string -> Option<PolicyDocument>,
    // ListEntitiesForPolicy(arn).
    listEntitiesForPolicy: string -> Option<seq<PolicyEntity>>,
    // GetGroup(name): the user names of the group's members.
    getGroup: string -> Option<seq<string>>,
    // ListUsers, ListGroups, ListRoles: the identity names or the error message.
    listIdentities: IdentityKind -> Result<seq<string>, string>,
    // ListUserPolicies, ListGroupPolicies, ListRolePolicies(identity): inline policy names.
    listInlinePolicies: (IdentityKind, string) -> Option<seq<string>>,
    // GetUserPolicyDocument, GetGroupPolicyDocument, GetRolePolicyDocument(identity, policyName).
    getInlinePolicyDocument: (IdentityKind, string, string) -> Fetched
  )
}
