/**
 * The inline-policy report (checker/policy_checker_inline_policies.go): for every user, group
 * and role, keep the inline policies whose document passes the filter, each as a record that
 * names its one owner, and write one row per record.
 */
module InlinePolicies {
  import opened Wrappers
  import opened Errors
  import opened Text
  import opened Iam
  import opened Policies
  import opened Checker

  /** The columns of the inline-policy report, in order. */
  const InlineHeaders: seq<string> := [
    "entity_type",
    "entity_name",
    "policy_name",
    "policy_action",
    "policy_resource_action"
  ]

  // ---- The records ----

  /**
   * The AwsPolicy literal of one inline policy: its name, and its owner as the single user,
   * group (with no members) or role it is attached to; every other field is a zero value.
   */
  function InlineSeed(kind: IdentityKind, name: string, policyName: string): PolicyView {
    match kind
    case UserIdentity => Blank("", policyName).(attachedUsers := [name])
    case GroupIdentity => Blank("", policyName).(attachedGroups := [Group(name, [])])
    case RoleIdentity => Blank("", policyName).(attachedRoles := [name])
  }

  /** A record names `name` as its only owner, in the entity list of `kind`, and no one else. */
  predicate OwnedBy(v: PolicyView, kind: IdentityKind, name: string) {
    match kind
    case UserIdentity => v.attachedUsers == [name] && v.attachedGroups == [] && v.attachedRoles == []
    case GroupIdentity => v.attachedUsers == [] && v.attachedGroups == [Group(name, [])] && v.attachedRoles == []
    case RoleIdentity => v.attachedUsers == [] && v.attachedGroups == [] && v.attachedRoles == [name]
  }

  /** An inline policy that passes the filter: its owner, its name and its document. */
  datatype InlineTarget = InlineTarget(kind: IdentityKind, name: string, policyName: string, document: PolicyDocument)

  /** The target one inline policy yields: its document, when that is fetched, not nil and passes. */
  function InlineTargetOf(keep: seq<Statement> -> bool, client: Client, kind: IdentityKind, name: string, policyName: string): Option<InlineTarget> {
    match client.getInlinePolicyDocument(kind, name, policyName)
    case FetchFailed => None
    case NilDocument => None
    case Fetched(pd) => if keep(pd.statement) then Some(InlineTarget(kind, name, policyName, pd)) else None
  }

  /** The targets one inline policy contributes: one or none. */
  function InlineFound(keep: seq<Statement> -> bool, client: Client, kind: IdentityKind, name: string, policyName: string): seq<InlineTarget> {
    match InlineTargetOf(keep, client, kind, name, policyName)
    case None => []
    case Some(t) => [t]
  }

  /** The targets of one inline policy of `name`, as a function of the policy's name. */
  function PerPolicy(keep: seq<Statement> -> bool, client: Client, kind: IdentityKind, name: string): string -> seq<InlineTarget> {
    policyName => InlineFound(keep, client, kind, name, policyName)
  }

  /** The inner loop: the targets among the named inline policies of one identity, in order. */
  function PoliciesOfIdentity(keep: seq<Statement> -> bool, client: Client, kind: IdentityKind, name: string, policies: seq<string>): seq<InlineTarget> {
    FlatMap(PerPolicy(keep, client, kind, name), policies)
  }

  /** The targets of one identity; a failed listing (and an empty one) gives none. */
  function IdentityPolicies(keep: seq<Statement> -> bool, client: Client, kind: IdentityKind, name: string): seq<InlineTarget> {
    match client.listInlinePolicies(kind, name)
    case None => []
    case Some(policies) => PoliciesOfIdentity(keep, client, kind, name, policies)
  }

  /** The targets of one identity of `kind`, as a function of its name. */
  function PerIdentity(keep: seq<Statement> -> bool, client: Client, kind: IdentityKind): string -> seq<InlineTarget> {
    name => IdentityPolicies(keep, client, kind, name)
  }

  /** The targets fetchInlinePolicyFrom{Users,Groups,Roles} keeps, identity by identity. */
  function InlinePoliciesOf(keep: seq<Statement> -> bool, client: Client, kind: IdentityKind, names: seq<string>): seq<InlineTarget> {
    FlatMap(PerIdentity(keep, client, kind), names)
  }

  /** The record a target becomes: its owner's AwsPolicy literal after SetPolicy of its document. */
  function InlineRecord(t: InlineTarget): PolicyView {
    WithPolicy(InlineSeed(t.kind, t.name, t.policyName), t.document)
  }

  /** The records of a run of targets, position by position. */
  function InlineRecords(ts: seq<InlineTarget>): seq<PolicyView> {
    seq(|ts|, i requires 0 <= i < |ts| => InlineRecord(ts[i]))
  }

  // ---- Properties of the targets and records ----

  /**
   * An inline record has no ARN and no aggregated users, carries the policy's name and
   * document, and belongs to its one identity.
   */
  lemma InlineRecordShape(t: InlineTarget)
    ensures var v := InlineRecord(t);
      && v.arn == "" && v.policyName == t.policyName && v.policy == t.document
      && v.policyActions == StatementActions(t.document.statement)
      && v.attachedGroupUsers == [] && v.attachedAllUsers == []
      && OwnedBy(v, t.kind, t.name)
  {
  }

  /**
   * An inline policy yields a target exactly when its document is fetched, is not nil and
   * passes the filter; the target names the identity, the policy and that document.
   */
  lemma InlineTargetKept(keep: seq<Statement> -> bool, client: Client, kind: IdentityKind, name: string, policyName: string)
    ensures InlineTargetOf(keep, client, kind, name, policyName).Some? <==>
      client.getInlinePolicyDocument(kind, name, policyName).Fetched?
      && keep(client.getInlinePolicyDocument(kind, name, policyName).document.statement)
    ensures InlineTargetOf(keep, client, kind, name, policyName).Some? ==>
      InlineTargetOf(keep, client, kind, name, policyName).value
        == InlineTarget(kind, name, policyName, client.getInlinePolicyDocument(kind, name, policyName).document)
  {
  }

  /** An identity whose listing fails or is empty contributes nothing. */
  lemma SkippedIdentity(keep: seq<Statement> -> bool, client: Client, kind: IdentityKind, name: string)
    requires client.listInlinePolicies(kind, name) == None || client.listInlinePolicies(kind, name) == Some([])
    ensures IdentityPolicies(keep, client, kind, name) == []
  {
  }

  /** One identity has at most one target per listed inline policy. */
  lemma PoliciesOfIdentityBound(keep: seq<Statement> -> bool, client: Client, kind: IdentityKind, name: string, policies: seq<string>)
    ensures |PoliciesOfIdentity(keep, client, kind, name, policies)| <= |policies|
  {
    FlatMapBound(PerPolicy(keep, client, kind, name), policies);
  }

  /** Every target of an identity names that identity and one of its listed policies. */
  lemma PoliciesOfIdentityOwned(keep: seq<Statement> -> bool, client: Client, kind: IdentityKind, name: string, policies: seq<string>, t: InlineTarget)
    requires t in PoliciesOfIdentity(keep, client, kind, name, policies)
    ensures t.kind == kind && t.name == name && t.policyName in policies
  {
    FlatMapSound(PerPolicy(keep, client, kind, name), policies, t);
    var j :| 0 <= j < |policies| && t in InlineFound(keep, client, kind, name, policies[j]);
    assert t == InlineTargetOf(keep, client, kind, name, policies[j]).value;
  }

  /** The targets of a concatenation of identities are the targets of each run, in order. */
  lemma InlinePoliciesOfConcat(keep: seq<Statement> -> bool, client: Client, kind: IdentityKind, a: seq<string>, b: seq<string>)
    ensures InlinePoliciesOf(keep, client, kind, a + b) == InlinePoliciesOf(keep, client, kind, a) + InlinePoliciesOf(keep, client, kind, b)
  {
    FlatMapConcat(PerIdentity(keep, client, kind), a, b);
  }

  /** Every target names a listed identity of the kind. */
  lemma InlinePoliciesOfOwned(keep: seq<Statement> -> bool, client: Client, kind: IdentityKind, names: seq<string>, t: InlineTarget)
    requires t in InlinePoliciesOf(keep, client, kind, names)
    ensures t.kind == kind && t.name in names
  {
    FlatMapSound(PerIdentity(keep, client, kind), names, t);
    var i :| 0 <= i < |names| && t in IdentityPolicies(keep, client, kind, names[i]);
    PoliciesOfIdentityOwned(keep, client, kind, names[i], client.listInlinePolicies(kind, names[i]).value, t);
  }

  /** A target of an identity is in the result for any list naming that identity. */
  lemma InlinePoliciesOfComplete(keep: seq<Statement> -> bool, client: Client, kind: IdentityKind, names: seq<string>, i: nat, t: InlineTarget)
    requires i < |names| && t in IdentityPolicies(keep, client, kind, names[i])
    ensures t in InlinePoliciesOf(keep, client, kind, names)
  {
    FlatMapComplete(PerIdentity(keep, client, kind), names, i, t);
  }

  /**
   * Every target of the whole run is the target of one listed inline policy of a listed
   * identity: the identity is in `names`, its listing succeeds and names the policy, and the
   * policy's own document yields exactly this target.
   */
  lemma InlinePoliciesOfSound(keep: seq<Statement> -> bool, client: Client, kind: IdentityKind, names: seq<string>, t: InlineTarget)
    requires t in InlinePoliciesOf(keep, client, kind, names)
    ensures t.kind == kind && t.name in names
    ensures client.listInlinePolicies(kind, t.name).Some? && t.policyName in client.listInlinePolicies(kind, t.name).value
    ensures InlineTargetOf(keep, client, kind, t.name, t.policyName) == Some(t)
  {
    FlatMapSound(PerIdentity(keep, client, kind), names, t);
    var i :| 0 <= i < |names| && t in IdentityPolicies(keep, client, kind, names[i]);
    var policies := client.listInlinePolicies(kind, names[i]).value;
    FlatMapSound(PerPolicy(keep, client, kind, names[i]), policies, t);
    var j :| 0 <= j < |policies| && t in InlineFound(keep, client, kind, names[i], policies[j]);
    assert t == InlineTargetOf(keep, client, kind, names[i], policies[j]).value;
  }

  /**
   * Conversely, a listed inline policy of a listed identity whose document yields a target
   * puts that target in the result of the whole run.
   */
  lemma InlinePoliciesOfKept(keep: seq<Statement> -> bool, client: Client, kind: IdentityKind, names: seq<string>, i: nat, j: nat)
    requires i < |names| && client.listInlinePolicies(kind, names[i]).Some?
    requires j < |client.listInlinePolicies(kind, names[i]).value|
    requires InlineTargetOf(keep, client, kind, names[i], client.listInlinePolicies(kind, names[i]).value[j]).Some?
    ensures InlineTargetOf(keep, client, kind, names[i], client.listInlinePolicies(kind, names[i]).value[j]).value
      in InlinePoliciesOf(keep, client, kind, names)
  {
    var policies := client.listInlinePolicies(kind, names[i]).value;
    var t := InlineTargetOf(keep, client, kind, names[i], policies[j]).value;
    FlatMapComplete(PerPolicy(keep, client, kind, names[i]), policies, j, t);
    FlatMapComplete(PerIdentity(keep, client, kind), names, i, t);
  }

  /** The number of inline policy names the listings of `names` return, a failed listing counting none. */
  function ListedCount(client: Client, kind: IdentityKind, names: seq<string>): nat
    decreases |names|
  {
    if names == [] then 0
    else
      ListedCount(client, kind, names[..|names| - 1])
      + match client.listInlinePolicies(kind, names[|names| - 1])
        case None => 0
        case Some(policies) => |policies|
  }

  /** The whole run has at most one target per listed inline policy name. */
  lemma {:induction false} InlinePoliciesOfBound(keep: seq<Statement> -> bool, client: Client, kind: IdentityKind, names: seq<string>)
    ensures |InlinePoliciesOf(keep, client, kind, names)| <= ListedCount(client, kind, names)
    decreases |names|
  {
    if names != [] {
      var last := names[|names| - 1];
      InlinePoliciesOfBound(keep, client, kind, names[..|names| - 1]);
      match client.listInlinePolicies(kind, last)
      case None =>
      case Some(policies) => PoliciesOfIdentityBound(keep, client, kind, last, policies);
    }
  }

  /** The records of a run one target longer. */
  lemma InlineRecordsSnoc(ts: seq<InlineTarget>, t: InlineTarget)
    ensures InlineRecords(ts + [t]) == InlineRecords(ts) + [InlineRecord(t)]
  {
    assert forall i :: 0 <= i < |ts| ==> (ts + [t])[i] == ts[i];
  }

  /** The records of two runs of targets, one after the other. */
  lemma InlineRecordsConcat(a: seq<InlineTarget>, b: seq<InlineTarget>)
    ensures InlineRecords(a + b) == InlineRecords(a) + InlineRecords(b)
  {
    assert forall i :: 0 <= i < |a| ==> (a + b)[i] == a[i];
    assert forall i :: |a| <= i < |a + b| ==> (a + b)[i] == b[i - |a|];
  }

  // ---- The fetch methods ----

  /** One iteration of the inner loop: a new record when the document is fetched and passes. */
  method FetchInlinePolicy(c: PolicyChecker, rules: Rules, kind: IdentityKind, name: string, policyName: string)
    returns (r: Option<AwsPolicy>)
    ensures r.Some? <==> InlineTargetOf(Filter(rules), c.client, kind, name, policyName).Some?
    ensures r.Some? ==> fresh(r.value) && r.value.View() == InlineRecord(InlineTargetOf(Filter(rules), c.client, kind, name, policyName).value)
  {
    var policy := c.client.getInlinePolicyDocument(kind, name, policyName);
    if !policy.Fetched? {
      return None;
    }
    if !HasTargetPermission(rules, policy.document.statement) {
      return None;
    }
    var ap := new AwsPolicy(InlineSeed(kind, name, policyName));
    ap.SetPolicy(policy.document);
    return Some(ap);
  }

  /** The targets of a prefix one policy longer. */
  lemma PoliciesOfIdentityStep(keep: seq<Statement> -> bool, client: Client, kind: IdentityKind, name: string, policies: seq<string>, k: nat)
    requires k < |policies|
    ensures PoliciesOfIdentity(keep, client, kind, name, policies[..k + 1])
      == PoliciesOfIdentity(keep, client, kind, name, policies[..k]) + InlineFound(keep, client, kind, name, policies[k])
  {
    FlatMapStep(PerPolicy(keep, client, kind, name), policies, k);
  }

  /** The inner loop: fetch each listed inline policy of one identity, keeping those that pass. */
  method FetchListedPolicies(c: PolicyChecker, rules: Rules, kind: IdentityKind, name: string, list: seq<string>)
    returns (targets: seq<AwsPolicy>)
    ensures Views(targets) == InlineRecords(PoliciesOfIdentity(Filter(rules), c.client, kind, name, list))
  {
    var keep := Filter(rules);
    targets := [];
    for k := 0 to |list|
      invariant Views(targets) == InlineRecords(PoliciesOfIdentity(keep, c.client, kind, name, list[..k]))
    {
      PoliciesOfIdentityStep(keep, c.client, kind, name, list, k);
      var ap := FetchInlinePolicy(c, rules, kind, name, list[k]);
      if ap.Some? {
        InlineRecordsSnoc(PoliciesOfIdentity(keep, c.client, kind, name, list[..k]), InlineTargetOf(keep, c.client, kind, name, list[k]).value);
        ViewsSnoc(targets, ap.value);
        targets := targets + [ap.value];
      } else {
        assert PoliciesOfIdentity(keep, c.client, kind, name, list[..k + 1]) == PoliciesOfIdentity(keep, c.client, kind, name, list[..k]);
      }
    }
    assert list[..|list|] == list;
  }

  /** The body of the outer loop for one identity: list its inline policies and fetch each. */
  method FetchIdentityPolicies(c: PolicyChecker, rules: Rules, kind: IdentityKind, name: string) returns (targets: seq<AwsPolicy>)
    ensures Views(targets) == InlineRecords(IdentityPolicies(Filter(rules), c.client, kind, name))
  {
    var policies := c.client.listInlinePolicies(kind, name);
    if policies.None? || |policies.value| == 0 {
      SkippedIdentity(Filter(rules), c.client, kind, name);
      return [];
    }
    targets := FetchListedPolicies(c, rules, kind, name, policies.value);
  }

  /** The targets of a prefix one identity longer. */
  lemma InlinePoliciesOfStep(keep: seq<Statement> -> bool, client: Client, kind: IdentityKind, names: seq<string>, i: nat)
    requires i < |names|
    ensures InlinePoliciesOf(keep, client, kind, names[..i + 1])
      == InlinePoliciesOf(keep, client, kind, names[..i]) + IdentityPolicies(keep, client, kind, names[i])
  {
    FlatMapStep(PerIdentity(keep, client, kind), names, i);
  }

  /**
   * fetchInlinePolicyFromUsers, fetchInlinePolicyFromGroups and fetchInlinePolicyFromRoles:
   * the three differ only in the identity kind whose listing and documents they request.
   */
  method FetchInlinePolicyFrom(c: PolicyChecker, rules: Rules, kind: IdentityKind, names: seq<string>)
    returns (targets: seq<AwsPolicy>)
    ensures Views(targets) == InlineRecords(InlinePoliciesOf(Filter(rules), c.client, kind, names))
  {
    var keep := Filter(rules);
    targets := [];
    for i := 0 to |names|
      invariant Views(targets) == InlineRecords(InlinePoliciesOf(keep, c.client, kind, names[..i]))
    {
      InlinePoliciesOfStep(keep, c.client, kind, names, i);
      var found := FetchIdentityPolicies(c, rules, kind, names[i]);
      ViewsConcat(targets, found);
      InlineRecordsConcat(InlinePoliciesOf(keep, c.client, kind, names[..i]), IdentityPolicies(keep, c.client, kind, names[i]));
      targets := targets + found;
    }
    assert names[..|names|] == names;
  }

  // ---- saveInlinePolicies and CheckInlinePolicies ----

  /** The row function of saveInlinePolicies: the owner's type and names, then the policy's cells. */
  function InlineRow(v: PolicyView, x: Externals): (r: seq<string>)
    ensures |r| == |InlineHeaders|
  {
    var (typ, entities) := x.entityAndType(v);
    [ typ,
      Join(entities, NewLine),
      v.policyName,
      Join(v.policyActions, NewLine),
      Join(ResourceActionTexts(v.policyResourceActions, x.marshal), NewLine) ]
  }

  /** The row function saveInlinePolicies hands to toSliceForOutpout. */
  function InlineColumns(x: Externals): PolicyView -> seq<string> {
    v => InlineRow(v, x)
  }

  /** The cell an inline-report column heading stands for, looked up by its name. */
  function InlineCell(v: PolicyView, x: Externals, header: string): string {
    if header == "entity_type" then x.entityAndType(v).0
    else if header == "entity_name" then Join(x.entityAndType(v).1, NewLine)
    else if header == "policy_name" then v.policyName
    else if header == "policy_action" then Join(v.policyActions, NewLine)
    else if header == "policy_resource_action" then Join(ResourceActionTexts(v.policyResourceActions, x.marshal), NewLine)
    else ""
  }

  /**
   * A row has one cell per heading, in header order: cell i is the value heading
   * InlineHeaders[i] names (the owner's type and names, the policy's name, its actions and
   * its statements).
   */
  lemma InlineRowMatchesHeaders(v: PolicyView, x: Externals)
    ensures |InlineRow(v, x)| == |InlineHeaders| == 5
    ensures forall i :: 0 <= i < |InlineHeaders| ==> InlineRow(v, x)[i] == InlineCell(v, x, InlineHeaders[i])
    ensures InlineRow(v, x)[0] == x.entityAndType(v).0
    ensures InlineRow(v, x)[1] == Join(x.entityAndType(v).1, NewLine)
    ensures InlineRow(v, x)[2] == v.policyName
    ensures InlineRow(v, x)[3] == Join(v.policyActions, NewLine)
    ensures InlineRow(v, x)[4] == Join(ResourceActionTexts(v.policyResourceActions, x.marshal), NewLine)
  {
  }

  /** saveInlinePolicies: the 5-column header and one InlineRow per record, written to the output file. */
  method SaveInlinePolicies(c: PolicyChecker, x: Externals, list: seq<AwsPolicy>) returns (r: Result<Report, Error>)
    ensures r == WriteReport(x, c.config.GetOutputFile(x.env), InlineHeaders, Rows(Views(list), InlineColumns(x)))
  {
    var path := c.config.GetOutputFile(x.env);
    var rows := ToSliceForOutput(list, InlineColumns(x));
    r := WriteReport(x, path, InlineHeaders, rows);
  }

  /** The targets of the report: the users' inline policies, then the groups', then the roles'. */
  function InlineTargets(keep: seq<Statement> -> bool, client: Client, users: seq<string>, groups: seq<string>, roles: seq<string>): seq<InlineTarget> {
    InlinePoliciesOf(keep, client, UserIdentity, users)
      + InlinePoliciesOf(keep, client, GroupIdentity, groups)
      + InlinePoliciesOf(keep, client, RoleIdentity, roles)
  }

  /**
   * The targets of a run: the first failing listing of users, groups and roles, in that
   * order, or the targets of all three.
   */
  function InlineTargetsOf(keep: seq<Statement> -> bool, client: Client): Result<seq<InlineTarget>, Error> {
    match client.listIdentities(UserIdentity)
    case Failure(message) => Failure(ApiError(message))
    case Success(users) =>
      match client.listIdentities(GroupIdentity)
      case Failure(message) => Failure(ApiError(message))
      case Success(groups) =>
        match client.listIdentities(RoleIdentity)
        case Failure(message) => Failure(ApiError(message))
        case Success(roles) => Success(InlineTargets(keep, client, users, groups, roles))
  }

  /**
   * The outcome of CheckInlinePolicies: a directory output path fails first, then a failing
   * listing; otherwise the report is written.
   */
  function InlineReport(c: PolicyChecker, x: Externals): Result<Report, Error>
    reads c.config
  {
    var path := c.config.GetOutputFile(x.env);
    if x.isDir(path) then Failure(IsDirectory(path))
    else match InlineTargetsOf(Filter(RulesOf(c.config, x.env)), c.client)
      case Failure(e) => Failure(e)
      case Success(targets) => WriteReport(x, path, InlineHeaders, Rows(InlineRecords(targets), InlineColumns(x)))
  }

  /** A failed user listing is reported whatever the groups and roles would give. */
  lemma UserListingFailsFirst(c: PolicyChecker, x: Externals)
    requires !x.isDir(c.config.GetOutputFile(x.env))
    requires c.client.listIdentities(UserIdentity).Failure?
    ensures InlineReport(c, x) == Failure(ApiError(c.client.listIdentities(UserIdentity).error))
  {
  }

  /**
   * A successful report means all three listings succeeded; it has the 5-column header, and
   * every row is a record owned by one listed identity, with a cell per heading.
   */
  lemma InlineReportShape(c: PolicyChecker, x: Externals, i: nat)
    requires InlineReport(c, x).Success?
    requires i < |InlineReport(c, x).value.rows|
    ensures c.client.listIdentities(UserIdentity).Success?
    ensures c.client.listIdentities(GroupIdentity).Success?
    ensures c.client.listIdentities(RoleIdentity).Success?
    ensures InlineReport(c, x).value.header == InlineHeaders
    ensures |InlineReport(c, x).value.rows[i]| == |InlineHeaders|
    ensures var v := InlineRecords(InlineTargets(Filter(RulesOf(c.config, x.env)), c.client,
                                 c.client.listIdentities(UserIdentity).value,
                                 c.client.listIdentities(GroupIdentity).value,
                                 c.client.listIdentities(RoleIdentity).value))[i];
      || (exists k :: 0 <= k < |c.client.listIdentities(UserIdentity).value|
                      && OwnedBy(v, UserIdentity, c.client.listIdentities(UserIdentity).value[k]))
      || (exists k :: 0 <= k < |c.client.listIdentities(GroupIdentity).value|
                      && OwnedBy(v, GroupIdentity, c.client.listIdentities(GroupIdentity).value[k]))
      || (exists k :: 0 <= k < |c.client.listIdentities(RoleIdentity).value|
                      && OwnedBy(v, RoleIdentity, c.client.listIdentities(RoleIdentity).value[k]))
  {
    var keep := Filter(RulesOf(c.config, x.env));
    var users := c.client.listIdentities(UserIdentity).value;
    var groups := c.client.listIdentities(GroupIdentity).value;
    var roles := c.client.listIdentities(RoleIdentity).value;
    var a := InlinePoliciesOf(keep, c.client, UserIdentity, users);
    var b := InlinePoliciesOf(keep, c.client, GroupIdentity, groups);
    var ts := InlineTargets(keep, c.client, users, groups, roles);
    var t := ts[i];
    InlineRowMatchesHeaders(InlineRecord(t), x);
    InlineRecordShape(t);
    if i < |a| {
      assert t == a[i];
      InlinePoliciesOfOwned(keep, c.client, UserIdentity, users, t);
      var k :| 0 <= k < |users| && users[k] == t.name;
    } else if i < |a| + |b| {
      assert t == b[i - |a|];
      InlinePoliciesOfOwned(keep, c.client, GroupIdentity, groups, t);
      var k :| 0 <= k < |groups| && groups[k] == t.name;
    } else {
      var r := InlinePoliciesOf(keep, c.client, RoleIdentity, roles);
      assert t == r[i - |a| - |b|];
      InlinePoliciesOfOwned(keep, c.client, RoleIdentity, roles, t);
      var k :| 0 <= k < |roles| && roles[k] == t.name;
    }
  }

  /**
   * One block of CheckInlinePolicies: fetchUsers, fetchGroups or fetchRoles and, when the
   * listing succeeds, append the records of their inline policies to those fetched so far.
   */
  method FetchKind(c: PolicyChecker, rules: Rules, kind: IdentityKind, sofar: seq<AwsPolicy>, ghost done: seq<InlineTarget>)
    returns (r: Result<seq<AwsPolicy>, Error>)
    requires Views(sofar) == InlineRecords(done)
    ensures r.Failure? <==> c.client.listIdentities(kind).Failure?
    ensures r.Failure? ==> r.error == ApiError(c.client.listIdentities(kind).error)
    ensures r.Success? ==> Views(r.value) == InlineRecords(done + InlinePoliciesOf(Filter(rules), c.client, kind, c.client.listIdentities(kind).value))
  {
    var names := c.client.listIdentities(kind);
    if names.Failure? {
      return Failure(ApiError(names.error));
    }
    var found := FetchInlinePolicyFrom(c, rules, kind, names.value);
    ViewsConcat(sofar, found);
    InlineRecordsConcat(done, InlinePoliciesOf(Filter(rules), c.client, kind, names.value));
    return Success(sofar + found);
  }

  /**
   * The body of CheckInlinePolicies between the path check and the save: the users, then the
   * groups, then the roles, stopping at the first listing that fails.
   */
  method FetchAllInlinePolicies(c: PolicyChecker, rules: Rules) returns (r: Result<seq<AwsPolicy>, Error>)
    ensures r.Failure? <==> InlineTargetsOf(Filter(rules), c.client).Failure?
    ensures r.Failure? ==> r.error == InlineTargetsOf(Filter(rules), c.client).error
    ensures r.Success? ==> Views(r.value) == InlineRecords(InlineTargetsOf(Filter(rules), c.client).value)
  {
    var keep := Filter(rules);
    r := FetchKind(c, rules, UserIdentity, [], []);
    if r.Failure? {
      return;
    }
    ghost var ts := InlinePoliciesOf(keep, c.client, UserIdentity, c.client.listIdentities(UserIdentity).value);
    assert [] + ts == ts;
    r := FetchKind(c, rules, GroupIdentity, r.value, ts);
    if r.Failure? {
      return;
    }
    ts := ts + InlinePoliciesOf(keep, c.client, GroupIdentity, c.client.listIdentities(GroupIdentity).value);
    r := FetchKind(c, rules, RoleIdentity, r.value, ts);
    if r.Failure? {
      return;
    }
    ts := ts + InlinePoliciesOf(keep, c.client, RoleIdentity, c.client.listIdentities(RoleIdentity).value);
    assert InlineTargetsOf(keep, c.client) == Success(ts);
  }

  /**
   * CheckInlinePolicies: check the output path, fetch the inline policies of every user, group
   * and role, and save them. The filter's rules are read once: nothing in the run changes the config.
   */
  method CheckInlinePolicies(c: PolicyChecker, x: Externals) returns (r: Result<Report, Error>)
    ensures r == InlineReport(c, x)
  {
    var path := c.config.GetOutputFile(x.env);
    if x.isDir(path) {
      return Failure(IsDirectory(path));
    }
    var rules := RulesOf(c.config, x.env);
    var fetched := FetchAllInlinePolicies(c, rules);
    if fetched.Failure? {
      return Failure(fetched.error);
    }
    r := SaveInlinePolicies(c, x, fetched.value);
  }
}
