/**
 * The managed-policy report (checker/policy_checker_policies.go): keep the policies whose
 * document passes the filter, attach their entities, fill in the members of their groups,
 * and write one row per policy.
 */
module AttachedPolicies {
  import opened Wrappers
  import opened Errors
  import opened Text
  import opened Iam
  import opened Configuration
  import opened Policies
  import opened Checker

  // ---- fetchTargetPolicyWithBody ----

  /** A policy that passes the filter, with the document fetched for it. */
  datatype Target = Target(policy: ManagedPolicy, document: PolicyDocument)

  /** GetPolicyVersion followed by NewPolicyDocumentFromDocument; None when either fails. */
  function Document(client: Client, p: ManagedPolicy): Option<PolicyDocument> {
    match client.getPolicyVersion(p.arn, p.versionId)
    case None => None
    case Some(text) => client.parseDocument(text)
  }

  /** The target one policy yields: its document, when that can be fetched and passes the filter. */
  function TargetOf(keep: seq<Statement> -> bool, client: Client, p: ManagedPolicy): Option<Target> {
    match Document(client, p)
    case None => None
    case Some(pd) => if keep(pd.statement) then Some(Target(p, pd)) else None
  }

  /** The targets one policy contributes: one or none. */
  function Found(keep: seq<Statement> -> bool, client: Client, p: ManagedPolicy): seq<Target> {
    match TargetOf(keep, client, p)
    case None => []
    case Some(t) => [t]
  }

  /** The targets of one policy, as a function of the policy. */
  function PerPolicy(keep: seq<Statement> -> bool, client: Client): ManagedPolicy -> seq<Target> {
    p => Found(keep, client, p)
  }

  /** The policies fetchTargetPolicyWithBody keeps, in input order. */
  function Targets(keep: seq<Statement> -> bool, client: Client, list: seq<ManagedPolicy>): seq<Target> {
    FlatMap(PerPolicy(keep, client), list)
  }

  /** The record a target becomes: an AwsPolicy with its ARN and name, after SetPolicy of its document. */
  function TargetRecord(t: Target): PolicyView {
    WithPolicy(Blank(t.policy.arn, t.policy.policyName), t.document)
  }

  /** The records of a run of targets, position by position. */
  function TargetRecords(ts: seq<Target>): seq<PolicyView> {
    seq(|ts|, i requires 0 <= i < |ts| => TargetRecord(ts[i]))
  }

  /**
   * A policy is kept exactly when its version and its document can be fetched and parsed and
   * the document passes the filter; the target holds the policy and that document.
   */
  lemma TargetOfKept(keep: seq<Statement> -> bool, client: Client, p: ManagedPolicy)
    ensures TargetOf(keep, client, p).Some? <==>
      exists text :: client.getPolicyVersion(p.arn, p.versionId) == Some(text) && client.parseDocument(text).Some?
                     && keep(client.parseDocument(text).value.statement)
    ensures TargetOf(keep, client, p).Some? ==>
      && TargetOf(keep, client, p).value.policy == p
      && Document(client, p) == Some(TargetOf(keep, client, p).value.document)
  {
    match client.getPolicyVersion(p.arn, p.versionId)
    case None =>
    case Some(text) =>
  }

  /** A record carries its policy's ARN and name and its document's actions, and no entities yet. */
  lemma TargetRecordShape(t: Target)
    ensures var v := TargetRecord(t);
      && v.arn == t.policy.arn && v.policyName == t.policy.policyName && v.policy == t.document
      && v.policyActions == StatementActions(t.document.statement)
      && |v.policyResourceActions| == |t.document.statement|
      && v.attachedUsers == [] && v.attachedGroups == [] && v.attachedRoles == []
      && v.attachedGroupUsers == [] && v.attachedAllUsers == []
  {
  }

  /** The targets of a prefix one policy longer. */
  lemma TargetsStep(keep: seq<Statement> -> bool, client: Client, list: seq<ManagedPolicy>, i: nat)
    requires i < |list|
    ensures Targets(keep, client, list[..i + 1]) == Targets(keep, client, list[..i]) + Found(keep, client, list[i])
  {
    FlatMapStep(PerPolicy(keep, client), list, i);
  }

  /** The records of a run one target longer. */
  lemma TargetRecordsSnoc(ts: seq<Target>, t: Target)
    ensures TargetRecords(ts + [t]) == TargetRecords(ts) + [TargetRecord(t)]
  {
    assert forall i :: 0 <= i < |ts| ==> (ts + [t])[i] == ts[i];
  }

  /** Kept policies come out in input order: the targets of a concatenation are concatenated. */
  lemma TargetsConcat(keep: seq<Statement> -> bool, client: Client, a: seq<ManagedPolicy>, b: seq<ManagedPolicy>)
    ensures Targets(keep, client, a + b) == Targets(keep, client, a) + Targets(keep, client, b)
  {
    FlatMapConcat(PerPolicy(keep, client), a, b);
  }

  /** No more targets than policies. */
  lemma TargetsBound(keep: seq<Statement> -> bool, client: Client, list: seq<ManagedPolicy>)
    ensures |Targets(keep, client, list)| <= |list|
  {
    FlatMapBound(PerPolicy(keep, client), list);
  }

  /** Every target comes from some policy of the list. */
  lemma TargetsSound(keep: seq<Statement> -> bool, client: Client, list: seq<ManagedPolicy>, t: Target)
    requires t in Targets(keep, client, list)
    ensures exists i :: 0 <= i < |list| && TargetOf(keep, client, list[i]) == Some(t)
  {
    FlatMapSound(PerPolicy(keep, client), list, t);
    var i :| 0 <= i < |list| && t in Found(keep, client, list[i]);
    assert TargetOf(keep, client, list[i]) == Some(t);
  }

  /** Every policy that passes yields its target. */
  lemma TargetsComplete(keep: seq<Statement> -> bool, client: Client, list: seq<ManagedPolicy>, i: nat)
    requires i < |list| && TargetOf(keep, client, list[i]).Some?
    ensures TargetOf(keep, client, list[i]).value in Targets(keep, client, list)
  {
    FlatMapComplete(PerPolicy(keep, client), list, i, TargetOf(keep, client, list[i]).value);
  }

  /** A target is there exactly when some policy of the list yields it. */
  lemma TargetsMember(keep: seq<Statement> -> bool, client: Client, list: seq<ManagedPolicy>, t: Target)
    ensures t in Targets(keep, client, list) <==> exists i :: 0 <= i < |list| && TargetOf(keep, client, list[i]) == Some(t)
  {
    if t in Targets(keep, client, list) {
      TargetsSound(keep, client, list, t);
    }
    if exists i :: 0 <= i < |list| && TargetOf(keep, client, list[i]) == Some(t) {
      var i :| 0 <= i < |list| && TargetOf(keep, client, list[i]) == Some(t);
      TargetsComplete(keep, client, list, i);
    }
  }

  /**
   * One iteration of fetchTargetPolicyWithBody: a new record when the version and the document
   * can be fetched and parsed and the document passes the filter, and nothing otherwise.
   */
  method FetchTargetPolicy(c: PolicyChecker, rules: Rules, p: ManagedPolicy) returns (r: Option<AwsPolicy>)
    ensures r.Some? <==> TargetOf(Filter(rules), c.client, p).Some?
    ensures r.Some? ==> fresh(r.value) && r.value.View() == TargetRecord(TargetOf(Filter(rules), c.client, p).value)
  {
    var text := c.client.getPolicyVersion(p.arn, p.versionId);
    if text.None? {
      return None;
    }
    var policy := c.client.parseDocument(text.value);
    if policy.None? {
      return None;
    }
    if !HasTargetPermission(rules, policy.value.statement) {
      return None;
    }
    var ap := new AwsPolicy(Blank(p.arn, p.policyName));
    ap.SetPolicy(policy.value);
    return Some(ap);
  }

  /**
   * fetchTargetPolicyWithBody: a new record for each policy that passes, in input order. The
   * filter's rules are those of the checker's config, which nothing in the run changes.
   */
  method FetchTargetPolicyWithBody(c: PolicyChecker, rules: Rules, list: seq<ManagedPolicy>) returns (targets: seq<AwsPolicy>)
    ensures Views(targets) == TargetRecords(Targets(Filter(rules), c.client, list))
    ensures NoDuplicates(targets)
    ensures forall p :: p in targets ==> fresh(p)
  {
    var keep := Filter(rules);
    targets := [];
    for i := 0 to |list|
      invariant Views(targets) == TargetRecords(Targets(keep, c.client, list[..i]))
      invariant NoDuplicates(targets)
      invariant forall p :: p in targets ==> fresh(p)
    {
      TargetsStep(keep, c.client, list, i);
      var ap := FetchTargetPolicy(c, rules, list[i]);
      if ap.Some? {
        TargetRecordsSnoc(Targets(keep, c.client, list[..i]), TargetOf(keep, c.client, list[i]).value);
        ViewsSnoc(targets, ap.value);
        assert ap.value !in targets;
        DistinctSnoc(targets, ap.value);
        targets := targets + [ap.value];
      } else {
        assert Targets(keep, c.client, list[..i + 1]) == Targets(keep, c.client, list[..i]);
      }
    }
    assert list[..|list|] == list;
  }

  // ---- fetchAndSetEntity ----

  /** One policy after fetchAndSetEntity: untouched when the lookup fails, else its entities set. */
  function EntityStep(client: Client, v: PolicyView): PolicyView {
    match client.listEntitiesForPolicy(v.arn)
    case None => v
    case Some(entities) => WithEntities(v, entities)
  }

  /** The records after fetchAndSetEntity, in the same order. */
  function EntitySteps(client: Client, views: seq<PolicyView>): (r: seq<PolicyView>)
    ensures |r| == |views|
    ensures forall i :: 0 <= i < |views| ==> r[i] == EntityStep(client, views[i])
    decreases |views|
  {
    if views == [] then [] else EntitySteps(client, views[..|views| - 1]) + [EntityStep(client, views[|views| - 1])]
  }

  /** fetchAndSetEntity: each record gets the entities the client lists for its ARN. */
  method FetchAndSetEntity(c: PolicyChecker, list: seq<AwsPolicy>)
    requires NoDuplicates(list)
    modifies set p | p in list
    ensures Views(list) == EntitySteps(c.client, old(Views(list)))
  {
    ghost var before := Views(list);
    for i := 0 to |list|
      invariant forall j :: 0 <= j < i ==> list[j].View() == EntityStep(c.client, before[j])
      invariant forall j :: i <= j < |list| ==> list[j].View() == before[j]
    {
      var p := list[i];
      var entities := c.client.listEntitiesForPolicy(p.arn);
      if entities.None? {
        continue;
      }
      p.SetEntityList(entities.value);
    }
    EntityStepsPointwise(c.client, Views(list), before);
  }

  /** Records that each carry the entities of the old ones are EntitySteps of them. */
  lemma EntityStepsPointwise(client: Client, views: seq<PolicyView>, before: seq<PolicyView>)
    requires |views| == |before|
    requires forall j :: 0 <= j < |views| ==> views[j] == EntityStep(client, before[j])
    ensures views == EntitySteps(client, before)
  {
  }

  /** The lookup keys on the ARN, which SetEntityList leaves alone, so the list keeps its policies. */
  lemma EntityStepKeeps(client: Client, v: PolicyView)
    ensures var w := EntityStep(client, v);
      w.arn == v.arn && w.policyName == v.policyName && w.policyActions == v.policyActions
      && w.attachedGroupUsers == v.attachedGroupUsers
  {
    match client.listEntitiesForPolicy(v.arn)
    case None =>
    case Some(entities) => WithEntitiesKeeps(v, entities);
  }

  // ---- fillMembersFromGroup ----

  /** The names of a run of groups. */
  function GroupNameSet(groups: seq<Group>): set<string>
    decreases |groups|
  {
    if groups == [] then {} else GroupNameSet(groups[..|groups| - 1]) + {groups[|groups| - 1].name}
  }

  /** The names of every group the records are attached to. */
  function GroupNamesOf(views: seq<PolicyView>): set<string>
    decreases |views|
  {
    if views == [] then {} else GroupNamesOf(views[..|views| - 1]) + GroupNameSet(views[|views| - 1].attachedGroups)
  }

  /** The members GetGroup reports, or none when the lookup fails (Go keeps the nil value). */
  function Members(client: Client, name: string): seq<string> {
    match client.getGroup(name)
    case None => []
    case Some(users) => users
  }

  /** The groupMembers map after its lookups: every attached group name, with its members. */
  function GroupMemberMap(client: Client, names: set<string>): (m: map<string, seq<string>>)
    ensures m.Keys == names
    ensures forall n :: n in m && client.getGroup(n).None? ==> m[n] == []
  {
    map n | n in names :: Members(client, n)
  }

  lemma {:induction false} GroupNameSetMember(groups: seq<Group>, k: nat)
    requires k < |groups|
    ensures groups[k].name in GroupNameSet(groups)
    decreases |groups|
  {
    if k < |groups| - 1 {
      GroupNameSetMember(groups[..|groups| - 1], k);
    }
  }

  /** Every group of every record is a key of groupMembers: the map lookup never misses. */
  lemma {:induction false} EveryGroupResolved(views: seq<PolicyView>, i: nat, k: nat)
    requires i < |views| && k < |views[i].attachedGroups|
    ensures views[i].attachedGroups[k].name in GroupNamesOf(views)
    decreases |views|
  {
    if i < |views| - 1 {
      EveryGroupResolved(views[..|views| - 1], i, k);
    } else {
      GroupNameSetMember(views[i].attachedGroups, k);
    }
  }

  /** Each group, with its users set from the map when its name is a key. */
  function ResolvedGroups(groups: seq<Group>, gm: map<string, seq<string>>): seq<Group>
    decreases |groups|
  {
    if groups == [] then []
    else
      var g := groups[|groups| - 1];
      ResolvedGroups(groups[..|groups| - 1], gm) + [if g.name in gm then Group(g.name, gm[g.name]) else g]
  }

  /**
   * Resolving keeps the groups, their order and their names; a group whose name is a key gets
   * that key's users, and any other group is left as it was.
   */
  lemma {:induction false} ResolvedGroupsShape(groups: seq<Group>, gm: map<string, seq<string>>)
    ensures |ResolvedGroups(groups, gm)| == |groups|
    ensures forall k :: 0 <= k < |groups| ==> ResolvedGroups(groups, gm)[k].name == groups[k].name
    ensures forall k :: 0 <= k < |groups| && groups[k].name in gm ==> ResolvedGroups(groups, gm)[k].users == gm[groups[k].name]
    ensures forall k :: 0 <= k < |groups| && groups[k].name !in gm ==> ResolvedGroups(groups, gm)[k] == groups[k]
    decreases |groups|
  {
    if groups != [] {
      ResolvedGroupsShape(groups[..|groups| - 1], gm);
    }
  }

  /** The members of the groups, concatenated in group order. */
  function GroupUsers(groups: seq<Group>, gm: map<string, seq<string>>): seq<string>
    decreases |groups|
  {
    if groups == [] then []
    else
      var g := groups[|groups| - 1];
      GroupUsers(groups[..|groups| - 1], gm) + (if g.name in gm then gm[g.name] else [])
  }

  /** One record after the third loop of fillMembersFromGroup. */
  function WithGroupMembers(v: PolicyView, gm: map<string, seq<string>>): PolicyView {
    var groupUsers := v.attachedGroupUsers + GroupUsers(v.attachedGroups, gm);
    v.(attachedGroups := ResolvedGroups(v.attachedGroups, gm),
       attachedGroupUsers := groupUsers,
       attachedAllUsers := v.attachedAllUsers + groupUsers)
  }

  /** The records after fillMembersFromGroup, in the same order. */
  function MemberSteps(views: seq<PolicyView>, gm: map<string, seq<string>>): (r: seq<PolicyView>)
    ensures |r| == |views|
    ensures forall i :: 0 <= i < |views| ==> r[i] == WithGroupMembers(views[i], gm)
    decreases |views|
  {
    if views == [] then [] else MemberSteps(views[..|views| - 1], gm) + [WithGroupMembers(views[|views| - 1], gm)]
  }

  /** A user is among the group users exactly when it is a member of one of the groups. */
  lemma {:induction false} GroupUsersMember(groups: seq<Group>, gm: map<string, seq<string>>, u: string)
    ensures u in GroupUsers(groups, gm) <==>
      exists k :: 0 <= k < |groups| && groups[k].name in gm && u in gm[groups[k].name]
    decreases |groups|
  {
    if groups != [] {
      var init := groups[..|groups| - 1];
      GroupUsersMember(init, gm, u);
      if exists k :: 0 <= k < |init| && init[k].name in gm && u in gm[init[k].name] {
        var k :| 0 <= k < |init| && init[k].name in gm && u in gm[init[k].name];
        assert groups[k] == init[k];
      }
      if exists k :: 0 <= k < |groups| && groups[k].name in gm && u in gm[groups[k].name] {
        var k :| 0 <= k < |groups| && groups[k].name in gm && u in gm[groups[k].name];
        if k < |init| {
          assert init[k] == groups[k];
        }
      }
    }
  }

  /**
   * Aggregation keeps the record's identity, its groups' number and names, and its direct
   * users and roles; AttachedAllUsers becomes its old value followed by the new
   * AttachedGroupUsers.
   */
  lemma AggregationPreserves(v: PolicyView, gm: map<string, seq<string>>)
    ensures var w := WithGroupMembers(v, gm);
      && w.arn == v.arn && w.policyName == v.policyName
      && |w.attachedGroups| == |v.attachedGroups|
      && GroupNames(w.attachedGroups) == GroupNames(v.attachedGroups)
      && w.attachedUsers == v.attachedUsers && w.attachedRoles == v.attachedRoles
      && w.attachedAllUsers == v.attachedAllUsers + w.attachedGroupUsers
      && w.attachedGroupUsers[..|v.attachedGroupUsers|] == v.attachedGroupUsers
  {
    ResolvedGroupsShape(v.attachedGroups, gm);
  }

  /** A user in two attached groups is listed twice: the user lists are not de-duplicated. */
  lemma SharedMemberKeptTwice(v: PolicyView)
    requires v.attachedGroups == [Group("admins", []), Group("ops", [])]
    requires v.attachedGroupUsers == [] && v.attachedAllUsers == []
    ensures WithGroupMembers(v, map["admins" := ["alice"], "ops" := ["alice"]]).attachedAllUsers == ["alice", "alice"]
  {
    var gm := map["admins" := ["alice"], "ops" := ["alice"]];
    var gs := v.attachedGroups;
    assert gs[..1] == [Group("admins", [])];
    assert gs[..1][..0] == [];
    assert GroupUsers(gs[..1], gm) == ["alice"];
  }

  /** The groups of a record after the first `i` have had their users set. */
  function PartlyResolved(groups: seq<Group>, gm: map<string, seq<string>>, i: nat): seq<Group>
    requires i <= |groups|
  {
    ResolvedGroups(groups[..i], gm) + groups[i..]
  }

  /** One step of the third loop's inner loop, on the groups and on the collected users. */
  lemma ResolveStep(groups: seq<Group>, gm: map<string, seq<string>>, i: nat)
    requires i < |groups|
    ensures |PartlyResolved(groups, gm, i)| == |groups|
    ensures groups[i].name in gm ==>
      && PartlyResolved(groups, gm, i + 1) == PartlyResolved(groups, gm, i)[i := Group(groups[i].name, gm[groups[i].name])]
      && GroupUsers(groups[..i + 1], gm) == GroupUsers(groups[..i], gm) + gm[groups[i].name]
    ensures groups[i].name !in gm ==>
      && PartlyResolved(groups, gm, i + 1) == PartlyResolved(groups, gm, i)
      && GroupUsers(groups[..i + 1], gm) == GroupUsers(groups[..i], gm)
  {
    ResolvedGroupsShape(groups[..i], gm);
    assert groups[..i + 1][..i] == groups[..i];
    assert groups[i..] == [groups[i]] + groups[i + 1..];
  }

  /** The third loop's inner loop: each group with a key gets that key's users, which are collected. */
  method SetGroupUsers(p: AwsPolicy, gm: map<string, seq<string>>)
    modifies p
    ensures p.View() == old(p.View()).(attachedGroups := ResolvedGroups(old(p.attachedGroups), gm),
                                       attachedGroupUsers := old(p.attachedGroupUsers) + GroupUsers(old(p.attachedGroups), gm))
  {
    var groups := p.attachedGroups;
    ghost var v := p.View();
    for i := 0 to |groups|
      invariant p.View() == v.(attachedGroups := PartlyResolved(groups, gm, i),
                               attachedGroupUsers := v.attachedGroupUsers + GroupUsers(groups[..i], gm))
    {
      ResolveStep(groups, gm, i);
      var g := groups[i];
      if g.name !in gm {
        continue;
      }
      var u := gm[g.name];
      p.attachedGroups := p.attachedGroups[i := Group(g.name, u)];
      p.attachedGroupUsers := p.attachedGroupUsers + u;
    }
    assert groups[..|groups|] == groups;
  }

  /** The third loop's body for one record: resolve the groups, then add their users to all users. */
  method FillGroupUsers(p: AwsPolicy, gm: map<string, seq<string>>)
    modifies p
    ensures p.View() == WithGroupMembers(old(p.View()), gm)
  {
    SetGroupUsers(p, gm);
    var _ := UniqueAndSort(p.attachedGroupUsers);
    p.attachedAllUsers := p.attachedAllUsers + p.attachedGroupUsers;
    var _ := UniqueAndSort(p.attachedAllUsers);
  }

  /** The inner part of the first loop: add one record's group names, each with no members yet. */
  method AddGroupNames(gm: map<string, seq<string>>, groups: seq<Group>) returns (r: map<string, seq<string>>)
    requires forall n :: n in gm ==> gm[n] == []
    ensures r.Keys == gm.Keys + GroupNameSet(groups)
    ensures forall n :: n in r ==> r[n] == []
  {
    r := gm;
    for k := 0 to |groups|
      invariant r.Keys == gm.Keys + GroupNameSet(groups[..k])
      invariant forall n :: n in r ==> r[n] == []
    {
      assert groups[..k + 1][..k] == groups[..k];
      r := r[groups[k].name := []];
    }
    assert groups[..|groups|] == groups;
  }

  /** The group names of a prefix one record longer. */
  lemma GroupNamesOfStep(views: seq<PolicyView>, i: nat)
    requires i < |views|
    ensures GroupNamesOf(views[..i + 1]) == GroupNamesOf(views[..i]) + GroupNameSet(views[i].attachedGroups)
  {
    assert views[..i + 1][..i] == views[..i];
  }

  /** The first loop: every attached group name, each with no members yet. */
  method CollectGroupNames(list: seq<AwsPolicy>) returns (gm: map<string, seq<string>>)
    ensures gm.Keys == GroupNamesOf(Views(list))
    ensures forall n :: n in gm ==> gm[n] == []
  {
    ghost var views := Views(list);
    gm := map[];
    for i := 0 to |list|
      invariant gm.Keys == GroupNamesOf(views[..i])
      invariant forall n :: n in gm ==> gm[n] == []
    {
      GroupNamesOfStep(views, i);
      assert views[i].attachedGroups == list[i].attachedGroups;
      gm := AddGroupNames(gm, list[i].attachedGroups);
    }
    assert views[..|list|] == views;
  }

  /** The second loop: each key's members from GetGroup; a failed lookup leaves the key empty. */
  method ResolveGroups(c: PolicyChecker, names: set<string>) returns (gm: map<string, seq<string>>)
    ensures gm == GroupMemberMap(c.client, names)
  {
    gm := map n | n in names :: [];
    var pending := names;
    while pending != {}
      invariant pending <= names
      invariant gm.Keys == names
      invariant forall n :: n in gm ==> gm[n] == if n in pending then [] else Members(c.client, n)
      decreases |pending|
    {
      var key :| key in pending;
      var users := c.client.getGroup(key);
      if users.Some? {
        gm := gm[key := users.value];
      }
      pending := pending - {key};
    }
  }

  /** The third loop: every record gets the members of its groups from the map. */
  method FillAllGroupUsers(list: seq<AwsPolicy>, gm: map<string, seq<string>>)
    requires NoDuplicates(list)
    modifies set p | p in list
    ensures Views(list) == MemberSteps(old(Views(list)), gm)
  {
    ghost var before := Views(list);
    for i := 0 to |list|
      invariant forall j :: 0 <= j < i ==> list[j].View() == WithGroupMembers(before[j], gm)
      invariant forall j :: i <= j < |list| ==> list[j].View() == before[j]
    {
      FillGroupUsers(list[i], gm);
    }
    MemberStepsPointwise(Views(list), before, gm);
  }

  /** Records that are each the aggregation of the old ones are MemberSteps of them. */
  lemma MemberStepsPointwise(views: seq<PolicyView>, before: seq<PolicyView>, gm: map<string, seq<string>>)
    requires |views| == |before|
    requires forall j :: 0 <= j < |views| ==> views[j] == WithGroupMembers(before[j], gm)
    ensures views == MemberSteps(before, gm)
  {
  }

  /**
   * fillMembersFromGroup: collect the attached group names, look each group up, then give
   * every record its groups' members.
   */
  method FillMembersFromGroup(c: PolicyChecker, list: seq<AwsPolicy>)
    requires NoDuplicates(list)
    modifies set p | p in list
    ensures Views(list) == MemberSteps(old(Views(list)), GroupMemberMap(c.client, GroupNamesOf(old(Views(list)))))
  {
    var names := CollectGroupNames(list);
    var gm := ResolveGroups(c, names.Keys);
    FillAllGroupUsers(list, gm);
  }

  // ---- savePolicies and CheckPolicies ----

  /** savePolicies: the 9-column header and one PolicyRow per record, written to the output file. */
  method SavePolicies(c: PolicyChecker, x: Externals, list: seq<AwsPolicy>) returns (r: Result<Report, Error>)
    ensures r == WriteReport(x, c.config.GetOutputFile(x.env), DefaultHeaders, Rows(Views(list), PolicyColumns(x.marshal)))
  {
    var path := c.config.GetOutputFile(x.env);
    var rows := ToSliceForOutput(list, PolicyColumns(x.marshal));
    r := WriteReport(x, path, DefaultHeaders, rows);
  }

  /** The records of the report, from the listed policies. */
  function AttachedViews(keep: seq<Statement> -> bool, client: Client, list: seq<ManagedPolicy>): seq<PolicyView> {
    var attached := EntitySteps(client, TargetRecords(Targets(keep, client, list)));
    MemberSteps(attached, GroupMemberMap(client, GroupNamesOf(attached)))
  }

  /**
   * The outcome of CheckPolicies: a directory output path fails before anything is fetched,
   * a listing error is returned without writing, and otherwise the report is written.
   */
  function AttachedReport(c: PolicyChecker, x: Externals): Result<Report, Error>
    reads c.config
  {
    var path := c.config.GetOutputFile(x.env);
    if x.isDir(path) then Failure(IsDirectory(path))
    else match c.client.listAttachedPolicies
      case Failure(message) => Failure(ApiError(message))
      case Success(list) =>
        WriteReport(x, path, DefaultHeaders, Rows(AttachedViews(Filter(RulesOf(c.config, x.env)), c.client, list), PolicyColumns(x.marshal)))
  }

  /** A successful report has one row per kept policy, each with a cell per heading. */
  lemma AttachedReportShape(c: PolicyChecker, x: Externals)
    requires AttachedReport(c, x).Success?
    ensures c.client.listAttachedPolicies.Success?
    ensures var report := AttachedReport(c, x).value;
      && report.header == DefaultHeaders
      && |report.rows| == |Targets(Filter(RulesOf(c.config, x.env)), c.client, c.client.listAttachedPolicies.value)|
      && forall i :: 0 <= i < |report.rows| ==> |report.rows[i]| == |DefaultHeaders|
  {
    var report := AttachedReport(c, x).value;
    var views := AttachedViews(Filter(RulesOf(c.config, x.env)), c.client, c.client.listAttachedPolicies.value);
    forall i | 0 <= i < |report.rows| ensures |report.rows[i]| == |DefaultHeaders| {
      PolicyRowMatchesHeaders(views[i], x.marshal);
    }
  }

  /** CheckPolicies: list, filter, attach entities, fill group members, and save. */
  method CheckPolicies(c: PolicyChecker, x: Externals) returns (r: Result<Report, Error>)
    ensures r == AttachedReport(c, x)
  {
    var path := c.config.GetOutputFile(x.env);
    if x.isDir(path) {
      return Failure(IsDirectory(path));
    }
    var listed := c.client.listAttachedPolicies;
    if listed.Failure? {
      return Failure(ApiError(listed.error));
    }
    var targets := FetchTargetPolicyWithBody(c, RulesOf(c.config, x.env), listed.value);
    FetchAndSetEntity(c, targets);
    FillMembersFromGroup(c, targets);
    r := SavePolicies(c, x, targets);
  }
}
