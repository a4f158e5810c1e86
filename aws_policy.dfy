/**
 * The policy record the report is built from (checker/aws_policy.go): what a policy allows,
 * who it is attached to, and how a record becomes one row of the output file.
 */
module Policies {
  import opened Wrappers
  import opened Text
  import opened Iam

  /** The columns of the attached-policy report, in order. */
  const DefaultHeaders: seq<string> := [
    "policy_arn",
    "policy_name",
    "policy_action",
    "policy_resource_action",
    "attached_user",
    "attached_group",
    "attached_group_user",
    "attached_all_user",
    "attached_role"
  ]

  /** The line separator used inside one cell of the report. */
  const NewLine: string := "\n"

  /** A group a policy is attached to, with the user names found in it. */
  datatype Group = Group(name: string, users: seq<string>)

  /** The action and resource lists of one statement. */
  datatype ResourceAction = ResourceAction(actions: seq<string>, resources: seq<string>)

  /** The value held by an AwsPolicy record. */
  datatype PolicyView = PolicyView(
    arn: string,
    policyName: string,
    policy: PolicyDocument,
    policyActions: seq<string>,
    policyResourceActions: seq<ResourceAction>,
    attachedUsers: seq<string>,
    attachedGroups: seq<Group>,
    attachedGroupUsers: seq<string>,
    attachedAllUsers: seq<string>,
    attachedRoles: seq<string>)

  /** A record with only its identifying fields set (the other fields hold Go's zero values). */
  function Blank(arn: string, policyName: string): PolicyView {
    PolicyView(arn, policyName, PolicyDocument([]), [], [], [], [], [], [], [])
  }

  // ---- SetPolicy ----

  /** The action lists of the statements, concatenated in statement order. */
  function StatementActions(statements: seq<Statement>): seq<string>
    decreases |statements|
  {
    if statements == [] then []
    else StatementActions(statements[..|statements| - 1]) + statements[|statements| - 1].action
  }

  /** One ResourceAction per statement, in order, copying its Resource and Action lists. */
  function ResourceActionsOf(statements: seq<Statement>): (r: seq<ResourceAction>)
    ensures |r| == |statements|
    ensures forall i :: 0 <= i < |r| ==> r[i] == ResourceAction(statements[i].action, statements[i].resource)
    decreases |statements|
  {
    if statements == [] then []
    else
      var last := statements[|statements| - 1];
      ResourceActionsOf(statements[..|statements| - 1]) + [ResourceAction(last.action, last.resource)]
  }

  /** The record after SetPolicy(pd). */
  function WithPolicy(v: PolicyView, pd: PolicyDocument): PolicyView {
    v.(policy := pd,
       policyActions := v.policyActions + StatementActions(pd.statement),
       policyResourceActions := v.policyResourceActions + ResourceActionsOf(pd.statement))
  }

  /** The actions of two runs of statements are the actions of each, in order. */
  lemma {:induction false} StatementActionsConcat(a: seq<Statement>, b: seq<Statement>)
    ensures StatementActions(a + b) == StatementActions(a) + StatementActions(b)
    decreases |b|
  {
    if b == [] {
      assert a + b == a;
    } else {
      var b' := b[..|b| - 1];
      assert (a + b)[..|a + b| - 1] == a + b';
      StatementActionsConcat(a, b');
    }
  }

  /** An action is collected exactly when some statement lists it. */
  lemma {:induction false} StatementActionsMember(statements: seq<Statement>, x: string)
    ensures x in StatementActions(statements) <==> exists i :: 0 <= i < |statements| && x in statements[i].action
    decreases |statements|
  {
    if statements != [] {
      var init := statements[..|statements| - 1];
      StatementActionsMember(init, x);
      if exists i :: 0 <= i < |init| && x in init[i].action {
        var i :| 0 <= i < |init| && x in init[i].action;
        assert statements[i] == init[i];
      }
      if exists i :: 0 <= i < |statements| && x in statements[i].action {
        var i :| 0 <= i < |statements| && x in statements[i].action;
        if i < |init| {
          assert init[i] == statements[i];
        }
      }
    }
  }

  /**
   * SetPolicy keeps the old actions and pairs as a prefix, appends the actions the statements
   * list (an action is appended iff some statement lists it) and one pair per statement carrying
   * that statement's lists, and changes nothing else.
   */
  lemma WithPolicyKeeps(v: PolicyView, pd: PolicyDocument)
    ensures var w := WithPolicy(v, pd);
      && w.arn == v.arn && w.policyName == v.policyName && w.policy == pd
      && |v.policyActions| <= |w.policyActions|
      && w.policyActions[..|v.policyActions|] == v.policyActions
      && (forall x :: x in w.policyActions[|v.policyActions|..] <==>
            exists i :: 0 <= i < |pd.statement| && x in pd.statement[i].action)
      && |w.policyResourceActions| == |v.policyResourceActions| + |pd.statement|
      && w.policyResourceActions[..|v.policyResourceActions|] == v.policyResourceActions
      && (forall i :: 0 <= i < |pd.statement| ==>
            w.policyResourceActions[|v.policyResourceActions| + i]
              == ResourceAction(pd.statement[i].action, pd.statement[i].resource))
      && w.attachedUsers == v.attachedUsers && w.attachedGroups == v.attachedGroups
      && w.attachedGroupUsers == v.attachedGroupUsers && w.attachedAllUsers == v.attachedAllUsers
      && w.attachedRoles == v.attachedRoles
  {
    var w := WithPolicy(v, pd);
    assert w.policyActions[|v.policyActions|..] == StatementActions(pd.statement);
    forall x
      ensures x in w.policyActions[|v.policyActions|..] <==>
        exists i :: 0 <= i < |pd.statement| && x in pd.statement[i].action
    {
      StatementActionsMember(pd.statement, x);
    }
  }

  // ---- SetEntityList ----

  /** The names of the entities of one kind, in list order. */
  function NamesOfKind(list: seq<PolicyEntity>, kind: EntityKind): seq<string>
    decreases |list|
  {
    if list == [] then []
    else
      var last := list[|list| - 1];
      NamesOfKind(list[..|list| - 1], kind) + (if last.kind == kind then [last.name] else [])
  }

  /** Groups with the given names and no users yet. */
  function AsGroups(names: seq<string>): (r: seq<Group>)
    ensures |r| == |names|
    ensures forall i :: 0 <= i < |r| ==> r[i] == Group(names[i], [])
    decreases |names|
  {
    if names == [] then []
    else AsGroups(names[..|names| - 1]) + [Group(names[|names| - 1], [])]
  }

  /** One case of SetEntityList's switch: where an entity of each kind goes. */
  function WithEntity(v: PolicyView, e: PolicyEntity): PolicyView {
    match e.kind
    case UserEntity => v.(attachedUsers := v.attachedUsers + [e.name], attachedAllUsers := v.attachedAllUsers + [e.name])
    case GroupEntity => v.(attachedGroups := v.attachedGroups + [Group(e.name, [])])
    case RoleEntity => v.(attachedRoles := v.attachedRoles + [e.name])
    case OtherEntity => v
  }

  /** The record after SetEntityList(list): the entities in list order. */
  function WithEntities(v: PolicyView, list: seq<PolicyEntity>): PolicyView
    decreases |list|
  {
    if list == [] then v else WithEntity(WithEntities(v, list[..|list| - 1]), list[|list| - 1])
  }

  /** A name is in a bucket exactly when an entity of that kind carries it. */
  lemma {:induction false} NamesOfKindMember(list: seq<PolicyEntity>, kind: EntityKind, x: string)
    ensures x in NamesOfKind(list, kind) <==> PolicyEntity(kind, x) in list
    decreases |list|
  {
    if list != [] {
      var init := list[..|list| - 1];
      NamesOfKindMember(init, kind, x);
      assert list == init + [list[|list| - 1]];
    }
  }

  /** The four buckets together hold every entity once: only other kinds are dropped. */
  lemma {:induction false} NamesOfKindPartition(list: seq<PolicyEntity>)
    ensures |NamesOfKind(list, UserEntity)| + |NamesOfKind(list, GroupEntity)| + |NamesOfKind(list, RoleEntity)|
            + |NamesOfKind(list, OtherEntity)| == |list|
    decreases |list|
  {
    if list != [] {
      NamesOfKindPartition(list[..|list| - 1]);
    }
  }

  /** The entities of two lists, bucket by bucket, in order. */
  lemma {:induction false} NamesOfKindConcat(a: seq<PolicyEntity>, b: seq<PolicyEntity>, kind: EntityKind)
    ensures NamesOfKind(a + b, kind) == NamesOfKind(a, kind) + NamesOfKind(b, kind)
    decreases |b|
  {
    if b == [] {
      assert a + b == a;
    } else {
      var b' := b[..|b| - 1];
      assert (a + b)[..|a + b| - 1] == a + b';
      NamesOfKindConcat(a, b', kind);
    }
  }

  /** SetEntityList leaves the identity, the document and the group users alone. */
  lemma {:induction false} WithEntitiesKeeps(v: PolicyView, list: seq<PolicyEntity>)
    ensures var w := WithEntities(v, list);
      && w.arn == v.arn && w.policyName == v.policyName && w.policy == v.policy
      && w.policyActions == v.policyActions && w.policyResourceActions == v.policyResourceActions
      && w.attachedGroupUsers == v.attachedGroupUsers
    decreases |list|
  {
    if list != [] {
      WithEntitiesKeeps(v, list[..|list| - 1]);
    }
  }

  /** Each user name is appended to both AttachedUsers and AttachedAllUsers, in list order. */
  lemma {:induction false} WithEntitiesUsers(v: PolicyView, list: seq<PolicyEntity>)
    ensures WithEntities(v, list).attachedUsers == v.attachedUsers + NamesOfKind(list, UserEntity)
    ensures WithEntities(v, list).attachedAllUsers == v.attachedAllUsers + NamesOfKind(list, UserEntity)
    decreases |list|
  {
    if list != [] {
      WithEntitiesUsers(v, list[..|list| - 1]);
    }
  }

  /** Each group is appended as a group with no users yet, in list order. */
  lemma {:induction false} WithEntitiesGroups(v: PolicyView, list: seq<PolicyEntity>)
    ensures WithEntities(v, list).attachedGroups == v.attachedGroups + AsGroups(NamesOfKind(list, GroupEntity))
    decreases |list|
  {
    if list != [] {
      var init := list[..|list| - 1];
      WithEntitiesGroups(v, init);
      if list[|list| - 1].kind == GroupEntity {
        AsGroupsStep(NamesOfKind(init, GroupEntity), list[|list| - 1].name);
      }
    }
  }

  /** Each role is appended to AttachedRoles, in list order. */
  lemma {:induction false} WithEntitiesRoles(v: PolicyView, list: seq<PolicyEntity>)
    ensures WithEntities(v, list).attachedRoles == v.attachedRoles + NamesOfKind(list, RoleEntity)
    decreases |list|
  {
    if list != [] {
      WithEntitiesRoles(v, list[..|list| - 1]);
    }
  }

  lemma AsGroupsStep(names: seq<string>, name: string)
    ensures AsGroups(names + [name]) == AsGroups(names) + [Group(name, [])]
  {
    assert (names + [name])[..|names|] == names;
  }

  // ---- Report cells ----

  /** GetGroupNames: the name of each group, position by position. */
  function GroupNames(groups: seq<Group>): (r: seq<string>)
    ensures |r| == |groups|
    ensures forall i :: 0 <= i < |r| ==> r[i] == groups[i].name
    decreases |groups|
  {
    if groups == [] then [] else GroupNames(groups[..|groups| - 1]) + [groups[|groups| - 1].name]
  }

  /** GetGroupNames, filling a result array by index. */
  method GetGroupNames(list: seq<Group>) returns (result: seq<string>)
    ensures result == GroupNames(list)
  {
    var a := new string[|list|];
    for i := 0 to |list|
      invariant forall j :: 0 <= j < i ==> a[j] == list[j].name
    {
      a[i] := list[i].name;
    }
    result := a[..];
  }

  /** The names of freshly attached groups are the names they were made from. */
  lemma GroupNamesOfNewGroups(names: seq<string>)
    ensures GroupNames(AsGroups(names)) == names
  {
  }

  /**
   * GetResourceAndAction: the serialised text of every entry `marshal` accepts, in order;
   * entries it rejects are skipped.
   */
  function ResourceActionTexts(list: seq<ResourceAction>, marshal: ResourceAction -> Option<string>): seq<string>
    decreases |list|
  {
    if list == [] then []
    else
      var tail := match marshal(list[|list| - 1]) case None => [] case Some(text) => [text];
      ResourceActionTexts(list[..|list| - 1], marshal) + tail
  }

  /** GetResourceAndAction, as the loop that skips entries that fail to serialise. */
  method GetResourceAndAction(list: seq<ResourceAction>, marshal: ResourceAction -> Option<string>)
    returns (result: seq<string>)
    ensures result == ResourceActionTexts(list, marshal)
  {
    result := [];
    for i := 0 to |list|
      invariant result == ResourceActionTexts(list[..i], marshal)
    {
      assert list[..i + 1][..i] == list[..i];
      var text := marshal(list[i]);
      if text.None? {
        continue;
      }
      result := result + [text.value];
    }
    assert list[..|list|] == list;
  }

  /** No more texts than entries, and a text is there exactly when some entry serialises to it. */
  lemma {:induction false} ResourceActionTextsMember(list: seq<ResourceAction>, marshal: ResourceAction -> Option<string>, t: string)
    ensures |ResourceActionTexts(list, marshal)| <= |list|
    ensures t in ResourceActionTexts(list, marshal) <==> exists i :: 0 <= i < |list| && marshal(list[i]) == Some(t)
    decreases |list|
  {
    if list != [] {
      var init := list[..|list| - 1];
      ResourceActionTextsMember(init, marshal, t);
      if exists i :: 0 <= i < |init| && marshal(init[i]) == Some(t) {
        var i :| 0 <= i < |init| && marshal(init[i]) == Some(t);
        assert list[i] == init[i];
      }
      if exists i :: 0 <= i < |list| && marshal(list[i]) == Some(t) {
        var i :| 0 <= i < |list| && marshal(list[i]) == Some(t);
        if i < |init| {
          assert init[i] == list[i];
        }
      }
    }
  }

  /** When every entry serialises, there is one text per entry, in order. */
  lemma {:induction false} ResourceActionTextsTotal(list: seq<ResourceAction>, marshal: ResourceAction -> Option<string>)
    requires forall i :: 0 <= i < |list| ==> marshal(list[i]).Some?
    ensures |ResourceActionTexts(list, marshal)| == |list|
    ensures forall i :: 0 <= i < |list| ==> ResourceActionTexts(list, marshal)[i] == marshal(list[i]).value
    decreases |list|
  {
    if list != [] {
      ResourceActionTextsTotal(list[..|list| - 1], marshal);
    }
  }

  /** SliceString (and the row function of savePolicies): one cell per column of DefaultHeaders. */
  function PolicyRow(v: PolicyView, marshal: ResourceAction -> Option<string>): (r: seq<string>)
    ensures |r| == |DefaultHeaders|
  {
    [ v.arn,
      v.policyName,
      Join(v.policyActions, NewLine),
      Join(ResourceActionTexts(v.policyResourceActions, marshal), NewLine),
      Join(v.attachedUsers, NewLine),
      Join(GroupNames(v.attachedGroups), NewLine),
      Join(v.attachedGroupUsers, NewLine),
      Join(v.attachedAllUsers, NewLine),
      Join(v.attachedRoles, NewLine) ]
  }

  /** The cell a column heading stands for, looked up by its name. */
  function Cell(v: PolicyView, marshal: ResourceAction -> Option<string>, header: string): string {
    if header == "policy_arn" then v.arn
    else if header == "policy_name" then v.policyName
    else if header == "policy_action" then Join(v.policyActions, NewLine)
    else if header == "policy_resource_action" then Join(ResourceActionTexts(v.policyResourceActions, marshal), NewLine)
    else if header == "attached_user" then Join(v.attachedUsers, NewLine)
    else if header == "attached_group" then Join(GroupNames(v.attachedGroups), NewLine)
    else if header == "attached_group_user" then Join(v.attachedGroupUsers, NewLine)
    else if header == "attached_all_user" then Join(v.attachedAllUsers, NewLine)
    else if header == "attached_role" then Join(v.attachedRoles, NewLine)
    else ""
  }

  /** The row function savePolicies hands to toSliceForOutpout. */
  function PolicyColumns(marshal: ResourceAction -> Option<string>): PolicyView -> seq<string> {
    v => PolicyRow(v, marshal)
  }

  /** A row has one cell per heading, and each cell is the one its heading names. */
  lemma PolicyRowMatchesHeaders(v: PolicyView, marshal: ResourceAction -> Option<string>)
    ensures |PolicyRow(v, marshal)| == |DefaultHeaders| == 9
    ensures forall i :: 0 <= i < |DefaultHeaders| ==> PolicyRow(v, marshal)[i] == Cell(v, marshal, DefaultHeaders[i])
  {
  }

  /** A list cell splits back into its list when no element holds a line break. */
  lemma ListCellRecoverable(items: seq<string>)
    requires items != []
    requires forall i :: 0 <= i < |items| ==> '\n' !in items[i]
    ensures Split(Join(items, NewLine), '\n') == items
  {
    SplitJoin(items, '\n');
  }

  // ---- The record object ----

  /** AwsPolicy: a record filled in step by step and shared by reference along the pipeline. */
  class AwsPolicy {
    var arn: string
    var policyName: string
    var policy: PolicyDocument
    var policyActions: seq<string>
    var policyResourceActions: seq<ResourceAction>
    var attachedUsers: seq<string>
    var attachedGroups: seq<Group>
    var attachedGroupUsers: seq<string>
    var attachedAllUsers: seq<string>
    var attachedRoles: seq<string>

    /** The record's current value. */
    function View(): PolicyView
      reads this
    {
      PolicyView(arn, policyName, policy, policyActions, policyResourceActions,
                 attachedUsers, attachedGroups, attachedGroupUsers, attachedAllUsers, attachedRoles)
    }

    /** An AwsPolicy literal. */
    constructor (v: PolicyView)
      ensures View() == v
    {
      arn := v.arn;
      policyName := v.policyName;
      policy := v.policy;
      policyActions := v.policyActions;
      policyResourceActions := v.policyResourceActions;
      attachedUsers := v.attachedUsers;
      attachedGroups := v.attachedGroups;
      attachedGroupUsers := v.attachedGroupUsers;
      attachedAllUsers := v.attachedAllUsers;
      attachedRoles := v.attachedRoles;
    }

    /** SetPolicy: stores the document and appends each statement's actions and resource/action pair. */
    method SetPolicy(pd: PolicyDocument)
      modifies this
      ensures View() == WithPolicy(old(View()), pd)
    {
      policy := pd;
      var statements := pd.statement;
      for i := 0 to |statements|
        invariant View() == old(View()).(policy := pd,
          policyActions := old(policyActions) + StatementActions(statements[..i]),
          policyResourceActions := old(policyResourceActions) + ResourceActionsOf(statements[..i]))
      {
        assert statements[..i + 1][..i] == statements[..i];
        var s := statements[i];
        policyActions := policyActions + s.action;
        policyResourceActions := policyResourceActions + [ResourceAction(s.action, s.resource)];
      }
      assert statements[..|statements|] == statements;
    }

    /** SetEntityList: users to both user lists, groups as member-less groups, roles to the roles. */
    method SetEntityList(list: seq<PolicyEntity>)
      modifies this
      ensures View() == WithEntities(old(View()), list)
    {
      for i := 0 to |list|
        invariant View() == WithEntities(old(View()), list[..i])
      {
        assert list[..i + 1][..i] == list[..i];
        AddEntity(list[i]);
      }
      assert list[..|list|] == list;
    }

    /** One case of SetEntityList's switch. */
    method AddEntity(e: PolicyEntity)
      modifies this
      ensures View() == WithEntity(old(View()), e)
    {
      match e.kind {
        case UserEntity =>
          attachedUsers := attachedUsers + [e.name];
          attachedAllUsers := attachedAllUsers + [e.name];
        case GroupEntity =>
          attachedGroups := attachedGroups + [Group(e.name, [])];
        case RoleEntity =>
          attachedRoles := attachedRoles + [e.name];
        case OtherEntity =>
      }
    }
  }

  /** The values of a list of records, position by position. */
  function Views(list: seq<AwsPolicy>): (r: seq<PolicyView>)
    reads set p | p in list
    ensures |r| == |list|
    ensures forall i :: 0 <= i < |list| ==> r[i] == list[i].View()
    decreases |list|
  {
    if list == [] then [] else Views(list[..|list| - 1]) + [list[|list| - 1].View()]
  }

  /** The values of a list with one more record. */
  lemma ViewsSnoc(list: seq<AwsPolicy>, p: AwsPolicy)
    ensures Views(list + [p]) == Views(list) + [p.View()]
  {
    assert (list + [p])[..|list|] == list;
  }

  /** The values of two lists of records, one after the other. */
  lemma {:induction false} ViewsConcat(a: seq<AwsPolicy>, b: seq<AwsPolicy>)
    ensures Views(a + b) == Views(a) + Views(b)
  {
    assert |Views(a + b)| == |Views(a) + Views(b)|;
    forall i | 0 <= i < |a + b| ensures Views(a + b)[i] == (Views(a) + Views(b))[i] {
      if i < |a| {
        assert (a + b)[i] == a[i];
      } else {
        assert (a + b)[i] == b[i - |a|];
      }
    }
  }
}
