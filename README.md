# cloud-iam-policy-checker, modelled in Dafny

This project models the core of `cloud-iam-policy-checker`, a Go tool that lists the IAM
policies of an AWS account and writes a CSV report of those that grant chosen permissions. It
produces two reports:

- **Managed-policy report** (`CheckPolicies`). It lists the attached managed policies and
  fetches and parses each one's default version. It keeps the documents that pass the filter,
  attaches the users, groups and roles the policy is attached to, and fills in each group's
  members. It writes one 9-column row per policy.
- **Inline-policy report** (`CheckInlinePolicies`). For every user, then every group, then
  every role, it lists the identity's inline policies and fetches each document. It keeps those
  that pass the filter, each as a record naming its single owner, and writes one 5-column row per
  record.

**The filter** (`hasTargetPermission`):

- Only Allow statements count.
- When target services are configured, an action `service:name` matches when its service is
  configured.
- Otherwise, a resource must contain a configured resource substring, or an action must contain a
  configured action substring.
- `ShowAllPolicy` keeps every policy.

**The configuration values** come from the explicit setting or else the environment variable.
They are split on a single space and trimmed, and `Config` memoises them.

**Modules** (one `.dfy` file each, following the Go files):

| file | module | models |
|---|---|---|
| `wrappers.dfy` | `Wrappers`, `Errors` | `Option`, `Result`, `Outcome`; the errors the core can return |
| `text.dfy` | `Text` | the Go standard-library functions used: `strings.TrimSpace`, `Split`, `Join`, `Contains`, `sort.Strings`; plus `FlatMap` for "append what each element yields" loops |
| `iam.dfy` | `Iam` | the AWS SDK wrapper's types and the client, as data |
| `config_target_service.dfy` | `TargetServices` | `config_target_service.go` |
| `config.dfy` | `Configuration` | `config.go` (class `Config`, whose memo fields the getters update) |
| `aws_policy.dfy` | `Policies` | `aws_policy.go` (class `AwsPolicy`, whose fields `SetPolicy` and `SetEntityList` update in place) |
| `policy_checker.dfy` | `Checker` | `policy_checker.go`, plus `file_handler.go` reduced to its outcomes |
| `policy_checker_policies.dfy` | `AttachedPolicies` | `policy_checker_policies.go` |
| `policy_checker_inline_policies.dfy` | `InlinePolicies` | `policy_checker_inline_policies.go` |

**How the model is built.**

- Every imperative Go function is a `method` with loops and invariants. Each method that works on
  `AwsPolicy` objects is proved against a pure specification function over `PolicyView`, the
  abstract value of an `AwsPolicy`. The other loops are proved against their own specification
  functions (`NewTargetService` against `ServiceKeys`, `ToStringList` against `StringList`), and
  `UniqueAndSort` against the properties of its result (sorted, distinct, the same set).
  - `AwsPolicy.View()` gives that value.
  - `Views(list)` gives the values of a list of objects.
- The pipelines separate *which* items are kept from *the record built* for each:
  - `Targets` and `InlinePoliciesOf` give the policies that pass, as a `Target` or `InlineTarget`.
  - `TargetRecord` and `InlineRecord` build the record of each.
- The properties are lemmas about those functions.
- The AWS client is a `Client` datatype of total functions: a failed call returns `None` or
  `Failure`, and the model takes what the Go code does on that path.
- The environment variables are an `Env` parameter.
- The file system, JSON encoding and `GetEntityAndType` are parameters bundled in `Externals`.

## Model

| member | source | states |
|---|---|---|
| TargetServices.ServiceKeysMembers | checker/config_target_service.go:12-25 | a key is in the service set iff it is the non-empty trimmed form of some input |
| TargetServices.ServiceKeysSound | checker/config_target_service.go:14-19 | every key is non-empty and is the trimmed form of some input |
| TargetServices.ServiceKeysComplete | checker/config_target_service.go:14-19 | every input whose trimmed form is non-empty becomes a key |
| TargetServices.ServiceKeysBound | checker/config_target_service.go:12-25 | no more keys than inputs |
| TargetServices.NewTargetService | checker/config_target_service.go:12-25 | the loop builds exactly the set of trimmed, non-empty names |
| TargetServices.IsTarget | checker/config_target_service.go:50-53 | exact, case-sensitive membership of the name as given (its consequences: `ServiceMatchIsExact`, `UpperCaseServiceDoesNotMatch`) |
| TargetServices.HasService | checker/config_target_service.go:55-57 | true iff some service name is a target |
| TargetServices.IsTargetAction | checker/config_target_service.go:42-48 | a target action contains a `:` and needs a configured service (its full shape: `IsTargetActionShape`) |
| TargetServices.IsTargetActionShape | checker/config_target_service.go:42-48 | an action matches iff it has exactly one `:` and the part before it is a configured service |
| TargetServices.MalformedActionsNeverMatch | checker/config_target_service.go:43-46 | `*`, a bare service and a three-part action never match, whatever is configured |
| TargetServices.ServiceMatchIsExact | checker/config_target_service.go:50-53 | with `s3` configured, `svc:name` matches iff `svc` is exactly `s3` |
| TargetServices.UpperCaseServiceDoesNotMatch | checker/config_target_service.go:50-53 | the lookup is case-sensitive: `S3:GetObject` does not match `s3` |
| TargetServices.SomeTargetAction | checker/config_target_service.go:33-39 | true iff some action matches |
| TargetServices.HasTargetInActions | checker/config_target_service.go:28-40 | true iff some action matches; false with no services and false with no actions |
| Configuration.FirstNonEmpty | checker/config.go:104-112 | none iff every input is empty; otherwise a non-empty input |
| Configuration.FirstNonEmptyAt | checker/config.go:104-112 | the first non-empty input is the one chosen |
| Configuration.ToStringList | checker/config.go:101-123 | the loops compute the split, trimmed, non-empty parts of the first non-empty input |
| Configuration.TrimmedShape | checker/config.go:115-121 | every kept part is non-empty, has no space at either end and no separator |
| Configuration.TrimmedClean | checker/config.go:115-121 | parts already non-empty and without spaces are kept unchanged |
| Configuration.TrimmedBlank | checker/config.go:115-121 | parts made only of spaces are all dropped |
| Configuration.StringListShape | checker/config.go:101-123 | every element of the list is non-empty, has no space at either end and no separator |
| Configuration.StringListPrecedence | checker/config.go:105-112 | a non-empty explicit value wins over the environment value; an empty one yields to it |
| Configuration.StringListOfNothing | checker/config.go:101-123 | no non-empty input gives the empty list |
| Configuration.StringListRoundTrip | checker/config.go:101-123 | joining clean names with a space and parsing them gives the names back |
| Configuration.SpacesParseToNothing | checker/config.go:110-121 | a value of spaces only hides the environment value and still yields no rule |
| Configuration.Config.Validate | checker/config.go:41-51 | passes iff ShowAllPolicy or one of the three rule strings is non-empty; otherwise the invalid-rules error |
| Configuration.Config.GetOutputFile | checker/config.go:53-63 | the explicit file, else the environment file, else `output.csv`; never empty |
| Configuration.Config.GetTargetResources | checker/config.go:65-73 | returns the parsed resource list and memoises it; later reads give the same list |
| Configuration.Config.GetTargetActions | checker/config.go:75-83 | returns the parsed action list and memoises it; later reads give the same list |
| Configuration.Config.GetTargetActionServices | checker/config.go:85-99 | returns the service set; memoises it only when the parsed list is non-empty, and an empty list gives an empty set without memoising |
| Configuration.MemoisedValues | checker/config.go:65-99 | once memoised, the values are those parsed from the explicit or environment setting |
| Configuration.BlankRuleIsValidYetEmpty | checker/config.go:41-51 | a resource rule of spaces passes validation yet yields no resource pattern |
| Configuration.CommaIsNotASeparator | checker/config.go:85-99 | a service setting without spaces (`s3,ec2`) is one service name |
| Configuration.Config.constructor | checker/config.go:29-39 | a config with the given settings and nothing memoised |
| Configuration.Config.Copy | checker/config.go:29-39 | a field-by-field copy, as Go's value copy of `Config` |
| Text.TrimSpaceEnds | checker/config.go:116 | strings.TrimSpace leaves no space at either end |
| Text.TrimSpaceKeepsCharacters | checker/config.go:116 | strings.TrimSpace keeps one contiguous piece `s[a..b]` of its input and drops only white space before `a` and from `b` on; it adds no characters |
| Text.TrimSpaceEmpty | checker/config.go:116-118 | the trimmed string is empty iff the input is all spaces |
| Text.TrimSpaceNoSpace | checker/config.go:116 | a string without spaces is unchanged |
| Text.Split | checker/config.go:110 | strings.Split gives one more part than separators, none containing the separator |
| Text.SplitWithoutSeparator | checker/config_target_service.go:43-46 | a string without the separator splits into itself |
| Text.JoinSplit | checker/config.go:110 | joining the parts of a split gives the string back |
| Text.SplitJoin | checker/config.go:110 | splitting a join of separator-free parts gives the parts back |
| Text.ContainsIff | checker/policy_checker.go:89 | strings.Contains holds iff the pattern is a prefix of some suffix |
| Text.SortStrings | checker/policy_checker.go:110 | sort.Strings gives a sorted permutation |
| Checker.WriteReport | checker/file_handler.go:17-57 | a directory path or a file that cannot be created is an error; otherwise the header and rows are written |
| Checker.ContainsAny | checker/policy_checker.go:88-92 | true iff some pattern occurs in the string |
| Checker.ContainsStringInList | checker/policy_checker.go:86-95 | true iff some pattern occurs in some element; false when either list is empty |
| Checker.UpperCasePatternDoesNotMatch | checker/policy_checker.go:86-95 | substring matching is case-sensitive: the action pattern `S3:Get` does not occur in `s3:GetObject` |
| Checker.EmptyPatternMatchesAll | checker/policy_checker.go:86-95 | an empty pattern matches any non-empty list |
| Checker.StatementHasTargetPermission | checker/policy_checker.go:70-83 | Deny never matches; with services, exactly the service match; otherwise the resource or action substring match |
| Checker.ServicesOverrideSubstrings | checker/policy_checker.go:75-78 | once services are configured, neither the configured resource and action substrings nor a statement's resources make any difference |
| Checker.SomeStatementMatches | checker/policy_checker.go:46-51 | true iff some statement matches |
| Checker.HasTargetPermission | checker/policy_checker.go:41-52 | true iff ShowAllPolicy or some statement matches; no statements means no match |
| Checker.DenyOnlyIsExcluded | checker/policy_checker.go:70-73 | a policy of Deny statements only is never kept unless every policy is shown |
| Checker.PolicyChecker.constructor | checker/policy_checker.go:13-16 | a checker holding the config and the client |
| Checker.NewWithConfig | checker/policy_checker.go:24-38 | an invalid config fails first, then a client error; otherwise a fresh checker with a copy of the config |
| Checker.UniqueAndSort | checker/policy_checker.go:98-111 | the keys it builds are sorted, distinct and exactly the elements of the list |
| Checker.Rows | checker/policy_checker.go:114-120 | one row per record, in order, each being the row function applied to it |
| Checker.ToSliceForOutput | checker/policy_checker.go:114-120 | filling the array by index gives the rows of the records |
| Policies.ResourceActionsOf | checker/aws_policy.go:56-62 | one resource/action pair per statement, in order |
| Policies.StatementActionsConcat | checker/aws_policy.go:56-57 | the actions of two runs of statements are concatenated |
| Policies.StatementActionsMember | checker/aws_policy.go:56-57 | an action is collected iff some statement lists it |
| Policies.WithPolicyKeeps | checker/aws_policy.go:54-63 | SetPolicy stores the document; keeps the old actions and pairs as a prefix; the appended actions are exactly those some statement lists; pair i of the appended ones carries statement i's actions and resources; nothing else changes |
| Policies.AwsPolicy.constructor | checker/aws_policy.go:24-36 | an AwsPolicy with the given field values |
| Policies.AwsPolicy.SetPolicy | checker/aws_policy.go:54-63 | the object's new value is WithPolicy of its old value |
| Policies.AwsPolicy.SetEntityList | checker/aws_policy.go:66-81 | the object's new value is WithEntities of its old value |
| Policies.AwsPolicy.AddEntity | checker/aws_policy.go:68-78 | one entity: its kind's list is extended, and a user also goes to all users |
| Policies.NamesOfKindMember | checker/aws_policy.go:66-81 | a name is collected for a kind iff an entity of that kind and name is in the list |
| Policies.NamesOfKindPartition | checker/aws_policy.go:68-78 | every entity is user, group, role or other, exactly once |
| Policies.NamesOfKindConcat | checker/aws_policy.go:67 | collecting over two lists concatenates the names |
| Policies.WithEntitiesKeeps | checker/aws_policy.go:66-81 | SetEntityList leaves the ARN, the name, the document and the group users unchanged |
| Policies.WithEntitiesUsers | checker/aws_policy.go:69-71 | users are appended to both the users and the all-users lists, in order |
| Policies.WithEntitiesGroups | checker/aws_policy.go:72-75 | groups are appended by name, with no members |
| Policies.WithEntitiesRoles | checker/aws_policy.go:76-77 | roles are appended in order |
| Policies.AsGroups | checker/aws_policy.go:73-75 | one memberless group per name, in order |
| Policies.GroupNames | checker/aws_policy.go:102-108 | one name per group, in order |
| Policies.GetGroupNames | checker/aws_policy.go:102-108 | filling the array by index gives the group names |
| Policies.GroupNamesOfNewGroups | checker/aws_policy.go:102-108 | the names of groups made from names are those names |
| Policies.GetResourceAndAction | checker/aws_policy.go:117-127 | the loop gives the encoding of each pair, skipping those that fail |
| Policies.ResourceActionTextsMember | checker/aws_policy.go:117-127 | at most one text per pair; a text is there iff some pair encodes to it |
| Policies.ResourceActionTextsTotal | checker/aws_policy.go:117-127 | when every encoding succeeds, there is exactly one text per pair, in order |
| Policies.PolicyRow | checker/aws_policy.go:39-51 | one cell per column of the 9-column header (each cell by heading: `PolicyRowMatchesHeaders`); also the row function of `savePolicies` |
| Policies.PolicyRowMatchesHeaders | checker/policy_checker_policies.go:137-162 | a managed-policy row has 9 cells, each the cell its heading names |
| Policies.ListCellRecoverable | checker/policy_checker_policies.go:154-160 | a cell joined with newlines splits back into its items when none contains a newline |
| AttachedPolicies.TargetOfKept | checker/policy_checker_policies.go:41-57 | a policy is kept iff its version is fetched, its document parses and passes the filter; the target holds that document |
| AttachedPolicies.TargetRecordShape | checker/policy_checker_policies.go:58-62 | a new record has the policy's ARN and name and the document's actions, and no entities |
| AttachedPolicies.TargetsConcat | checker/policy_checker_policies.go:41-64 | kept policies come out in input order |
| AttachedPolicies.TargetsBound | checker/policy_checker_policies.go:41-64 | no more targets than policies |
| AttachedPolicies.TargetsSound | checker/policy_checker_policies.go:41-64 | every target comes from a listed policy that passes |
| AttachedPolicies.TargetsComplete | checker/policy_checker_policies.go:41-64 | every listed policy that passes yields its target |
| AttachedPolicies.TargetsMember | checker/policy_checker_policies.go:41-64 | a target is kept iff some listed policy yields it |
| AttachedPolicies.FetchTargetPolicy | checker/policy_checker_policies.go:42-63 | one iteration: a fresh record iff the policy is kept, holding that policy's record |
| AttachedPolicies.FetchTargetPolicyWithBody | checker/policy_checker_policies.go:36-67 | the records are those of the kept policies, in order, each a distinct fresh object |
| AttachedPolicies.EntitySteps | checker/policy_checker_policies.go:74-81 | each record, in order, after its own entity step |
| AttachedPolicies.EntityStepKeeps | checker/policy_checker_policies.go:75-80 | attaching entities never changes the ARN, the name, the actions or the group users |
| AttachedPolicies.FetchAndSetEntity | checker/policy_checker_policies.go:70-82 | each record gets the entity list of its own ARN, or stays as it was when the lookup fails |
| AttachedPolicies.GroupNameSetMember | checker/policy_checker_policies.go:91-93 | each group's name is collected |
| AttachedPolicies.EveryGroupResolved | checker/policy_checker_policies.go:89-94 | every group attached to any record is a key of the map |
| AttachedPolicies.GroupMemberMap | checker/policy_checker_policies.go:96-108 | exactly the collected names are keys; a failed lookup leaves the key with no members |
| AttachedPolicies.ResolvedGroupsShape | checker/policy_checker_policies.go:111-117 | groups keep their order and names; each key group gets its members; the others are unchanged |
| AttachedPolicies.GroupUsersMember | checker/policy_checker_policies.go:118 | a user is in the group-user bucket iff it is a member of some attached group |
| AttachedPolicies.MemberSteps | checker/policy_checker_policies.go:110-124 | each record, in order, after its member aggregation |
| AttachedPolicies.AggregationPreserves | checker/policy_checker_policies.go:110-124 | aggregation keeps ARN, name, users, roles and group names; all users gain the group users; earlier group users stay first |
| AttachedPolicies.SharedMemberKeptTwice | checker/policy_checker_policies.go:118-123 | a user in two groups appears twice: the sort's result is dropped, so nothing is de-duplicated |
| AttachedPolicies.SetGroupUsers | checker/policy_checker_policies.go:111-119 | the groups get their members and the group-user bucket gains them, in group order |
| AttachedPolicies.FillGroupUsers | checker/policy_checker_policies.go:111-123 | one record's aggregation, as MemberSteps specifies it |
| AttachedPolicies.AddGroupNames | checker/policy_checker_policies.go:91-93 | the keys gain the record's group names, all with no members |
| AttachedPolicies.CollectGroupNames | checker/policy_checker_policies.go:89-94 | the first loop's keys are exactly the attached group names, with no members |
| AttachedPolicies.ResolveGroups | checker/policy_checker_policies.go:96-108 | the second loop gives each key its members from GetGroup |
| AttachedPolicies.FillAllGroupUsers | checker/policy_checker_policies.go:110-124 | the third loop: each record after its aggregation |
| AttachedPolicies.FillMembersFromGroup | checker/policy_checker_policies.go:85-125 | the records after aggregation with the members of every attached group |
| AttachedPolicies.SavePolicies | checker/policy_checker_policies.go:128-165 | the 9-column header and one row per record, to the output file |
| AttachedPolicies.AttachedReportShape | checker/policy_checker_policies.go:10-24 | a written report means the listing succeeded; it has the 9 headings and one 9-cell row per kept policy |
| AttachedPolicies.CheckPolicies | checker/policy_checker_policies.go:10-24 | directory path first, then listing failure, otherwise the report of the whole pipeline |
| InlinePolicies.InlineRecordShape | checker/policy_checker_inline_policies.go:96-100 | an inline record has no ARN, carries its name and document, and is owned by its one identity alone |
| InlinePolicies.InlineTargetKept | checker/policy_checker_inline_policies.go:81-94 | an inline policy is kept iff its document is fetched, is not nil and passes the filter |
| InlinePolicies.SkippedIdentity | checker/policy_checker_inline_policies.go:71-78 | an identity whose listing fails or is empty contributes nothing |
| InlinePolicies.PoliciesOfIdentityBound | checker/policy_checker_inline_policies.go:80-102 | at most one record per listed inline policy |
| InlinePolicies.PoliciesOfIdentityOwned | checker/policy_checker_inline_policies.go:80-102 | every target of an identity names it and one of its listed policies |
| InlinePolicies.InlinePoliciesOfConcat | checker/policy_checker_inline_policies.go:70-103 | identities' policies come out in identity order |
| InlinePolicies.InlinePoliciesOfOwned | checker/policy_checker_inline_policies.go:70-103 | every target belongs to a listed identity of the kind |
| InlinePolicies.InlinePoliciesOfComplete | checker/policy_checker_inline_policies.go:70-103 | every kept policy of every listed identity is in the result |
| InlinePolicies.InlinePoliciesOfSound | checker/policy_checker_inline_policies.go:70-103 | every target of the whole run belongs to a listed identity whose listing succeeds and names the policy, and is exactly what that policy's fetched, non-nil, passing document yields |
| InlinePolicies.InlinePoliciesOfKept | checker/policy_checker_inline_policies.go:70-103 | conversely, every listed policy of a listed identity whose document is fetched, non-nil and passes is in the result of the whole run |
| InlinePolicies.InlinePoliciesOfBound | checker/policy_checker_inline_policies.go:70-103 | the whole run has at most as many records as the listings return policy names, a failed listing counting none |
| InlinePolicies.FetchInlinePolicy | checker/policy_checker_inline_policies.go:81-101 | one iteration: a fresh record iff the policy is kept, holding its record |
| InlinePolicies.FetchListedPolicies | checker/policy_checker_inline_policies.go:80-102 | the inner loop gives the records of the kept policies of one identity, in order |
| InlinePolicies.FetchIdentityPolicies | checker/policy_checker_inline_policies.go:71-102 | one identity's records; none when its listing fails or is empty |
| InlinePolicies.FetchInlinePolicyFrom | checker/policy_checker_inline_policies.go:65-106 | the records of every identity's kept inline policies, identity by identity |
| InlinePolicies.InlineRow | checker/policy_checker_inline_policies.go:216-225 | one cell per column of the 5-column header (cell i is the value heading i names: `InlineRowMatchesHeaders`) |
| InlinePolicies.InlineRowMatchesHeaders | checker/policy_checker_inline_policies.go:208-226 | an inline row has 5 cells, in header order: cell i is the value its heading `InlineHeaders[i]` names, via `InlineCell` |
| InlinePolicies.SaveInlinePolicies | checker/policy_checker_inline_policies.go:199-229 | the 5-column header and one row per record, to the output file |
| InlinePolicies.UserListingFailsFirst | checker/policy_checker_inline_policies.go:16-19 | a failed user listing is the result, whatever groups and roles would give |
| InlinePolicies.InlineReportShape | checker/policy_checker_inline_policies.go:10-35 | a written report means all three listings succeeded; 5 headings; every row has 5 cells and is owned by one listed identity |
| InlinePolicies.FetchKind | checker/policy_checker_inline_policies.go:16-32 | one listing and its records appended, or that listing's error |
| InlinePolicies.FetchAllInlinePolicies | checker/policy_checker_inline_policies.go:15-32 | the first failing listing in the order users, groups, roles, or the records of all three in that order |
| InlinePolicies.CheckInlinePolicies | checker/policy_checker_inline_policies.go:10-35 | directory path first, then the first listing failure, otherwise the inline report |

## Left out

- Calls to AWS and the JSON parsing of policy documents are not executed. They are the fields of
  `Client`, a value that never changes during a run. Paging, retries and credentials are not
  modelled.
- Go strings are byte strings; the model's strings are sequences of Unicode scalar values, so
  valid UTF-8 is assumed. On such input `TrimSpace`, `Split`, `Join` and `Contains` agree with
  Go's, and the order `SortStrings` uses (code-point order) agrees with Go's byte order.
- `GetEntityAndType`, the `AwsPolicy` method called at
  `checker/policy_checker_inline_policies.go:218`, and `json.MarshalIndent` are parameters in
  `Externals`. The file that defines `GetEntityAndType` is not part of this model.
- CSV output is reduced to `WriteReport`:
  - `NewFileHandler` can fail on a directory or on `os.Create`;
  - the `.tsv` separator, CSV quoting and write or flush errors are not modelled.
- `checkIsDir` is the `isDir` parameter. When `os.Stat` fails it is simply false.
- Logging (`loggingInfo`, `loggingError`) and the `cmd/` programs are left out.
- `fetchAwsPolicies`, `fetchUsers`, `fetchGroups` and `fetchRoles` only call the client and log;
  they are the client's listings.
- InlinePolicies.FetchInlinePolicyFrom: models `fetchInlinePolicyFromUsers`,
  `fetchInlinePolicyFromGroups` and `fetchInlinePolicyFromRoles`, lines 65-196. The three differ
  only in the identity kind whose listing and documents they request, and in which owner field the
  record literal sets (`InlineSeed`).
- The one-argument `toSliceForOutpout` in `checker/aws_policy.go:83-89`, together with
  `SliceString`, is not modelled separately. It has the same name as the two-argument one in
  `checker/policy_checker.go`, which the reports use, and its row equals `PolicyRow`.
- The loop that turns `o.Users` into user names (`checker/policy_checker_policies.go:103-106`) is
  folded into the client's `getGroup`, which returns the names.
- Map iteration order in `fillMembersFromGroup`'s second loop does not matter in the model: each
  key is looked up independently.
- The `!ok` branch at `checker/policy_checker_policies.go:113` is unreachable, because every
  attached group's name is a key (`AttachedPolicies.EveryGroupResolved`). The model keeps only a
  membership test.
- Several things have no counterpart in the model:
  - nil versus empty slices;
  - slice aliasing through `append`;
  - `SetEntityList`'s write-back `list[i] = e`, which stores back an unchanged copy.
- An entity that is neither user, group nor role (`OtherEntity`) is kept in the model, and
  `SetEntityList` ignores it, as the Go `switch` does.
- The checker's methods read the filter rules once per run (`Checker.RulesOf`). Go calls the
  getters on a copy of the config for every statement. Since a copy's memo writes are lost and
  nothing changes the config during a run, every call sees the same values.
- Checker.UniqueAndSort: Go computes the sorted keys and drops them, leaving its argument
  unchanged. The method returns the keys so that their properties can be stated, and
  `FillGroupUsers` discards them, as Go does.
- Where the code and the specification disagree, the model follows the code:
  - Target services are split on a single space, like the other settings, not on commas
    (`Configuration.CommaIsNotASeparator`).
  - `attached_group_user` and `attached_all_user` are neither de-duplicated nor sorted
    (`AttachedPolicies.SharedMemberKeptTwice`).
  - Service names and substrings match case-sensitively, so an action filter `S3:Get` does not
    match `s3:GetObject` (`Checker.UpperCasePatternDoesNotMatch`), and a service setting `s3`
    does not match `S3:GetObject` (`TargetServices.UpperCaseServiceDoesNotMatch`).
