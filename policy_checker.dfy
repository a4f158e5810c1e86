/**
 * The checker object and its statement filter (checker/policy_checker.go), with the
 * output-file boundary (checker/file_handler.go) reduced to its outcomes.
 */
module Checker {
  import opened Wrappers
  import opened Errors
  import opened Text
  import opened Iam
  import opened TargetServices
  import opened Configuration
  import opened Policies

  /**
   * What the checker's run depends on besides the cloud client: the environment values,
   * the output path checks of the file handler, JSON encoding of a ResourceAction, and
   * AwsPolicy.GetEntityAndType (an entity-type label and the entity names of a record).
   */
  datatype Externals = Externals(
    env: Env,
    isDir: string -> bool,
    createFails: string -> bool,
    marshal: ResourceAction -> Option<string>,
    entityAndType: PolicyView -> (string, seq<string>))

  /** A written report: the file it went to, its header line and its rows. */
  datatype Report = Report(path: string, header: seq<string>, rows: seq<seq<string>>)

  /**
   * NewFileHandler followed by WriteAll: a directory path or a file that cannot be created
   * is an error; otherwise the header and the rows are written.
   */
  function WriteReport(x: Externals, path: string, header: seq<string>, rows: seq<seq<string>>): (r: Result<Report, Error>)
    ensures r.Success? <==> !x.isDir(path) && !x.createFails(path)
    ensures r.Success? ==> r.value == Report(path, header, rows)
    ensures x.isDir(path) ==> r == Failure(IsDirectory(path))
    ensures !x.isDir(path) && x.createFails(path) ==> r == Failure(CreateFailed(path))
  {
    if x.isDir(path) then Failure(IsDirectory(path))
    else if x.createFails(path) then Failure(CreateFailed(path))
    else Success(Report(path, header, rows))
  }

  // ---- containsStringInList ----

  /** The inner loop: some pattern occurs in `s`. */
  function ContainsAny(s: string, patterns: seq<string>): (r: bool)
    ensures r <==> exists j :: 0 <= j < |patterns| && Contains(s, patterns[j])
    decreases |patterns|
  {
    if patterns == [] then false
    else if Contains(s, patterns[0]) then true
    else
      var r := ContainsAny(s, patterns[1..]);
      assert forall j :: 1 <= j < |patterns| ==> patterns[1..][j - 1] == patterns[j];
      r
  }

  /** containsStringInList: some pattern is a substring of some element; never with an empty side. */
  function ContainsStringInList(list: seq<string>, patterns: seq<string>): (r: bool)
    ensures r <==> exists i, j :: 0 <= i < |list| && 0 <= j < |patterns| && Contains(list[i], patterns[j])
    ensures list == [] || patterns == [] ==> !r
    decreases |list|
  {
    if list == [] then false
    else if ContainsAny(list[0], patterns) then true
    else
      var r := ContainsStringInList(list[1..], patterns);
      assert forall i :: 1 <= i < |list| ==> list[1..][i - 1] == list[i];
      r
  }

  /** An empty pattern occurs in every string, so it matches any non-empty list. */
  lemma EmptyPatternMatchesAll(list: seq<string>, patterns: seq<string>)
    requires list != [] && "" in patterns
    ensures ContainsStringInList(list, patterns)
  {
    var j :| 0 <= j < |patterns| && patterns[j] == "";
    assert Contains(list[0], patterns[j]);
  }

  /**
   * Substring matching is case-sensitive: the action pattern `S3:Get` does not occur in the
   * action `s3:GetObject`.
   */
  lemma UpperCasePatternDoesNotMatch()
    ensures !ContainsStringInList(["s3:GetObject"], ["S3:Get"])
  {
    var s := "s3:GetObject";
    forall i | 0 <= i <= |s|
      ensures !("S3:Get" <= s[i..])
    {
      if i < |s| {
        assert s[i..][0] == s[i] != 'S';
      }
    }
    ContainsIff(s, "S3:Get");
  }

  // ---- hasTargetPermission ----

  /**
   * What the filter looks at: ShowAllPolicy and what GetTargetResources, GetTargetActions and
   * GetTargetActionServices return.
   */
  datatype Rules = Rules(showAll: bool, resources: seq<string>, actions: seq<string>, services: TargetService)

  /**
   * The rules of a config. hasTargetPermission(c, s) receives a copy of the config, so a
   * getter's memo write there is lost and each call sees the values the getters give on `c`.
   */
  function RulesOf(c: Config, env: Env): Rules
    reads c
  {
    Rules(c.showAllPolicy, c.TargetResources(env), c.TargetActions(env), c.TargetServices(env))
  }

  /**
   * hasTargetPermission (function form): an Allow statement whose actions name a configured
   * service when services are configured, and otherwise one with a resource or an action
   * holding one of the configured substrings.
   */
  function StatementHasTargetPermission(rules: Rules, s: Statement): (r: bool)
    ensures s.effect != Allow ==> !r
    ensures s.effect == Allow && HasService(rules.services) ==>
      (r <==> exists i :: 0 <= i < |s.action| && IsTargetAction(rules.services, s.action[i]))
    ensures s.effect == Allow && !HasService(rules.services) ==>
      (r <==>
        || (exists i, j :: 0 <= i < |s.resource| && 0 <= j < |rules.resources|
                           && Contains(s.resource[i], rules.resources[j]))
        || (exists i, j :: 0 <= i < |s.action| && 0 <= j < |rules.actions|
                           && Contains(s.action[i], rules.actions[j])))
  {
    if s.effect != Allow then false
    else if HasService(rules.services) then HasTargetInActions(rules.services, s.action)
    else if ContainsStringInList(s.resource, rules.resources) then true
    else ContainsStringInList(s.action, rules.actions)
  }

  /**
   * Once services are configured, neither the configured resource and action substrings nor
   * the resources of a statement make any difference.
   */
  lemma ServicesOverrideSubstrings(rules: Rules, s: Statement, resourcePatterns: seq<string>, actionPatterns: seq<string>, resources: seq<string>)
    requires HasService(rules.services)
    ensures StatementHasTargetPermission(rules, s)
      == StatementHasTargetPermission(rules.(resources := resourcePatterns, actions := actionPatterns), s.(resource := resources))
  {
  }

  /** The loop of the method form: some statement passes the filter. */
  function SomeStatementMatches(rules: Rules, statements: seq<Statement>): (r: bool)
    ensures r <==> exists i :: 0 <= i < |statements| && StatementHasTargetPermission(rules, statements[i])
    decreases |statements|
  {
    if statements == [] then false
    else if StatementHasTargetPermission(rules, statements[0]) then true
    else
      var r := SomeStatementMatches(rules, statements[1..]);
      assert forall i :: 1 <= i < |statements| ==> statements[1..][i - 1] == statements[i];
      r
  }

  /**
   * hasTargetPermission (method form): everything passes with ShowAllPolicy; otherwise some
   * statement must pass, so no statements means no match.
   */
  function HasTargetPermission(rules: Rules, statements: seq<Statement>): (r: bool)
    ensures r <==> (rules.showAll ||
      exists i :: 0 <= i < |statements| && StatementHasTargetPermission(rules, statements[i]))
    ensures !rules.showAll && statements == [] ==> !r
  {
    rules.showAll || SomeStatementMatches(rules, statements)
  }

  /** hasTargetPermission as the predicate the pipelines filter their documents with. */
  function Filter(rules: Rules): seq<Statement> -> bool {
    statements => HasTargetPermission(rules, statements)
  }

  /** A policy made only of Deny statements is never a target unless every policy is shown. */
  lemma DenyOnlyIsExcluded(rules: Rules, statements: seq<Statement>)
    requires !rules.showAll
    requires forall i :: 0 <= i < |statements| ==> statements[i].effect == Deny
    ensures !HasTargetPermission(rules, statements)
  {
    forall i | 0 <= i < |statements| ensures !StatementHasTargetPermission(rules, statements[i]) {
      assert statements[i].effect != Allow;
    }
  }

  /** PolicyChecker: the validated settings and the cloud client. */
  class PolicyChecker {
    const config: Config
    const client: Client

    constructor (config: Config, client: Client)
      ensures this.config == config && this.client == client
    {
      this.config := config;
      this.client := client;
    }
  }

  /**
   * NewWithConfig: a config that fails Validate is reported before any client is made;
   * otherwise the client's error, or a checker holding a copy of the config and the client.
   */
  method NewWithConfig(conf: Config, newClient: Result<Client, string>) returns (r: Result<PolicyChecker, Error>)
    ensures conf.Validate().Fail? ==> r == Failure(conf.Validate().error)
    ensures conf.Validate().Pass? && newClient.Failure? ==> r == Failure(ApiError(newClient.error))
    ensures r.Success? <==> conf.Validate().Pass? && newClient.Success?
    ensures r.Success? ==> fresh(r.value) && fresh(r.value.config) && r.value.client == newClient.value
    ensures r.Success? ==> var c := r.value.config;
      && c.outputFile == conf.outputFile && c.targetResource == conf.targetResource
      && c.targetAction == conf.targetAction && c.targetActionService == conf.targetActionService
      && c.showAllPolicy == conf.showAllPolicy && c.targetResources == conf.targetResources
      && c.targetActions == conf.targetActions && c.targetServices == conf.targetServices
  {
    var valid := conf.Validate();
    if valid.Fail? {
      return Failure(valid.error);
    }
    if newClient.Failure? {
      return Failure(ApiError(newClient.error));
    }
    var copy := new Config.Copy(conf);
    var checker := new PolicyChecker(copy, newClient.value);
    r := Success(checker);
  }

  // ---- uniqueAndSort ----

  /**
   * uniqueAndSort: the distinct elements of `list`, sorted. Go builds this slice and then
   * drops it, so callers never see it; here it is returned so that its properties can be
   * stated, and the callers discard it.
   */
  method UniqueAndSort(list: seq<string>) returns (keys: seq<string>)
    ensures Sorted(keys)
    ensures NoDuplicates(keys)
    ensures forall x :: x in keys <==> x in list
  {
    var m: set<string> := {};
    for i := 0 to |list|
      invariant forall x :: x in m <==> x in list[..i]
    {
      assert list[..i + 1] == list[..i] + [list[i]];
      m := m + {list[i]};
    }
    assert list[..|list|] == list;
    var unsorted: seq<string> := [];
    var rest := m;
    while rest != {}
      invariant rest <= m
      invariant NoDuplicates(unsorted)
      invariant forall x :: x in unsorted <==> x in m && x !in rest
      decreases |rest|
    {
      var key :| key in rest;
      unsorted := unsorted + [key];
      rest := rest - {key};
    }
    keys := SortStrings(unsorted);
    PermutationKeepsDistinct(unsorted, keys);
    forall x ensures x in keys <==> x in unsorted {
      assert x in keys <==> x in multiset(keys);
      assert x in unsorted <==> x in multiset(unsorted);
    }
  }

  // ---- toSliceForOutpout ----

  /** The rows of a report: fnCols applied to each record, in order. */
  function Rows(views: seq<PolicyView>, fnCols: PolicyView -> seq<string>): (r: seq<seq<string>>)
    ensures |r| == |views|
    ensures forall i :: 0 <= i < |views| ==> r[i] == fnCols(views[i])
    decreases |views|
  {
    if views == [] then [] else Rows(views[..|views| - 1], fnCols) + [fnCols(views[|views| - 1])]
  }

  /** toSliceForOutpout: one row per record, filled into an array by index. */
  method ToSliceForOutput(list: seq<AwsPolicy>, fnCols: PolicyView -> seq<string>) returns (lines: seq<seq<string>>)
    ensures lines == Rows(Views(list), fnCols)
  {
    var a := new seq<string>[|list|];
    for i := 0 to |list|
      invariant forall j :: 0 <= j < i ==> a[j] == fnCols(list[j].View())
    {
      a[i] := fnCols(list[i].View());
    }
    lines := a[..];
  }
}
