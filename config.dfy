/**
 * Checker settings (checker/config.go): the rule strings, the environment values that
 * stand in for them, the lazily parsed rule lists and the output file name.
 */
module Configuration {
  import opened Wrappers
  import opened Errors
  import opened Text
  import opened TargetServices

  /** The separator of every rule list: a single space, for services too. */
  const DefaultSeparator: char := ' '
  const DefaultOutputFile: string := "output.csv"

  /**
   * The process environment read once at start-up: POLICY_CHECKER_OUTPUT_FILE,
   * POLICY_CHECKER_TARGET_RESOURCE, POLICY_CHECKER_TARGET_ACTION and
   * POLICY_CHECKER_TARGET_ACTION_SERVICE ("" when unset).
   */
  datatype Env = Env(outputFile: string, targetResource: string, targetAction: string, targetActionService: string)

  /** The first non-empty input, if there is one. */
  function FirstNonEmpty(inputs: seq<string>): (r: Option<string>)
    ensures r.None? <==> forall i :: 0 <= i < |inputs| ==> inputs[i] == ""
    ensures r.Some? ==> r.value != "" && exists i :: 0 <= i < |inputs| && inputs[i] == r.value
    decreases |inputs|
  {
    if inputs == [] then None
    else if inputs[0] != "" then Some(inputs[0])
    else
      var r := FirstNonEmpty(inputs[1..]);
      assert forall i :: 1 <= i < |inputs| ==> inputs[1..][i - 1] == inputs[i];
      r
  }

  /** The first non-empty input is the one at `i` when every input before it is empty. */
  lemma {:induction false} FirstNonEmptyAt(inputs: seq<string>, i: nat)
    requires i < |inputs| && inputs[i] != ""
    requires forall j :: 0 <= j < i ==> inputs[j] == ""
    ensures FirstNonEmpty(inputs) == Some(inputs[i])
    decreases i
  {
    if i > 0 {
      FirstNonEmptyAt(inputs[1..], i - 1);
    }
  }

  /** The parts with white space trimmed off both ends, keeping the non-empty ones in order. */
  function Trimmed(parts: seq<string>): seq<string>
    decreases |parts|
  {
    if parts == [] then []
    else
      var t := TrimSpace(parts[|parts| - 1]);
      Trimmed(parts[..|parts| - 1]) + (if t == "" then [] else [t])
  }

  /** toStringList: the first non-empty input split on the separator, trimmed, blanks dropped. */
  function StringList(inputs: seq<string>): seq<string> {
    match FirstNonEmpty(inputs)
    case None => []
    case Some(v) => Trimmed(Split(v, DefaultSeparator))
  }

  /** toStringList, as the loops that pick the first non-empty input and then trim its parts. */
  method ToStringList(inputs: seq<string>) returns (result: seq<string>)
    ensures result == StringList(inputs)
  {
    result := [];
    var list: seq<string> := [];
    for i := 0 to |inputs|
      invariant list == []
      invariant forall j :: 0 <= j < i ==> inputs[j] == ""
    {
      if inputs[i] == "" {
        continue;
      }
      list := Split(inputs[i], DefaultSeparator);
      FirstNonEmptyAt(inputs, i);
      break;
    }
    for i := 0 to |list|
      invariant result == Trimmed(list[..i])
    {
      assert list[..i + 1][..i] == list[..i];
      var s := TrimSpace(list[i]);
      if s == "" {
        continue;
      }
      result := result + [s];
    }
    assert list[..|list|] == list;
  }

  /** Trimming distributes over concatenation: order is kept and parts are handled one by one. */
  lemma {:induction false} TrimmedConcat(a: seq<string>, b: seq<string>)
    ensures Trimmed(a + b) == Trimmed(a) + Trimmed(b)
    decreases |b|
  {
    if b == [] {
      assert a + b == a;
    } else {
      var b' := b[..|b| - 1];
      assert (a + b)[..|a + b| - 1] == a + b';
      TrimmedConcat(a, b');
    }
  }

  /** Every kept part is non-empty, free of white space at either end, and made of input characters. */
  lemma {:induction false} TrimmedShape(parts: seq<string>, sep: char)
    requires forall i :: 0 <= i < |parts| ==> sep !in parts[i]
    ensures forall i :: 0 <= i < |Trimmed(parts)| ==>
      var x := Trimmed(parts)[i]; x != "" && !IsSpace(x[0]) && !IsSpace(x[|x| - 1]) && sep !in x
    decreases |parts|
  {
    if parts != [] {
      var init := parts[..|parts| - 1];
      var last := parts[|parts| - 1];
      TrimmedShape(init, sep);
      TrimSpaceEnds(last);
      TrimSpaceKeepsCharacters(last);
    }
  }

  /** Parts that are already trimmed and non-empty come through unchanged. */
  lemma {:induction false} TrimmedClean(parts: seq<string>)
    requires forall i :: 0 <= i < |parts| ==> parts[i] != "" && NoSpace(parts[i])
    ensures Trimmed(parts) == parts
    decreases |parts|
  {
    if parts != [] {
      TrimmedClean(parts[..|parts| - 1]);
      TrimSpaceNoSpace(parts[|parts| - 1]);
      assert parts == parts[..|parts| - 1] + [parts[|parts| - 1]];
    }
  }

  /** Parts that are all white space leave nothing. */
  lemma {:induction false} TrimmedBlank(parts: seq<string>)
    requires forall i :: 0 <= i < |parts| ==> AllSpace(parts[i])
    ensures Trimmed(parts) == []
    decreases |parts|
  {
    if parts != [] {
      TrimmedBlank(parts[..|parts| - 1]);
      TrimSpaceEmpty(parts[|parts| - 1]);
    }
  }

  /**
   * The elements of a parsed rule list are non-empty, hold no space and have no white space
   * at either end.
   */
  lemma StringListShape(inputs: seq<string>)
    ensures forall i :: 0 <= i < |StringList(inputs)| ==>
      var x := StringList(inputs)[i]; x != "" && DefaultSeparator !in x && !IsSpace(x[0]) && !IsSpace(x[|x| - 1])
  {
    match FirstNonEmpty(inputs)
    case None =>
    case Some(v) => TrimmedShape(Split(v, DefaultSeparator), DefaultSeparator);
  }

  /**
   * Only the first non-empty input is used: an explicit value shadows the environment value,
   * and the two are never merged.
   */
  lemma StringListPrecedence(explicit: string, environment: string)
    ensures explicit != "" ==> StringList([explicit, environment]) == StringList([explicit])
    ensures explicit == "" ==> StringList([explicit, environment]) == StringList([environment])
  {
    if explicit == "" {
      var inputs := [explicit, environment];
      assert inputs[1..] == [environment];
    }
  }

  /** With every input empty the result is the empty list. */
  lemma StringListOfNothing(inputs: seq<string>)
    requires forall i :: 0 <= i < |inputs| ==> inputs[i] == ""
    ensures StringList(inputs) == []
  {
  }

  /** Joining clean names with a space and parsing them gives the names back. */
  lemma StringListRoundTrip(names: seq<string>)
    requires names != []
    requires forall i :: 0 <= i < |names| ==> names[i] != "" && NoSpace(names[i])
    ensures StringList([Join(names, [DefaultSeparator])]) == names
  {
    var s := Join(names, [DefaultSeparator]);
    forall i | 0 <= i < |names| ensures DefaultSeparator !in names[i] {
      assert forall k :: 0 <= k < |names[i]| ==> names[i][k] != DefaultSeparator;
    }
    SplitJoin(names, DefaultSeparator);
    assert |s| >= |names[0]|;
    assert FirstNonEmpty([s]) == Some(s);
    TrimmedClean(names);
  }

  /** The pieces of a split are made of characters of the input. */
  lemma {:induction false} SplitCharacters(s: string, sep: char)
    ensures forall i, k :: 0 <= i < |Split(s, sep)| && 0 <= k < |Split(s, sep)[i]| ==> Split(s, sep)[i][k] in s
    decreases |s|
  {
    if s != [] {
      SplitCharacters(s[1..], sep);
      var rest := Split(s[1..], sep);
      assert forall i, k :: 0 <= i < |rest| && 0 <= k < |rest[i]| ==> rest[i][k] in s;
    }
  }

  /** A rule made only of spaces is non-empty, yet it parses to the empty list. */
  lemma SpacesParseToNothing(v: string, environment: string)
    requires v != ""
    requires forall k :: 0 <= k < |v| ==> v[k] == DefaultSeparator
    ensures StringList([v, environment]) == []
  {
    StringListPrecedence(v, environment);
    assert FirstNonEmpty([v]) == Some(v);
    var parts := Split(v, DefaultSeparator);
    SplitCharacters(v, DefaultSeparator);
    forall i | 0 <= i < |parts| ensures AllSpace(parts[i]) {
      forall k | 0 <= k < |parts[i]| ensures IsSpace(parts[i][k]) {
        assert parts[i][k] in v;
        assert parts[i][k] in parts[i];
      }
    }
    TrimmedBlank(parts);
  }

  /**
   * Config: the rule strings as given and the memoised parses. A `None` memo is Go's nil slice
   * or nil `*TargetService`; any list, even an empty one, counts as cached once stored.
   */
  class Config {
    var outputFile: string
    var targetResource: string
    var targetAction: string
    var targetActionService: string
    var showAllPolicy: bool

    var targetResources: Option<seq<string>>
    var targetActions: Option<seq<string>>
    var targetServices: Option<TargetService>

    /** A Config literal: the public settings, nothing cached yet. */
    constructor (outputFile: string, targetResource: string, targetAction: string,
                 targetActionService: string, showAllPolicy: bool)
      ensures this.outputFile == outputFile && this.targetResource == targetResource
      ensures this.targetAction == targetAction && this.targetActionService == targetActionService
      ensures this.showAllPolicy == showAllPolicy
      ensures targetResources.None? && targetActions.None? && targetServices.None?
    {
      this.outputFile := outputFile;
      this.targetResource := targetResource;
      this.targetAction := targetAction;
      this.targetActionService := targetActionService;
      this.showAllPolicy := showAllPolicy;
      targetResources := None;
      targetActions := None;
      targetServices := None;
    }

    /** A copy of a Config value, memos included (Go copies the struct on assignment). */
    constructor Copy(c: Config)
      ensures outputFile == c.outputFile && targetResource == c.targetResource
      ensures targetAction == c.targetAction && targetActionService == c.targetActionService
      ensures showAllPolicy == c.showAllPolicy
      ensures targetResources == c.targetResources && targetActions == c.targetActions
      ensures targetServices == c.targetServices
    {
      outputFile := c.outputFile;
      targetResource := c.targetResource;
      targetAction := c.targetAction;
      targetActionService := c.targetActionService;
      showAllPolicy := c.showAllPolicy;
      targetResources := c.targetResources;
      targetActions := c.targetActions;
      targetServices := c.targetServices;
    }

    /** Validate: some rule is given as a raw string, or every policy is to be shown. */
    function Validate(): (r: Outcome<Error>)
      reads this
      ensures r.Pass? <==> showAllPolicy || targetResource != "" || targetAction != "" || targetActionService != ""
      ensures r.Fail? ==> r.error == InvalidRules
    {
      if showAllPolicy || targetResource != "" || targetAction != "" || targetActionService != "" then Pass
      else Fail(InvalidRules)
    }

    /** GetOutputFile: the explicit name, else the environment's, else "output.csv"; never empty. */
    function GetOutputFile(env: Env): (r: string)
      reads this
      ensures r != ""
      ensures outputFile != "" ==> r == outputFile
      ensures outputFile == "" && env.outputFile != "" ==> r == env.outputFile
      ensures outputFile == "" && env.outputFile == "" ==> r == DefaultOutputFile
    {
      if outputFile != "" then outputFile
      else if env.outputFile != "" then env.outputFile
      else DefaultOutputFile
    }

    /** What GetTargetResources returns in this state. */
    function TargetResources(env: Env): seq<string>
      reads this
    {
      match targetResources
      case Some(list) => list
      case None => StringList([targetResource, env.targetResource])
    }

    /** What GetTargetActions returns in this state. */
    function TargetActions(env: Env): seq<string>
      reads this
    {
      match targetActions
      case Some(list) => list
      case None => StringList([targetAction, env.targetAction])
    }

    /** What GetTargetActionServices returns in this state. */
    function TargetServices(env: Env): TargetService
      reads this
    {
      match targetServices
      case Some(svc) => svc
      case None =>
        var list := StringList([targetActionService, env.targetActionService]);
        if |list| == 0 then TargetService({}) else TargetService(ServiceKeys(list))
    }

    /** Every memo that is present holds what parsing the rules would give. */
    predicate Memoised(env: Env)
      reads this
    {
      && (targetResources.Some? ==> targetResources.value == StringList([targetResource, env.targetResource]))
      && (targetActions.Some? ==> targetActions.value == StringList([targetAction, env.targetAction]))
      && (targetServices.Some? ==> targetServices.value == TargetService(ServiceKeys(StringList([targetActionService, env.targetActionService]))))
    }

    /** GetTargetResources: parses on the first call and caches; every later call returns the cache. */
    method GetTargetResources(env: Env) returns (r: seq<string>)
      modifies this`targetResources
      ensures r == old(TargetResources(env))
      ensures targetResources == Some(r)
      ensures forall e :: TargetResources(e) == r
      ensures Memoised(env) <==> old(Memoised(env))
    {
      if targetResources.Some? {
        return targetResources.value;
      }
      var list := ToStringList([targetResource, env.targetResource]);
      targetResources := Some(list);
      r := list;
    }

    /** GetTargetActions: parses on the first call and caches; every later call returns the cache. */
    method GetTargetActions(env: Env) returns (r: seq<string>)
      modifies this`targetActions
      ensures r == old(TargetActions(env))
      ensures targetActions == Some(r)
      ensures forall e :: TargetActions(e) == r
      ensures Memoised(env) <==> old(Memoised(env))
    {
      if targetActions.Some? {
        return targetActions.value;
      }
      var list := ToStringList([targetAction, env.targetAction]);
      targetActions := Some(list);
      r := list;
    }

    /**
     * GetTargetActionServices: when the parsed list is empty, an empty service set that is not
     * cached; otherwise the set of services, cached.
     */
    method GetTargetActionServices(env: Env) returns (r: TargetService)
      modifies this`targetServices
      ensures r == old(TargetServices(env))
      ensures old(targetServices).Some? ==> targetServices == old(targetServices)
      ensures old(targetServices).None? && StringList([targetActionService, env.targetActionService]) == [] ==>
        targetServices.None? && r.services == {}
      ensures old(targetServices).None? && StringList([targetActionService, env.targetActionService]) != [] ==>
        targetServices == Some(r)
      ensures Memoised(env) <==> old(Memoised(env))
    {
      if targetServices.Some? {
        return targetServices.value;
      }
      var list := ToStringList([targetActionService, env.targetActionService]);
      if |list| == 0 {
        return TargetService({});
      }
      var svc := NewTargetService(list);
      targetServices := Some(svc);
      r := svc;
    }
  }

  /** With consistent memos, the getters' values are the parses of the rules. */
  lemma MemoisedValues(c: Config, env: Env)
    requires c.Memoised(env)
    ensures c.TargetResources(env) == StringList([c.targetResource, env.targetResource])
    ensures c.TargetActions(env) == StringList([c.targetAction, env.targetAction])
    ensures c.TargetServices(env).services == ServiceKeys(StringList([c.targetActionService, env.targetActionService]))
  {
  }

  /** A rule of spaces passes Validate, yet the resource list it gives is empty. */
  lemma BlankRuleIsValidYetEmpty(c: Config, env: Env)
    requires c.targetResource != "" && c.targetResources.None?
    requires forall k :: 0 <= k < |c.targetResource| ==> c.targetResource[k] == DefaultSeparator
    ensures c.Validate().Pass?
    ensures c.TargetResources(env) == []
  {
    SpacesParseToNothing(c.targetResource, env.targetResource);
  }

  /** Services are split on spaces: a comma-separated value is one service name. */
  lemma CommaIsNotASeparator(c: Config, env: Env)
    requires c.targetServices.None? && c.targetActionService != "" && NoSpace(c.targetActionService)
    ensures c.TargetServices(env).services == {c.targetActionService}
  {
    var v := c.targetActionService;
    StringListPrecedence(v, env.targetActionService);
    StringListRoundTrip([v]);
    assert Join([v], [DefaultSeparator]) == v;
    ServiceKeysMembers([v], v);
    forall k | k in ServiceKeys([v]) ensures k == v {
      ServiceKeysMembers([v], k);
      TrimSpaceNoSpace(v);
    }
  }
}
