/** The service-name filter rule (checker/config_target_service.go). */
module TargetServices {
  import opened Text

  /** TargetService: the keys of its map, the configured service names. */
  datatype TargetService = TargetService(services: set<string>)

  /** The keys newTargetService puts in its map: the trimmed, non-empty inputs. */
  function ServiceKeys(names: seq<string>): set<string>
    decreases |names|
  {
    if names == [] then {}
    else
      var v := TrimSpace(names[|names| - 1]);
      ServiceKeys(names[..|names| - 1]) + (if v == "" then {} else {v})
  }

  /** Every key is the non-empty trim of some input. */
  lemma {:induction false} ServiceKeysSound(names: seq<string>, k: string)
    requires k in ServiceKeys(names)
    ensures k != "" && exists i :: 0 <= i < |names| && TrimSpace(names[i]) == k
    decreases |names|
  {
    var init := names[..|names| - 1];
    if k in ServiceKeys(init) {
      ServiceKeysSound(init, k);
      var i :| 0 <= i < |init| && TrimSpace(init[i]) == k;
      assert names[i] == init[i];
    }
  }

  /** Every input whose trim is not empty gives a key. */
  lemma {:induction false} ServiceKeysComplete(names: seq<string>, i: nat)
    requires i < |names| && TrimSpace(names[i]) != ""
    ensures TrimSpace(names[i]) in ServiceKeys(names)
    decreases |names|
  {
    var init := names[..|names| - 1];
    if i < |names| - 1 {
      ServiceKeysComplete(init, i);
      assert init[i] == names[i];
    }
  }

  /** The keys are exactly the non-empty trimmed inputs. */
  lemma ServiceKeysMembers(names: seq<string>, k: string)
    ensures k in ServiceKeys(names) <==> k != "" && exists i :: 0 <= i < |names| && TrimSpace(names[i]) == k
  {
    if k in ServiceKeys(names) {
      ServiceKeysSound(names, k);
    }
    if k != "" && exists i :: 0 <= i < |names| && TrimSpace(names[i]) == k {
      var i :| 0 <= i < |names| && TrimSpace(names[i]) == k;
      ServiceKeysComplete(names, i);
    }
  }

  /** newTargetService: a map keyed by each input with white space trimmed, blanks skipped. */
  method NewTargetService(names: seq<string>) returns (ts: TargetService)
    ensures ts.services == ServiceKeys(names)
  {
    var m: set<string> := {};
    for i := 0 to |names|
      invariant m == ServiceKeys(names[..i])
    {
      assert names[..i + 1][..i] == names[..i];
      var v := TrimSpace(names[i]);
      if v == "" {
        continue;
      }
      m := m + {v};
    }
    assert names[..|names|] == names;
    ts := TargetService(m);
  }

  /** Duplicates collapse: there are never more keys than inputs. */
  lemma {:induction false} ServiceKeysBound(names: seq<string>)
    ensures |ServiceKeys(names)| <= |names|
    decreases |names|
  {
    if names != [] {
      ServiceKeysBound(names[..|names| - 1]);
    }
  }

  /** isTarget: exact, case-sensitive membership of the name as given. */
  predicate IsTarget(ts: TargetService, service: string) {
    service in ts.services
  }

  /** hasService: the map is not empty, that is, some service name is a target. */
  predicate HasService(ts: TargetService)
    ensures HasService(ts) <==> exists service :: IsTarget(ts, service)
  {
    if ts.services == {} then false
    else
      var service :| service in ts.services;
      assert IsTarget(ts, service);
      true
  }

  /**
   * isTargetAction: splitting on ':' gives exactly two parts and the first is a target; so a
   * target action has a ':' in it and needs a configured service.
   */
  predicate IsTargetAction(ts: TargetService, action: string)
    ensures IsTargetAction(ts, action) ==> HasService(ts) && ':' in action
  {
    var parts := Split(action, ':');
    JoinSplit(action, ':');
    assert |parts| == 2 ==> action == parts[0] + [':'] + parts[1] && action[|parts[0]|] == ':';
    |parts| == 2 && IsTarget(ts, parts[0])
  }

  /** An action is a target exactly when it has one ':' and the text before it is a configured service. */
  lemma IsTargetActionShape(ts: TargetService, action: string)
    ensures IsTargetAction(ts, action) <==>
      exists i :: 0 <= i < |action| && action[i] == ':' && ':' !in action[..i] && ':' !in action[i + 1..]
               && action[..i] in ts.services
  {
    var parts := Split(action, ':');
    if IsTargetAction(ts, action) {
      JoinSplit(action, ':');
      assert action == parts[0] + [':'] + parts[1];
      var i := |parts[0]|;
      assert action[..i] == parts[0] && action[i + 1..] == parts[1];
    }
    forall i | 0 <= i < |action| && action[i] == ':' && ':' !in action[..i] && ':' !in action[i + 1..]
                && action[..i] in ts.services
      ensures IsTargetAction(ts, action)
    {
      assert action == action[..i] + [':'] + action[i + 1..];
      SplitAround(action[..i], action[i + 1..], ':');
      SplitWithoutSeparator(action[i + 1..], ':');
    }
  }

  /** Wildcards, bare service names and actions with two colons never match. */
  lemma MalformedActionsNeverMatch(ts: TargetService)
    ensures !IsTargetAction(ts, "*")
    ensures !IsTargetAction(ts, "s3")
    ensures !IsTargetAction(ts, "a:b:c")
  {
    assert Count("*", ':') == 0;
    assert Count("s3", ':') == 0;
    assert Count("a:b:c", ':') == 2;
  }

  /** The service name is compared as written: no case folding, no trimming. */
  lemma ServiceMatchIsExact(service: string, name: string)
    requires ':' !in service && ':' !in name
    ensures IsTargetAction(TargetService({"s3"}), service + ":" + name) <==> service == "s3"
  {
    SplitWithoutSeparator(name, ':');
    SplitAround(service, name, ':');
  }

  /** "S3:GetObject" does not match the service "s3". */
  lemma UpperCaseServiceDoesNotMatch()
    ensures !IsTargetAction(TargetService({"s3"}), "S3:GetObject")
  {
    ServiceMatchIsExact("S3", "GetObject");
    assert "S3" + ":" + "GetObject" == "S3:GetObject";
  }

  /** The loop of HasTargetInActions after its hasService guard. */
  function SomeTargetAction(ts: TargetService, actions: seq<string>): (r: bool)
    ensures r <==> exists i :: 0 <= i < |actions| && IsTargetAction(ts, actions[i])
    decreases |actions|
  {
    if actions == [] then false
    else if IsTargetAction(ts, actions[0]) then true
    else
      var r := SomeTargetAction(ts, actions[1..]);
      assert forall i :: 1 <= i < |actions| ==> actions[1..][i - 1] == actions[i];
      r
  }

  /** HasTargetInActions: some action names a configured service; never with no services. */
  function HasTargetInActions(ts: TargetService, actions: seq<string>): (r: bool)
    ensures r <==> exists i :: 0 <= i < |actions| && IsTargetAction(ts, actions[i])
    ensures !HasService(ts) ==> !r
    ensures actions == [] ==> !r
  {
    if !HasService(ts) then false else SomeTargetAction(ts, actions)
  }
}
