/**
  The setup script for Step Functions Local: it resolves the Lambda ARNs in the
  state machine definition, registers the definition (clearing same-named
  machines first and falling back through a list of role ARNs), then starts one
  test execution and polls it until it leaves RUNNING or the retry budget is
  spent.

  The Step Functions client is not modelled. Every SDK call is answered by a
  `Backend` oracle, where `None` (or `false` for a delete) means that the call
  throws. The one-second sleeps do nothing in the model.
*/
module LocalStepFunctions {
  import opened Wrappers

  // ---------------------------------------------------------------------------
  // Definition template resolution
  // ---------------------------------------------------------------------------

  const ProcessDataPlaceholder := "${ProcessDataFunctionArn}"
  const ValidateDataPlaceholder := "${ValidateDataFunctionArn}"
  const StoreResultPlaceholder := "${StoreResultFunctionArn}"

  const ProcessDataArn := "arn:aws:lambda:us-east-1:123456789012:function:ProcessDataFunction"
  const ValidateDataArn := "arn:aws:lambda:us-east-1:123456789012:function:ValidateDataFunction"
  const StoreResultArn := "arn:aws:lambda:us-east-1:123456789012:function:StoreResultFunction"

  /** `pat` occurs in `s` starting at index `i`. */
  predicate OccursAt(s: string, pat: string, i: nat) {
    i + |pat| <= |s| && s[i..i + |pat|] == pat
  }

  /** `i` is where the leftmost occurrence of `pat` in `s` starts. */
  predicate FirstOccurrence(s: string, pat: string, i: nat) {
    OccursAt(s, pat, i) && forall j: nat :: j < i ==> !OccursAt(s, pat, j)
  }

  /** `s.indexOf(pat, from)`: the leftmost occurrence at or after `from`, if any. */
  function IndexOf(s: string, pat: string, from: nat): (r: Option<nat>)
    ensures r.Some? ==> from <= r.value && OccursAt(s, pat, r.value)
    ensures r.Some? ==> forall j: nat :: from <= j < r.value ==> !OccursAt(s, pat, j)
    ensures r.None? ==> forall j: nat :: from <= j ==> !OccursAt(s, pat, j)
    decreases |s| - from
  {
    if |s| < from + |pat| then None
    else if s[from..from + |pat|] == pat then Some(from)
    else IndexOf(s, pat, from + 1)
  }

  /**
    `s.replace(pat, replacement)` with a string pattern: only the leftmost
    occurrence is replaced; without an occurrence the text is returned as it is.
    The replacement is inserted literally (the ARNs used here contain no `$`).
  */
  function ReplaceFirst(s: string, pat: string, replacement: string): (r: string)
    ensures (forall j: nat :: !OccursAt(s, pat, j)) ==> r == s
    ensures forall i: nat :: FirstOccurrence(s, pat, i) ==>
              r == s[..i] + replacement + s[i + |pat|..]
  {
    match IndexOf(s, pat, 0)
    case None => s
    case Some(i) => s[..i] + replacement + s[i + |pat|..]
  }

  /**
    Replacing the first occurrence leaves every later, non-overlapping
    occurrence in place (shifted by the difference in length): the
    substitution is not a replace-all.
  */
  lemma LaterOccurrenceSurvives(s: string, pat: string, replacement: string, i: nat, j: nat)
    requires FirstOccurrence(s, pat, i)
    requires i + |pat| <= j && OccursAt(s, pat, j)
    ensures OccursAt(ReplaceFirst(s, pat, replacement), pat, j - |pat| + |replacement|)
  {
    assert ReplaceFirst(s, pat, replacement) == s[..i] + replacement + s[i + |pat|..];
    ShiftedOccurrence(s, pat, replacement, i, j);
  }

  /** An occurrence after `s[..i + |pat|]` is still there once `s[..i] + replacement` takes that place. */
  lemma ShiftedOccurrence(s: string, pat: string, replacement: string, i: nat, j: nat)
    requires i + |pat| <= j && OccursAt(s, pat, j)
    ensures OccursAt(s[..i] + replacement + s[i + |pat|..], pat, j - |pat| + |replacement|)
  {
    var head := s[..i] + replacement;
    var tail := s[i + |pat|..];
    var d := j - (i + |pat|);
    SliceAfterPrefix(head, tail, d, |pat|);
    assert tail[d..d + |pat|] == s[j..j + |pat|];
  }

  /** A slice lying wholly in the second part of a concatenation is a slice of that part. */
  lemma SliceAfterPrefix(head: string, tail: string, d: nat, n: nat)
    requires d + n <= |tail|
    ensures (head + tail)[|head| + d..|head| + d + n] == tail[d..d + n]
  {
    assert (head + tail)[|head|..] == tail;
  }

  /** The definition registered with Step Functions Local: the three chained replacements. */
  function ResolveDefinition(template: string): string {
    ReplaceFirst(
      ReplaceFirst(
        ReplaceFirst(template, ProcessDataPlaceholder, ProcessDataArn),
        ValidateDataPlaceholder, ValidateDataArn),
      StoreResultPlaceholder, StoreResultArn)
  }

  /** A definition without placeholders is registered exactly as it was read. */
  lemma ResolveWithoutPlaceholders(template: string)
    requires forall j: nat :: !OccursAt(template, ProcessDataPlaceholder, j)
    requires forall j: nat :: !OccursAt(template, ValidateDataPlaceholder, j)
    requires forall j: nat :: !OccursAt(template, StoreResultPlaceholder, j)
    ensures ResolveDefinition(template) == template
  {
  }

  // ---------------------------------------------------------------------------
  // The backend oracle
  // ---------------------------------------------------------------------------

  /** An entry of `listStateMachines`. */
  datatype Machine = Machine(name: string, stateMachineArn: string)

  /** The parameters of a `createStateMachine` call; `roleArn` is omitted in the last attempt. */
  datatype CreateRequest = CreateRequest(name: string, definition: string, roleArn: Option<string>)

  /** The parameters of a `startExecution` call. */
  datatype StartRequest = StartRequest(stateMachineArn: string, input: string)

  /** Execution statuses that `describeExecution` reports. */
  datatype Status = Running | Succeeded | Failed | TimedOut | Aborted

  /**
    What Step Functions Local answers: the machine list (`None`: the listing
    throws), whether deleting a given ARN succeeds, the ARN a creation request
    yields (`None`: rejected), the execution ARN a start yields (`None`:
    rejected) and the status reported by the k-th describe query, counting
    from 0 (`None`: the query throws).
  */
  datatype Backend = Backend(
    listStateMachines: Option<seq<Machine>>,
    deleteStateMachine: string -> bool,
    createStateMachine: CreateRequest -> Option<string>,
    startExecution: StartRequest -> Option<string>,
    describeExecution: nat -> Option<Status>)

  // ---------------------------------------------------------------------------
  // Registration: createStateMachine
  // ---------------------------------------------------------------------------

  const MachineName := "DataProcessingStateMachine"

  const RoleArns: seq<string> := [
    "arn:aws:iam::123456789012:role/service-role/StepFunctionsLocal",
    "arn:aws:iam::123456789012:role/StepFunctionsLocal",
    "arn:aws:iam::012345678901:role/DummyRole",
    "arn:aws:iam::0123456789:role/DummyRole"
  ]

  const RegistrationExhausted := "すべての方法でステートマシン作成に失敗しました。"

  /** The ARNs of the listed machines named `MachineName`, in list order. */
  function NamedArns(machines: seq<Machine>): (arns: seq<string>)
    ensures |arns| <= |machines|
  {
    if machines == [] then []
    else
      var last := machines[|machines| - 1];
      NamedArns(machines[..|machines| - 1]) + (if last.name == MachineName then [last.stateMachineArn] else [])
  }

  /** The ARNs selected are exactly those of the listed machines that carry the name. */
  lemma {:induction false} NamedArnsExactlyNamed(machines: seq<Machine>)
    ensures forall a :: a in NamedArns(machines) ==>
              exists m :: m in machines && m.name == MachineName && m.stateMachineArn == a
    ensures forall m :: m in machines && m.name == MachineName ==> m.stateMachineArn in NamedArns(machines)
  {
    if machines != [] {
      var last := machines[|machines| - 1];
      var front := machines[..|machines| - 1];
      NamedArnsExactlyNamed(front);
      assert machines == front + [last];
      assert forall m :: m in front ==> m in machines;
      assert forall m :: m in machines ==> m in front || m == last;
    }
  }

  /** Extending the listed prefix by one machine adds its ARN exactly when it carries the name. */
  lemma NamedArnsStep(machines: seq<Machine>, i: nat)
    requires i < |machines|
    ensures NamedArns(machines[..i + 1]) ==
              NamedArns(machines[..i]) +
              (if machines[i].name == MachineName then [machines[i].stateMachineArn] else [])
  {
    assert machines[..i + 1][..i] == machines[..i];
  }

  /** The named machines of a prefix of the list come first among those of the whole list. */
  lemma {:induction false} NamedArnsOfPrefix(machines: seq<Machine>, n: nat)
    requires n <= |machines|
    ensures NamedArns(machines[..n]) <= NamedArns(machines)
    decreases |machines| - n
  {
    if n == |machines| {
      assert machines[..n] == machines;
    } else {
      NamedArnsOfPrefix(machines, n + 1);
      assert machines[..n + 1][..n] == machines[..n];
      assert NamedArns(machines[..n]) <= NamedArns(machines[..n + 1]);
    }
  }

  /** The creation requests in the order they are tried: every role ARN, then none. */
  function Candidates(definition: string): (cs: seq<CreateRequest>)
    ensures |cs| == |RoleArns| + 1
    ensures forall k :: 0 <= k < |RoleArns| ==>
              cs[k] == CreateRequest(MachineName, definition, Some(RoleArns[k]))
    ensures cs[|RoleArns|] == CreateRequest(MachineName, definition, None)
  {
    seq(|RoleArns|, k requires 0 <= k < |RoleArns| =>
          CreateRequest(MachineName, definition, Some(RoleArns[k])))
      + [CreateRequest(MachineName, definition, None)]
  }

  /** Candidate `k` is the first one the backend accepts. */
  predicate FirstAccepted(create: CreateRequest -> Option<string>, cs: seq<CreateRequest>, k: nat) {
    k < |cs| && create(cs[k]).Some? && forall j :: 0 <= j < k ==> create(cs[j]).None?
  }

  /**
    What the clean-up in `createStateMachine` does: `deleteCalls` are the ARNs passed to
    `deleteStateMachine`, in call order. Only same-named machines are deleted,
    in list order, and the clean-up stops early only at a delete that fails.
  */
  predicate CleanupTrace(listing: Option<seq<Machine>>, deleteOk: string -> bool, deleteCalls: seq<string>) {
    && (listing.None? ==> deleteCalls == [])
    && (listing.Some? ==> deleteCalls <= NamedArns(listing.value))
    && (forall k :: 0 <= k < |deleteCalls| - 1 ==> deleteOk(deleteCalls[k]))
    && (listing.Some? && |deleteCalls| < |NamedArns(listing.value)| ==>
          deleteCalls != [] && !deleteOk(deleteCalls[|deleteCalls| - 1]))
  }

  /**
    What the role-fallback registration in `createStateMachine` does: `attempts` are the requests
    passed to `createStateMachine`, in call order. They follow the candidate
    order, every attempt but the last was rejected, the last is the no-role
    attempt unless it was accepted, and the result is the ARN of the accepted
    attempt or the exhaustion error.
  */
  predicate RegistrationTrace(create: CreateRequest -> Option<string>, definition: string,
                              attempts: seq<CreateRequest>, arn: Result<string>) {
    && 1 <= |attempts| <= |RoleArns| + 1
    && attempts <= Candidates(definition)
    && (forall k :: 0 <= k < |attempts| - 1 ==> create(attempts[k]).None?)
    && (create(attempts[|attempts| - 1]).None? ==> |attempts| == |RoleArns| + 1)
    && (arn.Ok? <==> create(attempts[|attempts| - 1]).Some?)
    && (arn.Ok? ==> create(attempts[|attempts| - 1]) == Some(arn.value))
    && (arn.Err? ==> arn.message == RegistrationExhausted)
  }

  /** When every delete succeeds, every listed machine named `MachineName` is deleted. */
  lemma CleanupDeletesAllWhenHealthy(listing: seq<Machine>, deleteOk: string -> bool, deleteCalls: seq<string>)
    requires CleanupTrace(Some(listing), deleteOk, deleteCalls)
    requires forall a :: a in NamedArns(listing) ==> deleteOk(a)
    ensures deleteCalls == NamedArns(listing)
  {
    var named := NamedArns(listing);
    if |deleteCalls| < |named| {
      assert false;
    }
  }

  /** If candidate `k` is the first accepted, exactly `k + 1` requests are made and its ARN is returned. */
  lemma RegistrationStopsAtFirstAccepted(create: CreateRequest -> Option<string>, definition: string,
                                          attempts: seq<CreateRequest>, arn: Result<string>, k: nat)
    requires RegistrationTrace(create, definition, attempts, arn)
    requires FirstAccepted(create, Candidates(definition), k)
    ensures attempts == Candidates(definition)[..k + 1]
    ensures arn == Ok(create(Candidates(definition)[k]).value)
  {
    var cs := Candidates(definition);
    var n := |attempts| - 1;
    assert attempts[n] == cs[n];
    assert k < |attempts| ==> attempts[k] == cs[k];
  }

  /** If every candidate is rejected, all `|RoleArns| + 1` requests are made and the registration fails. */
  lemma RegistrationExhaustsAllCandidates(create: CreateRequest -> Option<string>, definition: string,
                                           attempts: seq<CreateRequest>, arn: Result<string>)
    requires RegistrationTrace(create, definition, attempts, arn)
    requires forall k :: 0 <= k < |RoleArns| + 1 ==> create(Candidates(definition)[k]).None?
    ensures attempts == Candidates(definition)
    ensures arn == Err(RegistrationExhausted)
  {
    var cs := Candidates(definition);
    var n := |attempts| - 1;
    assert attempts[n] == cs[n];
  }

  /** When the clean-up loop stops, after a failed delete or at the end of the list, its trace is a clean-up trace. */
  lemma CleanupEnds(machines: seq<Machine>, deleteOk: string -> bool, deleteCalls: seq<string>, i: nat, failed: bool)
    requires i <= |machines| && (failed || i == |machines|)
    requires deleteCalls == NamedArns(machines[..i])
    requires !failed ==> forall k :: 0 <= k < |deleteCalls| ==> deleteOk(deleteCalls[k])
    requires failed ==> deleteCalls != [] && !deleteOk(deleteCalls[|deleteCalls| - 1])
    requires forall k :: 0 <= k < |deleteCalls| - 1 ==> deleteOk(deleteCalls[k])
    ensures CleanupTrace(Some(machines), deleteOk, deleteCalls)
  {
    if !failed {
      assert machines[..i] == machines;
    }
    NamedArnsOfPrefix(machines, i);
  }

  /** The clean-up: delete same-named machines in list order; the first error ends it. */
  method DeleteExisting(backend: Backend) returns (deleteCalls: seq<string>)
    ensures CleanupTrace(backend.listStateMachines, backend.deleteStateMachine, deleteCalls)
  {
    deleteCalls := [];
    if backend.listStateMachines.None? {
      return;
    }
    var machines := backend.listStateMachines.value;
    var i := 0;
    var failed := false;
    while i < |machines| && !failed
      invariant 0 <= i <= |machines|
      invariant deleteCalls == NamedArns(machines[..i])
      invariant !failed ==> forall k :: 0 <= k < |deleteCalls| ==> backend.deleteStateMachine(deleteCalls[k])
      invariant failed ==> deleteCalls != [] && !backend.deleteStateMachine(deleteCalls[|deleteCalls| - 1])
      invariant forall k :: 0 <= k < |deleteCalls| - 1 ==> backend.deleteStateMachine(deleteCalls[k])
    {
      NamedArnsStep(machines, i);
      if machines[i].name == MachineName {
        deleteCalls := deleteCalls + [machines[i].stateMachineArn];
        // A failing delete throws out of the loop into the clean-up's own catch.
        failed := !backend.deleteStateMachine(machines[i].stateMachineArn);
      }
      i := i + 1;
    }
    CleanupEnds(machines, backend.deleteStateMachine, deleteCalls, i, failed);
  }

  /** The registration: the role ARNs in order, then no role; the first success wins. */
  method CreateWithRoleFallback(backend: Backend, definition: string)
    returns (arn: Result<string>, attempts: seq<CreateRequest>)
    ensures RegistrationTrace(backend.createStateMachine, definition, attempts, arn)
  {
    ghost var candidates := Candidates(definition);
    attempts := [];
    var stateMachineArn: Option<string> := None;
    var success := false;
    var i := 0;
    while i < |RoleArns|
      invariant 0 <= i <= |RoleArns|
      invariant !success && stateMachineArn.None?
      invariant attempts == candidates[..i]
      invariant forall k :: 0 <= k < i ==> backend.createStateMachine(candidates[k]).None?
    {
      var request := CreateRequest(MachineName, definition, Some(RoleArns[i]));
      attempts := attempts + [request];
      var result := backend.createStateMachine(request);
      if result.Some? {
        stateMachineArn := result;
        success := true;
        break;
      }
      i := i + 1;
    }

    // `if (!success)`: one more attempt without a role.
    if !success {
      var request := CreateRequest(MachineName, definition, None);
      attempts := attempts + [request];
      var result := backend.createStateMachine(request);
      if result.Some? {
        stateMachineArn := result;
        success := true;
      }
    }

    // Still no success: the exhaustion error; otherwise the accepted ARN.
    if !success {
      arn := Err(RegistrationExhausted);
    } else {
      arn := Ok(stateMachineArn.value);
    }
  }

  /**
    createStateMachine: the clean-up, then the registration of the resolved
    definition. A failing clean-up does not prevent the registration, which
    depends on the creation answers only.
  */
  method CreateStateMachine(backend: Backend, template: string)
    returns (arn: Result<string>, deleteCalls: seq<string>, attempts: seq<CreateRequest>)
    ensures CleanupTrace(backend.listStateMachines, backend.deleteStateMachine, deleteCalls)
    ensures RegistrationTrace(backend.createStateMachine, ResolveDefinition(template), attempts, arn)
  {
    deleteCalls := DeleteExisting(backend);
    arn, attempts := CreateWithRoleFallback(backend, ResolveDefinition(template));
  }

  // ---------------------------------------------------------------------------
  // The test execution: runTestExecution
  // ---------------------------------------------------------------------------

  const MaxRetries := 30

  /** `JSON.stringify` of the fixed test input. */
  const TestInput := "{\"data\":\"sample-test-data-123\",\"source\":\"test-automation\"}"

  /**
    runTestExecution: start one execution of `stateMachineArn` with the test
    input, then query its status at least once and until it is not RUNNING or
    `MaxRetries` queries were answered. Any thrown error makes the result
    `false`. `queries` counts the describe calls issued.
  */
  method RunTestExecution(backend: Backend, stateMachineArn: string)
    returns (succeeded: bool, queries: nat)
    ensures backend.startExecution(StartRequest(stateMachineArn, TestInput)).None? ==>
              queries == 0 && !succeeded
    ensures backend.startExecution(StartRequest(stateMachineArn, TestInput)).Some? ==>
              1 <= queries <= MaxRetries
    ensures forall k :: 0 <= k < queries - 1 ==> backend.describeExecution(k) == Some(Running)
    ensures 0 < queries < MaxRetries ==> backend.describeExecution(queries - 1) != Some(Running)
    ensures succeeded <==> 0 < queries && backend.describeExecution(queries - 1) == Some(Succeeded)
    ensures backend.startExecution(StartRequest(stateMachineArn, TestInput)).Some? &&
            (forall k :: 0 <= k < MaxRetries ==> backend.describeExecution(k) == Some(Running)) ==>
              queries == MaxRetries && !succeeded
  {
    var started := backend.startExecution(StartRequest(stateMachineArn, TestInput));
    if started.None? {
      // runTestExecution's catch: a failing startExecution gives false.
      return false, 0;
    }

    var executionStatus := Running;
    var retries := 0;
    var polling := true;
    queries := 0;
    // The do ... while polling loop.
    while polling
      invariant 0 <= retries <= MaxRetries && queries == retries
      invariant polling ==> retries < MaxRetries
      invariant polling ==> forall k :: 0 <= k < retries ==> backend.describeExecution(k) == Some(Running)
      invariant !polling ==> 1 <= retries
      invariant !polling ==> forall k :: 0 <= k < retries - 1 ==> backend.describeExecution(k) == Some(Running)
      invariant !polling ==> backend.describeExecution(retries - 1) == Some(executionStatus)
      invariant !polling && executionStatus == Running ==> retries == MaxRetries
      decreases MaxRetries - retries, polling
    {
      var details := backend.describeExecution(retries);
      if details.None? {
        // runTestExecution's catch: a failing describeExecution gives false.
        return false, retries + 1;
      }
      executionStatus := details.value;
      retries := retries + 1;
      queries := retries;
      polling := executionStatus == Running && retries < MaxRetries;
    }
    succeeded := executionStatus == Succeeded;
  }
}
