/** Statement aggregation and the draft IAM policy of
    deployment_helper/core/llm_engine/__init__.py (and its copy in
    deployment_helpers/llm/__init__.py): the validated calls of every file are
    folded into a `defaultdict(set)` keyed by resource, and one `Allow`
    statement is emitted per resource. */
module PolicyBuilder {
  import opened Seqs
  import opened Dicts
  import opened Outcomes
  import opened LlmEngine

  /** `f"{stmt.service}:{stmt.action}"` */
  function QualifiedAction(call: SdkCall): string {
    call.service + ":" + call.action
  }

  function Resources(calls: seq<SdkCall>): (resources: seq<string>)
    ensures |resources| == |calls|
  {
    seq(|calls|, i requires 0 <= i < |calls| => calls[i].resource)
  }

  /** The statements the calls call for, independent of any order: each resource
      that occurs, bound to the qualified actions of the calls on it. */
  ghost function ActionsByResource(calls: seq<SdkCall>): map<string, set<string>> {
    map r | r in ResourceSet(calls) :: ActionsOn(calls, r)
  }

  ghost function ResourceSet(calls: seq<SdkCall>): set<string> {
    set c | c in calls :: c.resource
  }

  ghost function ActionsOn(calls: seq<SdkCall>, r: string): set<string> {
    set c | c in calls && c.resource == r :: QualifiedAction(c)
  }

  ghost predicate IsAggregateOf(calls: seq<SdkCall>, statements: Dict<set<string>>) {
    && statements.Valid()
    && statements.entries == ActionsByResource(calls)
    && statements.keys == Dedup(Resources(calls))
  }

  lemma ActionsByResourceSnoc(calls: seq<SdkCall>, call: SdkCall)
    ensures ActionsByResource(calls + [call]) ==
              (var m := ActionsByResource(calls);
               m[call.resource := (if call.resource in m then m[call.resource] else {}) + {QualifiedAction(call)}])
  {
    var m, m' := ActionsByResource(calls), ActionsByResource(calls + [call]);
    var expected := m[call.resource := (if call.resource in m then m[call.resource] else {}) + {QualifiedAction(call)}];
    assert forall c :: c in calls + [call] <==> c in calls || c == call;
    assert m'.Keys == expected.Keys;
    forall r | r in m'
      ensures m'[r] == expected[r]
    {
      if r == call.resource {
        if call.resource !in m {
          assert forall c :: c in calls ==> c.resource != r;
        }
      }
    }
  }

  /** One pass of the inner loop body `statements[stmt.resource].add(...)`. */
  lemma AggregateStep(calls: seq<SdkCall>, call: SdkCall, statements: Dict<set<string>>)
    requires IsAggregateOf(calls, statements)
    ensures IsAggregateOf(calls + [call], AddToSet(statements, call.resource, QualifiedAction(call)))
  {
    ActionsByResourceSnoc(calls, call);
    assert Resources(calls + [call]) == Resources(calls) + [call.resource];
    SetFollowsFirstOccurrence(statements, Resources(calls), call.resource,
                              Get(statements, call.resource, {}) + {QualifiedAction(call)});
  }

  /** The inner loop over one file's calls. */
  method AddFileStatements(statements: Dict<set<string>>, awsStmts: seq<SdkCall>, ghost done: seq<SdkCall>)
    returns (updated: Dict<set<string>>)
    requires IsAggregateOf(done, statements)
    ensures IsAggregateOf(done + awsStmts, updated)
  {
    updated := statements;
    assert done + awsStmts[..0] == done;
    var j := 0;
    while j < |awsStmts|
      invariant 0 <= j <= |awsStmts|
      invariant IsAggregateOf(done + awsStmts[..j], updated)
    {
      var stmt := awsStmts[j];
      AggregateStep(done + awsStmts[..j], stmt, updated);
      assert done + awsStmts[..j + 1] == done + awsStmts[..j] + [stmt];
      updated := AddToSet(updated, stmt.resource, QualifiedAction(stmt));
      j := j + 1;
    }
    assert awsStmts[..j] == awsStmts;
  }

  /** The fold over the gathered per-file results: `statements[stmt.resource].add(f"{stmt.service}:{stmt.action}")`.
      Keys are the resources in order of first appearance, each bound to exactly
      the qualified actions of the calls on it. */
  method AggregateStatements(results: seq<seq<SdkCall>>) returns (statements: Dict<set<string>>)
    ensures statements.Valid()
    ensures statements.entries == ActionsByResource(Flatten(results))
    ensures statements.keys == Dedup(Resources(Flatten(results)))
  {
    statements := Empty();
    assert ActionsByResource([]) == map[];
    ghost var done: seq<SdkCall> := [];
    var i := 0;
    while i < |results|
      invariant 0 <= i <= |results|
      invariant done == Flatten(results[..i])
      invariant IsAggregateOf(done, statements)
    {
      var awsStmts := results[i];
      statements := AddFileStatements(statements, awsStmts, done);
      assert results[..i + 1] == results[..i] + [awsStmts];
      FlattenSnoc(results[..i], awsStmts);
      done := done + awsStmts;
      i := i + 1;
    }
    assert results[..i] == results;
  }

  /** "s:a" is filed under resource r exactly when some file reported a call on r
      whose qualified action is "s:a"; duplicates collapse. */
  lemma AggregatedActionIffReported(results: seq<seq<SdkCall>>, r: string, qualified: string)
    ensures (r in ActionsByResource(Flatten(results)) && qualified in ActionsByResource(Flatten(results))[r]) <==>
              exists f, k :: 0 <= f < |results| && 0 <= k < |results[f]| &&
                             results[f][k].resource == r && QualifiedAction(results[f][k]) == qualified
  {
    var m := ActionsByResource(Flatten(results));
    if r in m && qualified in m[r] {
      var c :| c in Flatten(results) && c.resource == r && QualifiedAction(c) == qualified;
      var f :| 0 <= f < |results| && c in results[f];
      var k :| 0 <= k < |results[f]| && results[f][k] == c;
    }
    if exists f, k :: 0 <= f < |results| && 0 <= k < |results[f]| &&
                      results[f][k].resource == r && QualifiedAction(results[f][k]) == qualified {
      var f, k :| 0 <= f < |results| && 0 <= k < |results[f]| &&
                  results[f][k].resource == r && QualifiedAction(results[f][k]) == qualified;
      assert results[f][k] in Flatten(results);
    }
  }

  /** The aggregated map depends only on which calls were reported: reordering
      the files or the calls, or repeating a call, changes nothing. */
  lemma AggregationIgnoresOrderAndDuplicates(results1: seq<seq<SdkCall>>, results2: seq<seq<SdkCall>>)
    requires forall c :: c in Flatten(results1) <==> c in Flatten(results2)
    ensures ActionsByResource(Flatten(results1)) == ActionsByResource(Flatten(results2))
  {
    var m1, m2 := ActionsByResource(Flatten(results1)), ActionsByResource(Flatten(results2));
    assert m1.Keys == m2.Keys;
    forall r | r in m1 ensures m1[r] == m2[r] {
    }
  }

  /** Two calls on one ARN merge into one statement carrying both actions. */
  lemma TwoCallsOnOneResourceMerge()
    ensures var get := SdkCall("s3", "GetObject", "arn:x", "");
            var put := SdkCall("s3", "PutObject", "arn:x", "");
            ActionsByResource([get, put]) == map["arn:x" := {"s3:GetObject", "s3:PutObject"}]
  {
    var get := SdkCall("s3", "GetObject", "arn:x", "");
    var put := SdkCall("s3", "PutObject", "arn:x", "");
    var calls := [get, put];
    assert QualifiedAction(get) == "s3:GetObject";
    assert QualifiedAction(put) == "s3:PutObject";
    assert forall c :: c in calls <==> c == get || c == put;
    assert ResourceSet(calls) == {"arn:x"};
    assert ActionsOn(calls, "arn:x") == {"s3:GetObject", "s3:PutObject"};
  }

  // ---------------------------------------------------------------------------
  // Aggregation in the second copy, as written

  /** deployment_helpers/llm/__init__.py iterates the gathered list of per-file
      lists directly, so its first `stmt` is a whole list and `stmt.resource`
      raises AttributeError; only an empty file list gets through. */
  function AggregateAsWritten(gathered: seq<seq<SdkCall>>): (r: Result<Dict<set<string>>>)
    ensures r.Ok? <==> gathered == []
    ensures r.Ok? ==> r.value == Empty() && r.value.Valid()
    ensures r.Err? ==> r.error == AttributeError("resource")
  {
    if gathered == [] then Ok(Empty()) else Err(AttributeError("resource"))
  }

  /** The second copy fails for every run that has a relevant file, even one
      valid call, while the flattened fold files that call under its resource. */
  lemma AsWrittenAggregationFailsForAnyFile(gathered: seq<seq<SdkCall>>)
    ensures AggregateAsWritten(gathered).Ok? <==> gathered == []
    ensures AggregateAsWritten(gathered).Ok? ==> ActionsByResource(Flatten(gathered)) == map[]
    ensures (exists f :: 0 <= f < |gathered| && gathered[f] != []) ==>
              AggregateAsWritten(gathered) == Err(AttributeError("resource")) && ActionsByResource(Flatten(gathered)) != map[]
  {
    if exists f :: 0 <= f < |gathered| && gathered[f] != [] {
      var f :| 0 <= f < |gathered| && gathered[f] != [];
      assert gathered[f][0] in Flatten(gathered);
      assert gathered[f][0].resource in ActionsByResource(Flatten(gathered));
    }
  }

  // ---------------------------------------------------------------------------
  // Policy construction

  datatype Statement = Statement(effect: string, action: seq<string>, resource: string)

  datatype IamPolicy = IamPolicy(version: string, statement: seq<Statement>)

  /** The version string of the AWS IAM policy language. */
  const PolicyVersion: string := "2012-10-17"

  /** `st` allows exactly `actions` (each listed once) on `resource`. */
  ghost predicate Allows(st: Statement, resource: string, actions: set<string>) {
    && st.effect == "Allow"
    && st.resource == resource
    && Distinct(st.action)
    && forall a :: a in st.action <==> a in actions
  }

  /** `policy` is the draft policy for `statements`: one statement per key, in key order. */
  ghost predicate IsPolicyFor(statements: Dict<set<string>>, policy: IamPolicy)
    requires statements.Valid()
  {
    && policy.version == PolicyVersion
    && |policy.statement| == |statements.keys|
    && forall i :: 0 <= i < |statements.keys| ==>
         Allows(policy.statement[i], statements.keys[i], statements.entries[statements.keys[i]])
  }

  /** `list(actions)`: the set's elements, each once, in an order the model leaves open. */
  method ListOfSet(actions: set<string>) returns (list: seq<string>)
    ensures Distinct(list)
    ensures forall a :: a in list <==> a in actions
  {
    list := [];
    var rest := actions;
    while rest != {}
      invariant rest <= actions
      invariant Distinct(list)
      invariant forall a :: a in list <==> a in actions && a !in rest
      decreases |rest|
    {
      var a :| a in rest;
      list := list + [a];
      rest := rest - {a};
    }
  }

  /** `_construct_iam_policy`: version "2012-10-17" and, for each resource in
      the dict's order, one statement allowing exactly its actions; an empty dict
      gives an empty statement list. */
  method ConstructIamPolicy(statements: Dict<set<string>>) returns (policy: IamPolicy)
    requires statements.Valid()
    ensures policy.version == PolicyVersion
    ensures |policy.statement| == |statements.keys|
    ensures forall i :: 0 <= i < |statements.keys| ==>
              Allows(policy.statement[i], statements.keys[i], statements.entries[statements.keys[i]])
    ensures forall r :: r in statements.entries <==> exists i :: 0 <= i < |policy.statement| && policy.statement[i].resource == r
    ensures statements.entries == map[] ==> policy.statement == []
    ensures IsPolicyFor(statements, policy)
  {
    var emitted: seq<Statement> := [];
    var i := 0;
    while i < |statements.keys|
      invariant 0 <= i <= |statements.keys|
      invariant |emitted| == i
      invariant forall k :: 0 <= k < i ==>
                  Allows(emitted[k], statements.keys[k], statements.entries[statements.keys[k]])
    {
      var resource := statements.keys[i];
      var actions := statements.entries[resource];
      var list := ListOfSet(actions);
      emitted := emitted + [Statement("Allow", list, resource)];
      i := i + 1;
    }
    policy := IamPolicy(PolicyVersion, emitted);
    forall r | r in statements.entries
      ensures exists i :: 0 <= i < |policy.statement| && policy.statement[i].resource == r
    {
      var i :| 0 <= i < |statements.keys| && statements.keys[i] == r;
      assert policy.statement[i].resource == r;
    }
    assert |statements.keys| == 0 || statements.keys[0] in statements.entries;
  }

  // ---------------------------------------------------------------------------
  // The draft policy of one run

  /** A policy built for a valid dict has only `Allow` statements, one per resource. */
  lemma PolicyIsOneAllowPerResource(statements: Dict<set<string>>, policy: IamPolicy)
    requires statements.Valid() && IsPolicyFor(statements, policy)
    ensures forall i :: 0 <= i < |policy.statement| ==> policy.statement[i].effect == "Allow"
    ensures forall i, j :: 0 <= i < j < |policy.statement| ==> policy.statement[i].resource != policy.statement[j].resource
  {
    assert forall i :: 0 <= i < |policy.statement| ==>
      Allows(policy.statement[i], statements.keys[i], statements.entries[statements.keys[i]]);
  }

  /** Every call reported by some file is allowed on its resource. */
  lemma PolicyCoversEveryCall(results: seq<seq<SdkCall>>, statements: Dict<set<string>>, policy: IamPolicy, f: int, k: int)
    requires IsAggregateOf(Flatten(results), statements) && IsPolicyFor(statements, policy)
    requires 0 <= f < |results| && 0 <= k < |results[f]|
    ensures exists i :: 0 <= i < |policy.statement| && policy.statement[i].effect == "Allow"
                        && policy.statement[i].resource == results[f][k].resource
                        && QualifiedAction(results[f][k]) in policy.statement[i].action
  {
    var call := results[f][k];
    AggregatedActionIffReported(results, call.resource, QualifiedAction(call));
    assert QualifiedAction(call) in statements.entries[call.resource];
    var i :| 0 <= i < |statements.keys| && statements.keys[i] == call.resource;
    assert Allows(policy.statement[i], statements.keys[i], statements.entries[statements.keys[i]]);
  }

  /** Every action a statement allows was reported by some file on that resource. */
  lemma PolicyAllowsOnlyReported(results: seq<seq<SdkCall>>, statements: Dict<set<string>>, policy: IamPolicy, i: int, a: string)
    requires IsAggregateOf(Flatten(results), statements) && IsPolicyFor(statements, policy)
    requires 0 <= i < |policy.statement| && a in policy.statement[i].action
    ensures exists f, k :: 0 <= f < |results| && 0 <= k < |results[f]| &&
                           results[f][k].resource == policy.statement[i].resource && QualifiedAction(results[f][k]) == a
  {
    assert Allows(policy.statement[i], statements.keys[i], statements.entries[statements.keys[i]]);
    AggregatedActionIffReported(results, statements.keys[i], a);
  }

  /** Some `Allow` statement of `policy` lists `call`'s action on `call`'s resource. */
  ghost predicate CallAllowed(policy: IamPolicy, call: SdkCall) {
    exists i :: 0 <= i < |policy.statement| && policy.statement[i].effect == "Allow"
                && policy.statement[i].resource == call.resource
                && QualifiedAction(call) in policy.statement[i].action
  }

  /** Every call of every (successful) task is allowed on its resource. */
  ghost predicate AllowsEveryCall(tasks: seq<Result<seq<SdkCall>>>, policy: IamPolicy)
    requires forall t :: 0 <= t < |tasks| ==> tasks[t].Ok?
  {
    forall t, k :: 0 <= t < |tasks| && 0 <= k < |tasks[t].value| ==> CallAllowed(policy, tasks[t].value[k])
  }

  /** Every allowed action was reported by some task on that resource. */
  ghost predicate AllowsOnlyReported(tasks: seq<Result<seq<SdkCall>>>, policy: IamPolicy)
    requires forall t :: 0 <= t < |tasks| ==> tasks[t].Ok?
  {
    forall i, a :: 0 <= i < |policy.statement| && a in policy.statement[i].action ==>
      exists t, k :: 0 <= t < |tasks| && 0 <= k < |tasks[t].value| &&
                     tasks[t].value[k].resource == policy.statement[i].resource && QualifiedAction(tasks[t].value[k]) == a
  }

  lemma DraftPolicyComplete(tasks: seq<Result<seq<SdkCall>>>, results: seq<seq<SdkCall>>,
                            statements: Dict<set<string>>, policy: IamPolicy)
    requires |results| == |tasks| && forall t :: 0 <= t < |tasks| ==> tasks[t] == Ok(results[t])
    requires IsAggregateOf(Flatten(results), statements) && IsPolicyFor(statements, policy)
    ensures AllowsEveryCall(tasks, policy)
  {
    forall t, k | 0 <= t < |tasks| && 0 <= k < |tasks[t].value|
      ensures CallAllowed(policy, tasks[t].value[k])
    {
      PolicyCoversEveryCall(results, statements, policy, t, k);
      assert results[t][k] == tasks[t].value[k];
    }
  }

  lemma DraftPolicySound(tasks: seq<Result<seq<SdkCall>>>, results: seq<seq<SdkCall>>,
                         statements: Dict<set<string>>, policy: IamPolicy)
    requires |results| == |tasks| && forall t :: 0 <= t < |tasks| ==> tasks[t] == Ok(results[t])
    requires IsAggregateOf(Flatten(results), statements) && IsPolicyFor(statements, policy)
    ensures AllowsOnlyReported(tasks, policy)
  {
    forall i, a | 0 <= i < |policy.statement| && a in policy.statement[i].action
      ensures exists t, k :: 0 <= t < |tasks| && 0 <= k < |tasks[t].value| &&
                             tasks[t].value[k].resource == policy.statement[i].resource && QualifiedAction(tasks[t].value[k]) == a
    {
      PolicyAllowsOnlyReported(results, statements, policy, i, a);
      var f, k :| 0 <= f < |results| && 0 <= k < |results[f]| &&
                  results[f][k].resource == policy.statement[i].resource && QualifiedAction(results[f][k]) == a;
      assert results[f] == tasks[f].value;
    }
  }

  /** Lines 85-105 of the first copy: gather the per-file extraction tasks, fold
      their calls, and build the draft policy. One failing task fails the run;
      otherwise the policy has one `Allow` statement per resource, every reported
      call is allowed on its resource, nothing else is listed,
      and a run with no calls gets an empty statement list. */
  method DraftPolicy(tasks: seq<Result<seq<SdkCall>>>) returns (r: Result<IamPolicy>)
    ensures r.Err? <==> exists t :: 0 <= t < |tasks| && tasks[t].Err?
    ensures r.Ok? ==> r.value.version == PolicyVersion
    ensures r.Ok? ==> forall i :: 0 <= i < |r.value.statement| ==> r.value.statement[i].effect == "Allow"
    ensures r.Ok? ==> forall i, j :: 0 <= i < j < |r.value.statement| ==>
                        r.value.statement[i].resource != r.value.statement[j].resource
    ensures r.Ok? ==> AllowsEveryCall(tasks, r.value) && AllowsOnlyReported(tasks, r.value)
    ensures r.Ok? && (forall t :: 0 <= t < |tasks| ==> tasks[t].value == []) ==> r.value.statement == []
  {
    var gathered := Gather(tasks);
    if gathered.Err? {
      return Err(gathered.error);
    }
    var results := gathered.value;
    var statements := AggregateStatements(results);
    var policy := ConstructIamPolicy(statements);
    DraftPolicyComplete(tasks, results, statements, policy);
    DraftPolicySound(tasks, results, statements, policy);
    PolicyIsOneAllowPerResource(statements, policy);
    if forall t :: 0 <= t < |tasks| ==> tasks[t].value == [] {
      assert forall c :: c !in Flatten(results);
      assert ActionsByResource(Flatten(results)) == map[];
    }
    r := Ok(policy);
  }
}
