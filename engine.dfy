/** The deterministic parts of the per-file extraction in
    deployment_helper/core/llm_engine/__init__.py, which
    deployment_helpers/llm/__init__.py repeats line for line: which repository
    paths count as source code, narrowing the discovered service names to the
    catalog, and the loop that deletes invalid calls while enumerating them.
    The language-model calls are inputs. */
module LlmEngine {
  import opened Seqs
  import opened Dicts
  import opened ActionCatalog

  /** One `AwsSdkCall` (`AwsStatement` in the second copy) returned by the model. */
  datatype SdkCall = SdkCall(service: string, action: string, resource: string, reasoning: string)

  // ---------------------------------------------------------------------------
  // Source-file filter

  const SourceCodeExtensions: set<string> := {".py", ".js", ".ts", ".rb", ".java", ".go", ".md"}

  /** `s.endswith(suffix)` */
  predicate EndsWith(s: string, suffix: string) {
    |suffix| <= |s| && s[|s| - |suffix|..] == suffix
  }

  /** `_is_source_code`: the path ends with one of the seven extensions. */
  predicate IsSourceCode(filePath: string) {
    exists ext | ext in SourceCodeExtensions :: EndsWith(filePath, ext)
  }

  /** The part of `path` from its last '.', or "" when it has none. */
  function Extension(path: string): (ext: string)
    ensures ext == [] || (ext[0] == '.' && '.' !in ext[1..] && EndsWith(path, ext))
  {
    if path == [] then []
    else
      var init, last := path[..|path| - 1], path[|path| - 1];
      assert path == init + [last];
      if last == '.' then ['.']
      else
        var e := Extension(init);
        if e == [] then [] else
          assert (e + [last])[1..] == e[1..] + [last];
          e + [last]
  }

  /** For a dot followed by dot-free text, ending with it and having it as the
      extension are the same thing. */
  lemma {:induction false} EndsWithIffExtension(path: string, e: string)
    requires |e| >= 1 && e[0] == '.' && '.' !in e[1..]
    ensures EndsWith(path, e) <==> Extension(path) == e
  {
    if EndsWith(path, e) && path != [] {
      var init, last := path[..|path| - 1], path[|path| - 1];
      assert path == init + [last];
      if |e| > 1 {
        var e' := e[..|e| - 1];
        assert e == e' + [last];
        assert last in e[1..];
        assert e'[1..] == e[1..|e| - 1];
        assert init[|init| - |e'|..] == path[|path| - |e|..|path| - 1];
        EndsWithIffExtension(init, e');
      }
    }
  }

  /** `_is_source_code` holds exactly when the path's extension (from its last
      dot) is one of the seven; so "a.pyc", "Makefile" and "x.py.bak" are not
      source code, and neither is a name without a dot. */
  lemma IsSourceCodeByExtension(filePath: string)
    ensures IsSourceCode(filePath) <==> Extension(filePath) in SourceCodeExtensions
  {
    ExtensionsAreDotWords();
    forall ext | ext in SourceCodeExtensions
      ensures EndsWith(filePath, ext) <==> Extension(filePath) == ext
    {
      EndsWithIffExtension(filePath, ext);
    }
  }

  /** Each of the seven is a dot followed by dot-free text. */
  lemma ExtensionsAreDotWords()
    ensures forall ext :: ext in SourceCodeExtensions ==> |ext| >= 1 && ext[0] == '.' && '.' !in ext[1..]
  {
    assert ".py"[1..] == "py" && ".js"[1..] == "js" && ".ts"[1..] == "ts" && ".rb"[1..] == "rb";
    assert ".java"[1..] == "java" && ".go"[1..] == "go" && ".md"[1..] == "md";
  }

  // ---------------------------------------------------------------------------
  // Service narrowing

  /** The discovered names that are catalog keys, in discovery order. */
  function KnownNames(catalog: Catalog, serviceNames: seq<string>): (known: seq<string>)
    ensures forall n :: n in known <==> n in serviceNames && n in catalog.entries
  {
    if serviceNames == [] then []
    else
      var init, last := serviceNames[..|serviceNames| - 1], serviceNames[|serviceNames| - 1];
      assert serviceNames == init + [last];
      KnownNames(catalog, init) + (if last in catalog.entries then [last] else [])
  }

  /** What the narrowing loop has built after the names `done`. */
  ghost predicate IsNarrowedTo(catalog: Catalog, done: seq<string>, relevant: Dict<set<string>>) {
    && relevant.Valid()
    && relevant.keys == Dedup(KnownNames(catalog, done))
    && forall n :: n in relevant.entries ==> n in catalog.entries && relevant.entries[n] == catalog.entries[n]
  }

  /** A name outside the catalog leaves the dict as it is. */
  lemma NarrowSkipStep(catalog: Catalog, done: seq<string>, name: string, relevant: Dict<set<string>>)
    requires IsNarrowedTo(catalog, done, relevant) && name !in catalog.entries
    ensures IsNarrowedTo(catalog, done + [name], relevant)
  {
    assert (done + [name])[..|done|] == done;
    assert KnownNames(catalog, done + [name]) == KnownNames(catalog, done);
  }

  /** A catalog name is stored with the catalog's action set. */
  lemma NarrowStoreStep(catalog: Catalog, done: seq<string>, name: string, relevant: Dict<set<string>>)
    requires IsNarrowedTo(catalog, done, relevant) && name in catalog.entries
    ensures IsNarrowedTo(catalog, done + [name], Set(relevant, name, catalog.entries[name]))
  {
    assert (done + [name])[..|done|] == done;
    assert KnownNames(catalog, done + [name]) == KnownNames(catalog, done) + [name];
    SetFollowsFirstOccurrence(relevant, KnownNames(catalog, done), name, catalog.entries[name]);
  }

  /** The loop that fills `relevant_aws_services`: the discovered names that are
      catalog keys, each once, in discovery order, bound to the catalog's full
      action set; names outside the catalog are dropped without error. */
  method NarrowServices(catalog: Catalog, serviceNames: seq<string>) returns (relevant: Dict<set<string>>)
    ensures relevant.Valid()
    ensures relevant.keys == Dedup(KnownNames(catalog, serviceNames))
    ensures forall n :: n in relevant.entries <==> n in serviceNames && n in catalog.entries
    ensures forall n :: n in relevant.entries ==> relevant.entries[n] == catalog.entries[n]
  {
    relevant := Empty();
    ghost var done: seq<string> := [];
    var i := 0;
    while i < |serviceNames|
      invariant 0 <= i <= |serviceNames|
      invariant done == serviceNames[..i]
      invariant IsNarrowedTo(catalog, done, relevant)
    {
      var awsService := serviceNames[i];
      assert serviceNames[..i + 1] == done + [awsService];
      i := i + 1;
      if awsService !in catalog.entries {
        NarrowSkipStep(catalog, done, awsService, relevant);
        done := done + [awsService];
        continue;
      }
      NarrowStoreStep(catalog, done, awsService, relevant);
      done := done + [awsService];
      relevant := Set(relevant, awsService, catalog.entries[awsService]);
    }
    assert done == serviceNames;
  }

  // ---------------------------------------------------------------------------
  // Validation loop, as written

  /** `_is_valid_aws_service_action(service=call.service, action=call.action)` */
  predicate IsValidCall(catalog: Catalog, call: SdkCall) {
    IsValidServiceAction(catalog, call.service, call.action)
  }

  /** What `for idx, stmt in enumerate(calls): if invalid: del calls[idx]` leaves.
      The deletion shifts the list under the iterator, so the call right after a
      deleted one is never examined and stays, valid or not. */
  function AfterValidationLoop(catalog: Catalog, calls: seq<SdkCall>): (kept: seq<SdkCall>)
  {
    if calls == [] then []
    else if IsValidCall(catalog, calls[0]) then [calls[0]] + AfterValidationLoop(catalog, calls[1..])
    else if |calls| == 1 then []
    else [calls[1]] + AfterValidationLoop(catalog, calls[2..])
  }

  /** Which input positions the loop keeps. */
  function KeptMask(catalog: Catalog, calls: seq<SdkCall>): (keep: seq<bool>)
    ensures |keep| == |calls|
  {
    if calls == [] then []
    else if IsValidCall(catalog, calls[0]) then [true] + KeptMask(catalog, calls[1..])
    else if |calls| == 1 then [false]
    else [false, true] + KeptMask(catalog, calls[2..])
  }

  lemma {:induction false} AfterValidationLoopSelects(catalog: Catalog, calls: seq<SdkCall>)
    ensures AfterValidationLoop(catalog, calls) == Select(calls, KeptMask(catalog, calls))
  {
    if calls == [] {
    } else if IsValidCall(catalog, calls[0]) {
      AfterValidationLoopSelects(catalog, calls[1..]);
      assert KeptMask(catalog, calls)[1..] == KeptMask(catalog, calls[1..]);
    } else if |calls| == 1 {
    } else {
      AfterValidationLoopSelects(catalog, calls[2..]);
      var m := KeptMask(catalog, calls);
      assert m[1..] == [true] + KeptMask(catalog, calls[2..]);
      assert calls[1..][1..] == calls[2..];
      assert m[1..][1..] == KeptMask(catalog, calls[2..]);
    }
  }

  /** The loop's behaviour in closed form: a call is kept exactly when it is valid
      or the call before it was deleted. Position 0 is always examined. */
  lemma {:induction false} KeptMaskCharacterization(catalog: Catalog, calls: seq<SdkCall>, k: int)
    requires 0 <= k < |calls|
    ensures KeptMask(catalog, calls)[k] <==>
              IsValidCall(catalog, calls[k]) || (k > 0 && !KeptMask(catalog, calls)[k - 1])
  {
    var m := KeptMask(catalog, calls);
    if IsValidCall(catalog, calls[0]) {
      if k > 0 {
        KeptMaskCharacterization(catalog, calls[1..], k - 1);
        if k > 1 {
          assert m[k - 1] == KeptMask(catalog, calls[1..])[k - 2];
        }
      }
    } else if |calls| > 1 && k > 1 {
      KeptMaskCharacterization(catalog, calls[2..], k - 2);
      if k > 2 {
        assert m[k - 1] == KeptMask(catalog, calls[2..])[k - 3];
      }
    }
  }

  /** Only failing calls are ever deleted, and the call after a deleted one is kept
      whether or not it is valid. */
  lemma ValidationLoopDeletesOnlyInvalid(catalog: Catalog, calls: seq<SdkCall>)
    ensures forall k :: 0 <= k < |calls| && !KeptMask(catalog, calls)[k] ==> !IsValidCall(catalog, calls[k])
    ensures forall k :: 0 < k < |calls| && !KeptMask(catalog, calls)[k - 1] ==> KeptMask(catalog, calls)[k]
  {
    forall k | 0 <= k < |calls| {
      KeptMaskCharacterization(catalog, calls, k);
    }
  }

  /** The loop's result is a subsequence of its input: never longer, order kept,
      every valid call still present. */
  lemma ValidationLoopIsSubsequence(catalog: Catalog, calls: seq<SdkCall>)
    ensures IsSubsequence(AfterValidationLoop(catalog, calls), calls)
    ensures |AfterValidationLoop(catalog, calls)| <= |calls|
    ensures forall c :: c in calls && IsValidCall(catalog, c) ==> c in AfterValidationLoop(catalog, calls)
  {
    AfterValidationLoopSelects(catalog, calls);
    ValidationLoopDeletesOnlyInvalid(catalog, calls);
    forall c | c in calls && IsValidCall(catalog, c)
      ensures c in AfterValidationLoop(catalog, calls)
    {
      var k :| 0 <= k < |calls| && calls[k] == c;
      SelectKeeps(calls, KeptMask(catalog, calls), k);
    }
  }

  lemma {:induction false} SelectKeeps<T>(s: seq<T>, keep: seq<bool>, k: int)
    requires |keep| == |s| && 0 <= k < |s| && keep[k]
    ensures s[k] in Select(s, keep)
  {
    if k > 0 {
      SelectKeeps(s[1..], keep[1..], k - 1);
    }
  }

  /** The state at the head of the loop: `kept` is the list, `i` the iterator's
      position, `rest` the part of the input not yet passed over. */
  ghost predicate LoopState(catalog: Catalog, calls: seq<SdkCall>, kept: seq<SdkCall>, i: int, rest: seq<SdkCall>) {
    && 0 <= i <= |kept| + 1
    && (i <= |kept| ==> rest == kept[i..] && kept[..i] + AfterValidationLoop(catalog, rest) == AfterValidationLoop(catalog, calls))
    && (i > |kept| ==> kept == AfterValidationLoop(catalog, calls))
  }

  /** One pass of the loop body when `kept[i]` is invalid and gets deleted. */
  lemma DeleteStep(catalog: Catalog, calls: seq<SdkCall>, kept: seq<SdkCall>, i: int, rest: seq<SdkCall>)
    requires LoopState(catalog, calls, kept, i, rest) && i < |kept|
    requires !IsValidCall(catalog, kept[i])
    ensures LoopState(catalog, calls, kept[..i] + kept[i + 1..], i + 1, if |rest| >= 2 then rest[2..] else [])
  {
    var kept' := kept[..i] + kept[i + 1..];
    if |rest| >= 2 {
      assert kept'[..i + 1] == kept[..i] + [rest[1]];
      assert kept'[i + 1..] == rest[2..];
    } else {
      assert kept' == kept[..i];
    }
  }

  /** One pass of the loop body when `kept[i]` is valid and stays. */
  lemma KeepStep(catalog: Catalog, calls: seq<SdkCall>, kept: seq<SdkCall>, i: int, rest: seq<SdkCall>)
    requires LoopState(catalog, calls, kept, i, rest) && i < |kept|
    requires IsValidCall(catalog, kept[i])
    ensures LoopState(catalog, calls, kept, i + 1, rest[1..])
  {
    assert kept[..i + 1] == kept[..i] + [kept[i]];
  }

  /** The loop itself: Python's list iterator holds a position `i`; `del` shifts
      the rest of the list left under it. */
  method ValidateSdkCalls(catalog: Catalog, calls: seq<SdkCall>) returns (kept: seq<SdkCall>)
    ensures kept == AfterValidationLoop(catalog, calls)
  {
    kept := calls;
    var i := 0;
    ghost var rest := calls;
    while i < |kept|
      invariant LoopState(catalog, calls, kept, i, rest)
      decreases |kept| + 1 - i
    {
      var idx, stmt := i, kept[i];
      if !IsValidCall(catalog, stmt) {
        DeleteStep(catalog, calls, kept, idx, rest);
        i := i + 1;
        kept := kept[..idx] + kept[idx + 1..];
        rest := if |rest| >= 2 then rest[2..] else [];
        continue;
      }
      KeepStep(catalog, calls, kept, idx, rest);
      i := i + 1;
      rest := rest[1..];
    }
    if i <= |kept| {
      assert kept[..i] == kept;
    }
  }

  /** A concrete run: with an empty catalog, of two identical invalid calls the
      first is deleted and the second survives unexamined. */
  lemma InvalidCallSurvivesValidation()
    ensures var call := SdkCall("s3", "GetObject", "*", "");
            && !IsValidCall(Empty(), call)
            && AfterValidationLoop(Empty(), [call, call]) == [call]
  {
    var call := SdkCall("s3", "GetObject", "*", "");
    assert [call, call][2..] == [];
  }

  // ---------------------------------------------------------------------------
  // Validation, as intended

  /** The calls the catalog accepts, in order: what the loop is meant to leave. */
  function ValidCalls(catalog: Catalog, calls: seq<SdkCall>): (valid: seq<SdkCall>)
    ensures forall c :: c in valid <==> c in calls && IsValidCall(catalog, c)
    ensures IsSubsequence(valid, calls)
  {
    FilterIsSubsequence(calls, c => IsValidCall(catalog, c));
    Filter(calls, c => IsValidCall(catalog, c))
  }

  /** The loop does what was meant whenever no two invalid calls are adjacent. */
  lemma {:induction false} ValidationLoopCorrectWithoutAdjacentInvalid(catalog: Catalog, calls: seq<SdkCall>)
    requires forall k :: 0 < k < |calls| ==> IsValidCall(catalog, calls[k - 1]) || IsValidCall(catalog, calls[k])
    ensures AfterValidationLoop(catalog, calls) == ValidCalls(catalog, calls)
  {
    var p := c => IsValidCall(catalog, c);
    if calls == [] {
    } else if IsValidCall(catalog, calls[0]) {
      ValidationLoopCorrectWithoutAdjacentInvalid(catalog, calls[1..]);
    } else if |calls| == 1 {
    } else {
      assert IsValidCall(catalog, calls[1]);
      ValidationLoopCorrectWithoutAdjacentInvalid(catalog, calls[2..]);
      assert calls[1..][1..] == calls[2..];
      assert Filter(calls, p) == Filter(calls[1..], p);
      assert Filter(calls[1..], p) == [calls[1]] + Filter(calls[2..], p);
    }
  }

  /** Two adjacent invalid calls always leave an invalid call behind: either the
      first is kept, or it is deleted and the second is passed over unexamined. */
  lemma AdjacentInvalidSurvive(catalog: Catalog, calls: seq<SdkCall>, k: int)
    requires 0 < k < |calls| && !IsValidCall(catalog, calls[k - 1]) && !IsValidCall(catalog, calls[k])
    ensures exists c :: c in AfterValidationLoop(catalog, calls) && !IsValidCall(catalog, c)
  {
    AfterValidationLoopSelects(catalog, calls);
    var m := KeptMask(catalog, calls);
    if m[k - 1] {
      SelectKeeps(calls, m, k - 1);
    } else {
      KeptMaskCharacterization(catalog, calls, k);
      SelectKeeps(calls, m, k);
    }
  }

  /** The loop leaves exactly the valid calls if and only if no two invalid calls
      are adjacent in its input. */
  lemma ValidationLoopCorrectIffNoAdjacentInvalid(catalog: Catalog, calls: seq<SdkCall>)
    ensures AfterValidationLoop(catalog, calls) == ValidCalls(catalog, calls) <==>
              forall k :: 0 < k < |calls| ==> IsValidCall(catalog, calls[k - 1]) || IsValidCall(catalog, calls[k])
  {
    if forall k :: 0 < k < |calls| ==> IsValidCall(catalog, calls[k - 1]) || IsValidCall(catalog, calls[k]) {
      ValidationLoopCorrectWithoutAdjacentInvalid(catalog, calls);
    } else {
      var k :| 0 < k < |calls| && !IsValidCall(catalog, calls[k - 1]) && !IsValidCall(catalog, calls[k]);
      AdjacentInvalidSurvive(catalog, calls, k);
    }
  }

  // ---------------------------------------------------------------------------
  // One file

  /** `_get_relevant_aws_sdk_calls_from_file` after the service-name call: narrow
      the discovered names, hand the narrowed catalog to the call-extraction model
      (`findSdkCalls`), and run the validation loop on what it returns. */
  method SdkCallsFromFile(catalog: Catalog, serviceNames: seq<string>,
                          findSdkCalls: Dict<set<string>> -> seq<SdkCall>)
    returns (relevant: Dict<set<string>>, calls: seq<SdkCall>)
    ensures relevant.Valid() && relevant.keys == Dedup(KnownNames(catalog, serviceNames))
    ensures forall n :: n in relevant.entries <==> n in serviceNames && n in catalog.entries
    ensures forall n :: n in relevant.entries ==> relevant.entries[n] == catalog.entries[n]
    ensures calls == AfterValidationLoop(catalog, findSdkCalls(relevant))
  {
    relevant := NarrowServices(catalog, serviceNames);
    var sdkCalls := findSdkCalls(relevant);
    calls := ValidateSdkCalls(catalog, sdkCalls);
  }
}
