# deployment-helper: the deterministic core of the IAM policy pipeline

deployment-helper infers the AWS IAM permissions a repository needs:
1. It lists the repository's files through the GitHub API and keeps the source files.
2. A reranker ranks those files for AWS SDK usage.
3. For each relevant file, a language model names the AWS services used and then the SDK calls made. Each call is a service, an action, a resource ARN and a reasoning.
4. Each call is checked against the AWS action catalog.
5. The calls are folded into one `Allow` statement per resource, which gives a draft IAM policy.

The repository carries two parallel copies of this pipeline: `deployment_helper/...` and `deployment_helpers/...`.

This Dafny project models the logic around the model and network calls. Every model answer, reranker answer and HTTP response is an input to the model:

- `ActionCatalog` (`catalog.dfy`) models the action catalog. It is built from the parsed `serviceMap` by binding each `StringPrefix` to the set of its actions. The membership test `action in MAP.get(service, [])` is in this module too.
- `LlmEngine` (`engine.dfy`) models:
  - the source-file extension filter;
  - narrowing the discovered service names to the catalog;
  - the loop that deletes invalid calls while it enumerates them, exactly as it behaves.
- `PolicyBuilder` (`policy.dfy`) models:
  - the `defaultdict(set)` fold of all files' calls by resource;
  - `_construct_iam_policy`;
  - the draft policy of one run.
- `Rerank` (`rerank.dfy`) models the threshold filter after the reranker call, in both copies. The first copy uses a comprehension and the second a loop.
- `Github` (`github.dfy`) models turning the git tree into file records, in both copies.
- `Outcomes`, `Seqs` and `Dicts` supply what the rest is stated in:
  - the exceptions the code lets propagate, as a `Result`;
  - `asyncio.gather` read sequentially;
  - subsequences, filtering, first-occurrence de-duplication and flattening;
  - Python's insertion-ordered `dict`, as a key order plus a map.

Where both copies have the same lines, one member models both. The `states` column names the second copy's lines in that case. The loops the source runs step by step are methods with loops. Each is proved equal to a specification function or predicate, and the properties are proved about that function.

The validation loop at deployment_helper/core/llm_engine/__init__.py:174-186 logs "invalid aws service action" and then deletes the call, so it is evidently meant to drop every invalid call. It does not do that. It deletes from the list it is enumerating, so a call that follows a deleted one is never checked. The model follows the code as written and proves the intended filter alongside it (see Findings).

## Model

| member | source | states |
|---|---|---|
| ActionCatalog.StripConfigAssignment | deployment_helpers/llm/aws/helpers.py:10-11 | `text[23:]` with Python slicing: 23 characters fewer, or empty when the text is that short. |
| ActionCatalog.StripConfigAssignmentRoundTrip | deployment_helpers/llm/aws/helpers.py:10-11 | Dropping 23 characters from `"app.PolicyEditorConfig=" + body` gives back `body` exactly. |
| ActionCatalog.ExtractServiceActions | deployment_helpers/llm/aws/helpers.py:17-21 | The built map has one key per distinct `StringPrefix`, in first-occurrence order. Each key is bound to the action set (duplicates collapsed) of the last entry with that prefix, so a later entry overwrites an earlier one. |
| ActionCatalog.ServiceNames | deployment_helpers/llm/aws/helpers.py:26 | `AWS_SERVICE_NAMES` lists every catalog key once and nothing else. |
| ActionCatalog.ServiceNamesArePrefixes | deployment_helpers/llm/aws/helpers.py:17-26 | The service names are exactly the distinct `StringPrefix` values of `serviceMap`, in order of first occurrence. |
| ActionCatalog.ValidIffCatalogEntry | deployment_helpers/llm/aws/helpers.py:29-33 | A pair is valid iff the service is a key and the action is in its set. An unknown service gives false, never an exception. The first copy's check at deployment_helper/core/llm_engine/__init__.py:26-42 is the same. |
| ActionCatalog.ValidIffLastEntryLists | deployment_helpers/llm/aws/helpers.py:17-33 | Read back on `serviceMap`: a pair is valid iff the last entry with that prefix lists the action. |
| LlmEngine.IsSourceCodeByExtension | deployment_helper/core/llm_engine/__init__.py:20-23 | `_is_source_code` holds iff the text from the path's last dot is one of `.py .js .ts .rb .java .go .md`. The second copy's lines 18-21 are the same. |
| LlmEngine.KnownNames | deployment_helper/core/llm_engine/__init__.py:157-162 | The names kept are exactly the discovered names that are catalog keys. |
| LlmEngine.NarrowServices | deployment_helper/core/llm_engine/__init__.py:157-162 | The keys of `relevant_aws_services` are exactly the discovered names that are catalog keys, each once, in discovery order. Each is bound to the catalog's full action set. Unknown names are dropped without error. The second copy's lines 156-161 are the same. |
| LlmEngine.AfterValidationLoopSelects | deployment_helper/core/llm_engine/__init__.py:174-186 | The loop's result is the input with the positions in `KeptMask` selected. |
| LlmEngine.KeptMaskCharacterization | deployment_helper/core/llm_engine/__init__.py:174-186 | Position k survives iff its call is valid or position k-1 was deleted. |
| LlmEngine.ValidationLoopDeletesOnlyInvalid | deployment_helper/core/llm_engine/__init__.py:174-186 | Only failing calls are ever deleted. The call after a deleted one always survives, whether it is valid or not. |
| LlmEngine.ValidationLoopIsSubsequence | deployment_helper/core/llm_engine/__init__.py:174-188 | The returned list is a subsequence of the input and never longer. Every valid call is still in it. The second copy's lines 173-187 are the same. |
| LlmEngine.ValidateSdkCalls | deployment_helper/core/llm_engine/__init__.py:174-188 | The `del`-inside-`enumerate` loop, with the list iterator's position made explicit, leaves exactly `AfterValidationLoop` of its input. |
| LlmEngine.InvalidCallSurvivesValidation | deployment_helper/core/llm_engine/__init__.py:174-186 | With an empty catalog, the loop turns `[c, c]` into `[c]`, although `c` is invalid. |
| LlmEngine.ValidCalls | deployment_helper/core/llm_engine/__init__.py:174-186 | The intended validation: exactly the valid calls, in order, as a subsequence. |
| LlmEngine.ValidationLoopCorrectWithoutAdjacentInvalid | deployment_helper/core/llm_engine/__init__.py:174-186 | When no two invalid calls are adjacent, the loop leaves exactly the valid calls. |
| LlmEngine.AdjacentInvalidSurvive | deployment_helper/core/llm_engine/__init__.py:174-186 | When two invalid calls are adjacent, some invalid call is still in the loop's result. |
| LlmEngine.ValidationLoopCorrectIffNoAdjacentInvalid | deployment_helper/core/llm_engine/__init__.py:174-186 | The loop leaves exactly the valid calls iff no two invalid calls are adjacent in its input. |
| LlmEngine.SdkCallsFromFile | deployment_helper/core/llm_engine/__init__.py:157-188 | One file: narrow the discovered names to a valid dict keyed by the distinct known names in discovery order, hand that dict to the model, and validate what it returns against the whole catalog. |
| Outcomes.Gather | deployment_helper/core/llm_engine/__init__.py:85-95 | The gathered results, in task order, when every task succeeds. Otherwise the run fails with an exception that one of the tasks raised. |
| PolicyBuilder.AddFileStatements | deployment_helper/core/llm_engine/__init__.py:99-100 | Folding one file's calls into an aggregate of the calls seen so far gives the aggregate of both. |
| PolicyBuilder.AggregateStatements | deployment_helper/core/llm_engine/__init__.py:97-100 | The `defaultdict(set)` has one key per resource, in order of first appearance. Each key is bound to exactly the `"service:action"` strings of the calls on it. |
| PolicyBuilder.AggregatedActionIffReported | deployment_helper/core/llm_engine/__init__.py:97-100 | `"s:a"` is in `statements[r]` iff some file reported a call with qualified action `"s:a"` on resource `r`. |
| PolicyBuilder.AggregationIgnoresOrderAndDuplicates | deployment_helper/core/llm_engine/__init__.py:97-100 | The aggregated map depends only on which calls were reported, not on their order or repetition. |
| PolicyBuilder.TwoCallsOnOneResourceMerge | deployment_helper/core/llm_engine/__init__.py:97-100 | Two actions on one ARN merge into one entry that holds both. |
| PolicyBuilder.AggregateAsWritten | deployment_helpers/llm/__init__.py:95-99 | The second copy's fold, as written, succeeds iff no file was gathered, and then returns the empty dict. Otherwise it raises `AttributeError` on `.resource`. |
| PolicyBuilder.AsWrittenAggregationFailsForAnyFile | deployment_helpers/llm/__init__.py:95-99 | The second copy's fold succeeds iff no file was gathered. It raises `AttributeError` even when the flattened fold would file a call. |
| PolicyBuilder.ListOfSet | deployment_helper/core/llm_engine/__init__.py:132 | `list(actions)` lists each element of the set exactly once. |
| PolicyBuilder.ConstructIamPolicy | deployment_helper/core/llm_engine/__init__.py:116-137 | The policy has version `"2012-10-17"` and exactly one statement per key, in key order. Each statement has `Effect "Allow"`, the key as `Resource`, and the key's actions once each. A resource has a statement iff it is a key, and an empty dict gives no statements. The second copy's lines 115-136 are the same. |
| PolicyBuilder.PolicyIsOneAllowPerResource | deployment_helper/core/llm_engine/__init__.py:128-135 | A policy built from the aggregated dict has only `Allow` statements, and no two statements share a resource. |
| PolicyBuilder.PolicyCoversEveryCall | deployment_helper/core/llm_engine/__init__.py:97-137 | Every reported call's action is listed by an `Allow` statement on its resource. |
| PolicyBuilder.PolicyAllowsOnlyReported | deployment_helper/core/llm_engine/__init__.py:97-137 | Every allowed action was reported by some call on that statement's resource. |
| PolicyBuilder.DraftPolicyComplete | deployment_helper/core/llm_engine/__init__.py:85-105 | The draft policy allows every call of every task. |
| PolicyBuilder.DraftPolicySound | deployment_helper/core/llm_engine/__init__.py:85-105 | The draft policy allows nothing that no task reported. |
| PolicyBuilder.DraftPolicy | deployment_helper/core/llm_engine/__init__.py:85-105 | The run fails iff some task fails. Otherwise the draft has version `"2012-10-17"` and only `Allow` statements, one per resource. It allows every reported call and lists nothing else, and has no statements when no call was reported. |
| Rerank.Kept | deployment_helper/core/clients/cohere.py:41-42 | The kept results are exactly those scoring at least the threshold. |
| Rerank.RankTexts | deployment_helper/core/clients/cohere.py:37-43 | The comprehension succeeds iff every kept result's index lies within `documents`; otherwise it raises `IndexError` for such an index. On success there is one ranked text per kept result, in response order. Each has `rank` equal to the index, `content` equal to `documents[index]`, and the score unchanged. |
| Rerank.ThresholdIsInclusive | deployment_helper/core/clients/cohere.py:42 | Every ranked text scores at least the threshold, and a result scoring exactly the threshold is ranked. |
| Rerank.RankedIffAtOrAbove | deployment_helper/core/clients/cohere.py:37-43 | Every result at or above the threshold is ranked, and every ranked text comes from such a result. |
| Rerank.RankedInResponseOrder | deployment_helper/core/clients/cohere.py:37-43 | The ranked results are a subsequence of the response, so there are at most as many of them as results. |
| Rerank.RerankDocuments | deployment_helpers/clients/cohere.py:38-51 | The second copy's `for` loop, with `continue` on a score strictly below the threshold, returns exactly what the first copy's comprehension returns, exception included. |
| Github.SizeOf | deployment_helper/core/clients/github.py:181 | `file["size"]` is the entry's size, or `KeyError("size")` when the entry has none. |
| Github.FetchGithubFile | deployment_helper/core/clients/github.py:124-137 | Path, size and url are copied. `content` is present iff the response is an object and its bytes decode as UTF-8. An object without `content`, or an undecodable base64 payload, raises. |
| Github.Selected | deployment_helper/core/clients/github.py:184-185 | The entries requested are exactly the non-`tree` entries whose path passes `file_filter`, as a subsequence of the tree (tree order). |
| Github.FetchRepositoryFiles | deployment_helper/core/clients/github.py:173-189 | A selected entry without a size fails the call with `KeyError` before any request is made. The call succeeds iff every selected entry has a size and fetches. On success there is one record per selected entry, in tree order, and it is that entry's record. |
| Github.RecordsCopyTreeEntries | deployment_helper/core/clients/github.py:173-189 | Record i carries the path, size and url of selected entry i. |
| Github.FileContentByPath | deployment_helpers/clients/github.py:48-55 | A non-object response or bytes that are not UTF-8 give `""`. Non-empty content is the decoded text of the object's `content`. |
| Github.WantedEntries | deployment_helpers/clients/github.py:92-101 | The entries the loop does not skip are exactly the non-`tree` entries that pass the filter when one is given. |
| Github.WantedInTreeOrder | deployment_helpers/clients/github.py:92-101 | The entries the loop does not skip are a subsequence of the tree, so they keep tree order. |
| Github.GithubFiles | deployment_helpers/clients/github.py:91-117 | The call succeeds iff every wanted entry's content and size can be read. On success there is one `GithubFile` per wanted entry, in tree order, with path, url and size copied and the fetched content. |
| Github.DirectoriesSkippedFilesKept | deployment_helpers/clients/github.py:92-101 | No `tree` entry is listed. With no filter, every non-`tree` entry is listed. |
| Github.GetGithubFiles | deployment_helpers/clients/github.py:91-117 | The loop with its two `continue` branches returns exactly `GithubFiles`. |
| Github.SameSelection | deployment_helper/core/clients/github.py:184-185 | The first copy selects the same entries as the second given the same filter. The first copy's default filter selects what the second selects with none. |
| Github.ContentAgrees | deployment_helpers/clients/github.py:48-55 | Per file, both copies fail on the same responses with the same exception. Otherwise the second copy's content equals the first copy's, with `""` where the first has no content. |
| Github.CopiesAgree | deployment_helpers/clients/github.py:91-117 | Given one filter, the two copies succeed on the same inputs and then list the same files with the same fields. |

## Left out

- The language-model calls and their prompts are not modelled. Their answers are inputs: the discovered service names, the `findSdkCalls` function, and the per-file tasks of `DraftPolicy`. This covers `find_aws_service_names`, `find_aws_sdk_calls` and `refine_iam_policy`. The refined policy and its JSON rendering are not modelled.
- The GitHub, Cohere and AWS-catalog HTTP requests, JSON parsing, base64 and UTF-8 decoding are left out. They become the `fetch` and `decode` parameters, the tree, the reranker's `results`, and the parsed `serviceMap`.
- The catalog download at import time is left out. The first copy imports the catalog from `deployment_helper.core.aws_iam_actions` and the second from `deployment_helpers.aws_data`. Neither is part of this model. Both are taken to be the map that `ExtractServiceActions` builds.
- Concurrency is not modelled. `asyncio.gather` is read sequentially, so `Gather` and `DraftPolicy` report the exception of the first failing task in task order. The real `gather` raises whichever exception occurs first in time.
- PolicyBuilder.ListOfSet: the order of `list(actions)` follows Python's set iteration order. The model leaves that order unspecified.
- The reranker's own work is left out: `top_n`, the descending-score order it returns, and the relevance wrappers around it. The model starts from its `results`.
- Rerank.RankTexts: indices are natural numbers, because the reranker returns positions into `documents`. Python's negative indexing is therefore not modelled.
- Scores are real numbers, not floats. They are only compared with the threshold. Over reals, the first copy's `>=` and the second copy's `<` are complements. Over floats they are not: a NaN score would be dropped by the comprehension and kept by the loop. So `Rerank.RerankDocuments` agrees with the comprehension only for scores that are not NaN.
- Logging is not modelled. This includes the error log for each rejected call and the never-taken `except KeyError` branch of `_is_valid_aws_service_action`.
- Only the `path`, `type`, `size` and `url` keys of a tree entry are modelled. A missing `path`, `type` or `url` key is not.
- The `GithubFile` field defaults (`size = None`, `content = ""`) are not modelled. `get_github_files` always passes both fields, so no modelled path uses the defaults.
- Selecting the relevant files is not modelled, because it belongs to the relevance wrappers.
- The `file.get("content", "")` lookup in `generate_iam_policy_from_repository` (deployment_helper/core/llm_engine/__init__.py:91) is not modelled. The per-file tasks are inputs of `DraftPolicy`, so the record each task reads is not part of the model. A first-copy record without `content` would be analysed as `""`, which is `content.GetOr("")` as used in `Github.CopiesAgree`.

## Findings

| source | as written | input that shows it | evidently intended | confidence | as-written member | corrected member |
|---|---|---|---|---|---|---|
| deployment_helper/core/llm_engine/__init__.py:174-186 (and deployment_helpers/llm/__init__.py:173-185) | `del sdk_calls[idx]` inside `enumerate` shifts the list, so the call after a deleted one is never examined | a catalog without `s3`, and the model returns two calls `s3:GetObject`; the result still holds one of them | every invalid call is removed | not executed | LlmEngine.InvalidCallSurvivesValidation | LlmEngine.ValidCalls |
| deployment_helpers/llm/__init__.py:97-99 | the fold iterates the gathered list of per-file lists, so `stmt.resource` is read from a list | any gathered result holding at least one per-file list: the fold raises `AttributeError` | fold every call of every file, as the first copy does | not executed | PolicyBuilder.AsWrittenAggregationFailsForAnyFile | PolicyBuilder.AggregateStatements |

The per-file model `LlmEngine.SdkCallsFromFile` keeps the validation loop as written, because that is what the program returns. `LlmEngine.ValidCalls` is what the loop was meant to compute, and `LlmEngine.ValidationLoopCorrectIffNoAdjacentInvalid` shows exactly when the two agree. The draft policy is built with the flattened fold `PolicyBuilder.AggregateStatements`, as in the first copy.
