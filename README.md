# Traffic-block policy engine: a Dafny model

This project models the traffic-block engine of a small operational HTTP service for a
Kubernetes cluster (`python/app/app.py`). The engine blocks traffic between two
workload selectors (a namespace and a label set) by creating a mirror-image pair of
Egress NetworkPolicies named `block-<srcApp>-to-<dstApp>`. It removes that pair again
and reports the outcome of each direction, and it lists every stored policy whose name
starts with `block-`. The model also covers the deployment-health report, which flags
each deployment whose desired replica count differs from its available one.

Modules:

- `Wrappers` (`wrappers.dfy`): Option, Result and Outcome.
- `Naming` (`naming.dfy`): the `app`-label lookup, the rule name and the `block-` prefix test. Lemmas show exactly how two different app pairs can share a name.
- `Policy` (`policy.dfy`): the V1NetworkPolicy record and the synthesis of np1/np2. `BlockOf` reads a policy back as the block it expresses and serves as the partner of the builder.
- `Store` (`store.dfy`): the cluster API becomes a `PolicyStore` class. It holds the stored policies in enumeration order, the injected failures (per call kind and key) and the log of calls it received. Its `Create`/`Delete` methods are specified by the value-level functions `CreateStep`/`DeleteStep`.
- `Engine` (`engine.dfy`): `BlockTraffic`, `UnblockTraffic` and `ListTrafficBlocks` as methods on the store. Each is proved equal to a function on store values (`BlockEffect`, `UnblockEffect`, `BlockEntries`), and the lemmas state the source's promises about those functions.
- `Health` (`health.dfy`): the loop of `deployment_health` over an input sequence of deployments.

The source raises exceptions. The model returns them as values: `KeyError("app")` for a missing `app` label and `ApiFailure(ApiError(status, reason))` for a store failure.

Behaviour of the code worth knowing:

- A create that finds the policy already stored is not treated as success. The store answers 409 and `block_traffic` propagates it, so blocking the same pair twice fails (`Engine.BlockTwiceConflicts`).
- The only validation is the `labels["app"]` lookup. Empty namespaces or empty app names are not rejected.
- A failed create surfaces as the store's error, unchanged (`Engine.BlockOrderedNoRollback`). The error does not say which direction failed.
- Listing keeps the store's enumeration order and does not sort.
- Rule names are never decoded, so no decoder is modelled. The naming is not injective even for app names without `-to-`: `RuleName("a-to", "x") == RuleName("a", "to-x")` (`Naming.PairsCanCollide`).

## Model

| member | source | states |
|---|---|---|
| `Naming.AppLabel` | python/app/app.py:127 | the `app` lookup yields a value exactly when the label set has an `app` key, and then it is that label's value; otherwise the source raises KeyError |
| `Naming.HasBlockPrefix` | python/app/app.py:204 | a name passes the `startswith("block-")` test exactly when it is `block-` followed by some rest |
| `Naming.RuleName` | python/app/app.py:127 | every generated rule name starts with `block-`, so the listing picks it up; its length is the two app lengths plus the fixed parts |
| `Naming.RuleNameCollision` | python/app/app.py:127 | two different (src, dst) pairs share a name only if the longer source extends the shorter by `-to-`, or by `-to` with the shorter pair's destination starting `to-` |
| `Naming.RuleNameInjectiveSameLength` | python/app/app.py:127 | names built from source apps of equal length determine both apps |
| `Naming.DirectionsCanCollide` | python/app/app.py:174-175 | the two directions of one request can get the same name for distinct apps (`x` and `x-to-x`) |
| `Naming.PairsCanCollide` | python/app/app.py:174-175 | two different requests can produce the same rule name although neither app contains `-to-` |
| `Policy.PolicyFor` | python/app/app.py:125-143 | the built policy carries the given name and reads back as exactly the intended block: namespace, subject labels, excluded namespace and excluded app |
| `Policy.BlockOfComplete` | python/app/app.py:125-143 | a policy that reads as a block is exactly the Egress/one-rule/one-peer/two-NotIn shape the source builds |
| `Policy.Synthesize` | python/app/app.py:125-163 | fails exactly when either label set lacks `app`. Otherwise np1 is named block-from-to, lives in from_ns, selects all of from_labels and excludes to_ns and the to app. np2 mirrors it. Both are Egress with one rule and one peer |
| `Policy.SynthesizeMirror` | python/app/app.py:125-163 | swapping the from and to selectors swaps np1 and np2 |
| `Store.CreateStep` | python/app/app.py:165-166 | a create stores the body, appended at the end, exactly when no fault is injected for its key, its namespace matches and its key is not stored. Otherwise nothing is stored. The call is logged and key uniqueness is preserved |
| `Store.DeleteStep` | python/app/app.py:181-184 | a delete succeeds exactly when no fault is injected and the key is stored, and then removes that key. An absent, unfaulted key gives 404. Uniqueness is preserved, and on a keyed store a successful delete removes exactly one policy |
| `Store.PolicyStore.Create` | python/app/app.py:165-166 | the store object's create changes its state exactly as `CreateStep` says |
| `Store.PolicyStore.Delete` | python/app/app.py:181-184 | the store object's delete changes its state exactly as `DeleteStep` says |
| `Store.PolicyStore.List` | python/app/app.py:200 | listing returns the stored policies in enumeration order |
| `Engine.BlockEffect` | python/app/app.py:114-166 | fails with KeyError and leaves the store untouched, with no call logged, exactly when an `app` label is missing. The injected faults and key uniqueness are preserved |
| `Engine.CreatePair` | python/app/app.py:165-166 | the two creates never raise KeyError and keep the faults and key uniqueness |
| `Engine.CreatePairOrdered` | python/app/app.py:165-166 | the first create is always issued and the second only after the first succeeded. A second-step failure keeps the first policy, and success means both were appended. A failure returns the failing create's own error unchanged |
| `Engine.BlockOrderedNoRollback` | python/app/app.py:165-166 | np1's create in from_ns reaches the store first. np2's create follows only if np1's succeeded. A second-step failure leaves np1 stored. Zero, one or two rules are added, and success means both. A failed block returns the failing create's ApiException unchanged |
| `Engine.BlockTwiceConflicts` | python/app/app.py:165-166 | repeating a successful block fails with 409 on np1 and stores nothing more, whatever faults are in force for the repeat, provided np1's create itself is not faulted |
| `Engine.BlockSelfLeavesHalf` | python/app/app.py:125-166 | blocking an app from itself in its own namespace gives both rules the same key: np1 is created, np2's create raises 409, and np1 stays stored as half a block |
| `Engine.BlockTraffic` | python/app/app.py:114-166 | the method's result and new store state are those of `BlockEffect` |
| `Engine.UnblockTargets` | python/app/app.py:174-179 | unblock has exactly two delete targets, and it fails with KeyError exactly when a label set lacks `app` |
| `Engine.UnblockTargetsMatchBlock` | python/app/app.py:174-175 | the names unblock computes on its own agree with block's: unblock deletes exactly the (namespace, name) keys of the two policies block creates for the same request, in the same order. Unblock fails exactly when block's synthesis fails |
| `Engine.Classify` | python/app/app.py:185-190 | `deleted` exactly on success, `not_found` exactly on status 404, and `error: ` followed by the error's reason on every other failure |
| `Engine.DeleteOne` | python/app/app.py:180-190 | one loop pass records the classified outcome under the target's name and keeps every other entry |
| `Engine.DeleteAll` | python/app/app.py:177-192 | every target is deleted in order whatever earlier outcomes were. The keys are exactly the target names and every value is one of the three outcomes |
| `Engine.UnblockEffect` | python/app/app.py:168-192 | fails with KeyError before any delete exactly when an `app` label is missing. Faults and uniqueness are preserved |
| `Engine.UnblockAttemptsBoth` | python/app/app.py:174-192 | both deletes are logged in order. The result's keys are exactly the two names. Each entry is its direction's outcome, and when the names coincide the single entry holds the second direction's outcome |
| `Engine.UnblockDirectionsIndependent` | python/app/app.py:179-190 | when the two keys differ, the second direction's outcome is what deleting it from the original store would give |
| `Engine.UnblockWhenAbsent` | python/app/app.py:179-190 | with neither rule stored, both are reported `not_found` and the store keeps its policies |
| `Engine.UnblockPartial` | python/app/app.py:179-190 | with only the first rule stored, it is reported `deleted` and the second `not_found` |
| `Engine.UnblockUndoesBlock` | python/app/app.py:168-192 | after a successful block, and with neither delete faulted under the faults in force at unblock time, unblock reports both rules `deleted` and restores the stored policies exactly |
| `Engine.UnblockTraffic` | python/app/app.py:168-192 | the loop's result and new store state are those of `UnblockEffect` |
| `Engine.EntryFor` | python/app/app.py:204-208 | a policy contributes one entry exactly when its name starts with `block-`, and that entry carries the policy's namespace and name |
| `Engine.BlockEntries` | python/app/app.py:202-210 | the listing has at most one entry per stored policy, and every listed name starts with `block-` |
| `Engine.BlockEntriesAppend` | python/app/app.py:202-210 | the listing of a concatenation is the concatenation of the listings: order is kept and nothing is merged |
| `Engine.BlockEntriesMembership` | python/app/app.py:202-210 | an entry is listed exactly when some stored policy whose name starts with `block-` has that namespace and name |
| `Engine.BlockThenList` | python/app/app.py:204 | a successful block adds both directional rules to the listing as two separate entries, np1's first in the model's creation order |
| `Engine.ListTrafficBlocks` | python/app/app.py:194-210 | the loop returns the block-prefixed entries of the store in enumeration order |
| `Engine.BlockListScenario` | python/tests.py:106-115 | on an empty store, blocking two apps whose rule keys differ (app1 in ns-1 and app2 in ns-2, say) succeeds and lists exactly the two rules, in the model's creation order |
| `Engine.UnblockTwiceScenario` | python/app/app.py:179-190 | in that situation, unblock reports both rules `deleted`, and a second unblock reports both `not_found` |
| `Health.Available` | python/app/app.py:71 | an unset available count is read as 0, a set one as itself |
| `Health.Unhealthy` | python/app/app.py:70-72 | an unset desired count is always a mismatch; with both set, a mismatch exactly when they differ; with only the available count unset, a mismatch exactly when desired is not 0 |
| `Health.Report` | python/app/app.py:68-74 | the report has at most one entry per deployment, and every reported entry has desired != available |
| `Health.ReportAppend` | python/app/app.py:68-74 | the report keeps input order |
| `Health.ReportMembership` | python/app/app.py:68-74 | a deployment's entry (name, namespace, desired, available with unset as 0) is reported exactly when desired differs from available |
| `Health.MismatchReportedOnce` | python/tests.py:85-100 | one deployment wanting 3 replicas with 2 available gives exactly one entry |
| `Health.DeploymentHealth` | python/app/app.py:65-75 | the loop's result is the report of the input deployments |

## Left out

- The HTTP layer (`do_GET`, `do_POST`, `respond`, JSON bodies, `Content-Length`) and `start_server`: socket and serialization plumbing.
- `status` and `get_kubernetes_version`: thin wrappers over the cluster's version endpoint.
- The Kubernetes client itself. It is replaced by `Store.PolicyStore`. Failures other than 400, 404 and 409 are injected through `faults`, keyed by the kind of call (create or delete) and the policy key, rather than arising from authentication or the network.
- `Store.CreateStep`: of the server's create-time validation, only the namespace-mismatch check (400) is modelled.
- `Store.CreateStep`: a created policy is appended, so the model's enumeration order is creation order. A real cluster lists by key, so `Engine.BlockThenList` and `Engine.BlockListScenario` state the entries' order only for the model's store; the listing itself keeps whatever order the store returns.
- `Store.State`: within one state the injected faults are fixed per (call kind, key), so a call cannot fail transiently and then succeed on the very same state. Lemmas that span two requests (`Engine.BlockTwiceConflicts`, `Engine.UnblockUndoesBlock`) take the faults of the later request as a separate parameter.
- The `except ApiException` clause in `unblock_traffic` names a class the module never imports, so in Python any delete failure would raise NameError instead of being classified. The model states the classification the except branches express.
- Decoding rule names into (src, dst) pairs: the code only tests the `block-` prefix.
- `deployment_health` fetches the deployments from the cluster; here they are an input sequence, and the JSON response is not modelled.
- Absent selector fields (`match_labels` or `match_expressions` left as None) are modelled as an empty map or sequence.
- Concurrency and the threaded test server: the engine has no state of its own, and the model covers one call at a time.
