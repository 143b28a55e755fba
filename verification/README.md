# A Dafny model of approver-policy

approver-policy decides cert-manager `CertificateRequest`s by `CertificateRequestPolicy` objects.  A
request is approved as soon as one applicable policy is not denied by any evaluator, denied when every
applicable policy is denied by some evaluator, and left alone when no policy applies.  This project
models that decision procedure, the admission of the policies it runs on, and the two controllers
around it, and proves what they promise over all inputs, all interleavings and all runs.

The modules, from the bottom up:

| file | what it models |
|---|---|
| `Api.dfy`, `Lists.dfy`, `StableSort.dfy` | the objects; fallible filters; Go's string order and the stable sort |
| `Wildcard.dfy` | the wildcard language: what a pattern denotes, the matcher, the order on patterns |
| `Predicates.dfy` | the four policy predicates and the one filter that their chain is |
| `Review.dfy`, `ReviewProperties.dfy` | the search over policies and evaluators; whole reviews |
| `Validators.dfy`, `CacheRuns.dfy` | CEL validators and their cache, sequentially (a class) and concurrently (threads with program counters) |
| `AllowedApprover.dfy`, `AllowedProperties.dfy` | the `allowed` approver: evaluation, its exact meaning, default deny, widening |
| `ConstraintsApprover.dfy` | the `constraints` approver: evaluation, admission, and their agreement |
| `Admission.dfy` | admission by the `allowed` approver and by the webhook, and what evaluation can rely on |
| `DecisionProperties.dfy` | default deny and widening for whole reviews |
| `RequestController.dfy`, `RequestRuns.dfy`, `RequestDecisions.dfy`, `RequestExamples.dfy` | the certificaterequests controller: one reconcile, then whole runs, and runs that reach the limits of what is promised |
| `PolicyController.dfy`, `PolicyRuns.dfy`, `EnqueueWatcher.dfy` | the certificaterequestpolicies controller: one reconcile, whole runs, the enqueue loop |
| `Metrics.dfy` | the gauges |

Code that updates variables or objects step by step is a `method` or a `class`, proved equal to a
function of its inputs or of its old state; the properties are lemmas about those functions.
Recursive specifications take lists apart from the end, as the loops that append build them.

## Main results

1. **Wildcards** (`MatchesIffFillersExist`, `MatchesDecidesInclusion`, `SubsetDecidesInclusion`).  The
   matcher accepts exactly when some choice of fillers for the stars turns the pattern into the text.
   Matching is a preorder, and matching a pattern *as a text* decides inclusion of languages.
2. **Reviews** (`ChainIsOneFilter`, `ChainKeepsIff`, `DecideByFirst`, `ReviewIs`, `DenialExplains`,
   `ReviewIgnoresOrder`, `AddingPoliciesKeepsApproval`).  The predicate chain is one order-preserving filter, the first policy
   that is not refused decides, and without errors neither the order of the policies nor further
   policies change what is promised.
3. **Meaning of `allowed`** (`NotDeniedIffConforms`, `DefaultDenyReview`, `WideningKeepsApproval`).
   Evaluation passes a request exactly when all its attributes conform; a required field without a
   value never passes; widening what policies allow never loses an approval.
4. **Admission and evaluation agree** (`SatisfiableIff`, `AdmittedNeverMeetsCompileError`,
   `ValidateThenEvaluate`, `AdmittedSelectorNeverFails`).
5. **The cache is linearizable** (`RunsRefineMemo`, `EffectsKeepRealTime`, `CompletedCallsAgree`,
   `StoredEntryNeverChanges`), with compilation nondeterministic: a history of entries, effects and
   returns, in which every call takes effect between the two and returns what the memo table answers.
6. **No lost wake-up** (`NoLostWakeUp`), by an inductive invariant over all interleavings of cluster
   changes, events, retries, restarts and reconciles whose reads happen one at a time.
7. **Decisions are final** (`AtMostOnePatch`, `DecisionStands`, `NeverBoth`).  The number of patches is
   bounded by how often others take a decision back, and the steps that give a request both
   decisions are exactly known (`StepMakesBothIff`, `BothHasACause`).
8. **Ready conditions** (`ReadyTransitionTime`, `RepeatedReconcileChangesNothing`).

## Where the code does less than one may expect

- The `Ready` predicate appends a policy once for *each* of its Ready=True conditions.  It is the
  filter by readiness exactly when no policy repeats that condition (`ReadyIsFilterIff`,
  `ReadyDuplicates`); the API's list-map key on `type` guarantees that (`UniqueTypesReadyOnce`).
- A request can end up both Approved and Denied.  The steps that do it are exactly: somebody else writes
  both, or the opposite decision is written by somebody else before the controller's patch arrives
  (`StepMakesBothIff`); the second is reached from the start for every decided request
  (`ForeignDecisionRaces`).  With this controller as the only approver neither happens (`NeverBoth`).
- A decision can be stale.  If the cluster changes while a request is reconciled, the old decision may
  still be written, and although the change's event is pending, a decided request is not reviewed again
  (`StaleApprovalIsFinal`).  With nothing pending the decision is current (`DecisionIsCurrent`).
- A request can be patched twice if somebody takes its decision back (`TakenBackPatchedTwice`).
- Admission does not look at elliptic curves.  Every admitted block is satisfied by some abstract key,
  but an ECDSA range that misses the sizes of all curves is admitted and satisfied by no key on them
  (`SatisfiableOnCurvesIff`, `AdmittedBetweenCurves`).
- `getStatus` answers Unknown for a condition that is not there; its comment says the empty string
  (`GetStatusIs`).
- In a review an evaluator that errs wins over one that denies, whichever comes first (`VerdictIs`).

## Assumptions

- Controller reads reflect earlier writes.  The work queue never hands one key to two workers and
  keeps a key that is added while it is worked on; an error puts the key back after a delay; a
  restart lists all requests again.  Exiting the process on a failed list is such a restart.
- Objects are stored under their own namespace and name.
- An apply patch replaces the conditions that the approver owns, keyed by type; the position of the
  new condition in the list is taken to be the end.
- cert-manager's `CertificateRequestIsApproved` and `CertificateRequestIsDenied` say that some
  condition of that type is True.
- The CEL library returns a program, one of the given expression, whenever it returns no error.  The empty label selector is well
  formed.  The context's channel is closed and never sent on.
- A review takes evaluators as functions of policy and request.  The `allowed` evaluator also depends
  on its cache: it is proved to be such a function of the entries the cache has settled, and later
  entries do not change it (`AllowedApprover.ErrorsOfAllStay`).

## Model

| member | source | states |
|---|---|---|
| `Wildcard.MatchRunes` | pkg/internal/util/wildcard.go:70-91 | terminates, and accepts exactly when fillers for the stars exist that turn the pattern into the text |
| `Wildcard.WildcardMatches` | pkg/internal/util/wildcard.go:56-66 | the shortcuts for the empty pattern and for a single star agree with the declarative meaning |
| `Wildcard.WildcardContains` | pkg/internal/util/wildcard.go:44-52 | true exactly when some pattern matches the member |
| `Wildcard.WildcardSubset` | pkg/internal/util/wildcard.go:31-39 | true exactly when every member is matched by some pattern |
| `Wildcard.MatchesIffFillersExist` | pkg/internal/util/wildcard.go:70-91 | deciding by consuming and branching equals the existence of fillers |
| `Wildcard.MatchesReflexive` | pkg/internal/util/wildcard.go:70-91 | every pattern matches itself read as a text |
| `Wildcard.MatchesTransitive` | pkg/internal/util/wildcard.go:70-91 | if p matches q as a text and q matches s, then p matches s |
| `Wildcard.MatchesDecidesInclusion` | pkg/internal/util/wildcard.go:70-91 | p matches q as a text exactly when p matches everything that q matches |
| `Wildcard.LiteralMatchesOnlyItself` | pkg/internal/util/wildcard.go:80-90 | a pattern without a star matches itself only |
| `Wildcard.ConcatMatchesIffSplit` | pkg/internal/util/wildcard.go:70-91 | a concatenation matches exactly the texts that split into a match of each part |
| `Wildcard.SubsetTransitive` | pkg/internal/util/wildcard.go:31-39 | covering of lists is transitive |
| `Wildcard.SubsetDecidesInclusion` | pkg/internal/util/wildcard.go:31-52 | the list check on patterns decides inclusion of the languages of two lists |
| `StableSort.SortIsStable` | pkg/internal/approver/manager/review.go:160-163 | the result is sorted, has the same elements, and keeps equal names in list order |
| `StableSort.DistinctKeysSortAlike` | pkg/internal/approver/manager/review.go:160-163 | the same messages under distinct names sort to the same list, whatever their order |
| `StableSort.LessIsLexicographic` | pkg/internal/approver/manager/review.go:161-163 | less means a proper prefix, or the smaller rune where two names first differ |
| `Lists.FilterPicks` | pkg/internal/approver/manager/predicate/predicate.go:42-94 | a filter of policies keeps exactly those wanted, in their order |
| `Lists.SelectFailsAtFirst` | pkg/internal/approver/manager/predicate/predicate.go:101-212 | a fallible filter fails with the error of the first policy whose test fails |
| `Lists.JoinLaws` | pkg/internal/approver/manager/review.go:157 | joining keeps the parts in order, with one separator between neighbours |
| `Lists.FlattenLaws` | pkg/internal/approver/allowed/evaluator.go:88-92 | appending error lists one after the other keeps all of them, in order |
| `Predicates.Ready` | pkg/internal/approver/manager/predicate/predicate.go:42-54 | appends each policy once for each Ready=True condition it has |
| `Predicates.UniqueTypesReadyOnce` | pkg/apis/policy/v1alpha1/types_certificaterequestpolicy.go:405-409 | condition types unique in a status mean at most one Ready=True condition |
| `Predicates.ReadyIsFilterIff` | pkg/internal/approver/manager/predicate/predicate.go:42-54 | Ready is the filter of ready policies exactly when none repeats Ready=True |
| `Predicates.ReadyDuplicates` | pkg/internal/approver/manager/predicate/predicate.go:42-54 | a policy with Ready=True twice comes out twice |
| `Predicates.SelectorIssuerRef` | pkg/internal/approver/manager/predicate/predicate.go:60-94 | keeps, in order, the policies that the issuer selector test passes |
| `Predicates.IssuerSelectedIff` | pkg/internal/approver/manager/predicate/predicate.go:60-94 | a policy passes exactly when it sets no issuer selector, or each pattern it sets denotes the name, the kind (Issuer if empty), the group (cert-manager.io if empty) of the reference |
| `Predicates.SelectorNamespace` | pkg/internal/approver/manager/predicate/predicate.go:101-169 | a fallible filter by namespace; it looks the namespace up at most once, and does so exactly when some policy reaches its label check |
| `Predicates.SelectorNamespaceFailsIff` | pkg/internal/approver/manager/predicate/predicate.go:101-169 | fails exactly when a name-matched policy with labels meets a failed lookup, with its error, or has a malformed selector |
| `Predicates.NamespaceSelectedIff` | pkg/internal/approver/manager/predicate/predicate.go:101-169 | a policy passes exactly when it sets no namespace selector, or some name pattern denotes the namespace (or there is none) and each demanded label is on the namespace with that value |
| `Predicates.RBACBound` | pkg/internal/approver/manager/predicate/predicate.go:174-212 | keeps, in order, the policies whose access review allows the requester, up to the first failed review |
| `Predicates.ChainIsOneFilter` | pkg/internal/approver/manager/review.go:96-105 | the chain succeeds exactly when no policy's own test fails, and is then one order-preserving filter by all four tests |
| `Predicates.ChainKeepsIff` | pkg/internal/approver/manager/review.go:96-105 | a policy is left exactly when it has a Ready=True condition, both selectors pass it, and the requester has access to its name |
| `Predicates.ChainFailsWith` | pkg/internal/approver/manager/review.go:96-105 | the error of a failing chain is one that a ready, selected policy meets at its namespace selector or access review |
| `Review.Manager.constructor` | pkg/internal/approver/manager/review.go:67-78 | registers the four predicates in order, and the given evaluators |
| `Review.Manager.Review` | pkg/internal/approver/manager/review.go:83-175 | returns the specified answer: the listing or predicate error, Unprocessed with the reason when no policy is listed or left, else what the search decides |
| `Review.Manager.Narrow` | pkg/internal/approver/manager/review.go:96-105 | runs the predicates in order and stops at the first error |
| `Review.Manager.Evaluate` | pkg/internal/approver/manager/review.go:122-146 | asks every evaluator in order, collects nonempty messages, stops at the first error |
| `Review.VerdictIs` | pkg/internal/approver/manager/review.go:121-158 | a policy errs exactly when some evaluator errs, is refused exactly when none errs and some denies |
| `Review.ErredIs` | pkg/internal/approver/manager/review.go:127-134 | the error is that of the first evaluator that errs |
| `Review.RefusedMessageIs` | pkg/internal/approver/manager/review.go:136-138 | the message of a refused policy joins exactly the non-empty messages of its evaluators, denying or not, in their order |
| `ReviewProperties.DenialExplains` | pkg/internal/approver/manager/review.go:121-174 | a denial has one message per applicable policy and no other, with its name and its evaluators' joined messages, sorted by name |
| `Review.FirstNotRefusedDecides` | pkg/internal/approver/manager/review.go:121-158 | the first policy at which an evaluator errs or none denies decides the search |
| `Review.SearchCollects` | pkg/internal/approver/manager/review.go:121-158 | the search ends without an answer exactly when every policy is refused, and then holds the message of each |
| `Review.DecideByFirst` | pkg/internal/approver/manager/review.go:107-174 | the answer is the outcome of the first policy not refused, else a denial over all, else Unprocessed |
| `Review.DecideIs` | pkg/internal/approver/manager/review.go:107-174 | without errors: Approved exactly when some policy passes, naming one that does; Unprocessed exactly on no policy |
| `Review.DecideIgnoresOrder` | pkg/internal/approver/manager/review.go:107-174 | the order of uniquely named policies changes neither the kind of answer nor a denial message |
| `ReviewProperties.ReviewIs` | pkg/internal/approver/manager/review.go:83-175 | without errors a whole review approves exactly when an applicable policy passes, and is Unprocessed exactly when none is applicable |
| `ReviewProperties.ReviewIgnoresOrder` | pkg/internal/approver/manager/review.go:83-175 | the listing order of policies changes neither the kind of answer nor a denial message |
| `ReviewProperties.AddingPoliciesKeepsApproval` | pkg/internal/approver/manager/review.go:83-175 | adding policies that bring no error never turns Approved into another result |
| `Validators.Validator.Compile` | pkg/internal/approver/validation/validator.go:53-82 | does nothing once compiled; else reports what the library answers, case by case, a rule that is no bool as an error, and sets the program it gets |
| `Validators.Validator.Validate` | pkg/internal/approver/validation/validator.go:84-104 | fails without a program, else runs it with self the value, and name, namespace and username those of the request |
| `Validators.Cache.constructor` | pkg/internal/approver/validation/cache.go:67-69 | starts empty |
| `Validators.Cache.Get` | pkg/internal/approver/validation/cache.go:44-64 | returns the stored entry; adds at most this one, which is what one of the library's answers to the expression amounts to, and replaces none; no error means a validator with a program compiled from the expression |
| `CacheRuns.StepKeepsInv` | pkg/internal/approver/validation/cache.go:44-64 | every atomic step keeps the map equal to a replay of the effects, the history in order, and the program counters in line with it |
| `CacheRuns.CompletedCallsAgree` | pkg/internal/approver/validation/cache.go:44-64 | in every interleaving all completed calls on an expression return the same entry, with a program or an error |
| `CacheRuns.StoredEntryNeverChanges` | pkg/internal/approver/validation/cache.go:44-64 | a stored entry stays the same in every continuation of every run |
| `CacheRuns.RunsRefineMemo` | pkg/internal/approver/validation/cache.go:44-64 | every run is linearizable: the calls in the order they took effect are calls of a sequential memo table; each takes effect once, after it entered, and returns once, after that, the very entry with which it took effect |
| `CacheRuns.EffectsKeepRealTime` | pkg/internal/approver/validation/cache.go:44-64 | a call that returned before another entered took effect before it |
| `CacheRuns.RunsGrowEntries` | pkg/internal/approver/validation/cache.go:44-64 | later states of a concurrent run only add to the settled entries |
| `AllowedApprover.Approver.Evaluate` | pkg/internal/approver/allowed/evaluator.go:43-101 | returns the evaluation over the entries the cache has settled, and only adds to these |
| `AllowedApprover.Approver.RunChecks` | pkg/internal/approver/allowed/evaluator.go:71-92 | runs all fifteen functions in order and joins their errors |
| `AllowedApprover.Approver.EvaluateString` | pkg/internal/approver/allowed/evaluator.go:219-244 | the errors of a string attribute: required, not allowed, not matching, violating rules |
| `AllowedApprover.Approver.EvaluateSlice` | pkg/internal/approver/allowed/evaluator.go:246-274 | the errors of a list attribute, rules run on each value in order |
| `AllowedApprover.Approver.EvaluateBool` | pkg/internal/approver/allowed/evaluator.go:276-286 | an error exactly when the request sets the flag and the policy does not allow it |
| `AllowedApprover.Approver.Usages` | pkg/internal/approver/allowed/evaluator.go:143-163 | an error exactly when usages are requested that the policy does not cover |
| `AllowedApprover.Approver.RunValidations` | pkg/internal/approver/allowed/evaluator.go:288-307 | one error, with its index, for each rule that does not compile, fails to run, or answers false |
| `AllowedApprover.ErrorsOfAllStay` | pkg/internal/approver/validation/cache.go:44-64 | once a request's rules are settled, evaluation gives the same errors in every later state of the cache |
| `AllowedProperties.StringPassesIff` | pkg/internal/approver/allowed/evaluator.go:219-244 | passes exactly when empty and not required, or open, denoted by the pattern, and true under every rule |
| `AllowedProperties.SlicePassesIff` | pkg/internal/approver/allowed/evaluator.go:246-274 | the same for lists, with each value denoted by some pattern and true under every rule |
| `AllowedProperties.UsagesPassIff` | pkg/internal/approver/allowed/evaluator.go:143-163 | passes exactly when every requested usage is denoted by an allowed one |
| `AllowedProperties.NotDeniedIffConforms` | pkg/internal/approver/allowed/evaluator.go:43-101 | a decoded request is let through exactly when each of its fifteen attributes conforms to the field of its name |
| `AllowedProperties.EvaluationIs` | pkg/internal/approver/allowed/evaluator.go:43-101 | errs exactly on a request that does not decode, with that error; else denies with the errors of all fifteen checks in order, rendered, or lets through when there is none |
| `AllowedProperties.FieldPaths` | pkg/internal/approver/allowed/evaluator.go:43-52 | fields lie under spec.allowed, those of the subject under spec.allowed.subject |
| `AllowedProperties.CheckPaths` | pkg/internal/approver/allowed/evaluator.go:111-217 | each check reports at the field of its name |
| `AllowedProperties.StringErrorsAre` | pkg/internal/approver/allowed/evaluator.go:219-244 | exactly which errors a string attribute gives, and where |
| `AllowedProperties.SliceErrorsAre` | pkg/internal/approver/allowed/evaluator.go:246-274 | exactly which errors a list attribute gives, and where |
| `AllowedProperties.ViolationsAre` | pkg/internal/approver/allowed/evaluator.go:288-307 | exactly which errors rules give on a value: one at the index of each that does not compile, does not run, or is broken, with its own message or the standard one |
| `AllowedProperties.UsagesErrorsAre` | pkg/internal/approver/allowed/evaluator.go:143-163 | usages that are not covered give one error, at the field |
| `AllowedProperties.DefaultDeny` | pkg/apis/policy/v1alpha1/types_certificaterequestpolicy.go:190-221 | a policy with a required field of no values, or of the empty value, passes no request |
| `AllowedProperties.WideningKeepsPass` | pkg/internal/approver/allowed/evaluator.go:43-101 | widening fields, usages or isCA never turns a pass into a denial |
| `AllowedProperties.WiderReflexive` | pkg/internal/approver/allowed/evaluator.go:219-307 | every field is as wide as itself, so widening one field alone is covered |
| `ConstraintsApprover.Evaluate` | pkg/internal/approver/constraints/evaluator.go:41-107 | returns the evaluation: duration errors first, key errors after decoding, or the decoding error |
| `ConstraintsApprover.EvaluationSays` | pkg/internal/approver/constraints/evaluator.go:41-125 | denies with the rendered errors of the duration and then of the decoded key; errs where the request or the key cannot be decoded |
| `ConstraintsApprover.DurationErrorsAre` | pkg/internal/approver/constraints/evaluator.go:55-71 | exactly which errors a duration, or none, gives |
| `ConstraintsApprover.KeyErrorsAre` | pkg/internal/approver/constraints/evaluator.go:87-97 | exactly which errors a key gives: algorithm, largest, smallest size |
| `ConstraintsApprover.Validate` | pkg/internal/approver/constraints/validation.go:32-97 | allows exactly the blocks whose algorithm is known, sizes lie within 0 and 8192, durations are not negative, no maximum is below its minimum, and Ed25519 has no sizes |
| `ConstraintsApprover.ValidateKey` | pkg/internal/approver/constraints/validation.go:47-81 | no error exactly on admissible key constraints |
| `ConstraintsApprover.SatisfiesIs` | pkg/internal/approver/constraints/evaluator.go:41-107 | a request passes exactly when its duration is between the bounds and its key decodes, has the named algorithm, and a size between the bounds |
| `ConstraintsApprover.SatisfiableIff` | pkg/internal/approver/constraints/evaluator.go:55-125 | some duration and some abstract key (algorithm and size) pass exactly when the duration range is not empty and the key constraints are feasible |
| `ConstraintsApprover.AdmissibleIsSatisfiable` | pkg/internal/approver/constraints/validation.go:47-96 | every block that admission allows is satisfied by some duration and abstract key |
| `ConstraintsApprover.SatisfiableOnCurvesIff` | pkg/internal/approver/constraints/evaluator.go:55-125 | with ECDSA keys on given curves only: satisfiable exactly when, besides, an ECDSA range contains the size of a curve |
| `ConstraintsApprover.AdmittedBetweenCurves` | pkg/internal/approver/constraints/validation.go:47-80 | ECDSA between 300 and 350 bits is admitted, and no key on P-224, P-256, P-384 or P-521 satisfies it |
| `ConstraintsApprover.MaxBelowMinPassesNothing` | pkg/internal/approver/constraints/validation.go:78-87 | a block reported for a maximum below its minimum passes no request |
| `Admission.ValidateAllowed` | pkg/internal/approver/allowed/validation.go:30-112 | the problems of all fields that are set, in order; every rule is compiled through the shared cache |
| `Admission.NoProblemsIff` | pkg/internal/approver/allowed/validation.go:78-106 | no problem exactly when each required field is open and each rule compiles |
| `Admission.AllowedAdmitsIff` | pkg/internal/approver/allowed/validation.go:30-112 | the allowed approver lets a policy through exactly when each of its thirteen fields that take values is open if required and compiles its rules |
| `Admission.ProblemsAre` | pkg/internal/approver/allowed/validation.go:78-106 | exactly which errors are reported, and where |
| `Admission.EveryConsultedRuleIsValidated` | pkg/internal/approver/allowed/validation.go:49-106 | admission looks at every rule that any evaluation can consult |
| `Admission.ReadyRuleIsUsable` | pkg/internal/approver/validation/cache.go:44-64 | a settled rule is stored with no error and a validator whose program is set |
| `Admission.AdmittedRulesStayCompiled` | pkg/internal/approver/allowed/evaluator.go:288-307 | after admission, in every later state, each rule evaluation consults is compiled |
| `Admission.Validator.Validate` | pkg/internal/webhook/validator.go:64-137 | the verdict over plugins, selector and all webhooks; a webhook's error wins; denial without errors is reported |
| `Admission.Validator.UnrecognisedNames` | pkg/internal/webhook/validator.go:75-97 | exactly the plugins nobody registered, sorted, whatever order the map is ranged over |
| `Admission.VerdictIsDetermined` | pkg/internal/webhook/validator.go:75-137 | the order of ranging over plugins never shows in the verdict |
| `Admission.AdmittedIff` | pkg/internal/webhook/validator.go:64-137 | admitted exactly when plugins are registered, an issuer or namespace selector is set, labels that are demanded form a valid selector, and every webhook allows |
| `Admission.VerdictErrorsAre` | pkg/internal/webhook/validator.go:64-137 | exactly which errors and warnings the verdict carries, and the error it fails with |
| `Admission.AdmittedNeverMeetsCompileError` | pkg/internal/webhook/validator.go:109-136 | an admitted policy consults only rules that are compiled, in every later state of every concurrent run of the cache |
| `Admission.ValidateThenEvaluate` | pkg/internal/approver/allowed/evaluator.go:288-307 | the same on the objects: validation, then any validations and evaluations, then an evaluation that finds a validator with its program set for every rule it consults |
| `Admission.AdmittedSelectorNeverFails` | pkg/internal/webhook/validator.go:99-107 | an admitted policy makes the namespace predicate fail only when the namespace lookup fails |
| `DecisionProperties.DefaultDenyReview` | pkg/apis/policy/v1alpha1/types_certificaterequestpolicy.go:190-221 | with such a policy applicable, a review is never Unprocessed: it errs, denies, or is approved by another policy |
| `DecisionProperties.WideningKeepsApproval` | pkg/internal/approver/manager/review.go:107-174 | widening listed policies never turns an approval into another result |
| `DecisionProperties.ConstraintsIgnoreAllowed` | pkg/internal/approver/constraints/evaluator.go:41-107 | the constraints evaluator does not look at spec.allowed |
| `DecisionProperties.WideningKeepsShippedApproval` | pkg/internal/approver/manager/review.go:107-174 | in particular under the two evaluators that the repository ships |
| `RequestController.EnqueueRequests` | pkg/internal/controllers/certificaterequests.go:91-116 | the namespace and name of each listed request that is neither approved nor denied, in order |
| `RequestController.EnqueuesExactlyUndecided` | pkg/internal/controllers/certificaterequests.go:91-116 | a key is enqueued exactly when an undecided request has it |
| `RequestController.StatusPatch.SetCondition` | pkg/internal/controllers/certificaterequests.go:258-307 | the patch becomes the old one with the new condition put in for its type |
| `RequestController.UpsertIs` | pkg/internal/controllers/certificaterequests.go:289-306 | conditions stay unique by type, the new one is in, the others are as before |
| `RequestController.TransitionTimeIs` | pkg/internal/controllers/certificaterequests.go:274-287 | the time of an existing condition of the same type and status, else the clock |
| `RequestController.DecisionIsStampedNow` | pkg/internal/controllers/certificaterequests.go:186-236 | a decision carries the time of the reconcile that takes it |
| `RequestController.ReconcileStatusPatch` | pkg/internal/controllers/certificaterequests.go:177-252 | errs exactly when the read or the review fails, with that error; patches exactly an undecided request that is approved or denied, with one condition of that type, True, now, the reason, and the review's message |
| `RequestDecisions.PatchWritesDecision` | pkg/internal/controllers/certificaterequests.go:154-252 | in every run an applied patch leaves the request with that condition, and with every other one that the approver does not own |
| `RequestRuns.NoLostWakeUp` | pkg/internal/controllers/certificaterequests.go:91-146 | an undecided request with nothing pending is one that a review of the present cluster leaves Unprocessed |
| `RequestRuns.StepKeepsAwake` | pkg/internal/controllers/certificaterequests.go:91-252 | every cluster change, event, queue step and reconcile step keeps that invariant |
| `RequestRuns.StagesAddUp` | pkg/internal/approver/manager/review.go:83-113 | reads made one at a time under one configuration add up to its review |
| `RequestRuns.DeliverQueuesWhatHandlerReturns` | pkg/internal/controllers/certificaterequests.go:91-146 | delivering an event queues exactly the keys that the handler returns for a list of all requests |
| `RequestRuns.DecisionIsCurrent` | pkg/internal/controllers/certificaterequests.go:154-252 | a decision about to be written, with no event or retry pending, is that of the present cluster |
| `RequestRuns.UndisturbedReconcile` | pkg/internal/controllers/certificaterequests.go:154-252 | the steps of a reconcile that nothing interrupts do together what reconcileStatusPatch and the patch do |
| `RequestDecisions.AtMostOnePatch` | pkg/internal/controllers/certificaterequests.go:177-252 | in every run a request receives at most one status patch more than decisions on it are taken back by others; while it is ahead it is decided |
| `RequestDecisions.DecisionStands` | pkg/internal/controllers/certificaterequests.go:186-189 | the controller never changes a decided request again, whatever the cluster changes to |
| `RequestDecisions.NeverBoth` | pkg/internal/controllers/certificaterequests.go:177-307 | no request holds both decisions unless it was created so, with this controller the only approver |
| `RequestDecisions.PatchMakesBothIff` | pkg/internal/controllers/certificaterequests.go:154-236 | a patch leaves both decisions exactly when the opposite one is there and is not one that the patch replaces |
| `RequestDecisions.StepMakesBothIff` | pkg/internal/controllers/certificaterequests.go:154-236 | a step gives a request both decisions exactly when it is a foreign write of both, or a patch that meets a foreign opposite one |
| `RequestDecisions.BothHasACause` | pkg/internal/controllers/certificaterequests.go:154-236 | in every run a request that holds both held both at the start or went through such a step |
| `RequestExamples.ForeignDecisionRaces` | pkg/internal/controllers/certificaterequests.go:154-236 | for every request that a cluster decides, a run from the start in which a foreign opposite decision precedes the patch and the request ends with both |
| `RequestExamples.StaleApprovalIsFinal` | pkg/internal/controllers/certificaterequests.go:154-236 | for every request that a cluster approves, a run from the start in which all policies are removed before the patch: it is approved, and stays so |
| `RequestExamples.TakenBackPatchedTwice` | pkg/internal/controllers/certificaterequests.go:177-252 | for every request that a cluster decides, a run from the start in which one decision is taken back and the request is patched twice |
| `RequestExamples.SomeClusterApproves` | pkg/internal/controllers/certificaterequests.go:191-217 | the hypothesis of the runs below is met: some cluster approves every undecided request |
| `PolicyController.AskReconcilers` | pkg/internal/controllers/certificaterequestpolicies.go:185-206 | the summary of all answers, or the first error |
| `PolicyController.SummaryIs` | pkg/internal/controllers/certificaterequestpolicies.go:176-206 | readiness is the conjunction, requeue is set exactly when asked for, its delay is the least asked for; any error fails all |
| `PolicyController.SummaryErrors` | pkg/internal/controllers/certificaterequestpolicies.go:185-206 | the error is the first one; else all reported errors are kept in order |
| `PolicyController.SummaryIgnoresOrder` | pkg/internal/controllers/certificaterequestpolicies.go:176-206 | readiness and requeue do not depend on the order of the reconcilers |
| `PolicyController.PolicyStatusPatch.SetCondition` | pkg/internal/controllers/certificaterequestpolicies.go:262-306 | the patch becomes the old one with the stamped condition put in for its type |
| `PolicyController.UpsertIs` | pkg/internal/controllers/certificaterequestpolicies.go:283-305 | unique by type, the time kept exactly on the same status, the others as before |
| `PolicyController.ReconcileStatusPatch` | pkg/internal/controllers/certificaterequestpolicies.go:167-251 | nothing for a missing policy, an error without a patch, else the requeue and a patch with the one Ready condition: its status, reason, message, generation and transition time |
| `PolicyRuns.ReadyFollowsLastPatch` | pkg/internal/controllers/certificaterequestpolicies.go:210-251 | after any sequence of reconciles, Ready has the status and generation of the last patched one |
| `PolicyRuns.ReadyTransitionTime` | pkg/internal/controllers/certificaterequestpolicies.go:262-306 | and its transition time is the clock at the first reconcile of the current unbroken stretch of that status |
| `PolicyRuns.OthersStay` | pkg/internal/controllers/certificaterequestpolicies.go:144-165 | conditions of other types are left as they were by any sequence of reconciles |
| `PolicyRuns.StretchExists` | pkg/internal/controllers/certificaterequestpolicies.go:262-306 | such a stretch exists for every patched reconcile |
| `PolicyRuns.RepeatedReconcileChangesNothing` | pkg/internal/controllers/certificaterequestpolicies.go:167-306 | repeating a reconcile with the same answers and generation leaves the status unchanged |
| `EnqueueWatcher.Watch` | pkg/internal/controllers/certificaterequestpolicies.go:92-115 | forwards every received name once, in order, except possibly the last on cancellation; never selects a closed source again; exits on cancellation only |
| `EnqueueWatcher.ReceivedPicks` | pkg/internal/controllers/certificaterequestpolicies.go:92-115 | the names received are exactly those of the selected offers that carry one, in order |
| `Metrics.Collect` | pkg/internal/metrics/metrics.go:130-250 | one sample for each namespace with wanted requests, in first-seen order, with their number |
| `Metrics.ReportIsComplete` | pkg/internal/metrics/metrics.go:130-250 | namespaces in a report are distinct, counts positive, and none with wanted requests is missing |
| `Metrics.FirstSeenInOrder` | pkg/internal/metrics/metrics.go:148-156 | an earlier label has a wanted request before every one of a later label |
| `Metrics.GaugesAddUp` | pkg/internal/metrics/metrics.go:130-250 | per namespace, approved, denied and unmatched add up to the requests plus those that are both |
| `Metrics.GetStatusTrueIff` | pkg/internal/metrics/metrics.go:254-262 | with unique condition types, the gauges see the decision that the controller sees |
| `Metrics.GetStatusIs` | pkg/internal/metrics/metrics.go:254-262 | the status of the first condition of the type, or Unknown without one |
| `Metrics.SamplesCount` | pkg/internal/metrics/metrics.go:130-250 | each sample is the number of requests of its namespace that are approved, denied, or neither, as the controller sees it |
| `Metrics.GaugesPartitionReachable` | pkg/internal/metrics/metrics.go:130-262 | on reachable states the three gauges partition the requests of each namespace |

## Left out

- CEL itself, its `CertificateRequest` message and the service-account library: compiling is nondeterministic, running is a parameter.
- Parsing of signing requests and keys: the decoded attributes are part of the request; which key type a parser gives for an Ed25519 key is not claimed.
- ConstraintsApprover.SatisfiableIff: keys are abstract, an algorithm and any size that is not negative; which sizes real keys have is looked at for ECDSA only, in `SatisfiableOnCurvesIff`.
- ConstraintsApprover.AdmissibleIsSatisfiable: the same; the key it exhibits need not lie on a standard curve.
- SubjectAccessReview, namespace lookup, label-selector parsing, and plugin evaluators, reconcilers and webhooks: parameters.  A change in a plugin's own state raises no event here, as it raises none in the controller.
- Informers, leader election, the client, JSON patches, event recording, logging, `pkg/internal/cmd`, `pkg/registry`, generated code: plumbing or easy members.
- An update of a request by anyone else is one action: which of its fields the writer owns is not modelled, nor are conflicts.
- The offending values and the wording of field errors, and the aggregate's formatting with its removal of duplicates: errors are values, and a `render` parameter turns a list of them into a message.
- The text of a review message: an approval carries the policy's name, a denial the sorted list of names and messages.
- Strings as bytes: patterns, texts and names are sequences of runes, and names sort by rune, which is Go's order on valid UTF-8.
- Sorting in place: `sort.SliceStable` and the sorting of plugin names are the function `Sort` with its proved contract, not the library's algorithm.
- Real concurrency on the validator objects: `CacheRuns` models the threads on values, `Validators.Cache` the objects sequentially; that `sync.Map` operations are atomic is assumed.
- The nested loops of `Review`, `Evaluate` and `Validate`: inner loops are methods of their own, closures in a list are the datatype `Check`, and the three collectors are one method with a `gauge` parameter.
- The branch of a reconcile for an unknown review result: a review has three results.
- Liveness, such as that a queued key is eventually taken: only safety is stated, and what an undisturbed reconcile does.
