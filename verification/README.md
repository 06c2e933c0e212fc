# Verified model of the AWS Load Balancer Controller's decision logic

The AWS Load Balancer Controller turns Ingress, Gateway and GlobalAccelerator objects into load
balancers, listener rules and accelerators. This project models the parts of it that decide
something (not the clients that carry decisions out) and proves, with Dafny 4.11, what those
decisions guarantee:

- **Listener rules** (`Glob`, `ListenerRules`, `IngressPaths`, `RuleMeaning`, `RuleOptimizer`,
  `OptimizerCompleteness`, `ListenerBuild`, `GreedyFilter`). The paths of all Ingresses of a group are
  sorted, compiled to patterns, optimized and numbered. A listener is read as a first-match program
  over requests, and the whole pipeline is proved to select the path the Kubernetes documentation
  promises. The optimizer is proved to preserve meaning, with the exact condition under which it
  does, and to find what it is there to find.
- **Reconcile protocols** (`Finalizers`, `IngressGroups`, `GroupProtocol`, `Addons`,
  `GatewayProtocol`). Step machines in which every external call may fail, a failed deployment may
  be partly applied, the controller may crash between any two steps, and users edit at any time.
  The safety theorems are over all runs; others say what an undisturbed reconciliation achieves.
- **Merging** (`ListenPortMerge`, `RouteStatus`, `RouteStatusEntries`, `RouteStatusFields`). Several
  sources write into one result, and the order in which they come must not matter.
- **Indexes** (`ReferenceTracker`, `Watches`). Classes with state updated in place that must agree
  with a simple relation.
- **Kernels** (`PortRanges`, `EndpointGroups`, `AnnotationParser`, `AnnotationSyntax`). Port arithmetic with its 32-bit
  width, port-override rules, and the escaped `key=value` parser.

`Options`, `Text` and `Names` hold what several modules share. `dafny verify dfyconfig.toml` checks
everything.

## What the theorems assume

- A Prefix or Exact path starts with `/`, as the Kubernetes API server validates, and so does the
  path of a request. Names of Kubernetes objects contain no `/`; the name in a reference may be any text.
- Objects are read fresh. Users change neither the group and Gateway finalizers nor the addon
  annotations, which belong to the controller. One reconciliation per Gateway and per Ingress group
  runs at a time; different groups run concurrently.
- A successful deployment installs what the model wants and removes recorded, no longer wanted
  addons; a failed one ends anywhere between the old and the new state. A failed deployment does not
  remove the load balancer while it should exist.
- The meaning of regular expressions is a parameter. The theorems hold for every meaning.

## Where the code does not do what is expected of it

Each of these is stated as theorems: a concrete input or run on which the code fails, and the exact
condition under which it does not.

- The superset check reads host values but not host regular expressions
  (pkg/ingress/rule_optimizer.go:150-151), and puts path globs and path regular expressions into one
  set (lines 153-157). `HostRegexBreaksMeaning` and `PathRegexBreaksMeaning` show
  a serving rule dropped for either reason. `SupersetExact` and `KeepsMeaningExactlyOnGuardedFamilies` give the condition, both directions.
- A rule is omitted as an infinite redirect if it matches its own redirect target. An earlier rule
  may catch that target, and then the redirect ends after one hop. `OmittedRedirectMayEnd` shows such
  a rule, after whose omission a request is served by nobody.
  `LoopsExactlyWhenTargetEscapesEarlierRules` gives the condition.
- Not every redirect that loops is found. One that sets a fixed query matches its own target for ever
  and is kept: `FixedQueryLoopIsKept`. For redirects that keep the query and go to hosts and paths
  among wildcard-free ones of their rule the check is exact:
  `PlainRedirectReportedExactlyWhenItLoops`.
- `rangeEnd+1` wraps for the largest 32-bit number (pkg/aga/utils.go:70-72). Every
  repetition of that number adds a redundant range, so the result does not depend on the set of ports
  only: `RepeatedLargestIsRedundant` is the input, `FewestExactlyWhenLargestOnce` and
  `ResultsEqualExactlyWhenSurplusEqual` give the conditions.
- Updates of a route's status commute only if parent references with equal keys are equal
  (`CommutesExactlyWhenKeysIdentify`). The key does not distinguish an absent field from an empty
  one, nor an absent namespace from that of the route: `SpelledOutNamespaceBreaksCommuting`.
- A route status may hold several entries under one key, for instance from two controllers that report
  on one parent. An update for another parent keeps only the last of them
  (controllers/gateway/route_reconciler.go:458-465), and the comparison before the patch may then
  judge the result identical although a parent was added (lines 325-360), so the patch is skipped.
  `TwoReportsLoseAStatus` is the input for both. `OthersSurviveExactlyWhen` and
  `ComparisonKeepsParentsExactlyWhen` are the conditions; `UpdateLeavesKeysDistinct` says that this
  code does not cause the ambiguity itself unless references share a key.
- A Gateway that is deleted and created again, while a reconciliation is between recording an addon
  and adding the finalizer, gets the finalizer and the addon but not the record: the finalizer
  writer reads the object again by name (pkg/k8s/finalizer.go:32). `RecreationOrphansAddon` is the
  run. `AlwaysRecordedExactlyWhenGuarded` is the condition, over all runs: whenever the finalizer is
  added, the object that gets it records the addons about to be made. `LoadedObjectRecordsPlan` says
  that only an object created during the reconciliation can miss it.
- Conditions written to a route carry the generation of the route as read, and later updates are
  compared with that stamp by the generation they were queued for
  (controllers/gateway/route_reconciler.go:259 and 188). An older update can thus block a newer one:
  `OlderUpdateBlocksNewer` is the input, `NextUpdateWrittenExactlyWhen` the condition.
- An accelerator whose update lists no endpoints keeps an empty entry in `gaRefMap`
  (pkg/aga/reference_tracker.go:84): `UpdateWithoutEndpoints`, `EmptyEntryExactlyWhen`. Only `resourceMap` is free of empty
  entries.

One comment differs from the code: it says that the Prefix path `/foo` becomes `/foo/` and `/foo/*`
(pkg/ingress/model_build_listener_rules.go:273-277). The code emits `/foo` and `/foo/*`, which is what
makes the documented meaning true, and the model follows the code.

## Model

| member | source | states |
|---|---|---|
| Glob.StarTakesAnyBlock | pkg/ingress/model_build_listener_rules.go:132-139 | A pattern that starts with a star matches a text iff the rest matches some suffix of the text: the defining property of the glob matcher all rules are read with. |
| Glob.OtherTakesOneCharacter | pkg/ingress/model_build_listener_rules.go:132-139 | A question mark takes exactly one character, any other character itself. |
| Glob.LiteralStarMatchesExtensions | pkg/ingress/model_build_listener_rules.go:286-287 | A wildcard-free text followed by a star matches exactly the extensions of that text. |
| Glob.MatchesOwnText | pkg/ingress/rule_optimizer.go:109-120 | Every glob, wildcards included, matches its own text, which is why a redirect to one of the rule's own patterns matches again. |
| ListenerRules.SelectFinds | pkg/ingress/model_build_listener_rules.go:71-83 | A listener serves a request iff some rule matches it, and then applies one of the matching rules. |
| ListenerRules.ShapedMeaning | pkg/ingress/model_build_listener_rules.go:211-225 | For conditions of the emitted shape, matching splits into three independent tests: hosts, paths and the other conditions. |
| ListenerRules.HostsIgnoreCase | pkg/ingress/model_build_listener_rules.go:211-213 | A wildcard-free host matches a request host iff they are the same up to case. |
| ListenerRules.AssignPriorities | pkg/ingress/model_build_listener_rules.go:71-83 | The loop gives the rules, in order, the priorities 1, 2, 3 and so on. |
| ListenerRules.PrioritiesGiveFirstMatch | pkg/ingress/model_build_listener_rules.go:71-83 | Whatever order deployed rules are stored in, a rule that applies by smallest priority is the first match on the list, and some rule applies whenever there is a first match. |
| RuleOptimizer.FindRedirectActionConfig | pkg/ingress/rule_optimizer.go:185-194 | Returns the configuration of the first redirect action, or nothing if there is no redirect action. |
| RuleOptimizer.IsSupersetConditions | pkg/ingress/rule_optimizer.go:145-182 | Decides the superset relation, with the early answer for conditions other than host and path on the left. |
| RuleOptimizer.GuardedSupersetIncludes | pkg/ingress/rule_optimizer.go:145-182 | Under the host and path guards a positive answer means that every request matching the right conditions matches the left ones. |
| RuleOptimizer.SupersetExact | pkg/ingress/rule_optimizer.go:145-182 | For a positive answer: the left conditions include the right ones for all readings of regular expressions if and only if both guards hold. |
| RuleOptimizer.UnguardedCounterexample | pkg/ingress/rule_optimizer.go:150-157 | Without a guard there is a reading and a request that match the right conditions but not the left ones. |
| RuleOptimizer.RuleIsOvershadowed | pkg/ingress/rule_optimizer.go:67-78 | The inner loop answers whether some kept redirect rule overshadows the rule. |
| RuleOptimizer.OmitOvershadowedRules | pkg/ingress/rule_optimizer.go:64-85 | The greedy pass, which compares only with kept rules, returns the rules that no earlier redirect rule of the input, kept or dropped, overshadows. |
| GreedyFilter.KeptElementsSuffice | pkg/ingress/rule_optimizer.go:64-85 | For a transitive relation, an element is linked from some earlier element iff it is linked from a kept earlier element. |
| GreedyFilter.KeptIdempotent | pkg/ingress/rule_optimizer.go:64-85 | The greedy pass applied to its own result drops nothing. |
| RuleOptimizer.GlobRulesAreGuarded | pkg/ingress/rule_optimizer.go:145-182 | Emitted rules with glob paths and without host regular expressions on redirect rules satisfy the guards. |
| RuleOptimizer.SurvivorsPreserveMeaning | pkg/ingress/rule_optimizer.go:64-85 | For guarded rules and every request, the listener selects the same rule before and after dropping overshadowed rules. |
| OptimizerCompleteness.LiteralSupersetExact | pkg/ingress/rule_optimizer.go:145-182 | On conditions of wildcard-free hosts and paths and the match-all path, the check answers yes iff the left conditions match every request the right ones match. |
| OptimizerCompleteness.LiteralRulesKeptExactlyWhenReachable | pkg/ingress/rule_optimizer.go:64-85 | Of such rules the pass keeps exactly those that no earlier redirect rule makes unreachable. |
| RuleOptimizer.KeepsMeaningExactlyOnGuardedFamilies | pkg/ingress/rule_optimizer.go:64-85 | The pass keeps the meaning of every list of rules from a family if and only if every pair of the family it may act on is guarded. |
| RuleOptimizer.HostRegexBreaksMeaning | pkg/ingress/rule_optimizer.go:150-151 | Two concrete rules for which dropping changes the answer: the request to host b, served before, is served by no rule after. |
| RuleOptimizer.PathRegexBreaksMeaning | pkg/ingress/rule_optimizer.go:153-157 | Two concrete rules for which a path regular expression, spelled like the match-all glob, makes the pass drop the rule that serves the request. |
| RuleOptimizer.IsInfiniteRedirectRule | pkg/ingress/rule_optimizer.go:88-142 | Reports the redirect rules without path regular expressions whose target components stay; what that means for requests is said by the next rows, in both directions. |
| OptimizerCompleteness.PlainRedirectReportedExactlyWhenItLoops | pkg/ingress/rule_optimizer.go:88-142 | For a redirect that keeps the query and goes to a host and a path among wildcard-free ones of its rule, and for every request: the rule is reported iff the redirected request is on the listener and matches again. |
| OptimizerCompleteness.SelfRedirectIsOmitted | pkg/ingress/rule_optimizer.go:53-62 | A satisfiable rule with absolute path globs that redirects every request it matches to itself, for every reading, is in no optimized list. |
| OptimizerCompleteness.HTTPSRedirectIsOmittedOnHTTPS | pkg/ingress/rule_optimizer.go:121-133 | The redirect of everything to HTTPS on port 443 is omitted on that listener and kept on HTTP port 80. |
| OptimizerCompleteness.FixedQueryLoopIsKept | pkg/ingress/rule_optimizer.go:134-139 | A redirect to a fixed query matches its own target any number of times and is not reported. |
| RuleOptimizer.RedirectTargetMatchesAgain | pkg/ingress/rule_optimizer.go:88-142 | A request matching a reported rule is redirected to the same listener, matches the rule again, and the next redirect goes to the same place. |
| RuleOptimizer.EveryRedirectMatches | pkg/ingress/rule_optimizer.go:88-142 | Following the redirect of a reported rule any number of times stays on the listener and in the rule. |
| RuleOptimizer.LoopsExactlyWhenTargetEscapesEarlierRules | pkg/ingress/rule_optimizer.go:88-142 | A request selected by a reported rule is selected by that rule for ever iff no earlier rule matches the first redirect target. |
| RuleOptimizer.OmittedRedirectMayEnd | pkg/ingress/rule_optimizer.go:53-62 | Concrete rules in which a reported redirect ends after one hop, and its omission leaves the request unserved. |
| RuleOptimizer.OmitInfiniteRedirectRules | pkg/ingress/rule_optimizer.go:53-62 | The loop keeps, in order, the rules that are not reported. |
| RuleOptimizer.Optimize | pkg/ingress/rule_optimizer.go:47-51 | Both passes in order yield the list that `OptimizePreservesMeaning`, `OptimizeIdempotent`, `SelfRedirectIsOmitted` and `LiteralRulesKeptExactlyWhenReachable` are about. |
| RuleOptimizer.OptimizePreservesMeaning | pkg/ingress/rule_optimizer.go:47-51 | The whole optimizer keeps the selection of every request that is not selected by a reported infinite redirect. |
| RuleOptimizer.OptimizeIdempotent | pkg/ingress/rule_optimizer.go:47-51 | Optimizing an optimized list, whatever the rules, changes nothing. |
| IngressPaths.ClassifyIngressPathsByType | pkg/ingress/model_build_listener_rules.go:107-128 | Succeeds iff no path has an unknown type, and splits the paths by type, each part in the original order. |
| IngressPaths.SortByLengthCorrect | pkg/ingress/model_build_listener_rules.go:98-100 | The order is most bytes first, stable for equal lengths, with the same elements. |
| IngressPaths.StableOrderUnique | pkg/ingress/model_build_listener_rules.go:98-100 | That promise determines the list, so the modelled sort returns what any stable sort returns. |
| IngressPaths.SortIngressPaths | pkg/ingress/model_build_listener_rules.go:92-104 | Exact paths, then Prefix paths by the sort, then the rest; the complaint about the first path of unknown type iff there is one. |
| IngressPaths.SortedByType | pkg/ingress/model_build_listener_rules.go:88-128 | By the path types as given: Exact paths first, then Prefix paths with more bytes first, then paths of no or implementation-specific type; the same elements. |
| IngressPaths.SplitPrefix | pkg/ingress/model_build_listener_rules.go:273-288 | Element-wise prefix after splitting at slashes means: equal, or continued after a slash. |
| IngressPaths.PrefixPatternsMeanElementWisePrefix | pkg/ingress/model_build_listener_rules.go:273-288 | For every wildcard-free Prefix path, some generated glob matches a request path iff the path, one trailing slash trimmed, is an element-wise prefix of it. |
| IngressPaths.ElementWisePrefixMeaning | pkg/ingress/model_build_listener_rules.go:273-288 | A path is an element-wise prefix of itself and of what continues it after a slash, and a trailing slash makes no difference. |
| IngressPaths.MatchingPrefixesCompare | pkg/ingress/model_build_listener_rules.go:98-100 | Of two Prefix paths that match one request, the one with more bytes is the longer text, and two of equal length are the same text, so ties do not matter. |
| IngressPaths.BuildRuleConditions | pkg/ingress/model_build_listener_rules.go:130-227 | The loop over the conditions annotation yields the conditions, or the error, that the next two rows are about. |
| RuleMeaning.ConditionsMean | pkg/ingress/model_build_listener_rules.go:130-227 | Whatever the annotations: the emitted conditions match a request iff the rule's or an annotated host matches or there is none, the path by its type or an annotated path matches or there is none, and every annotation of another kind holds. |
| RuleMeaning.ConditionsFailExactlyWhen | pkg/ingress/model_build_listener_rules.go:143-209 | There are none iff the path is rejected by its type and characters, or an annotation lacks its configuration, or hosts or paths come in both syntaxes; the error is the first of these. |
| RuleMeaning.HeaderIsAsked | pkg/ingress/model_build_listener_rules.go:174-179 | An Exact path with a header annotation asks a request for both. |
| IngressPaths.RuleConditionsShaped | pkg/ingress/model_build_listener_rules.go:201-226 | Whatever the annotations say, emitted conditions have at most one host and one path condition, each of one syntax, and are not empty. |
| IngressPaths.ServesMeaning | pkg/ingress/model_build_listener_rules.go:130-227 | A compiled path without condition annotations serves a request iff the host matches and one pattern of the path does; an empty path serves everything. |
| IngressPaths.PathSelection | pkg/ingress/model_build_listener_rules.go:88-104 | First match over sorted paths picks an Exact path equal to the request path, else the longest matching Prefix path, else the first matching ImplementationSpecific path, and nothing only if no path matches. |
| ListenerBuild.BuildListenerRules | pkg/ingress/model_build_listener_rules.go:19-86 | HTTP listeners of a group with an SSL redirect get no rules; else the nested loops over members, host rules and sorted paths stop with the first error in order, or deploy exactly the optimized rules with priorities from 1 on. |
| ListenerBuild.BlocksSelect | pkg/ingress/model_build_listener_rules.go:25-65 | Before optimizing, the listener applies the rule of the first host rule of the group with a serving path, and of its first serving path in sorted order. |
| ListenerBuild.ServesMeansTests | pkg/ingress/model_build_listener_rules.go:25-62 | A path of a group serves a request iff the host, path and other tests of its host rule and its backend's annotations hold; its rule carries the backend's actions, transforms and tags. |
| ListenerBuild.BlockAt | pkg/ingress/model_build_listener_rules.go:25-34 | Every host rule with paths is at its position in the order of members and host rules. |
| ListenerBuild.PositionsAscend | pkg/ingress/model_build_listener_rules.go:25-34 | Earlier members, and earlier host rules of one member, have smaller positions. |
| ListenerBuild.BlockOrigin | pkg/ingress/model_build_listener_rules.go:25-34 | Nothing else is in the list. |
| ListenerBuild.GlobGroupIsGuarded | pkg/ingress/model_build_listener_rules.go:130-227 | A group that uses no regular expressions, whatever its other annotations, emits rules that satisfy the optimizer's guards. |
| ListenerBuild.ListenerServesDocumentedChoice | pkg/ingress/model_build_listener_rules.go:19-86 | End to end, for all members, hosts and annotations of a group with guarded rules: the deployed listener applies the rule of the first host rule in group order that serves the request, and in it the documented path choice; it applies none iff no path serves the request or the listener redirects everything. |
| Finalizers.AddMissing | pkg/k8s/finalizer.go:37-43 | Appends exactly the missing finalizers and asks for a patch iff the list changed. |
| Finalizers.RemovePresent | pkg/k8s/finalizer.go:58-64 | Removes the named finalizers and asks for a patch iff the list changed. |
| Finalizers.StepKeepsInvariant | pkg/k8s/finalizer.go:30-70 | Every step of any call, failure, lost response or foreign write keeps the invariant. |
| Finalizers.NoLostUpdate | pkg/k8s/finalizer.go:30-70 | Over every interleaving the stored list is the committed operations applied in commit order, and a call that reports success committed exactly once. |
| Finalizers.LastCommitDecides | pkg/k8s/finalizer.go:30-70 | A finalizer is stored iff the last committed operation that names it put it there. |
| Finalizers.UndisturbedCallTakesEffect | pkg/k8s/finalizer.go:30-70 | A call that nobody disturbs succeeds, and stores all added, none of the removed and every other finalizer as before. |
| IngressGroups.MembershipExactlyWhen | pkg/ingress/group_loader.go:141-264 | By the fields: active iff managed, not being deleted, and the valid name of the class, else of the annotation, is the group's, or none is given and the group is its own; in the way iff the class lookup failed or it is broken while the finalizer is held; left iff it holds the finalizer and is neither. |
| IngressGroups.GroupNameExamples | pkg/ingress/group_loader.go:317-325 | Which group names are valid. |
| IngressGroups.FinalizerExamples | pkg/ingress/finalizer.go:56-64 | The finalizers of an explicit and of an implicit group. |
| IngressGroups.ActiveInOneGroup | pkg/ingress/group_loader.go:141-172 | An Ingress is an active member of at most one group. |
| IngressGroups.FinalizersDistinguishGroups | pkg/ingress/finalizer.go:59-64 | Two groups that may have the same Ingress as a member never share a finalizer on it. |
| IngressGroups.LoadGroupIDsPendingFinalization | pkg/ingress/group_loader.go:118-129 | Returns exactly the groups whose finalizer the Ingress holds. |
| IngressGroups.SortMembersCorrect | pkg/ingress/group_loader.go:298-308 | Members are permuted into order. |
| IngressGroups.InOrderMeaning | pkg/ingress/group_loader.go:271-308 | In order means: the smaller annotated order first, an absent one counting as 0, and among equal ones the rendered name that is a prefix or has the smaller character where they first differ. |
| IngressGroups.OrderUnique | pkg/ingress/group_loader.go:271-308 | With distinct names there is only one such order, independent of the listing and of the sorting algorithm. |
| IngressGroups.Load | pkg/ingress/group_loader.go:80-111 | Fails iff some Ingress cannot be placed, or the order of an active member is malformed or outside -1000 to 1000; else returns the active members with smaller annotated orders, then earlier names, first, and the inactive holders. |
| IngressGroups.HoldersAreAccountedFor | pkg/ingress/group_loader.go:141-172 | A group that loads accounts for every holder of its finalizer, and no live holder has a broken class. |
| GroupProtocol.StepKeepsSafe | controllers/ingress/group_controller.go:146-221 | Every step of users and of all concurrently reconciled groups keeps all groups safe; in particular a loaded group accounts for all it hosts. |
| GroupProtocol.HostedHoldFinalizer | controllers/ingress/group_controller.go:146-221 | In every reachable state an Ingress hosted by a group's load balancer exists and holds that group's finalizer. |
| GroupProtocol.GoneMeansUnhosted | controllers/ingress/group_controller.go:146-221 | An Ingress that is gone is hosted by no group. |
| GroupProtocol.UndisturbedReconciliationConverges | controllers/ingress/group_controller.go:146-221 | An undisturbed reconciliation of a group that loads ends with a load balancer hosting exactly the active members, which have the finalizer, while those that left have lost it and no other Ingress has changed. |
| GroupProtocol.LoaderAgreesOnMembers | pkg/ingress/group_loader.go:80-111 | The machine's load step classifies exactly as the loader does for any listing of the stored Ingresses. |
| GroupProtocol.LoaderAgreesOnFailure | pkg/ingress/group_loader.go:80-111 | The load step is possible exactly in the states in which the loader succeeds. |
| GroupProtocol.BrokenHolderNeverDropped | pkg/ingress/group_loader.go:146-155 | A holder of a group's finalizer whose class breaks, at rest or in mid-reconcile, while not already leaving: until someone edits or deletes it, no run takes the finalizer away, only a failed deployment can take it out of what the group hosts, and a group at rest keeps all it hosts. |
| Addons.GetStoredAddonConfig | controllers/gateway/addons.go:27-64 | One entry per annotated addon with its parsed value; the enabled ones are exactly the recorded ones. |
| Addons.DiffAddOns | controllers/gateway/addons.go:67-92 | Additions and removals are the two set differences of old and newly enabled addons. |
| Addons.PersistAddOns | controllers/gateway/addons.go:95-115 | The loop yields the annotations with the given addons recorded as enabled or disabled. |
| Addons.RecordingRecords | controllers/gateway/addons.go:95-115 | Reading back after recording gives the recorded set changed by exactly the given addons, and no other annotation changes. |
| Addons.RecordExamples | controllers/gateway/addons.go:52-64 | The annotation keys, and the texts that count as enabled. |
| GatewayProtocol.StepKeepsFinalizerSafe | controllers/gateway/gateway_controller.go:199-397 | Every step, failures and user edits included, keeps the finalizer invariant. |
| GatewayProtocol.ResourcesImplyFinalizer | controllers/gateway/gateway_controller.go:351-385 | Over every run, re-creation included: existing resources imply that the Gateway exists and has the finalizer. |
| GatewayProtocol.DryRunTouchesNothing | controllers/gateway/gateway_controller.go:293-304 | The dry-run branch is taken only in states without resources, creates none and changes no addon. |
| GatewayProtocol.DryRunExactlyWhenAsked | controllers/gateway/gateway_controller.go:293-323 | A plan is written, into its annotation, exactly for a loaded object that is not being deleted, has no finalizer and whose dry-run annotation is "true"; every other one goes on. |
| GatewayProtocol.DryRunsProvisionNothing | controllers/gateway/gateway_controller.go:293-311 | Over every run that only loads such objects, no point has resources, addons or the finalizer. |
| GatewayProtocol.StepKeepsAddonSafe | controllers/gateway/gateway_controller.go:268-348 | Every step, re-creation in flight included, keeps the addon invariant; adding the finalizer does if the object that gets it records the plan. |
| GatewayProtocol.AddonsAreRecorded | controllers/gateway/gateway_controller.go:313-348 | Over every guarded run each existing addon is recorded as enabled on a Gateway that cannot vanish; when the Gateway is gone nothing is left. |
| GatewayProtocol.AlwaysRecordedExactlyWhenGuarded | controllers/gateway/gateway_controller.go:313-385 | For every run: existing addons are recorded at every point, also if a possible deployment succeeds next, if and only if the plan is recorded whenever the finalizer is added. |
| GatewayProtocol.LoadedObjectRecordsPlan | controllers/gateway/gateway_controller.go:318-323 | The guard holds for the object that was loaded and for every Gateway that was protected when loaded; it can fail only for an object created meanwhile. |
| GatewayProtocol.RecordingRecordsPlanExactlyWhen | controllers/gateway/addons.go:95-115 | On whatever object has the name, recording the additions makes the plan recorded iff the object already recorded the desired addons that the plan found recorded. |
| GatewayProtocol.FullUpdateConverges | controllers/gateway/gateway_controller.go:341-347 | After a successful update the existing addons are the desired ones and are recorded; nothing else is recorded iff the object had recorded only current and desired ones, as the loaded object does. |
| GatewayProtocol.UndisturbedUpdateProvisions | controllers/gateway/gateway_controller.go:199-348 | An undisturbed update of any object that asks for no dry run ends with resources, the finalizer, exactly the wanted and supported addons, exactly these recorded, and no stale plan. |
| GatewayProtocol.UndisturbedDeletionRemovesAddons | pkg/gateway/model/base_model_builder.go:126-176 | With addons recorded, an undisturbed reconciliation of a deleted Gateway removes them and their record first. |
| GatewayProtocol.UndisturbedDeletionReleases | controllers/gateway/gateway_controller.go:351-371 | Without, it removes all resources and the finalizer, and the object is gone unless others hold it. |
| GatewayProtocol.RecreationOrphansAddon | controllers/gateway/gateway_controller.go:313-385 | The concrete unguarded run in which a re-created Gateway ends with an existing, unrecorded addon. |
| ListenPortMerge.MergeOne | pkg/ingress/model_builder.go:419-490 | One round keeps the settings agreed on by all members so far, or fails because of a conflict with one of them. |
| ListenPortMerge.MergeSettings | pkg/ingress/model_builder.go:419-492 | Succeeds iff no two members conflict, and returns the settings they agree on. |
| ListenPortMerge.MergeCerts | pkg/ingress/model_builder.go:401-480 | The two loops return the default certificate followed by the deduplicated others. |
| ListenPortMerge.MergedCertsCorrect | pkg/ingress/model_builder.go:401-480 | The list starts with the first certificate, covers exactly the keys of all members, and has no duplicate key after its head. |
| ListenPortMerge.FirstCert | pkg/ingress/model_builder.go:403-412 | The first certificate is the first one of the first member that has any. |
| ListenPortMerge.DedupKeepsOrder | pkg/ingress/model_builder.go:462-480 | The certificates after the head are the first of their keys, in the order given. |
| ListenPortMerge.SameCertExactlyWhen | pkg/ingress/model_builder.go:463-470 | Certificates of resources count as the same iff type and id agree, others iff their ARNs do. |
| ListenPortMerge.MergeListenPortConfigs | pkg/ingress/model_builder.go:387-511 | Succeeds iff no two member configurations conflict pairwise, and returns their merge with the defaults filled in. |
| ListenPortMerge.MergeExistsExactlyWhenCompatible | pkg/ingress/model_builder.go:387-511 | There is a merged configuration iff no two members conflict pairwise. |
| ListenPortMerge.ConflictExactlyWhen | pkg/ingress/model_builder.go:420-490 | Two configurations conflict iff, field by field, protocols differ or both give CIDRs, prefix lists, SSL policy or mutual authentication with different contents. |
| ListenPortMerge.MergeTakesOver | pkg/ingress/model_builder.go:420-490 | The merge has the protocol of every member, and whatever CIDRs, prefix lists, SSL policy or mutual authentication any member gives. |
| ListenPortMerge.MergeDefaults | pkg/ingress/model_builder.go:494-500 | What no member gives is empty, except that everything is open without CIDRs and prefix lists, and HTTPS has the default SSL policy. |
| ListenPortMerge.MergeCertificates | pkg/ingress/model_builder.go:401-480 | A certificate key is in the merge iff some member has a certificate with it. |
| ListenPortMerge.OrderIndependent | pkg/ingress/model_builder.go:387-511 | For every permutation of the members both merges exist or neither does, and they agree in everything but the order of the certificates, whose keys are the same. |
| RouteStatus.KeyNamesParent | controllers/gateway/route_reconciler.go:390-426 | Two references have the same key iff their normalized components are the same, for slash-free components. |
| RouteStatusFields.SameKeyExactlyWhen | controllers/gateway/route_reconciler.go:390-426 | Two references have the same key iff group, kind, namespace, name, section and port agree, an absent text counting as empty and an absent namespace as that of the route. |
| RouteStatus.UpdateRouteStatus | controllers/gateway/route_reconciler.go:119-213 | The loop yields the status about which the rows of this and the next two modules are proved, on every route and update. |
| RouteStatusFields.UpdateTells | controllers/gateway/route_reconciler.go:177-198 | If nothing newer is stored, every reference with the update's key gets an entry, with the controller, the route's generation, and Accepted and ResolvedRefs as the update says, a false one with its reason and message; for a parent that cannot be resolved Accepted is false with the lookup's message. |
| RouteStatusFields.RejectionIsStored | controllers/gateway/route_reconciler.go:272-280 | The status of a rejected route says that it is not accepted, and why. |
| RouteStatusFields.NewerIsKept | controllers/gateway/route_reconciler.go:182-188 | If something newer is stored under the key, its conditions stay. |
| RouteStatus.OtherParentsUntouched | controllers/gateway/route_reconciler.go:164-175 | For another listed parent an update neither adds nor drops nor changes the last entry under its key; of earlier entries see the next row. |
| RouteStatusEntries.OthersSurviveExactlyWhen | controllers/gateway/route_reconciler.go:163-175 | Every entry of another listed parent survives an update iff such entries with the same key are the same entry. |
| RouteStatusEntries.TwoReportsLoseAStatus | controllers/gateway/route_reconciler.go:78-116 | Two reports on one parent and a first status for another: one report is dropped, the result is judged identical, and the new status is lost. |
| RouteStatusEntries.UpdateLeavesKeysDistinct | controllers/gateway/route_reconciler.go:164-198 | Whatever was stored, an update of a route whose references have distinct keys leaves distinct keys. |
| RouteStatus.UpdatesCommute | controllers/gateway/route_reconciler.go:119-213 | Updates for different parents commute, stale or not. |
| RouteStatus.CommutesExactlyWhenKeysIdentify | controllers/gateway/route_reconciler.go:119-213 | All updates for different parents of a route commute, on every status, iff references with the same key are the same reference. |
| RouteStatus.SameKeyBreaksCommuting | controllers/gateway/route_reconciler.go:177-197 | With two different references under one key, the updates of that key and of any other do not commute. |
| RouteStatusEntries.SpelledOutNamespaceBreaksCommuting | controllers/gateway/route_reconciler.go:400-405 | Such a pair: a reference without a namespace and one with the namespace of the route. |
| RouteStatus.ObservedGenerationNeverDrops | controllers/gateway/route_reconciler.go:187-196 | Over any run of edits and queued updates in any order, a parent's observed generation never goes below what it once was. |
| RouteStatus.NextUpdateWrittenExactlyWhen | controllers/gateway/route_reconciler.go:183-196 | Right after an update has been written, the next one for the same parent is written iff its own generation is at least that of the route, else the status keeps showing the earlier one. |
| RouteStatus.OlderUpdateBlocksNewer | controllers/gateway/route_reconciler.go:187-196 | Route at generation 3, updates of generations 1 and 2 in this order: the newer one is discarded. |
| RouteStatus.AreConditionsEqual | controllers/gateway/route_reconciler.go:429-456 | Decides equality of condition lists by type, ignoring transition times. |
| RouteStatusFields.ConditionsEqualExactlyWhen | controllers/gateway/route_reconciler.go:429-456 | With distinct types: equal iff as long, and every new condition agrees with an old one in type, status, reason, message and generation. |
| RouteStatus.EqualToItself | controllers/gateway/route_reconciler.go:429-456 | The comparison is reflexive on a list iff conditions of one type have the same content. |
| RouteStatus.IsRouteStatusIdentical | controllers/gateway/route_reconciler.go:319-363 | Decides whether two statuses have as many entries and agree under every old key. |
| RouteStatusFields.IdenticalExactlyWhen | controllers/gateway/route_reconciler.go:319-363 | With distinct keys: identical iff as long, and every old entry has a new one with its key, its controller and equal conditions. |
| RouteStatusEntries.IdenticalKeepsParents | controllers/gateway/route_reconciler.go:319-363 | If the stored keys are distinct, a status judged identical has exactly the stored parents, so a skipped patch adds or loses nobody's entry. |
| RouteStatusEntries.ComparisonKeepsParentsExactlyWhen | controllers/gateway/route_reconciler.go:319-363 | Only statuses with the same parents are judged identical to the stored one if and only if the stored keys are distinct. |
| RouteStatus.ReprocessingIsIdentical | controllers/gateway/route_reconciler.go:78-116 | Processing the same data again, at another time, is judged identical and so triggers no patch. |
| Watches.Watcher.Stop | pkg/aga/resource_watcher.go:76-78 | Demands an open stop channel, so a verified caller closes it at most once. |
| Watches.WatchTable.Cleanup | pkg/aga/endpoint_resources_manager.go:140-160 | The deleting iteration takes the consumer off exactly the resources outside the current references and keeps: watched iff it has a consumer, stopped iff it left the table. |
| Watches.WatchTable.CollectUnused | pkg/k8s/secrets_manager.go:91-108 | The two-phase collection reaches the same result as the deleting iteration. |
| Watches.WatchTable.MonitorSecrets | pkg/k8s/secrets_manager.go:74-109 | The call is added to the history that decides what is watched and for whom, and every watcher is stopped exactly when it leaves the table. |
| Watches.EndpointResourcesManager.MonitorEndpointResources | pkg/aga/endpoint_resources_manager.go:75-137 | In each of the three tables the latest call of the accelerator now names exactly the resources of its endpoints, whatever text their names are, without forbidden cross-namespace references; new watchers are fresh and the tables stay apart. |
| Watches.EndpointResourcesManager.RemoveGA | pkg/aga/endpoint_resources_manager.go:163-194 | In all three tables the latest call of the accelerator names nothing, and no watcher is started. |
| Watches.NamedExactlyWhen | pkg/aga/endpoint_resources_manager.go:85-130 | A monitor call names an object iff an endpoint of its type has its namespace and name, and the namespace is empty, the accelerator's, or allowed. |
| Watches.JoinThenLeave | pkg/aga/endpoint_resources_manager.go:75-160 | Registering first and cleaning up by rendered name afterwards yields exactly the named resources, because rendering is injective. |
| Watches.LatestCallDecides | pkg/aga/endpoint_resources_manager.go:75-194 | After any calls, the consumers of a resource are exactly those whose latest call names it, and it is watched iff there is one. |
| Watches.WatchedExactlyWhileNamed | pkg/aga/endpoint_resources_manager.go:75-194 | The same of the table object in every state its methods can reach: entries, running watchers and their consumer sets are decided by the calls made on it. |
| ReferenceTracker.Tracker.UpdateDesiredEndpointReferencesForGA | pkg/aga/reference_tracker.go:38-85 | The accelerator refers to exactly the given endpoints, all others are unchanged, the maps stay inverse with no unused resource, and its entry is empty iff no endpoint is given. |
| ReferenceTracker.Tracker.RemoveGA | pkg/aga/reference_tracker.go:88-107 | The accelerator disappears from both maps and nothing else changes. |
| ReferenceTracker.Tracker.IsResourceReferenced | pkg/aga/reference_tracker.go:110-116 | True iff the last call naming some accelerator was an update listing the resource. |
| ReferenceTracker.Tracker.GetGAsForResource | pkg/aga/reference_tracker.go:119-138 | Returns exactly the accelerators whose last call was an update listing the resource, each once, through the textual round trip of their names. |
| Names.RenderingSplits | pkg/aga/reference_tracker.go:126-133 | Splitting the rendering of a slash-free name gives namespace and name back. |
| ReferenceTracker.ReferrersAfterUpdate | pkg/aga/reference_tracker.go:47-84 | How the inverse relation changes when one accelerator's references are replaced. |
| ReferenceTracker.SameResourceExactlyWhen | pkg/aga/reference_tracker.go:48-51 | References share a key iff type, namespace and name agree, or the ids of endpoint ids; the key renders as namespace and name. |
| ReferenceTracker.LastCallDecides | pkg/aga/reference_tracker.go:38-107 | After any calls an accelerator refers to a resource iff the last call that named it was an update listing the resource. |
| ReferenceTracker.EmptyEntryExactlyWhen | pkg/aga/reference_tracker.go:83-84 | After any calls an accelerator has an empty entry iff the last call that named it was an update without resources. |
| ReferenceTracker.UpdateWithoutEndpoints | pkg/aga/reference_tracker.go:83-84 | One update without endpoints leaves an empty entry. |
| PortRanges.IsPortInRanges | pkg/aga/utils.go:13-20 | True iff some range contains the port. |
| PortRanges.ScanSorted | pkg/aga/utils.go:62-89 | The scan returns ranges with a gap between neighbours that cover exactly the ports, followed by one redundant range for each repetition of the largest 32-bit number. |
| PortRanges.ConsolidatePortRanges | pkg/aga/utils.go:52-90 | Sorts the caller's slice in place and covers exactly its ports; the ranges are the fewest of any exact cover, and have gaps between neighbours, iff the largest 32-bit number is not repeated. |
| PortRanges.SeparatedIsFewest | pkg/aga/utils.go:62-89 | Ranges with a gap between neighbours are at most as many as those of any exact cover. |
| PortRanges.FewestExactlyWhenLargestOnce | pkg/aga/utils.go:68-87 | The result has the fewest ranges of any exact cover iff the largest 32-bit number is not repeated. |
| PortRanges.SeparatedIsCanonical | pkg/aga/utils.go:62-89 | Separated ranges are determined by the set of ports they cover. |
| PortRanges.ResultsEqualExactlyWhenSurplusEqual | pkg/aga/utils.go:52-90 | For the same set of ports the results are the same iff the largest 32-bit number is repeated equally often. |
| PortRanges.ConsolidationDependsOnSet | pkg/aga/utils.go:52-90 | The order of the ports never matters, and their repetition does not if the largest 32-bit number is not repeated. |
| PortRanges.RepeatedLargestIsRedundant | pkg/aga/utils.go:70-72 | The largest 32-bit number once and twice: one range and two, so the second result is not the smallest cover. |
| EndpointGroups.ValidateListenerPorts | pkg/aga/model_build_endpoint_group.go:248-260 | No complaint iff every listener port lies in the listener's ranges; else the first offending port is reported. |
| EndpointGroups.ValidateNoDuplicatePorts | pkg/aga/model_build_endpoint_group.go:299-324 | No complaint iff listener ports and endpoint ports are unique; else the first repeating override is reported, listener port first. |
| EndpointGroups.BuildEndpointGroup | pkg/aga/model_build_endpoint_group.go:146-175 | Succeeds iff a region is known and both rules hold; the group's own region wins over the cluster's, and the overrides are kept. |
| EndpointGroups.ValidateEndpointPortOutsideListeners | pkg/aga/model_build_endpoint_group.go:110-123 | No complaint iff the port is outside all ranges of all listeners. |
| EndpointGroups.ValidateEndpointPortsAcrossListeners | pkg/aga/model_build_endpoint_group.go:79-107 | No complaint iff every endpoint port is outside all listeners and used from one listener only; a complaint is justified by the groups. |
| EndpointGroups.Build | pkg/aga/model_build_endpoint_group.go:43-76 | Succeeds iff the configuration meets all four rules, stated without any order of checking, and returns one model per configured group in order. |
| EndpointGroups.BuiltExactlyWhen | pkg/aga/model_build_endpoint_group.go:57-68 | The built groups are exactly the configured ones, under their listener, with their own region or else the cluster's, and their overrides. |
| EndpointGroups.CrossRulesAgree | pkg/aga/model_build_endpoint_group.go:79-107 | The rules checked on the built groups through the usage map are the rules on the configuration. |
| AnnotationParser.SplitKeyValuePairs | pkg/annotations/parser.go:218-253 | The index loop with look-ahead and early return yields the pieces that the next rows and `BackslashFreeParsesExactlyWhen` are about. |
| AnnotationParser.ParseStringMapAnnotation | pkg/annotations/parser.go:149-202 | Of the keys built from prefix, alternatives and exactness, the first that is set decides, and without any the annotation is absent. |
| AnnotationSyntax.AnnotationKeyExamples | pkg/annotations/parser.go:187-202 | The keys tried with and without exactness. |
| AnnotationSyntax.MalformedExactlyWhen | pkg/annotations/parser.go:157-166 | A text is malformed iff some piece has no equals sign or nothing but white space before the first. |
| AnnotationSyntax.LastPieceGives | pkg/annotations/parser.go:156-168 | A text that parses gives each key the value of the last piece with it, and no other keys. |
| AnnotationSyntax.PairMeaning | pkg/annotations/parser.go:158-163 | A piece is its trimmed key and value around the first equals sign, with white space around either. |
| AnnotationSyntax.BackslashFreeParsesExactlyWhen | pkg/annotations/parser.go:149-253 | A text without backslashes parses iff it is empty or every part between its commas is a pair, except that one blank part may follow the last comma. |
| AnnotationParser.SplitUndoesPrint | pkg/annotations/parser.go:218-253 | Splitting printed pairs gives back the pair texts, whatever commas and backslashes keys and values contain. |
| AnnotationParser.ParseUndoesPrint | pkg/annotations/parser.go:149-173 | Round trip: parsing printed pairs gives the map they denote. |
| AnnotationParser.MapOfDistinct | pkg/annotations/parser.go:156-168 | With distinct keys that map holds exactly the listed pairs. |
| AnnotationParser.ParseReturnsPrintable | pkg/annotations/parser.go:149-173 | Every entry the parser returns has a trimmed, non-empty key without an equals sign and a trimmed value. |
| AnnotationParser.EveryParsedMapIsPrinted | pkg/annotations/parser.go:149-173 | Whatever text parses, some printable pairs with distinct keys print to a text that parses to the same map, so the round trip covers all maps the parser can return. |

## Left out

- RuleOptimizer.RedirectTargetMatchesAgain: placeholders are modelled where they stand for a whole component, the only use the check recognizes; a target such as `/x/#{path}` is an ordinary text.
- RuleOptimizer.SupersetExact: asks for right conditions that match some request; for conditions that match nothing the inclusion holds trivially.
- IngressPaths.SortIngressPaths: the library's stable sort is an insertion sort on values, justified by `StableOrderUnique`; the in-place update of the temporary slice is not modelled.
- IngressPaths.BuildRuleConditions: the configurations of header, method, query and source-address conditions are one opaque text each, present or missing; kinds of conditions other than the six are not modelled.
- ListenerBuild.ListenerServesDocumentedChoice: the documented choice is said of host rules without condition annotations, to which alone the documentation speaks; for others the path is the first in sorted order whose conditions match. Requests selected by a reported infinite redirect are the subject of `LoopsExactlyWhenTargetEscapesEarlierRules`.
- ListenerBuild.BuildListenerRules: building backends, actions, transforms and tags is a function of the path that may fail.
- PortRanges.ConsolidatePortRanges: the library sort of the slice is an in-place insertion sort; its contract (ascending permutation) determines the result.
- IngressGroups.Load: sorting is on values; the class, its parameters and the order annotation enter as already parsed outcomes.
- Watches.EndpointResourcesManager.MonitorEndpointResources: the source's one loop fills three tables; the model makes one pass per table, which are independent.
- ListenPortMerge.MergeListenPortConfigs: lists the source keeps as sets and prints sorted are sets; a certificate's dependency and ARN are given values; which of several conflicts is named in the error is open.
- EndpointGroups.Build: endpoint weights, traffic dial and resolved ARNs are not part of the modelled groups.
- AnnotationParser.SplitKeyValuePairs: strings are sequences of characters, not of UTF-8 bytes; every byte the parser looks for is ASCII, so the pieces are the same. Path lengths, where bytes matter, are counted in UTF-8 bytes.
- RouteStatus.UpdateRouteStatus: the five route kinds differ only in the type holding the fields and are one type; looking up a parent is a parameter.
- Text.Lower: folds the case of ASCII letters only, which are the letters of host names.
- Locks and goroutines of the watch managers and the tracker: every method runs under one mutex in the source and is one atomic step here.
- Informer staleness: with stale reads, "already has the finalizer" is a different claim.
- Status updates, events, metrics and requeueing around the two reconcilers: they do not touch what the theorems speak about.
- The finalizer and configuration handling of LoadBalancerConfiguration and TargetGroupConfiguration objects, which follows the same pattern on other objects.
- Building and deploying stacks (pkg/deploy, pkg/gateway/model): represented by the contract of a deployment.
- ListenerSet status reconciliation: its cache makes the order of results a matter of timing.
- The frontend NLB builder: mostly annotation reading.
- Tag merging, resource names from hashes, scheme and address-type choice, configuration validation: correct by inspection.
- Caches with a time to live, assumed-role clients, feature flags, webhooks and command-line handling: thin wrappers over libraries.
