# Intel Ethernet Operator: verified model of its controllers

This project models the control loops of the operator and proves what they keep over whole runs.

**Flow rules.** Rules travel through two controllers behind an admission layer.

- The *cluster controller* (`ClusterFlowConfig.dfy`, values in `ClusterMerge.dfy` and `ClusterSync.dfy`)
  merges the rules of all ClusterFlowConfigs with the same pod selector into one NodeFlowConfig per
  node and keeps an ownership index, so that a deleted config can be cleaned up later.
- The *node controller* (`NodeFlowConfig.dfy`, values in `NodeSync.dfy`) translates the rules
  (`Translation.dfy`), compares them by hash with its cache (`FlowSets.dfy`), destroys what is no
  longer wanted and creates what is missing on the hardware (`Dcf.dfy`). The DCF may refuse any
  request, and maps are walked in any order.
- The *webhooks* (`Admission.dfy`) decide what enters. `Pipeline.dfy` joins the tiers: emitted rules
  are admitted, admitted rules translate, and the hardware ends up with the translations.
- `SharedNode.dfy` says which rules survive when several pods or configs share a node.
- `PodMapping.dfy` covers which configs are reconciled when a pod changes, `Bytes.dfy` the byte
  arithmetic behind MAC and IPv4 addresses.

**Agent pods.** `AgentPods.dfy`: one flowconfig-daemon pod per node, deleted in one reconcile and
created again in the next.

**Firmware and DDP updates.** `UpdateSpec.dfy` and `UpdateDaemon.dfy`: cordon, drain, flash, reboot,
finish. `ConfigMatcher.dfy`: which EthernetClusterConfig wins on a device.

Each stateful component is a class whose methods are proved against a specification on values; the
theorems about runs are lemmas about those values. A *run* is a sequence of operations, each legal in
the state it meets; every answer of the outside world is a choice in the run or a parameter.

What the model takes from outside:

- A SHA-256 digest is a free constructor: injective, and nothing else is known about it. Marshalling
  a request or a rule to JSON is taken to be injective and never to fail.
- A rule read back from the API server marshals to the bytes that were hashed when it was stored.
- The DCF hands out for a new flow an id that is not live on its port, and a request that is refused or
  fails has no effect on its flows.
- JSON decoding, MAC and IP parsing are arbitrary functions shared by webhook and controller
  (`Translation.Codec`). Two facts are assumed of them (`Codec.Valid`): the two documents that the
  code itself writes, a PCI address and a VF index, read back unchanged.
- `GetPfName` and `GetVFID` are arbitrary functions; an index found is assumed to fit 32 bits.
- A selector prints its requirements in the order of their keys, those with the same key in the order
  in which they are written, the values of each sorted.
- The API server gives objects in a namespace distinct names (`DistinctIds`, `DistinctNames`), and
  answers each write for one object in one reconcile with success, conflict or another error.
- The node's update lease is held throughout `DrainHelper.Run`.

Findings, each with its exact condition or its instances in the table below:

- a rule shared by two ClusterFlowConfigs is removed with either of them;
- a refused write or a rule that cannot be built can leave rules on a node that no index entry lists;
- a rule built for an earlier pod of a node, or for a config with another selector, stays on the node
  only if the last pod of the sync asks for the same rule;
- a `last` document of a pattern item replaces its `spec`;
- MAC ranges are compared on four bytes;
- a rule without an attribute, and an IPv4 or UDP document without a header, make the webhook panic;
- an agent pod keeps asking for the resources of earlier pools;
- an agent pod that cannot be deleted when the network changes keeps the old network;
- a failed reboot command leaves the node cordoned.

One more concerns the function ipToUint32 alone: an address of three bytes panics, although the code's
comment says that short addresses are guarded against. Its callers in the repository pass parsed
addresses of sixteen bytes.

## Model

| member | source | states |
|---|---|---|
| `NodeSync.LedgerRun` | controllers/flowconfig/nodeflowconfig_controller.go:172-254 | Conservation: however the DCF answers and in whatever order maps are walked, live flows = recorded flows plus flows whose Destroy was refused, with no overlap, after every operation of a sync |
| `NodeSync.LedgerRounds` | controllers/flowconfig/nodeflowconfig_controller.go:94-125 | The same balance over any sequence of reconciles and deletions |
| `NodeSync.CacheAgreesWithHardware` | controllers/flowconfig/nodeflowconfig_controller.go:155-282 | Over every run and at every instant: each record's flow is live with its rule, no two records share one, each live flow has exactly one record unless it was there first or its Destroy was refused, and earlier flows are untouched |
| `NodeSync.OrphanUntouched` | controllers/flowconfig/nodeflowconfig_controller.go:197-212 | No sync destroys or changes a live flow that the cache does not record |
| `NodeSync.SyncProgress` | controllers/flowconfig/nodeflowconfig_controller.go:172-254 | Even when cut short, a sync keeps wanted rules, leaves no unwanted one, and one rule fewer is missing for each successful Create; it reports success exactly when the cache holds what is wanted |
| `NodeSync.QuiescentIffInSync` | controllers/flowconfig/nodeflowconfig_controller.go:256-282 | A sync sends nothing to the DCF if and only if the cache already holds exactly the wanted rules |
| `NodeSync.DiffRefinesRebuild` | controllers/flowconfig/nodeflowconfig_controller.go:256-282 | A successful incremental sync ends with the same key-to-rule map as entering every translated rule into an empty cache, whatever the old cache and however often a rule is repeated |
| `NodeSync.DiffRefinesWipeAndCreate` | controllers/flowconfig/nodeflowconfig_controller.go:185-195 | The same against deleteAllRules followed by a sync, which also empties the cache on the way |
| `NodeSync.OccupancyBound` | controllers/flowconfig/nodeflowconfig_controller.go:172-183 | At every instant of a sync the DCF holds at most max(old size, number of distinct new rules) flows, plus those leaked by refused Destroys |
| `NodeSync.CallsAreValidated` | controllers/flowconfig/nodeflowconfig_controller.go:218-238 | Whatever the run, each Create on the wire comes right after an accepted Validate of the same rule |
| `NodeSync.RunStopsAtRefusal` | controllers/flowconfig/nodeflowconfig_controller.go:218-250 | Nothing is sent after a refused Validate or Create |
| `NodeSync.GoneOnTheWire` | controllers/flowconfig/nodeflowconfig_controller.go:197-212 | Each record that goes is destroyed exactly once, at its own port and flow id; no other flow is destroyed |
| `NodeSync.NewOnTheWire` | controllers/flowconfig/nodeflowconfig_controller.go:231-250 | Each new record holds a created rule and the flow id from the answer |
| `NodeFlowConfig.NodeFlowConfigReconciler.Reconcile` | controllers/flowconfig/nodeflowconfig_controller.go:94-125 | Every reconcile is one legal round of the run model. On the wire each Create follows at once on an accepted Validate of the same rule, nothing follows a refusal, each new record has its Create, and each dropped record exactly one Destroy at its own port and flow id; a deleted resource empties the cache; untranslatable rules or a missing port list change nothing |
| `NodeFlowConfig.NodeFlowConfigReconciler.SyncRules` | controllers/flowconfig/nodeflowconfig_controller.go:155-170 | All rules are translated first; one failure and nothing is touched; otherwise the translated keys are synchronised |
| `NodeFlowConfig.NodeFlowConfigReconciler.CreateAndDeleteRules` | controllers/flowconfig/nodeflowconfig_controller.go:172-183 | Deletes before it creates, and the two together are one whole sync |
| `NodeFlowConfig.NodeFlowConfigReconciler.DeleteAllRules` | controllers/flowconfig/nodeflowconfig_controller.go:185-195 | A sync towards the empty set, whatever Destroy answers |
| `NodeFlowConfig.NodeFlowConfigReconciler.DeleteRules` | controllers/flowconfig/nodeflowconfig_controller.go:197-212 | Each given record is destroyed once at its own port and flow id and leaves the cache whatever Destroy answers |
| `NodeFlowConfig.NodeFlowConfigReconciler.CreateRules` | controllers/flowconfig/nodeflowconfig_controller.go:214-254 | Validates and then creates missing rules until all are there or the first refusal, whose kind decides the error |
| `NodeFlowConfig.NodeFlowConfigReconciler.GetToAddAndDelete` | controllers/flowconfig/nodeflowconfig_controller.go:256-282 | The rules to create are the requested ones not cached, each under its own hash; the records to delete are the cached ones not requested |
| `NodeFlowConfig.NodeFlowConfigReconciler.GetFlowCreateRequests` | controllers/flowconfig/nodeflowconfig_controller.go:284-400 | The loops compute the specified translation, with the error of the first thing that fails |
| `NodeFlowConfig.NodeFlowConfigReconciler.GetPortIdFromDcfPort` | controllers/flowconfig/nodeflowconfig_controller.go:402-429 | The search over the DCF ports agrees with the specified one |
| `FlowSets.FlowSets.Add` | pkg/flowconfig/flowsets/flowsets.go:26-35 | An existing record is never overwritten |
| `FlowSets.FlowSets.GetCompliments` | pkg/flowconfig/flowsets/flowsets.go:50-67 | Exactly the records whose key is not listed |
| `Translation.TranslationPreservesShape` | controllers/flowconfig/nodeflowconfig_controller.go:284-400 | Attribute, count and order of items and actions survive; each document stands for its message, field by field, the last document in place of the spec; configurations are decoded by type; a PCI address becomes the index of its VF; an automatic port is the first DCF port on the physical function of the first address |
| `Translation.DocumentDecodesIff` | pkg/flowconfig/utils/utils.go:18-98 | A document is decoded to a message if and only if it stands for it: an Ethernet header with each address on its side, an IPv4 header with its fields and addresses, or what the type decodes to |
| `Translation.EthHeaderSurvives` | pkg/flowconfig/rpc/v1/flow/eth.go:19-45 | A decoded Ethernet document keeps its type, its destination and its source, each absent exactly when its text is empty |
| `Translation.SpecSurvivesIff` | controllers/flowconfig/nodeflowconfig_controller.go:301-318 | The spec document reaches the DCF if and only if there is no last document or both decode alike |
| `Translation.PciConfBecomesVf` | pkg/flowconfig/utils/utils.go:129-177 | The recursion between GetFlowActionAny and handleActionVfPciAddr ends in a VF message with the looked-up index, or in the stated error |
| `Translation.FormattedAddressIsFound` | pkg/flowconfig/utils/utils.go:178-188 | A PCI address is recognised in any text that does not run into it from the left |
| `Translation.EmbeddedAddressIsNotFound` | pkg/flowconfig/utils/utils.go:178-188 | It is not recognised after a letter, a digit or an underscore |
| `Translation.FoundAddressHasParts` | pkg/flowconfig/utils/utils.go:178-188 | Whatever is recognised consists of domain, bus, device and function |
| `Translation.MatchPortIff` | controllers/flowconfig/nodeflowconfig_controller.go:417-428 | A port is found if and only if it is the first DCF port on the same physical function and all ports before it could be looked up |
| `Translation.FirstPciAddressIsFirst` | controllers/flowconfig/nodeflowconfig_controller.go:347-360 | The automatic port follows the first non-empty PCI address among the actions |
| `Translation.Ipv4HeaderSurvives` | pkg/flowconfig/rpc/v1/flow/ipv4.go:30-65 | A decoded IPv4 document keeps its numeric fields, and each address, written out as bytes again, is the one that was parsed |
| `Admission.ItemAcceptedIff` | apis/flowconfig/v1/webhook_common.go:33-101 | An item is accepted if and only if its documents decode, each field is within its bound, a last or mask comes with a spec and is zero where the spec is zero, and a last field is not below the spec; stated in numbers for Ethernet, VLAN, IPv4, UDP, PPPoE and the protocol id |
| `Admission.ActionAcceptedIff` | apis/flowconfig/v1/nodeflowconfig_webhook.go:34-58 | An action is accepted if and only if it is a VF with id up to 255, a PCI address of the right form, a type without configuration, or another type whose configuration, if any, decodes |
| `Admission.NodeRuleVerdictIff` | apis/flowconfig/v1/nodeflowconfig_webhook.go:29-79 | A rule is accepted if and only if its items are acceptable as ItemAcceptedIff says and its actions as ActionAcceptedIff says, each non-empty list ends in END, and the attribute is present with flags 0 or 1; it panics if and only if the first item that is not acceptable meets a missing header, or all is well but the attribute is missing |
| `Admission.ItemCrashesIff` | apis/flowconfig/v1/validate.go:116-243 | A pattern item makes the webhook panic if and only if it reaches an IPv4 document without a header, or a UDP last or mask without one beside a spec that has one |
| `Admission.ClusterRuleVerdictIff` | apis/flowconfig/v1/clusterflowconfig_webhook.go:29-45 | The same two equivalences for a cluster rule, whose actions must all ask for a pod interface and name it |
| `Admission.ValidateNodeRule` | apis/flowconfig/v1/nodeflowconfig_webhook.go:29-79 | The validating loops reach exactly that verdict |
| `Admission.ValidateFlowPatterns` | apis/flowconfig/v1/webhook_common.go:14-31 | The loop over patterns reports the first item that does not pass, or a list that does not end in END |
| `Admission.ValidateClusterFlowAction` | apis/flowconfig/v1/clusterflowconfig_webhook.go:47-72 | Accepts exactly the lists of to-pod-interface actions that name an interface |
| `Admission.AdmittedRuleTranslatesIff` | controllers/flowconfig/nodeflowconfig_controller.go:284-429 | An admitted rule translates if and only if its PCI addresses lead to VFs and, for an automatic port, a DCF port is found; any failure is a look-up failure |
| `Admission.ExplicitRuleTranslates` | apis/flowconfig/v1/nodeflowconfig_webhook.go:29-79 | An admitted rule with its own port and no PCI address always translates, to that port |
| `Admission.MacRangeVerdict` | apis/flowconfig/v1/validate.go:36-82 | The webhook accepts a MAC range by its last four bytes alone, and for a spec not ending in four zero bytes agrees with the 48-bit order exactly when the top two bytes are equal or ordered as the rest |
| `Admission.AdmittedRangeLosesItsStart` | controllers/flowconfig/nodeflowconfig_controller.go:301-318 | An admitted VLAN range from 1 to 2 becomes an item for 2 alone |
| `Pipeline.EmittedRuleAdmitted` | controllers/flowconfig/clusterflowconfig_controller.go:319-344 | Every rule accepted by the cluster webhook and built for a pod with well-formed PCI addresses is accepted by the node webhook |
| `Pipeline.EmittedRuleShape` | controllers/flowconfig/clusterflowconfig_controller.go:319-344 | Any built rule keeps pattern and attribute, asks for an automatic port, carries action by action the address of the named interface or the action as it was, and is closed by END |
| `Pipeline.AcceptedRuleBuildsIff` | controllers/flowconfig/clusterflowconfig_controller.go:410-462 | An accepted cluster rule can be built if and only if the pod reports an address for every interface named |
| `Pipeline.EmittedRuleTranslatesIff` | controllers/flowconfig/clusterflowconfig_controller.go:374-462 | From cluster webhook to DCF request, only the VF, physical function or port look-up can fail |
| `Pipeline.HardwareMatchesClusterConfigs` | controllers/flowconfig/clusterflowconfig_controller.go:145-220 | End to end, after any history and any refusals: beside the flows live at the start and those whose Destroy was refused, the live rules on a node are exactly the translations of the rules of all same-selector configs, built for the node's last pod as far as they can be built for it, and none is live twice |
| `Pipeline.HardwareMatchesEveryRule` | controllers/flowconfig/clusterflowconfig_controller.go:145-220 | When each rule can be built for that pod, those live rules are exactly the images of all rules of all those configs |
| `Pipeline.NothingLiveAfterCleanup` | controllers/flowconfig/clusterflowconfig_controller.go:97-143 | After any cluster run from an empty cluster and a clean of each config left, a successful sync of any node leaves live exactly the flows live at the start and those whose Destroy was refused |
| `Pipeline.SyncInstallsExactly` | controllers/flowconfig/nodeflowconfig_controller.go:172-254 | A successful node sync leaves each requested rule live exactly once beside the unrecorded flows and those whose Destroy was refused, which all stay |
| `ClusterMerge.DistinctOrder` | controllers/flowconfig/clusterflowconfig_controller.go:315-344 | The merged rules are pairwise distinct and ordered by first occurrence |
| `ClusterMerge.MergeAndIndexAgree` | controllers/flowconfig/clusterflowconfig_controller.go:313-356 | The hashes of the merged rules are exactly those in the index entries just written for the node |
| `ClusterMerge.EntryWritten` | controllers/flowconfig/clusterflowconfig_controller.go:347-355 | When every rule can be built, each config's entry lists the hashes of all its rules in order, those suppressed as duplicates included |
| `ClusterMerge.EntryAfterEntered` | controllers/flowconfig/clusterflowconfig_controller.go:317-355 | In general a config gets that entry if and only if everything up to and including it can be built, and keeps its old one otherwise |
| `ClusterMerge.EntryKept` | controllers/flowconfig/clusterflowconfig_controller.go:347-355 | Entries of other configs and other nodes are untouched, even when building fails half-way |
| `ClusterMerge.AllBuiltIff` | controllers/flowconfig/clusterflowconfig_controller.go:317-330 | The merge goes through all rules if and only if each of them can be built for the pod |
| `ClusterMerge.PciAddressIsFirst` | controllers/flowconfig/clusterflowconfig_controller.go:435-441 | The address comes from the first network with the interface name and a pci device |
| `ClusterMerge.WithoutConcat` | controllers/flowconfig/clusterflowconfig_controller.go:116-124 | The clean filter works piecewise, so it keeps the order of what it keeps |
| `ClusterMerge.WithoutMembers` | controllers/flowconfig/clusterflowconfig_controller.go:116-124 | It keeps exactly the rules that are not owned |
| `ClusterFlowConfig.Compact` | controllers/flowconfig/clusterflowconfig_controller.go:116-124 | The in-place compaction leaves that filtered list at the front of the same array |
| `ClusterSync.SyncKeepsCompleteIff` | controllers/flowconfig/clusterflowconfig_controller.go:145-220 | Whatever writes and conversions fail, a sync keeps the index complete if and only if, on each visited node whose write is refused or whose last pod does not convert, every rule on the node afterwards is listed by a config outside the list or by an entry that EntryAfterGather describes |
| `ClusterSync.EntryAfterGather` | controllers/flowconfig/clusterflowconfig_controller.go:166-191 | After all pods, a config's entry for a node holds the hashes of its rules for the last pod there for which everything up to this config can be built, or what it held before if there is none |
| `ClusterSync.SyncKeepsComplete` | controllers/flowconfig/clusterflowconfig_controller.go:304-359 | A sync whose conversions and writes succeed keeps every stored rule listed in some config's entry for the node |
| `ClusterSync.CleanKeepsComplete` | controllers/flowconfig/clusterflowconfig_controller.go:97-143 | So does a clean, finished or aborted by a conflict |
| `ClusterSync.CleanKeepsCompleteIff` | controllers/flowconfig/clusterflowconfig_controller.go:126-140 | With lost writes: a finished clean keeps the index complete if and only if every owned rule on a node that cannot be read or written is claimed by another config |
| `ClusterSync.LostWriteBreaksIndex` | controllers/flowconfig/clusterflowconfig_controller.go:205-212 | From an empty cluster: any rule that can be built is synchronised, then removed from its config while the update is refused; it stays on the node and is listed nowhere |
| `ClusterSync.FailedConversionBreaksIndex` | controllers/flowconfig/clusterflowconfig_controller.go:177-180 | The same without any refused write, through a second config whose admitted rule names an interface that the pod does not report |
| `ClusterSync.IndexComplete` | controllers/flowconfig/clusterflowconfig_controller.go:61-143 | Over any interleaving of syncs and cleans the index stays complete, and an empty index means empty NodeFlowConfigs |
| `ClusterSync.AllCleanedAllEmpty` | controllers/flowconfig/clusterflowconfig_controller.go:97-143 | After any run from an empty cluster, once every config has been cleaned every NodeFlowConfig is empty |
| `ClusterSync.CleanIsRestartable` | controllers/flowconfig/clusterflowconfig_controller.go:97-143 | A clean aborted by conflicts any number of times and then finished ends where one uninterrupted clean ends |
| `ClusterSync.CleanKeepsOthersIff` | controllers/flowconfig/clusterflowconfig_controller_test.go:1128-1162 | Cleaning one config keeps the rules that others claim if and only if its own entry lists none of them |
| `ClusterSync.SharedRuleIsLost` | controllers/flowconfig/clusterflowconfig_controller_test.go:1128-1162 | From an empty cluster: any rule that two configs share is stored once, and cleaning one config takes it off the node although the other's entry still lists it |
| `ClusterSync.SyncStoresLastPodsRules` | controllers/flowconfig/clusterflowconfig_controller.go:166-191 | Exactly which nodes a sync stores, and that each gets the duplicate-free rules for the last of its pods, as far as they can be built; all others keep theirs |
| `SharedNode.RuleOnNodeIff` | controllers/flowconfig/clusterflowconfig_controller.go:166-191 | A rule built for any pod is on the node after a sync that stores it if and only if, among the list's rules that can be built for the node's last pod, one has the same attribute, pattern and number of actions and meets, action by action, the same addresses |
| `SharedNode.EarlierPodServedIff` | controllers/flowconfig/clusterflowconfig_controller.go:166-191 | A pod on the node, whatever its place, has all its rules there afterwards if and only if each of them has such a counterpart for the last pod |
| `SharedNode.EarlierPodLosesItsRule` | controllers/flowconfig/clusterflowconfig_controller.go:313-316 | From an empty cluster: two pods on a node report different addresses for the interface of an admitted rule, and only the second one's rule is stored |
| `SharedNode.OtherConfigServedIff` | controllers/flowconfig/clusterflowconfig_controller.go:166-191 | A config outside the list of a sync keeps its rules on a node that the sync stores if and only if each has a counterpart for the last pod of the sync; its index entry stays in any case |
| `SharedNode.OtherSelectorLosesItsRule` | controllers/flowconfig/clusterflowconfig_controller.go:145-220 | From an empty cluster: two configs with different selectors whose pods share a node, and the sync of the second takes the first one's rule off the node while the index still lists it |
| `ClusterFlowConfig.ClusterFlowConfigReconciler.Reconcile` | controllers/flowconfig/clusterflowconfig_controller.go:61-95 | Every reconcile, failing reads and lists included, is one sync or one clean step of the run model, or no change. For a missing config it fails if and only if an update conflicts; otherwise its index entry is gone, its rules are off each node that can be read and written, and nothing else has changed; the same for a config without pods |
| `ClusterFlowConfig.ClusterFlowConfigReconciler.CleanNodeFlowConfig` | controllers/flowconfig/clusterflowconfig_controller.go:97-143 | In any map order a clean rewrites readable nodes, stops at a conflict with the index intact, and otherwise drops the config's entry |
| `ClusterFlowConfig.ClusterFlowConfigReconciler.SyncClusterConfigForNodes` | controllers/flowconfig/clusterflowconfig_controller.go:145-194 | Gathers pod by pod, stores every gathered node, and cleans instead when no pod is selected |
| `ClusterFlowConfig.ClusterFlowConfigReconciler.UpdateNodeFlowConfigSpec` | controllers/flowconfig/clusterflowconfig_controller.go:304-359 | The object in memory and the index after a rebuild, also when it stops at a rule that cannot be built |
| `ClusterFlowConfig.ClusterFlowConfigReconciler.CreateOrUpdateNodeFlowConfigs` | controllers/flowconfig/clusterflowconfig_controller.go:196-220 | In any map order, exactly the accepted writes change the stored objects |
| `ClusterFlowConfig.ClusterFlowConfigReconciler.GetNodeActionsFromClusterActions` | controllers/flowconfig/clusterflowconfig_controller.go:374-408 | The loop computes the specified conversion, closed by END unless empty |
| `ClusterFlowConfig.ClusterFlowConfigReconciler.GetClusterFlowConfigsForPodSelector` | controllers/flowconfig/clusterflowconfig_controller.go:268-302 | The configs of the namespace whose selector prints alike, in list order; nothing if they cannot be listed |
| `ClusterTypes.SameSelectorMembers` | controllers/flowconfig/clusterflowconfig_controller.go:288-300 | Those are exactly the configs of the namespace whose selector converts and has the same labels and, for each key, the same operators and values; none twice, and the instance is among them |
| `ClusterTypes.PrintAlikeIff` | controllers/flowconfig/clusterflowconfig_controller.go:295-297 | Two selectors print alike if and only if they have the same labels and, for each key, the same expressions up to the order of values |
| `ClusterTypes.ConfigsKeepOrder` | controllers/flowconfig/clusterflowconfig_controller.go:288-300 | The merged configs keep the order of the list |
| `ClusterTypes.PodsKeepOrder` | controllers/flowconfig/clusterflowconfig_controller.go:250-266 | So do the selected pods, the last of which decides |
| `ClusterTypes.SelectsIff` | controllers/flowconfig/clusterflowconfig_controller.go:250-266 | A selector selects exactly the labels that contain its own and satisfy each expression; when it converts |
| `ClusterTypes.MergedConfigsSelectSamePods` | controllers/flowconfig/clusterflowconfig_controller.go:268-302 | Each merged config selects the very pods for which the rules are built |
| `ClusterTypes.PrintAlikeSelectsAlike` | controllers/flowconfig/clusterflowconfig_controller.go:295-297 | Selectors that print alike have the same requirements and select the same labels |
| `ClusterTypes.RepeatedExpressionPrintsApart` | controllers/flowconfig/clusterflowconfig_controller.go:295-297 | The converse fails for every expression written twice |
| `PodMapping.MapPodsToRequests` | controllers/flowconfig/clusterflowconfig_controller.go:477-526 | For any order of the labels, counting with early exit enqueues exactly the configs whose labels are all on the pod; none if they cannot be listed |
| `PodMapping.NoMissedPods` | controllers/flowconfig/clusterflowconfig_controller.go:250-266 | A pod that a sync of a config would list triggers a request for that config |
| `PodMapping.ListedIffEnqueuedAnd` | controllers/flowconfig/clusterflowconfig_controller.go:497-524 | Conversely a sync lists the pod if and only if the config was enqueued, is in the pod's namespace, and its expressions hold for the pod; neither is looked at when enqueuing |
| `Bytes.HexRoundTrip` | apis/flowconfig/v1/validate.go:74-82 | Hexadecimal encoding read back is the big-endian value |
| `Bytes.MacEncodingIsLastFourBytes` | apis/flowconfig/v1/validate.go:74-82 | The encoding is the value of the last four bytes; it fails exactly for no bytes or a value of 2^63 and more, never for six bytes |
| `Bytes.TruncatedOrderAgreesIff` | apis/flowconfig/v1/validate.go:318-332 | The truncated order agrees with the 48-bit order if and only if the top two bytes are equal or ordered as the rest |
| `Bytes.TruncatedOrderCanDisagree` | apis/flowconfig/v1/validate.go:74-82 | Two addresses that the truncated order puts the wrong way round |
| `Bytes.IpRoundTrip` | pkg/flowconfig/rpc/v1/flow/ipv4.go:67-84 | ipToUint32 and Uint32ToIP undo each other on four bytes and on every 32-bit value, recover the last four of sixteen bytes, and panic only on three |
| `Bytes.Uint32ToIP` | pkg/flowconfig/rpc/v1/flow/ipv4.go:80-84 | The buffer holds the four big-endian bytes |
| `AgentPods.FlowConfigNodeAgentDeploymentReconciler.Reconcile` | controllers/flowconfig/flowconfignodeagentdeployment_controller.go:63-153 | The controller's state and result after one reconcile, including faults of the API and the shared pod template |
| `AgentPods.FlowConfigNodeAgentDeploymentReconciler.AddAnnotations` | controllers/flowconfig/flowconfignodeagentdeployment_controller.go:210-222 | The loop builds exactly n copies, separated |
| `AgentPods.PodsMatchRemembered` | controllers/flowconfig/flowconfignodeagentdeployment_controller.go:98-152 | Over every run on a fixed set of nodes in which no read or deletion fails while pool or network change, each pod has a positive limit under the remembered pool and that many copies of the remembered network |
| `AgentPods.ReconcileKeepsInvIff` | controllers/flowconfig/flowconfignodeagentdeployment_controller.go:120-146 | With any faults, a reconcile keeps that invariant if and only if each pod that it cannot replace (not listed, not readable or not deletable) is already made for the new pool and network |
| `AgentPods.NetworkChangeCanBeLost` | controllers/flowconfig/flowconfignodeagentdeployment_controller.go:120-146 | A pod that cannot be replaced in the reconcile that changes the network keeps the old one through any number of later reconciles |
| `AgentPods.TwoReconcilesConverge` | controllers/flowconfig/flowconfignodeagentdeployment_controller.go:98-152 | After any change of pool, network or capacity two reconciles reach a pod whose limit is the node's capacity on each node with some, and no pod elsewhere; a third writes nothing and does not requeue |
| `AgentPods.ReconcileReplacesIff` | controllers/flowconfig/flowconfignodeagentdeployment_controller.go:120-152 | A reconcile comes back at once if and only if some pod is to be replaced (a limit under the old pool after a change, otherwise a limit other than the node's capacity), later if and only if there is no network; exactly those pods go, unless the deletion fails |
| `AgentPods.CopiesParts` | controllers/flowconfig/flowconfignodeagentdeployment_controller.go:210-222 | The annotation letter by letter: each copy at its place, with a comma and a blank between |
| `AgentPods.NewPodLimitsIff` | controllers/flowconfig/flowconfignodeagentdeployment_controller.go:165-192 | After any run, faults included, a new pod has limits for exactly the pools of the initial template, every pool under which a creation was attempted, and its own; so for its own alone if and only if the template held no other |
| `AgentPods.TemplateOverRuns` | controllers/flowconfig/flowconfignodeagentdeployment_controller.go:225-239 | The pools in the shared template are the initial ones and those under which a creation was attempted |
| `AgentPods.NewPodKeepsEarlierLimits` | controllers/flowconfig/flowconfignodeagentdeployment_controller.go:165-192 | An instance: a change of pool after which the new pod has limits under both pools |
| `UpdateDaemon.NodeConfigReconciler.Reconcile` | pkg/fwddp-daemon/daemon.go:244-299 | One reconcile of the daemon is the specified step, for some order of the device map |
| `UpdateDaemon.NodeConfigReconciler.ConfigureNode` | pkg/fwddp-daemon/daemon.go:301-352 | The closure, its captured variables and the error checks together give the specified result |
| `UpdateDaemon.NodeConfigReconciler.PrepareUpdateQueue` | pkg/fwddp-daemon/daemon.go:354-376 | The queue maps each device to its artifacts, or one failure fails all |
| `UpdateSpec.PrepareQueueIff` | pkg/fwddp-daemon/daemon.go:354-376 | There is a queue if and only if inventory, cleaning and every preparation succeed; it has one entry for each address, the last of several counts |
| `UpdateDaemon.DrainHelper.Run` | pkg/drainhelper/drainhelper.go:118-207 | Cordon, drain, worker and uncordon in the specified order, with an uncordon attempt after a failed drain |
| `UpdateSpec.DeviceIff` | pkg/fwddp-daemon/fwupdater.go:67-97 | A device fails if and only if the tool does not run or ends outside 0, 3, 30, 50, 51, or the copy fails; without failure it asks for a reboot if and only if firmware ended with 50 or 51 or a result file that does not say no, or a profile was copied |
| `UpdateSpec.WorkTouchesIff` | pkg/fwddp-daemon/daemon.go:310-324 | A device is flashed, and a profile copied right after, exactly when no device before it has failed and there is something to install |
| `UpdateSpec.WorkIsOrderIndependent` | pkg/fwddp-daemon/daemon.go:310-324 | In any map order the work fails if and only if some device fails, and otherwise asks for a reboot if and only if some device does |
| `UpdateSpec.FinalCondition` | pkg/fwddp-daemon/daemon.go:273-298 | The recorded reason is NotRequested, Succeeded, PostUpdateReboot or Failed exactly when the update had nothing to do, worked, waits for its reboot, or is to be retried |
| `UpdateSpec.ReconcileSafeIff` | pkg/fwddp-daemon/daemon.go:244-352 | Exactly when a reconcile keeps a cordoned node waiting for its reboot: unless the final uncordon fails, or a due reboot is not recorded, or its command fails and the failure is recorded |
| `UpdateSpec.FailedRebootStrands` | pkg/fwddp-daemon/daemon.go:331-335 | Whenever a reboot is due after a drain, its command fails and status writes succeed, the node stays cordoned with reason Failed |
| `UpdateSpec.FailedRebootExample` | pkg/fwddp-daemon/daemon.go:288-290 | An instance with one device |
| `UpdateSpec.NeverStranded` | pkg/drainhelper/drainhelper.go:149-206 | Over every run in which status writes, the reboot command and the uncordon in Run succeed, a node is never left cordoned without reason PostUpdateReboot |
| `UpdateSpec.RebootIff` | pkg/fwddp-daemon/daemon.go:306-351 | The node is rebooted, once, exactly when the drain (if any) succeeded, no device failed, one asks for a reboot and the command works, in terms of the answers of the tools |
| `UpdateSpec.ReconcileTouchesIff` | pkg/fwddp-daemon/daemon.go:280-341 | A reconcile touches exactly the devices that are due, and none after a failed drain or preparation |
| `UpdateSpec.DevicesTouchedWhileDrained` | pkg/drainhelper/drainhelper.go:149-206 | Unless draining is switched off, every flash, copy and reboot happens after a drain in the same reconcile and before any uncordon |
| `UpdateSpec.OutcomeIff` | pkg/fwddp-daemon/daemon.go:244-271 | When a reconcile comes back at once or later, with an object that is missing, half created or waiting for its reboot |
| `UpdateSpec.ProgressIsRecordedFirst` | pkg/fwddp-daemon/daemon.go:279-280 | An update records that it is in progress before anything else |
| `UpdateSpec.NoRebootLoop` | pkg/fwddp-daemon/daemon.go:258-351 | No trace has a reboot followed by another reboot, a flash or a DDP copy without a recorded success between them, and each reboot comes right after the record of PostUpdateReboot |
| `ConfigMatcher.PrepareDeviceConfigContext` | pkg/fwddp-manager/ethernetclusterconfig_controller.go:121-159 | The double loop maps exactly the matched addresses, each to a config maximal in priority and creation time, the earliest in the list among exact ties |
| `ConfigMatcher.WinnerIsHighest` | pkg/fwddp-manager/ethernetclusterconfig_controller.go:135-155 | In numbers: no matching config has a higher priority than the winner, none of the same priority is younger, and none of the same priority and age comes earlier |
| `ConfigMatcher.MatchConfigsForNode` | pkg/fwddp-manager/ethernetclusterconfig_controller.go:161-170 | The configs whose node selector is contained in the node's labels, in list order |
| `ConfigMatcher.SelectedIff` | pkg/fwddp-manager/ethernetclusterconfig_controller.go:161-170 | Exactly the configs whose selector is part of the node's labels |
| `ConfigMatcher.SelectionKeepsOrder` | pkg/fwddp-manager/ethernetclusterconfig_controller.go:161-170 | They keep the order of the list |
| `ConfigMatcher.WinnerIsOrderIndependent` | pkg/fwddp-manager/ethernetclusterconfig_controller.go:121-159 | Permuting the configs keeps the decided addresses and the winners' ranks, and the winners themselves without ties |
| `ConfigMatcher.ContextIsDetermined` | pkg/fwddp-manager/ethernetclusterconfig_controller.go:121-159 | The context depends only on the configs and on which devices there are, not on the order of the devices or repetitions among them |
| `ConfigMatcher.SelectionIsOrderIndependent` | pkg/fwddp-manager/ethernetclusterconfig_controller.go:161-170 | Permuting all configs permutes those selected for a node |

## Left out

- gRPC transport errors of Destroy: the generated client then returns a nil response, which the code
  dereferences (controllers/flowconfig/nodeflowconfig_controller.go:203-206), so the process panics.
- The PortInfo status of a NodeFlowConfig, logging, event filters, owner references: no effect on rules.
- A change of the DCF port list within one reconcile: both look-ups of a reconcile see the same list.
- A nil pod selector: admission rejects it (apis/flowconfig/v1/clusterflowconfig_webhook.go:74-80).
- The syntax of label keys and values in a selector: an ill-formed one cannot be converted either.
- Network-status entries without device information: each entry is taken to carry it.
- Restart of a controller (loss of cache, index and remembered pool), and NodeFlowConfigs edited by
  hand beside generated ones.
- Reads of one NodeFlowConfig that succeed and fail within the same reconcile of the cluster controller.
- Resource requests of agent pods, which are written together with the limits; negative quantities.
- Leader election, lease renewal and back-off; a lease lost while the worker runs.
- Changes of an EthernetNodeConfig's spec between the reads within one reconcile, and its deletion
  while a node is waiting for its reboot.
- Download and unpacking of firmware and DDP packages: one outcome per device.
- DeepDerivative comparison in synchronizeNodeConfigSpec and asset deployment: its meaning is in a
  library that is not part of this model.
- The JSON document `null` in a pattern item, on which the code panics.
