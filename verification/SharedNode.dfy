/** Several pods on one node: which rules of an earlier pod, and which rules of configs with another
    selector, are still on the node after a sync. */
module SharedNode {

  import opened Wrappers
  import opened FlowTypes
  import opened Translation
  import opened Admission
  import opened ClusterTypes
  import opened ClusterMerge
  import opened ClusterSync
  import opened Pipeline

  // ---------------------------------------------------------------------- equal rules

  /** The address that the pod reports for the interface named by the action. */
  function AddressFor(c: Codec, action: ClusterFlowAction, pod: Pod): string {
    if action.conf.Some? && c.decodePodInterface(action.conf.value).Some? && pod.networks.Networks?
    then PciAddressFor(pod.networks.list, c.decodePodInterface(action.conf.value).value)
    else ""
  }

  /** The two rules agree in attribute, pattern and number of actions, and action by action the
      second pod reports for the second rule the address that the first reports for the first. */
  predicate Counterparts(c: Codec, rule: ClusterFlowRule, pod: Pod, rule': ClusterFlowRule, pod': Pod) {
    && rule'.attr == rule.attr && rule'.pattern == rule.pattern && |rule'.action| == |rule.action|
    && forall i :: 0 <= i < |rule.action| ==> AddressFor(c, rule.action[i], pod) == AddressFor(c, rule'.action[i], pod')
  }

  lemma BuiltAction(c: Codec, rule: ClusterFlowRule, pod: Pod, i: nat)
    requires ClusterActionsAccepted(c, rule.action) && BuildRule(c, rule, pod).Some? && i < |rule.action|
    ensures var built := BuildRule(c, rule, pod).value;
            && |built.action| == |rule.action| + 1
            && built.action[i] == FlowAction(VfPciAddr, Some(c.encodePciAddr(AddressFor(c, rule.action[i], pod))))
  {
    ConvertedPositions(c, rule.action, pod);
    assert ValidateClusterAction(c, rule.action[i]) == Accept;
    assert NodeAction(c, rule.action[i], pod) == Some(BuildRule(c, rule, pod).value.action[i]);
  }

  lemma BuiltActions(c: Codec, rule: ClusterFlowRule, pod: Pod)
    requires ClusterActionsAccepted(c, rule.action) && BuildRule(c, rule, pod).Some?
    ensures var actions := BuildRule(c, rule, pod).value.action;
            && |actions| == (if rule.action == [] then 0 else |rule.action| + 1)
            && (actions != [] ==> actions[|actions| - 1] == FlowAction(Action(A_END), None))
            && forall i :: 0 <= i < |rule.action| ==>
                 actions[i] == FlowAction(VfPciAddr, Some(c.encodePciAddr(AddressFor(c, rule.action[i], pod))))
  {
    ConvertedPositions(c, rule.action, pod);
    forall i | 0 <= i < |rule.action|
      ensures BuildRule(c, rule, pod).value.action[i] ==
              FlowAction(VfPciAddr, Some(c.encodePciAddr(AddressFor(c, rule.action[i], pod))))
    {
      BuiltAction(c, rule, pod, i);
    }
  }

  /** Two admitted rules become the same node rule exactly when they are counterparts. */
  lemma SameNodeRuleIff(c: Codec, rule: ClusterFlowRule, pod: Pod, rule': ClusterFlowRule, pod': Pod)
    requires c.Valid()
    requires ClusterActionsAccepted(c, rule.action) && BuildRule(c, rule, pod).Some?
    requires ClusterActionsAccepted(c, rule'.action) && BuildRule(c, rule', pod').Some?
    ensures BuildRule(c, rule, pod) == BuildRule(c, rule', pod') <==> Counterparts(c, rule, pod, rule', pod')
  {
    BuiltActions(c, rule, pod);
    BuiltActions(c, rule', pod');
    var actions, actions' := BuildRule(c, rule, pod).value.action, BuildRule(c, rule', pod').value.action;
    if actions == actions' {
      assert |rule.action| == |rule'.action|;
      forall i | 0 <= i < |rule.action|
        ensures AddressFor(c, rule.action[i], pod) == AddressFor(c, rule'.action[i], pod')
      {
        SameEncoding(c, AddressFor(c, rule.action[i], pod), AddressFor(c, rule'.action[i], pod'));
      }
    }
    if Counterparts(c, rule, pod, rule', pod') {
      assert actions == actions';
    }
  }

  lemma SameEncoding(c: Codec, a: string, b: string)
    requires c.Valid()
    ensures c.encodePciAddr(a) == c.encodePciAddr(b) ==> a == b
  {
    assert c.decodePciAddr(c.encodePciAddr(a)) == Some(a) && c.decodePciAddr(c.encodePciAddr(b)) == Some(b);
  }

  // ---------------------------------------------------------------------- what is built for a pod

  /** Building for the pod gets past the i-th rule: this rule and all before it can be built. */
  predicate Buildable(c: Codec, rules: seq<ClusterFlowRule>, pod: Pod, i: nat) {
    i < |rules| && forall j :: 0 <= j <= i ==> BuildRule(c, rules[j], pod).Some?
  }

  lemma {:induction false} BuiltReach(c: Codec, rules: seq<ClusterFlowRule>, pod: Pod, i: nat)
    ensures i < |Built(c, rules, pod)| <==> Buildable(c, rules, pod, i)
  {
    BuiltBound(c, rules, pod);
    if rules != [] {
      var init := rules[..|rules| - 1];
      BuiltBound(c, init, pod);
      BuiltReach(c, init, pod, i);
      assert i < |init| ==> (Buildable(c, rules, pod, i) <==> Buildable(c, init, pod, i));
      if i == |init| {
        AllBuiltIff(c, init, pod);
        assert forall j :: 0 <= j < |init| ==> init[j] == rules[j];
      }
    }
  }

  /** A node rule is built for the pod exactly when one of the rules that are reached becomes it. */
  lemma BuiltFromReached(c: Codec, rules: seq<ClusterFlowRule>, pod: Pod, r: FlowRules)
    ensures r in Built(c, rules, pod) <==>
            exists i :: 0 <= i < |rules| && Buildable(c, rules, pod, i) && BuildRule(c, rules[i], pod) == Some(r)
  {
    var built := Built(c, rules, pod);
    BuiltBound(c, rules, pod);
    if r in built {
      var i :| 0 <= i < |built| && built[i] == r;
      BuiltReach(c, rules, pod, i);
      BuiltMember(c, rules, pod, i);
    }
    if i :| 0 <= i < |rules| && Buildable(c, rules, pod, i) && BuildRule(c, rules[i], pod) == Some(r) {
      BuiltReach(c, rules, pod, i);
      BuiltMember(c, rules, pod, i);
      assert built[i] in built;
    }
  }

  /** One of the list's rules that are reached for the last pod is a counterpart of the rule. */
  predicate HasCounterpart(c: Codec, rule: ClusterFlowRule, pod: Pod, rules: seq<ClusterFlowRule>, last: Pod) {
    exists j :: 0 <= j < |rules| && Buildable(c, rules, last, j) && Counterparts(c, rule, pod, rules[j], last)
  }

  predicate ActionsAdmitted(c: Codec, rules: seq<ClusterFlowRule>) {
    forall rule :: rule in rules ==> ClusterActionsAccepted(c, rule.action)
  }

  /** A rule built for any pod is on the node after a sync exactly when the list has a counterpart of it
      for the node's last pod. */
  lemma RuleOnNodeIff(
      c: Codec, s: ClusterState, api: ApiConditions, ns: string, list: seq<ClusterFlowConfig>, pods: seq<Pod>,
      n: NamespacedName, last: Pod, rule: ClusterFlowRule, pod: Pod)
    requires c.Valid() && ActionsAdmitted(c, AllRules(list)) && ClusterActionsAccepted(c, rule.action)
    requires IsGathered(c, api, ns, list, pods, n) && api.AnswerFor(n) == Written
    requires LastPodOn(pods, n.name) == Some(last) && BuildRule(c, rule, pod).Some?
    ensures n in SyncState(c, s, api, ns, list, pods).nodes
    ensures BuildRule(c, rule, pod).value in SyncState(c, s, api, ns, list, pods).nodes[n] <==>
            HasCounterpart(c, rule, pod, AllRules(list), last)
  {
    var rules, r := AllRules(list), BuildRule(c, rule, pod).value;
    SyncStoresLastPodsRules(c, s, api, ns, list, pods, n);
    DistinctMembers(Built(c, rules, last));
    BuiltFromReached(c, rules, last, r);
    forall j | 0 <= j < |rules| && Buildable(c, rules, last, j)
      ensures BuildRule(c, rules[j], last) == Some(r) <==> Counterparts(c, rule, pod, rules[j], last)
    {
      assert rules[j] in rules;
      SameNodeRuleIff(c, rule, pod, rules[j], last);
    }
  }

  // ---------------------------------------------------------------------- an earlier pod

  /** Exactly when a pod is still served after the sync although another pod on its node comes later:
      each rule that is built for it needs a counterpart for that last pod. */
  lemma EarlierPodServedIff(
      c: Codec, s: ClusterState, api: ApiConditions, ns: string, list: seq<ClusterFlowConfig>, pods: seq<Pod>,
      n: NamespacedName, pod: Pod, last: Pod)
    requires c.Valid() && ActionsAdmitted(c, AllRules(list))
    requires IsGathered(c, api, ns, list, pods, n) && api.AnswerFor(n) == Written
    requires LastPodOn(pods, n.name) == Some(last)
    ensures n in SyncState(c, s, api, ns, list, pods).nodes
    ensures (forall r :: r in Built(c, AllRules(list), pod) ==> r in SyncState(c, s, api, ns, list, pods).nodes[n]) <==>
            forall i :: 0 <= i < |AllRules(list)| && Buildable(c, AllRules(list), pod, i) ==>
              HasCounterpart(c, AllRules(list)[i], pod, AllRules(list), last)
  {
    var rules := AllRules(list);
    SyncStoresLastPodsRules(c, s, api, ns, list, pods, n);
    forall i | 0 <= i < |rules| && Buildable(c, rules, pod, i)
      ensures BuildRule(c, rules[i], pod).value in Built(c, rules, pod)
      ensures BuildRule(c, rules[i], pod).value in SyncState(c, s, api, ns, list, pods).nodes[n] <==>
              HasCounterpart(c, rules[i], pod, rules, last)
    {
      assert rules[i] in rules;
      BuiltFromReached(c, rules, pod, BuildRule(c, rules[i], pod).value);
      RuleOnNodeIff(c, s, api, ns, list, pods, n, last, rules[i], pod);
    }
    forall r | r in Built(c, rules, pod)
      ensures exists i :: 0 <= i < |rules| && Buildable(c, rules, pod, i) && BuildRule(c, rules[i], pod) == Some(r)
    {
      BuiltFromReached(c, rules, pod, r);
    }
  }

  /** A pod on the node whose interface has the given address. */
  function PodWithAddress(id: NamespacedName, nodeName: string, labels: map<string, string>, iface: string, addr: string): Pod {
    Pod(id, nodeName, labels, Networks([NetworkStatus(iface, Some(addr))]))
  }

  lemma InterfaceRuleBuilds(c: Codec, conf: Raw, iface: string, pod: Pod, addr: string)
    requires c.decodePodInterface(conf) == Some(iface) && iface != "" && addr != ""
    requires pod.networks == Networks([NetworkStatus(iface, Some(addr))])
    ensures ClusterRuleVerdict(c, ToInterface(conf)) == Accept
    ensures BuildRule(c, ToInterface(conf), pod).Some?
    ensures AddressFor(c, ToInterface(conf).action[0], pod) == addr
  {
    var actions := ToInterface(conf).action;
    assert actions[..0] == [] && ValidateClusterAction(c, actions[0]) == Accept;
    assert PciAddressFor(pod.networks.list, iface) == addr;
    assert NodeAction(c, actions[0], pod).Some?;
    assert ConvertActions(c, actions, pod).Some?;
  }

  /** Two pods of one config on one node report different addresses for the interface that its rule
      names: the sync leaves only the rule for the second. */
  lemma EarlierPodLosesItsRule(
      c: Codec, conf: Raw, iface: string, config: NamespacedName, first: NamespacedName, second: NamespacedName,
      nodeName: string, addr: string, addr': string)
    requires c.Valid() && c.decodePodInterface(conf) == Some(iface) && iface != ""
    requires nodeName != "" && addr != "" && addr' != "" && addr != addr'
    ensures var rule, n := ToInterface(conf), NamespacedName(config.namespace, nodeName);
            var pod, last := PodWithAddress(first, nodeName, map[], iface, addr),
                             PodWithAddress(second, nodeName, map[], iface, addr');
            var s := SyncState(c, EMPTY_CLUSTER, CALM, config.namespace, [AnyPod(config, [rule])], [pod, last]);
            && ClusterRuleVerdict(c, rule) == Accept
            && BuildRule(c, rule, pod).Some? && BuildRule(c, rule, last).Some?
            && n in s.nodes && BuildRule(c, rule, last).value in s.nodes[n]
            && BuildRule(c, rule, pod).value !in s.nodes[n]
  {
    var rule, n := ToInterface(conf), NamespacedName(config.namespace, nodeName);
    var pod, last := PodWithAddress(first, nodeName, map[], iface, addr),
                     PodWithAddress(second, nodeName, map[], iface, addr');
    var list, pods := [AnyPod(config, [rule])], [pod, last];
    InterfaceRuleBuilds(c, conf, iface, pod, addr);
    InterfaceRuleBuilds(c, conf, iface, last, addr');
    OneOrTwoConfigs(list[0], list[0]);
    OneRuleBuilt(c, rule, last);
    assert last in pods && SomePodConverts(c, list, pods, nodeName);
    RuleOnNodeIff(c, EMPTY_CLUSTER, CALM, config.namespace, list, pods, n, last, rule, pod);
    RuleOnNodeIff(c, EMPTY_CLUSTER, CALM, config.namespace, list, pods, n, last, rule, last);
    assert Buildable(c, [rule], last, 0) && Counterparts(c, rule, last, [rule][0], last);
  }

  // ---------------------------------------------------------------------- another selector

  /** Exactly when a config that is not in the list of a sync, and whose rules were put on the node for
      some pod, keeps them: each of its rules needs a counterpart for the last pod of this sync.
      Its index entry stays as it is in any case. */
  lemma OtherConfigServedIff(
      c: Codec, s: ClusterState, api: ApiConditions, ns: string, list: seq<ClusterFlowConfig>, pods: seq<Pod>,
      n: NamespacedName, last: Pod, other: ClusterFlowConfig, pod: Pod)
    requires c.Valid() && ActionsAdmitted(c, AllRules(list)) && ActionsAdmitted(c, other.rules)
    requires IsGathered(c, api, ns, list, pods, n) && api.AnswerFor(n) == Written
    requires LastPodOn(pods, n.name) == Some(last) && !InList(list, other.id)
    requires Entry(s.index, other.id, n) == KeysOf(Built(c, other.rules, pod))
    ensures var s' := SyncState(c, s, api, ns, list, pods);
            && n in s'.nodes && Entry(s'.index, other.id, n) == Entry(s.index, other.id, n)
            && ((forall k :: k in Entry(s'.index, other.id, n) ==> k in KeySet(s'.nodes[n])) <==>
                forall i :: 0 <= i < |other.rules| && Buildable(c, other.rules, pod, i) ==>
                  HasCounterpart(c, other.rules[i], pod, AllRules(list), last))
  {
    var s', built := SyncState(c, s, api, ns, list, pods), Built(c, other.rules, pod);
    EntryOutsideGather(c, api, ns, list, s.index, pods, other.id, n);
    KeysOfSet(built);
    SyncStoresLastPodsRules(c, s, api, ns, list, pods, n);
    forall i | 0 <= i < |other.rules| && Buildable(c, other.rules, pod, i)
      ensures BuildRule(c, other.rules[i], pod).value in built
      ensures BuildRule(c, other.rules[i], pod).value in s'.nodes[n] <==>
              HasCounterpart(c, other.rules[i], pod, AllRules(list), last)
    {
      assert other.rules[i] in other.rules;
      BuiltFromReached(c, other.rules, pod, BuildRule(c, other.rules[i], pod).value);
      RuleOnNodeIff(c, s, api, ns, list, pods, n, last, other.rules[i], pod);
    }
    forall r | r in built
      ensures exists i :: 0 <= i < |other.rules| && Buildable(c, other.rules, pod, i) &&
                          BuildRule(c, other.rules[i], pod) == Some(r)
    {
      BuiltFromReached(c, other.rules, pod, r);
    }
    forall r ensures RuleSha256(r) in KeysOf(built) <==> r in built {}
    forall r ensures RuleSha256(r) in KeySet(s'.nodes[n]) <==> r in s'.nodes[n] {}
  }

  /** A config that selects the pods with one value of a label. */
  function ForApp(id: NamespacedName, app: string, rules: seq<ClusterFlowRule>): ClusterFlowConfig {
    ClusterFlowConfig(id, LabelSelector(map["app" := app], []), rules)
  }

  lemma ForAppSelects(config: NamespacedName, app: string, rules: seq<ClusterFlowRule>, pod: Pod)
    ensures Selects(ForApp(config, app, rules).podSelector, pod.labels) <==> "app" in pod.labels && pod.labels["app"] == app
  {
    var selector := ForApp(config, app, rules).podSelector;
    assert Equals("app", selector.matchLabels["app"]) in Requirements(selector);
  }

  lemma ForAppPrintsApart(a: ClusterFlowConfig, b: ClusterFlowConfig, x: string, y: string)
    requires a.podSelector == LabelSelector(map["app" := x], []) && b.podSelector == LabelSelector(map["app" := y], [])
    ensures PrintAlike(a.podSelector, b.podSelector) <==> x == y
  {
    assert "app" in SelectorKeys(a.podSelector);
    assert PrintedFor(a.podSelector, "app") == [PrintedLabel(x)] && PrintedFor(b.podSelector, "app") == [PrintedLabel(y)];
  }

  lemma {:induction false} SelectedOfTwo(instance: ClusterFlowConfig, pod: Pod, pod': Pod)
    ensures SelectedPods(instance, [pod, pod']) ==
            (if pod.id.namespace == instance.id.namespace && Selects(instance.podSelector, pod.labels)
             then [pod] else []) +
            (if pod'.id.namespace == instance.id.namespace && Selects(instance.podSelector, pod'.labels)
             then [pod'] else [])
  {
    assert [pod, pod'][..1] == [pod] && [pod][..0] == [] && SelectedPods(instance, []) == [];
  }

  lemma {:induction false} SharingOfTwo(instance: ClusterFlowConfig, a: ClusterFlowConfig, b: ClusterFlowConfig)
    ensures SameSelector(instance, [a, b]) ==
            (if SharesSelector(instance, a) then [a] else []) + (if SharesSelector(instance, b) then [b] else [])
  {
    assert [a, b][..1] == [a] && [a][..0] == [] && SameSelector(instance, []) == [];
  }

  /** Each of two configs with different labels lists only itself and its own pod. */
  lemma {:induction false} TwoApps(a: ClusterFlowConfig, b: ClusterFlowConfig, x: string, y: string, pod: Pod, pod': Pod)
    requires a == ForApp(a.id, x, a.rules) && b == ForApp(b.id, y, b.rules) && x != y
    requires a.id.namespace == b.id.namespace == pod.id.namespace == pod'.id.namespace
    requires pod.labels == map["app" := x] && pod'.labels == map["app" := y]
    ensures SameSelector(a, [a, b]) == [a] && SelectedPods(a, [pod, pod']) == [pod]
    ensures SameSelector(b, [a, b]) == [b] && SelectedPods(b, [pod, pod']) == [pod']
  {
    ForAppPrintsApart(a, b, x, y);
    ForAppPrintsApart(b, a, y, x);
    ForAppSelects(a.id, x, a.rules, pod);
    ForAppSelects(a.id, x, a.rules, pod');
    ForAppSelects(b.id, y, b.rules, pod);
    ForAppSelects(b.id, y, b.rules, pod');
    SharingOfTwo(a, a, b);
    SharingOfTwo(b, a, b);
    SelectedOfTwo(a, pod, pod');
    SelectedOfTwo(b, pod, pod');
  }

  /** A sync of one config with one rule for one pod, on a node with rules of another config. */
  lemma {:induction false} SyncOfAnother(
      c: Codec, s: ClusterState, config: ClusterFlowConfig, last: Pod, rule': ClusterFlowRule,
      rule: ClusterFlowRule, pod: Pod, other: NamespacedName)
    requires c.Valid() && last.nodeName != "" && config.rules == [rule'] && other != config.id
    requires ClusterActionsAccepted(c, rule.action) && BuildRule(c, rule, pod).Some?
    requires ClusterActionsAccepted(c, rule'.action) && BuildRule(c, rule', last).Some?
    requires !Counterparts(c, rule, pod, rule', last)
    ensures var n := NamespacedName(config.id.namespace, last.nodeName);
            var s' := SyncState(c, s, CALM, config.id.namespace, [config], [last]);
            && n in s'.nodes && BuildRule(c, rule, pod).value !in s'.nodes[n]
            && Entry(s'.index, other, n) == Entry(s.index, other, n)
  {
    var n := NamespacedName(config.id.namespace, last.nodeName);
    assert !InList([config], other);
    EntryOutsideGather(c, CALM, config.id.namespace, [config], s.index, [last], other, n);
    OneOrTwoConfigs(config, config);
    OneRuleBuilt(c, rule', last);
    OnePod(c, [], [config], last);
    RuleOnNodeIff(c, s, CALM, config.id.namespace, [config], [last], n, last, rule, pod);
  }

  /** Two configs with different selectors whose pods run on one node: the sync of the second takes the
      rule of the first off the node, and the index still lists it. */
  lemma {:induction false} OtherSelectorLosesItsRule(
      c: Codec, a: ClusterFlowConfig, b: ClusterFlowConfig, x: string, y: string, pod: Pod, pod': Pod,
      rule: ClusterFlowRule, rule': ClusterFlowRule)
    requires c.Valid() && a == ForApp(a.id, x, [rule]) && b == ForApp(b.id, y, [rule']) && x != y && a.id != b.id
    requires a.id.namespace == b.id.namespace == pod.id.namespace == pod'.id.namespace
    requires pod.labels == map["app" := x] && pod'.labels == map["app" := y]
    requires pod.nodeName == pod'.nodeName != ""
    requires ClusterActionsAccepted(c, rule.action) && BuildRule(c, rule, pod).Some?
    requires ClusterActionsAccepted(c, rule'.action) && BuildRule(c, rule', pod').Some?
    requires !Counterparts(c, rule, pod, rule', pod')
    ensures var ns, n := a.id.namespace, NamespacedName(a.id.namespace, pod.nodeName);
            var s := SyncState(c, EMPTY_CLUSTER, CALM, ns, SameSelector(a, [a, b]), SelectedPods(a, [pod, pod']));
            var s' := SyncState(c, s, CALM, ns, SameSelector(b, [a, b]), SelectedPods(b, [pod, pod']));
            && n in s.nodes && BuildRule(c, rule, pod).value in s.nodes[n]
            && n in s'.nodes && BuildRule(c, rule, pod).value !in s'.nodes[n]
            && Entry(s'.index, a.id, n) == [RuleSha256(BuildRule(c, rule, pod).value)]
  {
    TwoApps(a, b, x, y, pod, pod');
    FirstSync(c, rule, pod, a);
    SyncOfAnother(c, SyncState(c, EMPTY_CLUSTER, CALM, a.id.namespace, [a], [pod]), b, pod', rule', rule, pod, a.id);
  }
}
