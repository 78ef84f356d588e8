/** The tiers put together: what the cluster tier emits is admitted by the node webhook, what is
    admitted translates, and what is translated is what the hardware ends up with. */
module Pipeline {

  import opened Wrappers
  import opened FlowTypes
  import opened FlowSets
  import opened Dcf
  import opened Translation
  import opened Admission
  import opened ClusterTypes
  import opened ClusterMerge
  import opened ClusterSync
  import opened NodeSync

  // ---------------------------------------------------------------------- emitted rules are admitted

  /** The addresses in the pod's network status have the form that the webhook looks for. */
  predicate WellFormedAddresses(pod: Pod) {
    pod.networks.Networks? ==>
      forall network :: network in pod.networks.list && network.pciAddress.Some? && network.pciAddress.value != "" ==>
        ContainsPciAddress(network.pciAddress.value)
  }

  lemma {:induction false} FoundAddressIsWellFormed(networks: seq<NetworkStatus>, iface: string)
    requires forall network :: network in networks && network.pciAddress.Some? && network.pciAddress.value != "" ==>
               ContainsPciAddress(network.pciAddress.value)
    ensures PciAddressFor(networks, iface) == "" || ContainsPciAddress(PciAddressFor(networks, iface))
  {
    if networks != [] {
      assert networks[0] in networks;
      FoundAddressIsWellFormed(networks[1..], iface);
    }
  }

  lemma EmittedActionAdmitted(c: Codec, action: ClusterFlowAction, pod: Pod)
    requires c.Valid() && WellFormedAddresses(pod)
    requires ValidateClusterAction(c, action) == Accept && NodeAction(c, action, pod).Some?
    ensures var emitted := NodeAction(c, action, pod).value;
            emitted.name == VfPciAddr && ValidateAction(c, emitted) == Accept
  {
    var iface := c.decodePodInterface(action.conf.value).value;
    var addr := PciAddressFor(pod.networks.list, iface);
    FoundAddressIsWellFormed(pod.networks.list, iface);
    assert c.decodePciAddr(c.encodePciAddr(addr)) == Some(addr);
    assert c.decodeVf(VfIdJson(0)) == Some(VfConf(0, 0, 0));
    assert GetFlowActionAny(c, Action(A_VF), VfIdJson(0), None) == Success(VfMsg(VfConf(0, 0, 0)));
  }

  lemma {:induction false} EmittedActionsAdmitted(c: Codec, actions: seq<ClusterFlowAction>, pod: Pod)
    requires c.Valid() && WellFormedAddresses(pod)
    requires ClusterActionsAccepted(c, actions) && ConvertActions(c, actions, pod).Some?
    ensures ActionsVerdict(c, ConvertActions(c, actions, pod).value) == Accept
    ensures |ConvertActions(c, actions, pod).value| == |actions|
  {
    if actions != [] {
      var before, last := actions[..|actions| - 1], actions[|actions| - 1];
      EmittedActionsAdmitted(c, before, pod);
      EmittedActionAdmitted(c, last, pod);
      var converted := ConvertActions(c, actions, pod).value;
      assert converted[..|converted| - 1] == ConvertActions(c, before, pod).value;
    }
  }

  lemma {:induction false} ConvertedPositions(c: Codec, actions: seq<ClusterFlowAction>, pod: Pod)
    requires ConvertActions(c, actions, pod).Some?
    ensures var converted := ConvertActions(c, actions, pod).value;
            && |converted| == |actions|
            && forall i :: 0 <= i < |actions| ==> NodeAction(c, actions[i], pod) == Some(converted[i])
  {
    if actions != [] {
      ConvertedPositions(c, actions[..|actions| - 1], pod);
    }
  }

  /** Every rule that the cluster webhook accepts becomes, on any pod for which it can be built, a
      rule that the node webhook accepts: addresses, appended END action, pattern and attribute. */
  lemma EmittedRuleAdmitted(c: Codec, rule: ClusterFlowRule, pod: Pod)
    requires c.Valid() && WellFormedAddresses(pod)
    requires ClusterRuleVerdict(c, rule) == Accept && BuildRule(c, rule, pod).Some?
    ensures NodeRuleVerdict(c, BuildRule(c, rule, pod).value) == Accept
  {
    EmittedActionsAdmitted(c, rule.action, pod);
    var converted, fr := ConvertActions(c, rule.action, pod).value, BuildRule(c, rule, pod).value;
    if converted != [] {
      assert fr.action[..|fr.action| - 1] == converted;
      assert ValidateAction(c, FlowAction(Action(A_END), None)) == Accept;
    }
  }

  /** Any rule that is built keeps the attribute and the pattern and asks for an automatic port. Action by
      action it carries the address of the interface named there, or the action as it was; and a
      non-empty list is closed by END. */
  lemma EmittedRuleShape(c: Codec, rule: ClusterFlowRule, pod: Pod)
    requires c.Valid() && BuildRule(c, rule, pod).Some?
    ensures var fr := BuildRule(c, rule, pod).value;
            && fr.portId == AUTOMATIC_PORT_ID && fr.attr == rule.attr && fr.pattern == rule.pattern
            && |fr.action| == (if rule.action == [] then 0 else |rule.action| + 1)
            && (fr.action != [] ==> fr.action[|fr.action| - 1] == FlowAction(Action(A_END), None))
            && forall i :: 0 <= i < |rule.action| ==> ActionEmitted(c, rule.action[i], pod, fr.action[i])
  {
    ConvertedPositions(c, rule.action, pod);
    var fr := BuildRule(c, rule, pod).value;
    forall i | 0 <= i < |rule.action| ensures ActionEmitted(c, rule.action[i], pod, fr.action[i]) {
      assert NodeAction(c, rule.action[i], pod) == Some(fr.action[i]);
    }
  }

  predicate ActionEmitted(c: Codec, action: ClusterFlowAction, pod: Pod, emitted: FlowAction) {
    match action.actionType
    case ToPodInterface => CarriesAddress(c, action, pod, emitted)
    case RteType(t) => emitted.name == Action(t) && emitted.conf == action.conf
    case OtherNumber(_) => emitted.name.UnknownAction? && emitted.conf == action.conf
  }

  predicate CarriesAddress(c: Codec, action: ClusterFlowAction, pod: Pod, emitted: FlowAction) {
    && action.conf.Some? && c.decodePodInterface(action.conf.value).Some? && pod.networks.Networks?
    && emitted.name == VfPciAddr
    && PciAddressOf(c, emitted) == PciAddressFor(pod.networks.list, c.decodePodInterface(action.conf.value).value)
  }

  lemma {:induction false} ConvertsIff(c: Codec, actions: seq<ClusterFlowAction>, pod: Pod)
    ensures ConvertActions(c, actions, pod).Some? <==>
            forall i :: 0 <= i < |actions| ==> NodeAction(c, actions[i], pod).Some?
  {
    if actions != [] {
      ConvertsIff(c, actions[..|actions| - 1], pod);
    }
  }

  /** When an accepted cluster rule can be built for a pod: exactly when the pod reports an address
      for every interface that the rule names. */
  lemma AcceptedRuleBuildsIff(c: Codec, rule: ClusterFlowRule, pod: Pod)
    requires ClusterRuleVerdict(c, rule) == Accept
    ensures BuildRule(c, rule, pod).Some? <==>
            forall i :: 0 <= i < |rule.action| ==>
              && pod.networks.Networks?
              && PciAddressFor(pod.networks.list, c.decodePodInterface(rule.action[i].conf.value).value) != ""
  {
    ConvertsIff(c, rule.action, pod);
    forall i | 0 <= i < |rule.action|
      ensures NodeAction(c, rule.action[i], pod).Some? <==>
              && pod.networks.Networks?
              && PciAddressFor(pod.networks.list, c.decodePodInterface(rule.action[i].conf.value).value) != ""
    {
      assert ValidateClusterAction(c, rule.action[i]) == Accept;
    }
  }

  /** From the cluster webhook to the DCF: an accepted cluster rule, built for a pod, is translated
      on the node unless a VF, its physical function or the DCF port cannot be found. */
  lemma EmittedRuleTranslatesIff(
      c: Codec, sriov: Sriov, ports: Option<seq<PortInformation>>, rule: ClusterFlowRule, pod: Pod)
    requires c.Valid() && VfIndexesFit(sriov) && WellFormedAddresses(pod)
    requires ClusterRuleVerdict(c, rule) == Accept && BuildRule(c, rule, pod).Some?
    ensures var fr := BuildRule(c, rule, pod).value;
            Translate(c, sriov, ports, fr).Success? <==>
            && (forall i :: 0 <= i < |fr.action| ==> VfResolves(c, sriov, fr.action[i]))
            && PortOf(sriov, ports, FirstPciAddress(c, fr.action)).Success?
  {
    EmittedRuleAdmitted(c, rule, pod);
    AdmittedRuleTranslatesIff(c, sriov, ports, BuildRule(c, rule, pod).value);
  }

  // ---------------------------------------------------------------------- end to end

  /** The rules that are live in the hardware. */
  function LiveRules(hw: Hardware): set<RequestFlowCreate> {
    set slot | slot in hw :: hw[slot]
  }

  predicate NoRuleTwice(hw: Hardware) {
    forall slot, slot' :: slot in hw && slot' in hw && hw[slot] == hw[slot'] ==> slot == slot'
  }

  lemma LedgerRules(s: NodeState, orphans: set<Slot>)
    requires Ledger(s, orphans)
    ensures forall r :: r in LiveRules(s.hw - orphans) <==> Sha256(r) in s.cache
    ensures NoRuleTwice(s.hw - orphans)
  {
    var own := s.hw - orphans;
    assert own.Keys == Slots(s.cache);
    forall r | r in LiveRules(own) ensures Sha256(r) in s.cache {
      var slot :| slot in own && own[slot] == r;
      assert slot in Slots(s.cache);
    }
    forall r | Sha256(r) in s.cache ensures r in LiveRules(own) {
      var slot := SlotOf(s.cache[Sha256(r)]);
      assert slot in Slots(s.cache) && own[slot] == r;
    }
    forall slot, slot' | slot in own && slot' in own && own[slot] == own[slot'] ensures slot == slot' {
      assert slot in Slots(s.cache) && slot' in Slots(s.cache);
    }
  }

  /** A successful node sync leaves exactly the translated rules live, each of them once, beside the
      flows that the cache does not record and those whose Destroy was refused. */
  lemma SyncInstallsExactly(reqs: seq<RequestFlowCreate>, s: NodeState, orphans: set<Slot>, ops: seq<Op>)
    requires Ledger(s, orphans) && SyncRun(Keys(reqs), s, ops, true)
    ensures var own := Exec(s, ops).hw - (orphans + Leaked(ops));
            LiveRules(own) == (set r | r in reqs) && NoRuleTwice(own)
    ensures orphans + Leaked(ops) <= Exec(s, ops).hw.Keys
  {
    var end, rest := Exec(s, ops), orphans + Leaked(ops);
    LedgerRun(Keys(reqs), s, orphans, ops);
    LedgerRules(end, rest);
    forall r ensures r in LiveRules(end.hw - rest) <==> r in reqs {
      assert r in LiveRules(end.hw - rest) <==> Sha256(r) in end.cache;
    }
  }

  /** A node that starts with an empty cache on any hardware: any rounds of reconciles, then a
      successful sync for the requests. The DCF may refuse anything on the way. */
  predicate NodeSynced(hw: Hardware, reqs: seq<RequestFlowCreate>, rounds: seq<Round>, ops: seq<Op>) {
    && LegalRounds(NodeState(map[], hw), rounds)
    && SyncRun(Keys(reqs), ExecRounds(NodeState(map[], hw), rounds), ops, true)
  }

  function HardwareAfter(hw: Hardware, rounds: seq<Round>, ops: seq<Op>): Hardware {
    Exec(ExecRounds(NodeState(map[], hw), rounds), ops).hw
  }

  /** The flows that were there from the start, and those whose Destroy was refused at any time. */
  function LeftOver(hw: Hardware, rounds: seq<Round>, ops: seq<Op>): set<Slot> {
    hw.Keys + LeakedIn(rounds) + Leaked(ops)
  }

  /** The live flows beside those. */
  function OwnFlows(hw: Hardware, rounds: seq<Round>, ops: seq<Op>): Hardware {
    HardwareAfter(hw, rounds, ops) - LeftOver(hw, rounds, ops)
  }

  lemma SyncedNode(hw: Hardware, reqs: seq<RequestFlowCreate>, rounds: seq<Round>, ops: seq<Op>)
    requires NodeSynced(hw, reqs, rounds, ops)
    ensures LiveRules(OwnFlows(hw, rounds, ops)) == set r | r in reqs
    ensures NoRuleTwice(OwnFlows(hw, rounds, ops))
    ensures LeftOver(hw, rounds, ops) <= HardwareAfter(hw, rounds, ops).Keys
  {
    LedgerRounds(NodeState(map[], hw), hw.Keys, rounds);
    SyncInstallsExactly(reqs, ExecRounds(NodeState(map[], hw), rounds), hw.Keys + LeakedIn(rounds), ops);
  }

  /** When every Destroy took effect on hardware that was empty at the start, that is everything. */
  lemma OwnFlowsAreAll(rounds: seq<Round>, ops: seq<Op>)
    requires LeakedIn(rounds) == {} && DestroysTakeEffect(ops)
    ensures OwnFlows(map[], rounds, ops) == HardwareAfter(map[], rounds, ops)
  {
    NothingLeaks(ops);
    assert LeftOver(map[], rounds, ops) == {};
  }

  /** The rules that the node controller reads; none if the object does not exist. */
  function RulesOn(cluster: ClusterState, n: NamespacedName): seq<FlowRules> {
    if n in cluster.nodes then cluster.nodes[n] else []
  }

  /** End to end: whatever reconciles went before and whatever the DCF refused, after a cluster sync
      that stores a node's rules and a successful node sync the node's own flows carry exactly the
      translations of the rules of all configs in the list, built for the last pod on that node as
      far as they can be built for it, and no rule is installed twice. Own flows are all but those
      that were live at the start and those whose Destroy was refused. */
  lemma HardwareMatchesClusterConfigs(
      c: Codec, sriov: Sriov, ports: Option<seq<PortInformation>>,
      cluster: ClusterState, api: ApiConditions, ns: string, list: seq<ClusterFlowConfig>, pods: seq<Pod>,
      n: NamespacedName, pod: Pod, hw: Hardware, reqs: seq<RequestFlowCreate>, rounds: seq<Round>, ops: seq<Op>)
    requires IsGathered(c, api, ns, list, pods, n) && api.AnswerFor(n) == Written
    requires LastPodOn(pods, n.name) == Some(pod)
    requires TranslateAll(c, sriov, ports, RulesOn(SyncState(c, cluster, api, ns, list, pods), n)) == Success(reqs)
    requires NodeSynced(hw, reqs, rounds, ops)
    ensures forall r :: r in Built(c, AllRules(list), pod) ==> Translate(c, sriov, ports, r).Success?
    ensures forall q :: q in LiveRules(OwnFlows(hw, rounds, ops)) <==>
              exists r :: r in Built(c, AllRules(list), pod) && Translate(c, sriov, ports, r) == Success(q)
    ensures NoRuleTwice(OwnFlows(hw, rounds, ops))
  {
    SyncStoresLastPodsRules(c, cluster, api, ns, list, pods, n);
    SyncedNode(hw, reqs, rounds, ops);
    TranslatedSet(c, sriov, ports, Built(c, AllRules(list), pod), reqs);
  }

  /** What one cluster rule becomes for a pod: the node rule built from it, translated. */
  function OnWire(
      c: Codec, sriov: Sriov, ports: Option<seq<PortInformation>>, rule: ClusterFlowRule, pod: Pod)
    : Option<RequestFlowCreate>
  {
    match BuildRule(c, rule, pod)
    case None => None
    case Some(built) => match Translate(c, sriov, ports, built) case Failure(_) => None case Success(req) => Some(req)
  }

  lemma BuiltFrom(c: Codec, rules: seq<ClusterFlowRule>, pod: Pod, r: FlowRules)
    requires AllBuilt(c, rules, pod)
    ensures r in Built(c, rules, pod) <==> exists rule :: rule in rules && BuildRule(c, rule, pod) == Some(r)
  {
    var built := Built(c, rules, pod);
    if r in built {
      var i :| 0 <= i < |built| && built[i] == r;
      BuiltMember(c, rules, pod, i);
      assert rules[i] in rules;
    }
    if rule :| rule in rules && BuildRule(c, rule, pod) == Some(r) {
      var i :| 0 <= i < |rules| && rules[i] == rule;
      BuiltMember(c, rules, pod, i);
      assert built[i] in built;
    }
  }

  /** When every rule can be built for that pod, the own flows carry the images of all the rules of all
      the configs (AcceptedRuleBuildsIff says when an admitted rule can be built). */
  lemma HardwareMatchesEveryRule(
      c: Codec, sriov: Sriov, ports: Option<seq<PortInformation>>,
      cluster: ClusterState, api: ApiConditions, ns: string, list: seq<ClusterFlowConfig>, pods: seq<Pod>,
      n: NamespacedName, pod: Pod, hw: Hardware, reqs: seq<RequestFlowCreate>, rounds: seq<Round>, ops: seq<Op>)
    requires list != [] && Reachable(api, ns, n) && api.AnswerFor(n) == Written
    requires LastPodOn(pods, n.name) == Some(pod)
    requires forall i :: 0 <= i < |AllRules(list)| ==> BuildRule(c, AllRules(list)[i], pod).Some?
    requires TranslateAll(c, sriov, ports, RulesOn(SyncState(c, cluster, api, ns, list, pods), n)) == Success(reqs)
    requires NodeSynced(hw, reqs, rounds, ops)
    ensures forall rule :: rule in AllRules(list) ==> OnWire(c, sriov, ports, rule, pod).Some?
    ensures forall q :: q in LiveRules(OwnFlows(hw, rounds, ops)) <==>
              exists rule :: rule in AllRules(list) && OnWire(c, sriov, ports, rule, pod) == Some(q)
    ensures NoRuleTwice(OwnFlows(hw, rounds, ops))
  {
    var rules := AllRules(list);
    AllBuiltIff(c, rules, pod);
    LastPodConverts(c, list, pods, n.name);
    HardwareMatchesClusterConfigs(c, sriov, ports, cluster, api, ns, list, pods, n, pod, hw, reqs, rounds, ops);
    forall rule | rule in rules ensures OnWire(c, sriov, ports, rule, pod).Some? {
      var i :| 0 <= i < |rules| && rules[i] == rule;
      BuiltFrom(c, rules, pod, BuildRule(c, rule, pod).value);
    }
    forall q ensures q in LiveRules(OwnFlows(hw, rounds, ops)) <==>
                     exists rule :: rule in rules && OnWire(c, sriov, ports, rule, pod) == Some(q)
    {
      if r :| r in Built(c, rules, pod) && Translate(c, sriov, ports, r) == Success(q) {
        BuiltFrom(c, rules, pod, r);
        var rule :| rule in rules && BuildRule(c, rule, pod) == Some(r);
        assert OnWire(c, sriov, ports, rule, pod) == Some(q);
      }
      if rule :| rule in rules && OnWire(c, sriov, ports, rule, pod) == Some(q) {
        BuiltFrom(c, rules, pod, BuildRule(c, rule, pod).value);
      }
    }
  }

  /** The end of the chain: after any run of the cluster controller from an empty cluster and a clean
      of each config that is left, all that a successful sync of any node leaves live is what was
      live at the start and what the DCF refused to destroy. */
  lemma NothingLiveAfterCleanup(
      c: Codec, sriov: Sriov, ports: Option<seq<PortInformation>>,
      states: seq<ClusterState>, events: seq<Event>, later: seq<ClusterState>, cleans: seq<Event>,
      n: NamespacedName, hw: Hardware, reqs: seq<RequestFlowCreate>, rounds: seq<Round>, ops: seq<Op>)
    requires SmoothRun(c, states, events) && states[0] == EMPTY_CLUSTER
    requires SmoothRun(c, later, cleans) && later[0] == states[|events|]
    requires CleansAll(later[0], cleans)
    requires TranslateAll(c, sriov, ports, RulesOn(later[|cleans|], n)) == Success(reqs)
    requires NodeSynced(hw, reqs, rounds, ops)
    ensures HardwareAfter(hw, rounds, ops).Keys == LeftOver(hw, rounds, ops)
  {
    AllCleanedAllEmpty(c, states, events, later, cleans);
    assert reqs == [];
    SyncedNode(hw, reqs, rounds, ops);
    NoLiveRules(HardwareAfter(hw, rounds, ops), LeftOver(hw, rounds, ops));
  }

  lemma NoLiveRules(hw: Hardware, rest: set<Slot>)
    requires LiveRules(hw - rest) == {} && rest <= hw.Keys
    ensures hw.Keys == rest
  {
    var own := hw - rest;
    assert forall slot :: slot in own ==> own[slot] in LiveRules(own);
    assert forall slot :: slot in hw && slot !in rest ==> slot in own;
  }

  /** Translating the duplicate-free list translates the set of rules. */
  lemma TranslatedSet(
      c: Codec, sriov: Sriov, ports: Option<seq<PortInformation>>, built: seq<FlowRules>, reqs: seq<RequestFlowCreate>)
    requires TranslateAll(c, sriov, ports, Distinct(built)) == Success(reqs)
    ensures forall r :: r in built ==> Translate(c, sriov, ports, r).Success?
    ensures forall q :: q in reqs <==> exists r :: r in built && Translate(c, sriov, ports, r) == Success(q)
  {
    var distinct := Distinct(built);
    DistinctMembers(built);
    RulesCorrespond(c, sriov, ports, distinct);
    forall r | r in built ensures Translate(c, sriov, ports, r).Success? && Translate(c, sriov, ports, r).value in reqs {
      assert r in distinct;
      var i :| 0 <= i < |distinct| && distinct[i] == r;
      assert reqs[i] in reqs;
    }
    forall q | q in reqs ensures exists r :: r in built && Translate(c, sriov, ports, r) == Success(q) {
      var i :| 0 <= i < |reqs| && reqs[i] == q;
      assert distinct[i] in distinct;
      assert distinct[i] in built;
    }
  }
}
