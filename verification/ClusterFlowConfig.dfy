/** The cluster controller (controllers/flowconfig/clusterflowconfig_controller.go). Its methods are
    proved to perform the operations of module ClusterSync. */
module ClusterFlowConfig {

  import opened Wrappers
  import opened FlowTypes
  import opened Translation
  import opened ClusterTypes
  import opened ClusterMerge
  import opened ClusterSync

  /** A NodeFlowConfig in the controller's memory, written to the API server later. */
  class NodeFlowConfig {
    const key: NamespacedName
    var rules: seq<FlowRules>

    constructor (key: NamespacedName, rules: seq<FlowRules>)
      ensures this.key == key && this.rules == rules
    {
      this.key, this.rules := key, rules;
    }
  }

  datatype GetAnswer = Got(rules: seq<FlowRules>) | NotFound | GetError

  datatype FetchedConfig = FoundConfig(config: ClusterFlowConfig) | ConfigNotFound | ConfigReadError

  class ApiServer {
    var nodeConfigs: map<NamespacedName, seq<FlowRules>>
    var pods: seq<Pod>
    var clusterConfigs: seq<ClusterFlowConfig>
    var listsPods: bool
    var listsConfigs: bool
    var conditions: ApiConditions

    /** What List returns; None is an error. */
    function ListedPods(): Option<seq<Pod>>
      reads this
    {
      if listsPods then Some(pods) else None
    }

    function ListedConfigs(): Option<seq<ClusterFlowConfig>>
      reads this
    {
      if listsConfigs then Some(clusterConfigs) else None
    }

    method Get(key: NamespacedName) returns (answer: GetAnswer)
      ensures answer ==
              if key in conditions.unreadable then GetError
              else if key in nodeConfigs then Got(nodeConfigs[key]) else NotFound
    {
      answer := if key in conditions.unreadable then GetError
                else if key in nodeConfigs then Got(nodeConfigs[key]) else NotFound;
    }

    /** Update or Create: what is stored afterwards is the given list, unless the write is refused. */
    method Write(key: NamespacedName, rules: seq<FlowRules>) returns (answer: WriteAnswer)
      modifies this`nodeConfigs
      ensures answer == conditions.AnswerFor(key)
      ensures nodeConfigs == if answer == Written then old(nodeConfigs)[key := rules] else old(nodeConfigs)
    {
      answer := conditions.AnswerFor(key);
      if answer == Written {
        nodeConfigs := nodeConfigs[key := rules];
      }
    }
  }

  /** The compaction loop of a clean: the kept rules move to the front of the same array. */
  method Compact(rules: array<FlowRules>, hashes: seq<RuleKey>) returns (index: nat)
    modifies rules
    ensures index <= rules.Length
    ensures rules[..index] == Without(old(rules[..]), hashes)
  {
    index := 0;
    ghost var was := rules[..];
    for i := 0 to rules.Length
      invariant index <= i
      invariant rules[..index] == Without(was[..i], hashes)
      invariant rules[i..] == was[i..]
    {
      var rule := rules[i];
      assert rule == rules[i..][0] == was[i];
      assert was[..i + 1] == was[..i] + [rule];
      WithoutSnoc(was[..i], rule, hashes);
      assert rules[i + 1..] == rules[i..][1..] && was[i + 1..] == was[i..][1..];
      if RuleSha256(rule) !in hashes {
        rules[index] := rule;
        index := index + 1;
      }
    }
    assert was[..rules.Length] == was;
  }

  class ClusterFlowConfigReconciler {
    const api: ApiServer
    const codec: Codec
    var index: Index

    constructor (api: ApiServer, codec: Codec)
      ensures this.api == api && this.codec == codec && index == map[]
    {
      this.api, this.codec := api, codec;
      index := map[];
    }

    ghost function State(): ClusterState
      reads this, api
    {
      ClusterState(api.nodeConfigs, index)
    }

    /** The loop that filters the configs of the namespace; None if they cannot be listed. */
    method GetClusterFlowConfigsForPodSelector(instance: ClusterFlowConfig) returns (out: Option<seq<ClusterFlowConfig>>)
      requires Convertible(instance.podSelector)
      ensures out == if api.listsConfigs then Some(SameSelector(instance, api.clusterConfigs)) else None
    {
      if !api.listsConfigs {
        return None;
      }
      var items: seq<ClusterFlowConfig> := [];
      for i := 0 to |api.clusterConfigs|
        invariant items == SameSelector(instance, api.clusterConfigs[..i])
      {
        var cr := api.clusterConfigs[i];
        assert api.clusterConfigs[..i + 1][..i] == api.clusterConfigs[..i];
        if cr.id.namespace == instance.id.namespace {
          if Convertible(cr.podSelector) {
            if PrintAlike(cr.podSelector, instance.podSelector) {
              items := items + [cr];
            }
          }
        }
      }
      assert api.clusterConfigs[..|api.clusterConfigs|] == api.clusterConfigs;
      out := Some(items);
    }

    /** What one reconcile does to the state, if anything. */
    predicate Reconciled(
        s: ClusterState, conditions: ApiConditions, pods: Option<seq<Pod>>, configs: Option<seq<ClusterFlowConfig>>,
        id: NamespacedName, fetched: FetchedConfig, swept: set<NamespacedName>, error: bool, s': ClusterState)
    {
      match fetched
      case ConfigReadError => error && s' == s
      case ConfigNotFound => CleanStep(s, conditions, id, swept, !error, s')
      case FoundConfig(config) =>
        if !Convertible(config.podSelector) || pods.None? then error && s' == s
        else
          var selected := SelectedPods(config, pods.value);
          if selected == [] then CleanStep(s, conditions, config.id, swept, !error, s')
          else if configs.None? then error && s' == s
          else
            var list := SameSelector(config, configs.value);
            !error && s' == SyncState(codec, s, conditions, config.id.namespace, list, selected)
    }

    /** That is one step of the runs that module ClusterSync speaks of, or no change. */
    lemma ReconciledIsStep(
        s: ClusterState, conditions: ApiConditions, pods: Option<seq<Pod>>, configs: Option<seq<ClusterFlowConfig>>,
        id: NamespacedName, fetched: FetchedConfig, swept: set<NamespacedName>, error: bool, s': ClusterState)
      returns (e: Event)
      requires Reconciled(s, conditions, pods, configs, id, fetched, swept, error, s')
      requires configs.Some? ==> DistinctIds(configs.value)
      ensures s' == s || Step(codec, s, e, s')
    {
      e := Cleaned(conditions, id, swept, !error);
      if fetched.FoundConfig? && s' != s {
        var config, selected := fetched.config, SelectedPods(fetched.config, pods.value);
        if selected == [] {
          e := Cleaned(conditions, config.id, swept, !error);
        } else {
          SameSelectorMembers(config, configs.value);
          e := Synced(conditions, config.id.namespace, SameSelector(config, configs.value), selected);
        }
      }
    }

    /** The config has no entry left, and none of its rules is left on a node that could be read and
        written. Other entries and other nodes are as they were. */
    ghost predicate IsCleaned(before: ClusterState, id: NamespacedName)
      reads this, api
    {
      && index == before.index - {id}
      && api.nodeConfigs.Keys == before.nodes.Keys
      && forall n :: n in before.nodes ==>
           if id in before.index && n in before.index[id]
              && n !in api.conditions.unreadable && api.conditions.AnswerFor(n) == Written
           then forall r :: r in api.nodeConfigs[n] <==> r in before.nodes[n] && RuleSha256(r) !in before.index[id][n]
           else api.nodeConfigs[n] == before.nodes[n]
    }

    /** Some node that the config has an entry for is there and readable, and its update conflicts. */
    ghost predicate CleanConflicts(before: ClusterState, id: NamespacedName)
      reads this, api
    {
      id in before.index &&
      exists n :: n in before.index[id] && n in before.nodes && n !in api.conditions.unreadable
                  && api.conditions.AnswerFor(n) == Conflict
    }

    lemma CleanStepCleans(s: ClusterState, id: NamespacedName, swept: set<NamespacedName>)
      requires CleanStep(s, api.conditions, id, swept, true, State())
      ensures IsCleaned(s, id)
    {
      forall n | n in s.nodes && id in s.index && n in s.index[id] {
        WithoutMembers(s.nodes[n], s.index[id][n]);
      }
      forall n | n in ToSweep(s, api.conditions, id) ensures n in swept <==> api.conditions.AnswerFor(n) == Written {}
    }

    /** A config that cannot be read is tried again; one that is gone is cleaned; any other is
        synchronised. The error says whether the request is queued again. */
    method Reconcile(id: NamespacedName, fetched: FetchedConfig) returns (error: bool, ghost swept: set<NamespacedName>)
      requires fetched.FoundConfig? ==> fetched.config.id == id
      modifies this, api`nodeConfigs
      ensures Reconciled(old(State()), api.conditions, api.ListedPods(), api.ListedConfigs(), id, fetched, swept, error, State())
      ensures DistinctIds(api.clusterConfigs) ==>
                State() == old(State()) || exists e :: Step(codec, old(State()), e, State())
      ensures fetched.ConfigNotFound? && !error ==> IsCleaned(old(State()), id)
      ensures fetched.ConfigNotFound? ==> (error <==> CleanConflicts(old(State()), id))
      ensures fetched.FoundConfig? && SelectedPods(fetched.config, api.pods) == [] && !error ==>
                IsCleaned(old(State()), id)
    {
      error, swept := true, {};
      match fetched {
        case ConfigReadError =>
        case ConfigNotFound => error, swept := CleanNodeFlowConfig(id);
        case FoundConfig(config) => error, swept := SyncClusterConfigForNodes(config);
      }
      if !error && (fetched.ConfigNotFound? || (api.listsPods && SelectedPods(fetched.config, api.pods) == [])) {
        CleanStepCleans(old(State()), id, swept);
      }
      if DistinctIds(api.clusterConfigs) {
        ghost var e := ReconciledIsStep(old(State()), api.conditions, api.ListedPods(), api.ListedConfigs(),
                                        id, fetched, swept, error, State());
      }
    }

    method CleanNodeFlowConfig(id: NamespacedName) returns (conflict: bool, ghost swept: set<NamespacedName>)
      modifies this, api`nodeConfigs
      ensures CleanStep(old(State()), api.conditions, id, swept, !conflict, State())
    {
      swept := {};
      assert api.nodeConfigs == Swept(old(api.nodeConfigs), if id in index then index[id] else map[], swept);
      if id in index {
        var nodeConfigs := index[id];
        var pending := nodeConfigs.Keys;
        while pending != {}
          invariant pending <= nodeConfigs.Keys
          invariant index == old(index)
          invariant swept <= ToSweep(old(State()), api.conditions, id) - pending
          invariant forall n :: n in swept ==> api.conditions.AnswerFor(n) == Written
          invariant forall n :: n in ToSweep(old(State()), api.conditions, id) - swept - pending ==>
                      api.conditions.AnswerFor(n) == WriteFailed
          invariant api.nodeConfigs == Swept(old(api.nodeConfigs), nodeConfigs, swept)
        {
          var config :| config in pending;
          assert config in api.nodeConfigs ==> api.nodeConfigs[config] == old(api.nodeConfigs)[config];
          var answer := SweepNode(config, nodeConfigs[config]);
          if answer == Some(Conflict) {
            assert config in ToSweep(old(State()), api.conditions, id);
            conflict := true;
            return;
          }
          if answer == Some(Written) {
            SweptOneMore(old(api.nodeConfigs), nodeConfigs, swept, config);
            swept := swept + {config};
          }
          pending := pending - {config};
        }
      }
      index := index - {id};
      conflict := false;
    }

    lemma SweptOneMore(
        nodes: map<NamespacedName, seq<FlowRules>>, entry: map<NamespacedName, seq<RuleKey>>,
        swept: set<NamespacedName>, n: NamespacedName)
      requires n in nodes && n in entry
      ensures Swept(nodes, entry, swept + {n}) == Swept(nodes, entry, swept)[n := Without(nodes[n], entry[n])]
    {}

    /** One turn of the loop of a clean: nothing for an object that cannot be read. */
    method SweepNode(config: NamespacedName, hashes: seq<RuleKey>) returns (answer: Option<WriteAnswer>)
      modifies api`nodeConfigs
      ensures answer == if config in old(api.nodeConfigs) && config !in api.conditions.unreadable
                        then Some(api.conditions.AnswerFor(config)) else None
      ensures api.nodeConfigs == if answer == Some(Written)
                                 then old(api.nodeConfigs)[config := Without(old(api.nodeConfigs)[config], hashes)]
                                 else old(api.nodeConfigs)
    {
      var stored := api.Get(config);
      if !stored.Got? {
        return None;
      }
      var rules := new FlowRules[|stored.rules|](i requires 0 <= i < |stored.rules| => stored.rules[i]);
      assert rules[..] == stored.rules;
      var kept := Compact(rules, hashes);
      var written := api.Write(config, rules[..kept]);
      answer := Some(written);
    }

    method SyncClusterConfigForNodes(instance: ClusterFlowConfig) returns (error: bool, ghost swept: set<NamespacedName>)
      modifies this, api`nodeConfigs
      ensures Reconciled(old(State()), api.conditions, api.ListedPods(), api.ListedConfigs(),
                         instance.id, FoundConfig(instance), swept, error, State())
    {
      error, swept := true, {};
      if !Convertible(instance.podSelector) || !api.listsPods {
        return;
      }
      var podList := SelectedPods(instance, api.pods);
      if |podList| == 0 {
        error, swept := CleanNodeFlowConfig(instance.id);
        return;
      }
      var clusterFlowList := GetClusterFlowConfigsForPodSelector(instance);
      if clusterFlowList.None? {
        return;
      }
      SyncPods(instance.id.namespace, podList, clusterFlowList.value);
      error := false;
    }

    /** The part of a sync once both lists are at hand. */
    method SyncPods(ns: string, podList: seq<Pod>, clusterFlowList: seq<ClusterFlowConfig>)
      modifies this, api`nodeConfigs
      ensures State() == SyncState(codec, old(State()), api.conditions, ns, clusterFlowList, podList)
    {
      var nodeToNodeFlowConfig: map<string, NodeFlowConfig> := map[];
      for i := 0 to |podList|
        invariant Holds(ns, nodeToNodeFlowConfig)
        invariant forall name :: name in nodeToNodeFlowConfig ==> fresh(nodeToNodeFlowConfig[name])
        invariant api.nodeConfigs == old(api.nodeConfigs)
        invariant Gathered(Contents(nodeToNodeFlowConfig), index) ==
                  GatherPods(codec, api.conditions, ns, clusterFlowList, old(index), podList[..i])
      {
        assert podList[..i + 1][..i] == podList[..i];
        nodeToNodeFlowConfig := SyncPod(podList[i], ns, clusterFlowList, nodeToNodeFlowConfig);
      }
      assert podList[..|podList|] == podList;
      CreateOrUpdateNodeFlowConfigs(ns, nodeToNodeFlowConfig);
    }

    /** One turn of the loop over pods. */
    method SyncPod(pod: Pod, ns: string, list: seq<ClusterFlowConfig>, objects: map<string, NodeFlowConfig>)
      returns (objects': map<string, NodeFlowConfig>)
      requires Holds(ns, objects)
      modifies this`index, objects.Values
      ensures Holds(ns, objects')
      ensures forall name :: name in objects' ==> objects'[name] in objects.Values || fresh(objects'[name])
      ensures Gathered(Contents(objects'), index) ==
              GatherPod(codec, api.conditions, ns, list, Gathered(old(Contents(objects)), old(index)), pod)
    {
      objects' := objects;
      var nodeName := pod.nodeName;
      if nodeName == "" {
        return;
      }
      var nodeFlowConfig := GetNodeFlowConfig(nodeName, ns, objects);
      if nodeFlowConfig == null {
        return;
      }
      objects' := UpdatePod(pod, nodeFlowConfig, ns, list, objects);
    }

    /** The rest of that turn, once the node's object is at hand. */
    method UpdatePod(pod: Pod, target: NodeFlowConfig, ns: string, list: seq<ClusterFlowConfig>, objects: map<string, NodeFlowConfig>)
      returns (objects': map<string, NodeFlowConfig>)
      requires Holds(ns, objects) && target.key == NamespacedName(ns, pod.nodeName)
      requires pod.nodeName in objects ==> target == objects[pod.nodeName]
      modifies this`index, target
      ensures Holds(ns, objects')
      ensures var ok := list != [] && AllBuilt(codec, AllRules(list), pod);
              && objects' == (if ok then objects[pod.nodeName := target] else objects)
              && Contents(objects') ==
                 if ok || (list != [] && pod.nodeName in objects)
                 then old(Contents(objects))[pod.nodeName := Distinct(Built(codec, AllRules(list), pod))]
                 else old(Contents(objects))
      ensures index == if list == [] then old(index)
                       else Entered(codec, old(index), list, pod, NamespacedName(ns, pod.nodeName))
    {
      forall name | name in objects && name != pod.nodeName ensures objects[name] != target {
        assert objects[name].key != target.key;
      }
      var ok := UpdateNodeFlowConfigSpec(pod, target, list);
      objects' := if ok then objects[pod.nodeName := target] else objects;
      ghost var before, after := old(Contents(objects)), Contents(objects');
      if pod.nodeName in objects' {
        OneEntryChanged(before, after, pod.nodeName);
        assert list == [] ==> after == before;
      } else {
        assert after == before;
      }
    }

    lemma OneEntryChanged(before: map<string, seq<FlowRules>>, after: map<string, seq<FlowRules>>, name: string)
      requires after.Keys == before.Keys + {name}
      requires forall other :: other in before && other != name ==> after[other] == before[other]
      ensures after == before[name := after[name]]
    {}

    /** Each object in the map is the one for its node. */
    ghost predicate Holds(ns: string, objects: map<string, NodeFlowConfig>) {
      forall name :: name in objects ==> objects[name].key == NamespacedName(ns, name)
    }

    /** The rules in the objects of the map. */
    ghost function Contents(objects: map<string, NodeFlowConfig>): map<string, seq<FlowRules>>
      reads set name | name in objects :: objects[name]
    {
      map name | name in objects :: objects[name].rules
    }

    /** The object already in the map, a copy of the stored one, or a new one. */
    method GetNodeFlowConfig(nodeName: string, ns: string, objects: map<string, NodeFlowConfig>)
      returns (target: NodeFlowConfig?)
      requires Holds(ns, objects)
      ensures target == null <==> nodeName !in objects && NamespacedName(ns, nodeName) in api.conditions.unreadable
      ensures nodeName in objects ==> target == objects[nodeName]
      ensures nodeName !in objects && target != null ==> fresh(target)
      ensures target != null ==> target.key == NamespacedName(ns, nodeName)
    {
      if nodeName in objects {
        return objects[nodeName];
      }
      var key := NamespacedName(ns, nodeName);
      var answer := api.Get(key);
      match answer {
        case Got(rules) => target := new NodeFlowConfig(key, rules);
        case NotFound => target := new NodeFlowConfig(key, []);
        case GetError => target := null;
      }
    }

    /** Rebuilds the object's rules from nothing for the pod and enters them in the index, config by
        config; gives up at the first rule that cannot be built. */
    method UpdateNodeFlowConfigSpec(pod: Pod, target: NodeFlowConfig, configs: seq<ClusterFlowConfig>) returns (ok: bool)
      modifies this`index, target
      ensures ok <==> configs != [] && AllBuilt(codec, AllRules(configs), pod)
      ensures configs == [] ==> index == old(index) && target.rules == old(target.rules)
      ensures configs != [] ==>
                && target.rules == Distinct(Built(codec, AllRules(configs), pod))
                && index == Entered(codec, old(index), configs, pod, target.key)
    {
      if |configs| == 0 {
        return false;
      }
      target.rules := [];
      for i := 0 to |configs|
        invariant AllBuilt(codec, AllRules(configs[..i]), pod)
        invariant target.rules == Distinct(Built(codec, AllRules(configs[..i]), pod))
        invariant index == Entered(codec, old(index), configs[..i], pod, target.key)
      {
        assert configs[..i + 1][..i] == configs[..i];
        ghost var done := AllRules(configs[..i]);
        assert AllRules(configs[..i + 1]) == done + configs[i].rules;
        BuiltConcat(codec, done, configs[i].rules, pod);
        BuiltBound(codec, configs[i].rules, pod);
        var built, hashes := AppendRules(pod, target, configs[i].rules, Built(codec, done, pod));
        if !built {
          BuildFailurePersists(codec, configs, pod, i + 1);
          EnteredPrefix(codec, old(index), configs, pod, target.key, i + 1);
          return false;
        }
        index := SetEntry(index, configs[i].id, target.key, hashes);
      }
      assert configs[..|configs|] == configs;
      ok := true;
    }

    /** The loop over the rules of one config. */
    method AppendRules(pod: Pod, target: NodeFlowConfig, rules: seq<ClusterFlowRule>, ghost before: seq<FlowRules>)
      returns (ok: bool, hashes: seq<RuleKey>)
      requires target.rules == Distinct(before)
      modifies target
      ensures ok <==> AllBuilt(codec, rules, pod)
      ensures target.rules == Distinct(before + Built(codec, rules, pod))
      ensures ok ==> hashes == KeysOf(Built(codec, rules, pod))
    {
      hashes := [];
      ghost var built: seq<FlowRules> := [];
      assert before + built == before;
      for i := 0 to |rules|
        invariant built == Built(codec, rules[..i], pod) && |built| == i
        invariant target.rules == Distinct(before + built)
        invariant hashes == KeysOf(built)
      {
        BuiltStep(codec, rules, pod, i);
        var newRule := AppendRule(pod, target, rules[i], before + built);
        if newRule.None? {
          return false, hashes;
        }
        KeysOfSnoc(built, newRule.value);
        assert before + (built + [newRule.value]) == (before + built) + [newRule.value];
        hashes := hashes + [RuleSha256(newRule.value)];
        built := built + [newRule.value];
      }
      assert rules[..|rules|] == rules;
      ok := true;
    }

    /** One turn of that loop: a rule that is already there is not appended again. */
    method AppendRule(pod: Pod, target: NodeFlowConfig, rule: ClusterFlowRule, ghost before: seq<FlowRules>)
      returns (newRule: Option<FlowRules>)
      requires target.rules == Distinct(before)
      modifies target
      ensures newRule == BuildRule(codec, rule, pod)
      ensures target.rules == Distinct(if newRule.None? then before else before + [newRule.value])
    {
      var actions := GetNodeActionsFromClusterActions(rule.action, pod);
      if actions.None? {
        return None;
      }
      var built := FlowRules(AUTOMATIC_PORT_ID, rule.attr, rule.pattern, actions.value);
      DistinctSnoc(before, built);
      if built !in target.rules {
        target.rules := target.rules + [built];
      }
      newRule := Some(built);
    }

    /** Converts each action and closes a non-empty list with END. */
    method GetNodeActionsFromClusterActions(actions: seq<ClusterFlowAction>, pod: Pod) returns (r: Option<seq<FlowAction>>)
      ensures r == NodeActions(codec, actions, pod)
    {
      var nodeActions: seq<FlowAction> := [];
      for i := 0 to |actions|
        invariant ConvertActions(codec, actions[..i], pod) == Some(nodeActions)
      {
        assert actions[..i + 1][..i] == actions[..i];
        var act := actions[i];
        match act.actionType {
          case ToPodInterface =>
            var nodeAction := GetNodeActionForPodInterface(act.conf, pod);
            if nodeAction.None? {
              ConvertPrefix(codec, actions, pod, i + 1);
              return None;
            }
            nodeActions := nodeActions + [nodeAction.value];
          case RteType(t) =>
            nodeActions := nodeActions + [FlowAction(Action(t), act.conf)];
          case OtherNumber(_) =>
            nodeActions := nodeActions + [FlowAction(UnknownAction(""), act.conf)];
        }
      }
      assert actions[..|actions|] == actions;
      if |nodeActions| > 0 {
        nodeActions := nodeActions + [FlowAction(Action(A_END), None)];
      }
      r := Some(nodeActions);
    }

    /** Looks up the PCI address of the pod's interface. */
    method GetNodeActionForPodInterface(conf: Option<Raw>, pod: Pod) returns (r: Option<FlowAction>)
      ensures r == ActionForPodInterface(codec, conf, pod)
    {
      if conf.None? || codec.decodePodInterface(conf.value).None? || !pod.networks.Networks? {
        return None;
      }
      var interfaceName := codec.decodePodInterface(conf.value).value;
      var networks := pod.networks.list;
      var pciAddr := "";
      for i := 0 to |networks|
        invariant pciAddr == ""
        invariant PciAddressFor(networks, interfaceName) == PciAddressFor(networks[i..], interfaceName)
      {
        var network := networks[i];
        assert networks[i..][1..] == networks[i + 1..];
        if network.iface == interfaceName && network.pciAddress.Some? {
          pciAddr := network.pciAddress.value;
          break;
        }
      }
      if pciAddr == "" {
        return None;
      }
      r := Some(FlowAction(VfPciAddr, Some(codec.encodePciAddr(pciAddr))));
    }

    /** Writes every gathered object; a refused write is only reported. */
    method CreateOrUpdateNodeFlowConfigs(ns: string, objects: map<string, NodeFlowConfig>)
      requires Holds(ns, objects)
      modifies api`nodeConfigs
      ensures api.nodeConfigs == StoreAll(old(api.nodeConfigs), api.conditions, ns, Contents(objects))
    {
      var pending := objects.Keys;
      ghost var written: map<string, seq<FlowRules>> := map[];
      assert api.nodeConfigs == StoreAll(old(api.nodeConfigs), api.conditions, ns, written);
      while pending != {}
        invariant pending <= objects.Keys
        invariant written.Keys == objects.Keys - pending
        invariant forall name :: name in written ==> written[name] == objects[name].rules
        invariant api.nodeConfigs == StoreAll(old(api.nodeConfigs), api.conditions, ns, written)
      {
        var nodeName :| nodeName in pending;
        var nodeConfig := objects[nodeName];
        var answer := api.Write(nodeConfig.key, nodeConfig.rules);
        StoreOneMore(old(api.nodeConfigs), api.conditions, ns, written, nodeName, nodeConfig.rules);
        written := written[nodeName := nodeConfig.rules];
        pending := pending - {nodeName};
      }
      assert written == Contents(objects);
    }

    lemma StoreOneMore(
        nodes: map<NamespacedName, seq<FlowRules>>, conditions: ApiConditions, ns: string,
        written: map<string, seq<FlowRules>>, name: string, rules: seq<FlowRules>)
      requires name !in written
      ensures var n, stored := NamespacedName(ns, name), StoreAll(nodes, conditions, ns, written);
              StoreAll(nodes, conditions, ns, written[name := rules]) ==
              if conditions.AnswerFor(n) == Written then stored[n := rules] else stored
    {}
  }
}
