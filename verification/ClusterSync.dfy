/** The cluster controller's two operations, sync and clean, on values; and what every interleaving
    of them keeps. The methods of module ClusterFlowConfig are proved to perform these operations. */
module ClusterSync {

  import opened Wrappers
  import opened FlowTypes
  import opened Translation
  import opened Admission
  import opened ClusterTypes
  import opened ClusterMerge

  /** The NodeFlowConfigs stored in the API server and the controller's ownership index. */
  datatype ClusterState = ClusterState(nodes: map<NamespacedName, seq<FlowRules>>, index: Index)

  const EMPTY_CLUSTER := ClusterState(map[], map[])

  datatype WriteAnswer = Written | Conflict | WriteFailed

  /** How the API server treats the NodeFlowConfigs during one reconcile. */
  datatype ApiConditions = ApiConditions(unreadable: set<NamespacedName>, answers: map<NamespacedName, WriteAnswer>) {

    function AnswerFor(node: NamespacedName): WriteAnswer {
      if node in answers then answers[node] else Written
    }
  }

  // ---------------------------------------------------------------------- sync

  /** The variables of a sync: the rules gathered for each node so far, and the index. */
  datatype Gathered = Gathered(rules: map<string, seq<FlowRules>>, index: Index)

  /** One pod. Its node's rules are rebuilt from nothing. When a rule cannot be built the pod is
      skipped, but what was built until then stays in the index and, if an earlier pod brought the
      node's object into the map, also in that object. */
  function GatherPod(c: Codec, api: ApiConditions, ns: string, list: seq<ClusterFlowConfig>, g: Gathered, pod: Pod): Gathered {
    var node := NamespacedName(ns, pod.nodeName);
    if pod.nodeName == "" || list == [] || (pod.nodeName !in g.rules && node in api.unreadable) then g
    else
      var built := Distinct(Built(c, AllRules(list), pod));
      Gathered(
        if AllBuilt(c, AllRules(list), pod) || pod.nodeName in g.rules then g.rules[pod.nodeName := built] else g.rules,
        Entered(c, g.index, list, pod, node))
  }

  function GatherPods(c: Codec, api: ApiConditions, ns: string, list: seq<ClusterFlowConfig>, index: Index, pods: seq<Pod>): Gathered {
    if pods == [] then Gathered(map[], index)
    else GatherPod(c, api, ns, list, GatherPods(c, api, ns, list, index, pods[..|pods| - 1]), pods[|pods| - 1])
  }

  predicate IsStored(api: ApiConditions, ns: string, rules: map<string, seq<FlowRules>>, node: NamespacedName) {
    node.namespace == ns && node.name in rules && api.AnswerFor(node) == Written
  }

  /** The stored objects after every gathered one has been updated or created, where that works. */
  function StoreAll(
      nodes: map<NamespacedName, seq<FlowRules>>, api: ApiConditions, ns: string, rules: map<string, seq<FlowRules>>)
    : map<NamespacedName, seq<FlowRules>>
  {
    map n | n in nodes.Keys + (set name | name in rules :: NamespacedName(ns, name))
            && (n in nodes || IsStored(api, ns, rules, n))
      :: if IsStored(api, ns, rules, n) then rules[n.name] else nodes[n]
  }

  function SyncState(
      c: Codec, s: ClusterState, api: ApiConditions, ns: string, list: seq<ClusterFlowConfig>, pods: seq<Pod>)
    : ClusterState
  {
    var g := GatherPods(c, api, ns, list, s.index, pods);
    ClusterState(StoreAll(s.nodes, api, ns, g.rules), g.index)
  }

  // ---------------------------------------------------------------------- clean

  function Swept(nodes: map<NamespacedName, seq<FlowRules>>, entry: map<NamespacedName, seq<RuleKey>>, swept: set<NamespacedName>)
    : map<NamespacedName, seq<FlowRules>>
  {
    map n | n in nodes :: if n in swept && n in entry then Without(nodes[n], entry[n]) else nodes[n]
  }

  /** The nodes a clean of the config has to rewrite: listed in the index, present and readable. */
  function ToSweep(s: ClusterState, api: ApiConditions, id: NamespacedName): set<NamespacedName> {
    if id in s.index then set n | n in s.index[id] && n in s.nodes && n !in api.unreadable else {}
  }

  /** A clean rewrites nodes one by one, in the order of a map. A conflict stops it (done is false)
      before the index is touched; any other refused write is passed over. */
  predicate CleanStep(
      s: ClusterState, api: ApiConditions, id: NamespacedName, swept: set<NamespacedName>, done: bool, s': ClusterState)
  {
    && swept <= ToSweep(s, api, id)
    && (forall n :: n in swept ==> api.AnswerFor(n) == Written)
    && s'.nodes == Swept(s.nodes, if id in s.index then s.index[id] else map[], swept)
    && (done ==>
          && s'.index == s.index - {id}
          && forall n :: n in ToSweep(s, api, id) - swept ==> api.AnswerFor(n) == WriteFailed)
    && (!done ==>
          && s'.index == s.index
          && exists n :: n in ToSweep(s, api, id) && api.AnswerFor(n) == Conflict)
  }

  // ---------------------------------------------------------------------- the index is complete

  /** Every rule stored on a node is listed for that node under some ClusterFlowConfig. */
  ghost predicate Complete(s: ClusterState) {
    forall n, r :: n in s.nodes && r in s.nodes[n] ==> Owned(s.index, n, RuleSha256(r))
  }

  /** Every pod on a readable node can be converted, and the write for that node is accepted. */
  predicate SmoothSync(c: Codec, api: ApiConditions, ns: string, list: seq<ClusterFlowConfig>, pods: seq<Pod>) {
    forall p :: p in pods && p.nodeName != "" && NamespacedName(ns, p.nodeName) !in api.unreadable ==>
      && AllBuilt(c, AllRules(list), p)
      && api.AnswerFor(NamespacedName(ns, p.nodeName)) == Written
  }

  /** Writes are accepted or run into a conflict, and reads succeed. */
  predicate SmoothClean(s: ClusterState, api: ApiConditions, id: NamespacedName) {
    id in s.index ==> forall n :: n in s.index[id] && n in s.nodes ==>
      n !in api.unreadable && api.AnswerFor(n) != WriteFailed
  }

  lemma OwnedByEntry(index: Index, id: NamespacedName, n: NamespacedName, k: RuleKey)
    requires k in Entry(index, id, n)
    ensures Owned(index, n, k)
  {
    assert id in index;
  }

  // ---------------------------------------------------------------------- what a sync stores

  /** The last pod in the list that runs on the node. */
  function LastPodOn(pods: seq<Pod>, nodeName: string): Option<Pod> {
    if pods == [] then None
    else if pods[|pods| - 1].nodeName == nodeName then Some(pods[|pods| - 1])
    else LastPodOn(pods[..|pods| - 1], nodeName)
  }

  /** A sync of the namespace can look at the node. */
  predicate Reachable(api: ApiConditions, ns: string, n: NamespacedName) {
    n.namespace == ns && n.name != "" && n !in api.unreadable
  }

  predicate SomePodConverts(c: Codec, list: seq<ClusterFlowConfig>, pods: seq<Pod>, name: string) {
    exists p :: p in pods && p.nodeName == name && AllBuilt(c, AllRules(list), p)
  }

  /** The node's object is gathered: the node can be looked at and some pod on it converts. */
  predicate IsGathered(
      c: Codec, api: ApiConditions, ns: string, list: seq<ClusterFlowConfig>, pods: seq<Pod>, n: NamespacedName)
  {
    list != [] && Reachable(api, ns, n) && SomePodConverts(c, list, pods, n.name)
  }

  /** The rules on a node after a sync: if the object is gathered and its write accepted, the
      duplicate-free rules for the last pod, as far as they can be built for that pod; otherwise
      what was there before. */
  function RulesAfter(
      c: Codec, s: ClusterState, api: ApiConditions, ns: string, list: seq<ClusterFlowConfig>, pods: seq<Pod>,
      n: NamespacedName): seq<FlowRules>
  {
    if IsGathered(c, api, ns, list, pods, n) && api.AnswerFor(n) == Written && LastPodOn(pods, n.name).Some?
    then Distinct(Built(c, AllRules(list), LastPodOn(pods, n.name).value))
    else if n in s.nodes then s.nodes[n] else []
  }

  lemma OneMorePodConverts(c: Codec, list: seq<ClusterFlowConfig>, pods: seq<Pod>, name: string)
    requires pods != []
    ensures SomePodConverts(c, list, pods, name) <==>
            || SomePodConverts(c, list, pods[..|pods| - 1], name)
            || (pods[|pods| - 1].nodeName == name && AllBuilt(c, AllRules(list), pods[|pods| - 1]))
  {
    assert pods == pods[..|pods| - 1] + [pods[|pods| - 1]];
    assert pods[|pods| - 1] in pods;
  }

  lemma OnePodGathered(c: Codec, api: ApiConditions, ns: string, list: seq<ClusterFlowConfig>, g: Gathered, pod: Pod, name: string)
    requires name in g.rules ==> list != [] && Reachable(api, ns, NamespacedName(ns, name))
    ensures var rules := GatherPod(c, api, ns, list, g, pod).rules;
            if pod.nodeName == name && list != [] && Reachable(api, ns, NamespacedName(ns, name)) then
              && (name in rules <==> name in g.rules || AllBuilt(c, AllRules(list), pod))
              && (name in rules ==> rules[name] == Distinct(Built(c, AllRules(list), pod)))
            else (name in rules <==> name in g.rules) && (name in rules ==> rules[name] == g.rules[name])
  {}

  lemma {:induction false} GatheredForLastPod(
      c: Codec, api: ApiConditions, ns: string, list: seq<ClusterFlowConfig>, index: Index, pods: seq<Pod>, name: string)
    ensures var rules, n := GatherPods(c, api, ns, list, index, pods).rules, NamespacedName(ns, name);
            && (name in rules <==> IsGathered(c, api, ns, list, pods, n))
            && (name in rules ==>
                  && LastPodOn(pods, name).Some?
                  && rules[name] == Distinct(Built(c, AllRules(list), LastPodOn(pods, name).value)))
  {
    if pods != [] {
      var init, last := pods[..|pods| - 1], pods[|pods| - 1];
      GatheredForLastPod(c, api, ns, list, index, init, name);
      OneMorePodConverts(c, list, pods, name);
      OnePodGathered(c, api, ns, list, GatherPods(c, api, ns, list, index, init), last, name);
    }
  }

  /** What a sync stores on a node: nothing new if no pod of the node can be converted; otherwise the
      duplicate-free rules of all configs of the list, built for the last of its pods, as far as
      they can be built for that pod. (Module SharedNode says which rules of earlier pods and of
      other configs survive.) */
  lemma SyncStoresLastPodsRules(
      c: Codec, s: ClusterState, api: ApiConditions, ns: string, list: seq<ClusterFlowConfig>, pods: seq<Pod>,
      n: NamespacedName)
    ensures var nodes := SyncState(c, s, api, ns, list, pods).nodes;
            && (n in nodes <==> n in s.nodes || (IsGathered(c, api, ns, list, pods, n) && api.AnswerFor(n) == Written))
            && (n in nodes ==> nodes[n] == RulesAfter(c, s, api, ns, list, pods, n))
    ensures IsGathered(c, api, ns, list, pods, n) ==> LastPodOn(pods, n.name).Some?
  {
    if n.namespace == ns {
      GatheredForLastPod(c, api, ns, list, s.index, pods, n.name);
      assert n == NamespacedName(ns, n.name);
    }
  }

  // ---------------------------------------------------------------------- what a sync enters

  /** The last pod on the node for which all of these rules can be built. */
  function LastPodBuilding(c: Codec, rules: seq<ClusterFlowRule>, pods: seq<Pod>, nodeName: string): Option<Pod> {
    if pods == [] then None
    else
      var last := pods[|pods| - 1];
      if last.nodeName == nodeName && AllBuilt(c, rules, last) then Some(last)
      else LastPodBuilding(c, rules, pods[..|pods| - 1], nodeName)
  }

  /** The entry of the i-th config for a node after a sync: the hashes of its rules, built for the
      last pod on the node for which everything up to and including this config can be built; the
      entry that was there before if there is no such pod. */
  function EntryAfter(
      c: Codec, index: Index, api: ApiConditions, ns: string, list: seq<ClusterFlowConfig>, pods: seq<Pod>,
      i: nat, n: NamespacedName): seq<RuleKey>
    requires i < |list|
  {
    var builder := LastPodBuilding(c, AllRules(list[..i + 1]), pods, n.name);
    if Reachable(api, ns, n) && builder.Some? then KeysOf(Built(c, list[i].rules, builder.value))
    else Entry(index, list[i].id, n)
  }

  lemma {:induction false} EntryAfterGather(
      c: Codec, api: ApiConditions, ns: string, list: seq<ClusterFlowConfig>, index: Index, pods: seq<Pod>,
      i: nat, n: NamespacedName)
    requires DistinctIds(list) && i < |list|
    ensures Entry(GatherPods(c, api, ns, list, index, pods).index, list[i].id, n) ==
            EntryAfter(c, index, api, ns, list, pods, i, n)
  {
    if pods != [] {
      var init, last := pods[..|pods| - 1], pods[|pods| - 1];
      var g, node := GatherPods(c, api, ns, list, index, init), NamespacedName(ns, last.nodeName);
      EntryAfterGather(c, api, ns, list, index, init, i, n);
      GatheredForLastPod(c, api, ns, list, index, init, last.nodeName);
      if n == node {
        EntryAfterEntered(c, g.index, list, last, node, i);
      } else {
        EntryKept(c, g.index, list, last, node, list[i].id, n);
      }
    }
  }

  predicate InList(list: seq<ClusterFlowConfig>, id: NamespacedName) {
    exists i :: 0 <= i < |list| && list[i].id == id
  }

  lemma {:induction false} EntryOutsideGather(
      c: Codec, api: ApiConditions, ns: string, list: seq<ClusterFlowConfig>, index: Index, pods: seq<Pod>,
      id: NamespacedName, n: NamespacedName)
    requires !InList(list, id)
    ensures Entry(GatherPods(c, api, ns, list, index, pods).index, id, n) == Entry(index, id, n)
  {
    if pods != [] {
      var init, last := pods[..|pods| - 1], pods[|pods| - 1];
      EntryOutsideGather(c, api, ns, list, index, init, id, n);
      EntryKept(c, GatherPods(c, api, ns, list, index, init).index, list, last, NamespacedName(ns, last.nodeName), id, n);
    }
  }

  // ---------------------------------------------------------------------- syncs and the index

  /** After a sync some config lists the hash for the node: one outside the list already did, or one
      of the list does now. */
  ghost predicate StillListed(
      c: Codec, s: ClusterState, api: ApiConditions, ns: string, list: seq<ClusterFlowConfig>, pods: seq<Pod>,
      n: NamespacedName, k: RuleKey)
  {
    || (exists id :: !InList(list, id) && k in Entry(s.index, id, n))
    || (exists i :: 0 <= i < |list| && k in EntryAfter(c, s.index, api, ns, list, pods, i, n))
  }

  lemma StillListedIff(
      c: Codec, s: ClusterState, api: ApiConditions, ns: string, list: seq<ClusterFlowConfig>, pods: seq<Pod>,
      n: NamespacedName, k: RuleKey)
    requires DistinctIds(list)
    ensures Owned(SyncState(c, s, api, ns, list, pods).index, n, k) <==> StillListed(c, s, api, ns, list, pods, n, k)
  {
    var index := GatherPods(c, api, ns, list, s.index, pods).index;
    if id :| id in index && k in Entry(index, id, n) {
      if i :| 0 <= i < |list| && list[i].id == id {
        EntryAfterGather(c, api, ns, list, s.index, pods, i, n);
      } else {
        EntryOutsideGather(c, api, ns, list, s.index, pods, id, n);
      }
    }
    if id :| !InList(list, id) && k in Entry(s.index, id, n) {
      EntryOutsideGather(c, api, ns, list, s.index, pods, id, n);
      OwnedByEntry(index, id, n, k);
    }
    if i :| 0 <= i < |list| && k in EntryAfter(c, s.index, api, ns, list, pods, i, n) {
      EntryAfterGather(c, api, ns, list, s.index, pods, i, n);
      OwnedByEntry(index, list[i].id, n, k);
    }
  }

  /** The sync goes wrong on a node it visits: the write is refused, or a rule cannot be built for
      the last pod there. */
  predicate GoesWrong(
      c: Codec, api: ApiConditions, ns: string, list: seq<ClusterFlowConfig>, pods: seq<Pod>, n: NamespacedName)
  {
    && Reachable(api, ns, n) && LastPodOn(pods, n.name).Some?
    && (api.AnswerFor(n) != Written || !AllBuilt(c, AllRules(list), LastPodOn(pods, n.name).value))
  }

  /** Exactly when a sync keeps the index complete, whatever writes and conversions fail: on each node
      where it goes wrong, every rule that is on the node afterwards must still be listed. */
  lemma SyncKeepsCompleteIff(
      c: Codec, s: ClusterState, api: ApiConditions, ns: string, list: seq<ClusterFlowConfig>, pods: seq<Pod>)
    requires Complete(s) && DistinctIds(list)
    ensures Complete(SyncState(c, s, api, ns, list, pods)) <==>
            forall n, r :: GoesWrong(c, api, ns, list, pods, n) && r in RulesAfter(c, s, api, ns, list, pods, n) ==>
              StillListed(c, s, api, ns, list, pods, n, RuleSha256(r))
  {
    var s' := SyncState(c, s, api, ns, list, pods);
    forall n, r | r in RulesAfter(c, s, api, ns, list, pods, n)
      ensures n in s'.nodes && s'.nodes[n] == RulesAfter(c, s, api, ns, list, pods, n)
      ensures Owned(s'.index, n, RuleSha256(r)) <==> StillListed(c, s, api, ns, list, pods, n, RuleSha256(r))
      ensures !GoesWrong(c, api, ns, list, pods, n) ==> StillListed(c, s, api, ns, list, pods, n, RuleSha256(r))
    {
      SyncStoresLastPodsRules(c, s, api, ns, list, pods, n);
      StillListedIff(c, s, api, ns, list, pods, n, RuleSha256(r));
      if !GoesWrong(c, api, ns, list, pods, n) {
        RuleStaysListed(c, s, api, ns, list, pods, n, r);
      }
    }
    forall n, r | n in s'.nodes && r in s'.nodes[n] ensures r in RulesAfter(c, s, api, ns, list, pods, n) {
      SyncStoresLastPodsRules(c, s, api, ns, list, pods, n);
    }
  }

  lemma RuleStaysListed(
      c: Codec, s: ClusterState, api: ApiConditions, ns: string, list: seq<ClusterFlowConfig>, pods: seq<Pod>,
      n: NamespacedName, r: FlowRules)
    requires Complete(s) && DistinctIds(list) && !GoesWrong(c, api, ns, list, pods, n)
    requires r in RulesAfter(c, s, api, ns, list, pods, n)
    ensures StillListed(c, s, api, ns, list, pods, n, RuleSha256(r))
  {
    var k, pod := RuleSha256(r), LastPodOn(pods, n.name);
    if list != [] && Reachable(api, ns, n) && pod.Some? {
      LastPodConverts(c, list, pods, n.name);
      assert IsGathered(c, api, ns, list, pods, n);
      DistinctMembers(Built(c, AllRules(list), pod.value));
      KeySetOfAll(c, list, pod.value, k);
      var i :| 0 <= i < |list| && k in KeysOf(Built(c, list[i].rules, pod.value));
      PrefixBuilds(c, list, pods, n.name, i);
      assert k in EntryAfter(c, s.index, api, ns, list, pods, i, n);
    } else {
      assert r in s.nodes[n];
      var id :| id in s.index && k in Entry(s.index, id, n);
      if i :| 0 <= i < |list| && list[i].id == id {
        if Reachable(api, ns, n) { NoPodBuilds(c, AllRules(list[..i + 1]), pods, n.name); }
        assert k in EntryAfter(c, s.index, api, ns, list, pods, i, n);
      }
    }
  }

  lemma {:induction false} LastPodConverts(c: Codec, list: seq<ClusterFlowConfig>, pods: seq<Pod>, name: string)
    requires LastPodOn(pods, name).Some?
    ensures LastPodOn(pods, name).value in pods && LastPodOn(pods, name).value.nodeName == name
    ensures AllBuilt(c, AllRules(list), LastPodOn(pods, name).value) ==> SomePodConverts(c, list, pods, name)
  {
    if pods[|pods| - 1].nodeName != name {
      LastPodConverts(c, list, pods[..|pods| - 1], name);
    }
    assert pods == pods[..|pods| - 1] + [pods[|pods| - 1]];
  }

  lemma {:induction false} PrefixBuilds(c: Codec, list: seq<ClusterFlowConfig>, pods: seq<Pod>, name: string, i: nat)
    requires i < |list| && LastPodOn(pods, name).Some?
    requires AllBuilt(c, AllRules(list), LastPodOn(pods, name).value)
    ensures LastPodBuilding(c, AllRules(list[..i + 1]), pods, name) == LastPodOn(pods, name)
  {
    if pods[|pods| - 1].nodeName == name {
      if !AllBuilt(c, AllRules(list[..i + 1]), pods[|pods| - 1]) {
        BuildFailurePersists(c, list, pods[|pods| - 1], i + 1);
      }
    } else {
      PrefixBuilds(c, list, pods[..|pods| - 1], name, i);
    }
  }

  lemma {:induction false} NoPodBuilds(c: Codec, rules: seq<ClusterFlowRule>, pods: seq<Pod>, name: string)
    requires LastPodOn(pods, name).None?
    ensures LastPodBuilding(c, rules, pods, name).None?
  {
    if pods != [] {
      NoPodBuilds(c, rules, pods[..|pods| - 1], name);
    }
  }

  /** In particular when nothing goes wrong. */
  lemma SyncKeepsComplete(
      c: Codec, s: ClusterState, api: ApiConditions, ns: string, list: seq<ClusterFlowConfig>, pods: seq<Pod>)
    requires Complete(s) && DistinctIds(list) && SmoothSync(c, api, ns, list, pods)
    ensures Complete(SyncState(c, s, api, ns, list, pods))
  {
    forall n ensures !GoesWrong(c, api, ns, list, pods, n) {
      if Reachable(api, ns, n) && LastPodOn(pods, n.name).Some? {
        LastPodConverts(c, list, pods, n.name);
        assert n == NamespacedName(ns, n.name);
      }
    }
    SyncKeepsCompleteIff(c, s, api, ns, list, pods);
  }

  // ---------------------------------------------------------------------- cleans and the index

  lemma CleanKeepsComplete(
      s: ClusterState, api: ApiConditions, id: NamespacedName, swept: set<NamespacedName>, done: bool, s': ClusterState)
    requires Complete(s) && SmoothClean(s, api, id) && CleanStep(s, api, id, swept, done, s')
    ensures Complete(s')
  {
    forall n, r | n in s'.nodes && r in s'.nodes[n] ensures Owned(s'.index, n, RuleSha256(r)) {
      var k := RuleSha256(r);
      if id in s.index && n in s.index[id] {
        WithoutMembers(s.nodes[n], s.index[id][n]);
        assert n in ToSweep(s, api, id);
        assert done ==> k !in Entry(s.index, id, n);
      }
      assert r in s.nodes[n];
      var owner :| owner in s.index && k in Entry(s.index, owner, n);
      OwnedByEntry(s'.index, owner, n, k);
    }
  }

  /** A rule that a finished clean leaves on a node although the cleaned config owns it: the node's
      object cannot be read, or its update is refused. */
  predicate Leftover(s: ClusterState, api: ApiConditions, id: NamespacedName, n: NamespacedName, r: FlowRules) {
    && n in s.nodes && r in s.nodes[n] && RuleSha256(r) in Entry(s.index, id, n)
    && (n in api.unreadable || api.AnswerFor(n) != Written)
  }

  /** Exactly when a finished clean keeps the index complete, whatever writes were lost: each rule
      that is left over must also be claimed by another config. */
  lemma CleanKeepsCompleteIff(
      s: ClusterState, api: ApiConditions, id: NamespacedName, swept: set<NamespacedName>, s': ClusterState)
    requires Complete(s) && CleanStep(s, api, id, swept, true, s')
    ensures Complete(s') <==> forall n, r :: Leftover(s, api, id, n, r) ==> ClaimedByAnother(s, id, n, r)
  {
    if Complete(s') {
      forall n, r | Leftover(s, api, id, n, r) ensures ClaimedByAnother(s, id, n, r) {
        assert n !in swept && n in s'.nodes && s'.nodes[n] == s.nodes[n];
        CleanedRule(s, api, id, swept, s', n, r);
      }
    }
    if forall n, r :: Leftover(s, api, id, n, r) ==> ClaimedByAnother(s, id, n, r) {
      forall n, r | n in s'.nodes && r in s'.nodes[n] ensures Owned(s'.index, n, RuleSha256(r)) {
        CleanedRule(s, api, id, swept, s', n, r);
        if RuleSha256(r) in Entry(s.index, id, n) {
          assert n !in ToSweep(s, api, id) || api.AnswerFor(n) == WriteFailed;
          assert Leftover(s, api, id, n, r);
        }
      }
    }
  }

  lemma CleanedRule(
      s: ClusterState, api: ApiConditions, id: NamespacedName, swept: set<NamespacedName>, s': ClusterState,
      n: NamespacedName, r: FlowRules)
    requires Complete(s) && CleanStep(s, api, id, swept, true, s')
    requires n in s'.nodes && r in s'.nodes[n]
    ensures n in s.nodes && r in s.nodes[n]
    ensures n in swept ==> RuleSha256(r) !in Entry(s.index, id, n)
    ensures Owned(s'.index, n, RuleSha256(r)) <==> ClaimedByAnother(s, id, n, r)
    ensures RuleSha256(r) in Entry(s.index, id, n) || ClaimedByAnother(s, id, n, r)
  {
    if id in s.index && n in s.index[id] { WithoutMembers(s.nodes[n], s.index[id][n]); }
    assert Owned(s.index, n, RuleSha256(r));
    if ClaimedByAnother(s, id, n, r) {
      var other :| other in s.index && other != id && RuleSha256(r) in Entry(s.index, other, n);
      OwnedByEntry(s'.index, other, n, RuleSha256(r));
    }
  }

  // ---------------------------------------------------------------------- whole runs

  datatype Event =
    | Synced(api: ApiConditions, ns: string, list: seq<ClusterFlowConfig>, pods: seq<Pod>)
    | Cleaned(api: ApiConditions, id: NamespacedName, swept: set<NamespacedName>, done: bool)

  predicate Step(c: Codec, s: ClusterState, e: Event, s': ClusterState) {
    match e
    case Synced(api, ns, list, pods) => DistinctIds(list) && s' == SyncState(c, s, api, ns, list, pods)
    case Cleaned(api, id, swept, done) => CleanStep(s, api, id, swept, done, s')
  }

  predicate Smooth(c: Codec, s: ClusterState, e: Event) {
    match e
    case Synced(api, ns, list, pods) => SmoothSync(c, api, ns, list, pods)
    case Cleaned(api, id, _, _) => SmoothClean(s, api, id)
  }

  /** A run: states with the events between them, any syncs and cleans in any order. */
  predicate IsRun(c: Codec, states: seq<ClusterState>, events: seq<Event>) {
    && |states| == |events| + 1
    && forall i :: 0 <= i < |events| ==> Step(c, states[i], events[i], states[i + 1])
  }

  predicate SmoothRun(c: Codec, states: seq<ClusterState>, events: seq<Event>) {
    && IsRun(c, states, events)
    && forall i :: 0 <= i < |events| ==> Smooth(c, states[i], events[i])
  }

  /** The index is complete after every event of every run, and so once no config is left in the
      index no NodeFlowConfig has a rule left. */
  lemma {:induction false} IndexComplete(c: Codec, states: seq<ClusterState>, events: seq<Event>, i: nat)
    requires SmoothRun(c, states, events) && i < |states|
    requires Complete(states[0])
    ensures Complete(states[i])
    ensures states[i].index == map[] ==> forall n :: n in states[i].nodes ==> states[i].nodes[n] == []
  {
    if i > 0 {
      IndexComplete(c, states, events, i - 1);
      assert Step(c, states[i - 1], events[i - 1], states[i]) && Smooth(c, states[i - 1], events[i - 1]);
      match events[i - 1] {
        case Synced(api, ns, list, pods) =>
          SyncKeepsComplete(c, states[i - 1], api, ns, list, pods);
        case Cleaned(api, id, swept, done) =>
          CleanKeepsComplete(states[i - 1], api, id, swept, done, states[i]);
      }
    }
    if states[i].index == map[] {
      EmptyIndexEmptyNodes(states[i]);
    }
  }

  lemma EmptyIndexEmptyNodes(s: ClusterState)
    requires Complete(s) && s.index == map[]
    ensures forall n :: n in s.nodes ==> s.nodes[n] == []
  {
    forall n | n in s.nodes ensures s.nodes[n] == [] {
      assert forall k :: !Owned(s.index, n, k);
      assert forall r :: r in s.nodes[n] ==> Owned(s.index, n, RuleSha256(r));
      HeadIsMember(s.nodes[n]);
    }
  }

  lemma HeadIsMember(rules: seq<FlowRules>)
    ensures rules != [] ==> rules[0] in rules
  {}

  /** Cleaning configs one after the other, each clean finishing. */
  predicate CleansAll(s: ClusterState, events: seq<Event>) {
    && (forall e :: e in events ==> e.Cleaned? && e.done)
    && (forall id :: id in s.index ==> exists i :: 0 <= i < |events| && events[i].id == id)
  }

  lemma {:induction false} CleanedLeaveIndex(c: Codec, states: seq<ClusterState>, events: seq<Event>, i: nat)
    requires IsRun(c, states, events) && i <= |events|
    requires forall e :: e in events ==> e.Cleaned? && e.done
    ensures states[i].index == states[0].index - (set j | 0 <= j < i :: events[j].id)
  {
    if i > 0 {
      CleanedLeaveIndex(c, states, events, i - 1);
      assert events[i - 1] in events;
      assert (set j | 0 <= j < i :: events[j].id) == (set j | 0 <= j < i - 1 :: events[j].id) + {events[i - 1].id};
    }
  }

  /** Once every config has been cleaned, every NodeFlowConfig is empty: for every run from an empty
      cluster followed by a clean of each config that is still in the index. */
  lemma AllCleanedAllEmpty(
      c: Codec, states: seq<ClusterState>, events: seq<Event>, later: seq<ClusterState>, cleans: seq<Event>)
    requires SmoothRun(c, states, events) && states[0] == EMPTY_CLUSTER
    requires SmoothRun(c, later, cleans) && later[0] == states[|events|]
    requires CleansAll(later[0], cleans)
    ensures var end := later[|cleans|];
            end.index == map[] && forall n :: n in end.nodes ==> end.nodes[n] == []
  {
    IndexComplete(c, states, events, |events|);
    IndexComplete(c, later, cleans, |cleans|);
    CleanedLeaveIndex(c, later, cleans, |cleans|);
    var end := later[|cleans|];
    forall id | id in later[0].index ensures id in set j | 0 <= j < |cleans| :: cleans[j].id {
      var i :| 0 <= i < |cleans| && cleans[i].id == id;
    }
    assert end.index == map[];
  }

  // ---------------------------------------------------------------------- clean is restartable

  /** An uninterrupted clean with every write accepted. */
  function CleanAll(s: ClusterState, id: NamespacedName): ClusterState {
    if id !in s.index then s
    else ClusterState(Swept(s.nodes, s.index[id], s.index[id].Keys), s.index - {id})
  }

  /** A clean aborted by a conflict, whichever nodes it reached. */
  lemma AbortedCleanIsAbsorbed(
      s: ClusterState, api: ApiConditions, id: NamespacedName, swept: set<NamespacedName>, s': ClusterState)
    requires CleanStep(s, api, id, swept, false, s')
    ensures CleanAll(s', id) == CleanAll(s, id)
  {
    if id in s.index {
      var entry := s.index[id];
      forall n | n in s.nodes && n in entry
        ensures Without(s'.nodes[n], entry[n]) == Without(s.nodes[n], entry[n])
      {
        WithoutTwice(s.nodes[n], entry[n]);
      }
      assert Swept(s'.nodes, entry, entry.Keys) == Swept(s.nodes, entry, entry.Keys);
    }
  }

  lemma FinishedCleanIsCleanAll(
      s: ClusterState, api: ApiConditions, id: NamespacedName, swept: set<NamespacedName>, s': ClusterState)
    requires CleanStep(s, api, id, swept, true, s') && SmoothClean(s, api, id)
    ensures s' == CleanAll(s, id)
  {
    if id in s.index {
      forall n | n in s.nodes && n in s.index[id] ensures n in swept {
        assert n in ToSweep(s, api, id);
      }
      assert s'.nodes == Swept(s.nodes, s.index[id], s.index[id].Keys);
    } else {
      assert s.index - {id} == s.index;
      assert s'.nodes == s.nodes;
    }
  }

  /** A clean that is aborted by update conflicts any number of times, each time having reached any
      of its nodes, and then finishes, ends where one uninterrupted clean ends. */
  lemma {:induction false} CleanIsRestartable(
      c: Codec, states: seq<ClusterState>, events: seq<Event>, id: NamespacedName, i: nat)
    requires SmoothRun(c, states, events) && i <= |events|
    requires forall j :: 0 <= j < |events| ==>
               events[j].Cleaned? && events[j].id == id && (events[j].done <==> j == |events| - 1)
    ensures i < |events| ==> CleanAll(states[i], id) == CleanAll(states[0], id)
    ensures i == |events| > 0 ==> states[i] == CleanAll(states[0], id)
  {
    if i > 0 {
      CleanIsRestartable(c, states, events, id, i - 1);
      var e := events[i - 1];
      if e.done {
        FinishedCleanIsCleanAll(states[i - 1], e.api, id, e.swept, states[i]);
      } else {
        AbortedCleanIsAbsorbed(states[i - 1], e.api, id, e.swept, states[i]);
      }
    }
  }

  // ---------------------------------------------------------------------- shared rules

  /** The rules on a node that some other config also claims. */
  ghost predicate ClaimedByAnother(s: ClusterState, id: NamespacedName, n: NamespacedName, r: FlowRules) {
    exists other :: other in s.index && other != id && RuleSha256(r) in Entry(s.index, other, n)
  }

  /** Cleaning one config keeps every rule that another config also claims exactly when the cleaned
      config's entry for the node does not list such a rule. */
  lemma CleanKeepsOthersIff(s: ClusterState, id: NamespacedName, n: NamespacedName)
    requires n in s.nodes
    ensures (forall r :: r in s.nodes[n] && ClaimedByAnother(s, id, n, r) ==> r in CleanAll(s, id).nodes[n])
            <==>
            (forall r :: r in s.nodes[n] && RuleSha256(r) in Entry(s.index, id, n) ==> !ClaimedByAnother(s, id, n, r))
  {
    if id in s.index && n in s.index[id] {
      WithoutMembers(s.nodes[n], s.index[id][n]);
    }
  }

  // ---------------------------------------------------------------------- runs that go wrong

  const CALM := ApiConditions({}, map[])

  function AnyPod(id: NamespacedName, rules: seq<ClusterFlowRule>): ClusterFlowConfig {
    ClusterFlowConfig(id, LabelSelector(map[], []), rules)
  }

  lemma OneRuleBuilt(c: Codec, rule: ClusterFlowRule, pod: Pod)
    ensures Built(c, [rule], pod) == if BuildRule(c, rule, pod).Some? then [BuildRule(c, rule, pod).value] else []
    ensures Built(c, [], pod) == []
  {
    assert [rule][..0] == [];
  }

  lemma OneOrTwoConfigs(first: ClusterFlowConfig, second: ClusterFlowConfig)
    ensures [first][..1] == [first] && [first, second][..1] == [first] && [first, second][..2] == [first, second]
    ensures AllRules([first]) == first.rules && AllRules([first, second]) == first.rules + second.rules
  {
    assert [first][..0] == [] && AllRules([]) == [];
    assert [first, second][..1] == [first];
  }

  lemma OnePod(c: Codec, rules: seq<ClusterFlowRule>, list: seq<ClusterFlowConfig>, pod: Pod)
    ensures LastPodOn([pod], pod.nodeName) == Some(pod)
    ensures LastPodBuilding(c, rules, [pod], pod.nodeName) == if AllBuilt(c, rules, pod) then Some(pod) else None
    ensures SomePodConverts(c, list, [pod], pod.nodeName) <==> AllBuilt(c, AllRules(list), pod)
  {
    assert [pod][..0] == [] && pod in [pod];
  }

  /** A first sync of one config with one rule, and its pod. */
  lemma FirstSync(c: Codec, rule: ClusterFlowRule, pod: Pod, config: ClusterFlowConfig)
    requires pod.nodeName != "" && BuildRule(c, rule, pod).Some? && config.rules == [rule]
    ensures var n, built := NamespacedName(config.id.namespace, pod.nodeName), BuildRule(c, rule, pod).value;
            var s := SyncState(c, EMPTY_CLUSTER, CALM, config.id.namespace, [config], [pod]);
            && n in s.nodes && s.nodes[n] == [built] && Complete(s)
            && Entry(s.index, config.id, n) == [RuleSha256(built)]
            && forall id :: id != config.id ==> Entry(s.index, id, n) == []
  {
    var ns := config.id.namespace;
    var n, built := NamespacedName(ns, pod.nodeName), BuildRule(c, rule, pod).value;
    var s := SyncState(c, EMPTY_CLUSTER, CALM, ns, [config], [pod]);
    OneOrTwoConfigs(config, config);
    OneRuleBuilt(c, rule, pod);
    OnePod(c, [rule], [config], pod);
    SyncStoresLastPodsRules(c, EMPTY_CLUSTER, CALM, ns, [config], [pod], n);
    DistinctOfOne(built);
    assert SmoothSync(c, CALM, ns, [config], [pod]);
    SyncKeepsComplete(c, EMPTY_CLUSTER, CALM, ns, [config], [pod]);
    EntryAfterGather(c, CALM, ns, [config], map[], [pod], 0, n);
    assert KeysOf([built]) == [RuleSha256(built)];
    forall id | id != config.id ensures Entry(s.index, id, n) == [] {
      assert !InList([config], id);
      EntryOutsideGather(c, CALM, ns, [config], map[], [pod], id, n);
    }
  }

  lemma DistinctOfOne(r: FlowRules)
    ensures Distinct([r]) == [r] && Distinct([r, r]) == [r]
  {
    assert [r][..0] == [] && [r, r][..1] == [r];
  }

  /** A config whose rules have been removed, its pod, and a node whose update is refused: a rule that
      only this config listed is no longer listed. */
  lemma RefusedWriteLosesEntry(
      c: Codec, s: ClusterState, config: ClusterFlowConfig, pod: Pod, n: NamespacedName, r: FlowRules, refusal: WriteAnswer)
    requires Complete(s) && n in s.nodes && r in s.nodes[n] && refusal != Written
    requires config.rules == [] && pod.nodeName == n.name != ""
    requires forall id :: id != config.id ==> Entry(s.index, id, n) == []
    ensures !Complete(SyncState(c, s, ApiConditions({}, map[n := refusal]), n.namespace, [config], [pod]))
  {
    var api, list := ApiConditions({}, map[n := refusal]), [config];
    OneOrTwoConfigs(config, config);
    OnePod(c, [], list, pod);
    assert AllRules(list[..1]) == [] && Built(c, [], pod) == [];
    assert EntryAfter(c, s.index, api, n.namespace, list, [pod], 0, n) == [];
    assert InList(list, config.id);
    assert GoesWrong(c, api, n.namespace, list, [pod], n);
    assert r in RulesAfter(c, s, api, n.namespace, list, [pod], n);
    assert !StillListed(c, s, api, n.namespace, list, [pod], n, RuleSha256(r));
    SyncKeepsCompleteIff(c, s, api, n.namespace, list, [pod]);
  }

  /** A refused write during a sync can leave a rule on a node that no entry lists any more: a config
      is synchronised, then its rule is removed, and the update of the node is refused. */
  lemma LostWriteBreaksIndex(c: Codec, rule: ClusterFlowRule, pod: Pod, a: NamespacedName, refusal: WriteAnswer)
    requires pod.nodeName != "" && BuildRule(c, rule, pod).Some? && refusal != Written
    ensures var api := ApiConditions({}, map[NamespacedName(a.namespace, pod.nodeName) := refusal]);
            var s := SyncState(c, EMPTY_CLUSTER, CALM, a.namespace, [AnyPod(a, [rule])], [pod]);
            Complete(s) && !Complete(SyncState(c, s, api, a.namespace, [AnyPod(a, [])], [pod]))
  {
    FirstSync(c, rule, pod, AnyPod(a, [rule]));
    RefusedWriteLosesEntry(c, SyncState(c, EMPTY_CLUSTER, CALM, a.namespace, [AnyPod(a, [rule])], [pod]), AnyPod(a, []), pod,
                           NamespacedName(a.namespace, pod.nodeName), BuildRule(c, rule, pod).value, refusal);
  }

  /** The rule for an interface of the pod's network. */
  function ToInterface(conf: Raw): ClusterFlowRule {
    ClusterFlowRule(Some(FlowAttr(0, 0, 1, 0, 0, 0)), [], [ClusterFlowAction(ToPodInterface, Some(conf))])
  }

  /** An admitted rule that names an interface which the pod does not report cannot be built. */
  lemma UnreportedInterface(c: Codec, conf: Raw, pod: Pod)
    requires c.decodePodInterface(conf).Some? && c.decodePodInterface(conf).value != ""
    requires pod.networks.Networks? ==> PciAddressFor(pod.networks.list, c.decodePodInterface(conf).value) == ""
    ensures ClusterRuleVerdict(c, ToInterface(conf)) == Accept
    ensures BuildRule(c, ToInterface(conf), pod).None?
  {
    var actions := ToInterface(conf).action;
    assert actions[..0] == [] && ValidateClusterAction(c, actions[0]) == Accept;
    assert ActionForPodInterface(c, Some(conf), pod).None?;
  }

  /** After a sync with its pod the entry of a first config without rules is empty, and that of a
      second config whose rule cannot be built is what it was. */
  lemma EntriesAfterFailure(
      c: Codec, index: Index, list: seq<ClusterFlowConfig>, pod: Pod, n: NamespacedName)
    requires |list| == 2 && list[0].rules == [] && |list[1].rules| == 1
    requires BuildRule(c, list[1].rules[0], pod).None? && pod.nodeName == n.name != ""
    ensures !AllBuilt(c, AllRules(list), pod)
    ensures EntryAfter(c, index, CALM, n.namespace, list, [pod], 0, n) == []
    ensures EntryAfter(c, index, CALM, n.namespace, list, [pod], 1, n) == Entry(index, list[1].id, n)
  {
    assert list == [list[0], list[1]] && list[1].rules == [list[1].rules[0]];
    OneOrTwoConfigs(list[0], list[1]);
    OneRuleBuilt(c, list[1].rules[0], pod);
    assert [] + list[1].rules == list[1].rules;
    OnePod(c, [], list, pod);
    OnePod(c, list[1].rules, list, pod);
  }

  /** A rule listed only by the first config is no longer listed. */
  lemma RuleLosesItsEntry(
      c: Codec, s: ClusterState, list: seq<ClusterFlowConfig>, pod: Pod, n: NamespacedName, r: FlowRules)
    requires Complete(s) && n in s.nodes && r in s.nodes[n]
    requires |list| == 2 && DistinctIds(list) && list[0].rules == [] && |list[1].rules| == 1
    requires BuildRule(c, list[1].rules[0], pod).None? && pod.nodeName == n.name != ""
    requires forall id :: id != list[0].id ==> Entry(s.index, id, n) == []
    ensures !Complete(SyncState(c, s, CALM, n.namespace, list, [pod]))
  {
    EntriesAfterFailure(c, s.index, list, pod, n);
    OnePod(c, [], list, pod);
    assert InList(list, list[0].id);
    assert GoesWrong(c, CALM, n.namespace, list, [pod], n);
    assert r in RulesAfter(c, s, CALM, n.namespace, list, [pod], n);
    assert !StillListed(c, s, CALM, n.namespace, list, [pod], n, RuleSha256(r));
    SyncKeepsCompleteIff(c, s, CALM, n.namespace, list, [pod]);
  }

  /** So can a rule that cannot be built: a config is synchronised; then its rule is removed and a
      second config asks for an interface that the pod does not report. The first entry is
      rewritten, but the node is not. */
  lemma FailedConversionBreaksIndex(
      c: Codec, rule: ClusterFlowRule, pod: Pod, a: NamespacedName, b: NamespacedName, conf: Raw)
    requires pod.nodeName != "" && BuildRule(c, rule, pod).Some?
    requires a != b && a.namespace == b.namespace
    requires c.decodePodInterface(conf).Some? && c.decodePodInterface(conf).value != ""
    requires pod.networks.Networks? ==> PciAddressFor(pod.networks.list, c.decodePodInterface(conf).value) == ""
    ensures var s := SyncState(c, EMPTY_CLUSTER, CALM, a.namespace, [AnyPod(a, [rule])], [pod]);
            var list := [AnyPod(a, []), AnyPod(b, [ToInterface(conf)])];
            && ClusterRuleVerdict(c, ToInterface(conf)) == Accept
            && Complete(s) && !Complete(SyncState(c, s, CALM, a.namespace, list, [pod]))
  {
    var first, second, n := AnyPod(a, []), AnyPod(b, [ToInterface(conf)]), NamespacedName(a.namespace, pod.nodeName);
    var list := [first, second];
    var s := SyncState(c, EMPTY_CLUSTER, CALM, a.namespace, [AnyPod(a, [rule])], [pod]);
    var built := BuildRule(c, rule, pod).value;
    FirstSync(c, rule, pod, AnyPod(a, [rule]));
    UnreportedInterface(c, conf, pod);
    RuleLosesItsEntry(c, s, list, pod, n, built);
  }

  /** A first sync of two configs with the same rule: the node gets it once, both entries list it. */
  lemma SharedFirstSync(c: Codec, rule: ClusterFlowRule, pod: Pod, a: NamespacedName, b: NamespacedName)
    requires pod.nodeName != "" && BuildRule(c, rule, pod).Some?
    requires a != b && a.namespace == b.namespace
    ensures var s := SyncState(c, EMPTY_CLUSTER, CALM, a.namespace, [AnyPod(a, [rule]), AnyPod(b, [rule])], [pod]);
            var n, built := NamespacedName(a.namespace, pod.nodeName), BuildRule(c, rule, pod).value;
            && n in s.nodes && s.nodes[n] == [built]
            && Entry(s.index, a, n) == [RuleSha256(built)] && Entry(s.index, b, n) == [RuleSha256(built)]
  {
    var first, second, n := AnyPod(a, [rule]), AnyPod(b, [rule]), NamespacedName(a.namespace, pod.nodeName);
    var list, built := [first, second], BuildRule(c, rule, pod).value;
    OneOrTwoConfigs(first, second);
    OneRuleBuilt(c, rule, pod);
    BuiltConcat(c, [rule], [rule], pod);
    DistinctOfOne(built);
    OnePod(c, [rule], list, pod);
    OnePod(c, [rule] + [rule], list, pod);
    assert Built(c, AllRules(list), pod) == [built, built];
    SyncStoresLastPodsRules(c, EMPTY_CLUSTER, CALM, a.namespace, list, [pod], n);
    assert KeysOf([built]) == [RuleSha256(built)];
    EntryAfterGather(c, CALM, a.namespace, list, map[], [pod], 0, n);
    EntryAfterGather(c, CALM, a.namespace, list, map[], [pod], 1, n);
  }

  /** Two configs with the same rule: deleting either one takes the rule off the node, although the
      other still asks for it. */
  lemma SharedRuleIsLost(
      c: Codec, rule: ClusterFlowRule, pod: Pod, a: NamespacedName, b: NamespacedName,
      swept: set<NamespacedName>, s': ClusterState)
    requires pod.nodeName != "" && BuildRule(c, rule, pod).Some?
    requires a != b && a.namespace == b.namespace
    requires var s := SyncState(c, EMPTY_CLUSTER, CALM, a.namespace, [AnyPod(a, [rule]), AnyPod(b, [rule])], [pod]);
             CleanStep(s, CALM, a, swept, true, s')
    ensures var s := SyncState(c, EMPTY_CLUSTER, CALM, a.namespace, [AnyPod(a, [rule]), AnyPod(b, [rule])], [pod]);
            var n, built := NamespacedName(a.namespace, pod.nodeName), BuildRule(c, rule, pod).value;
            && n in s.nodes && s.nodes[n] == [built]
            && n in s'.nodes && s'.nodes[n] == []
            && Entry(s'.index, b, n) == [RuleSha256(built)]
  {
    var s := SyncState(c, EMPTY_CLUSTER, CALM, a.namespace, [AnyPod(a, [rule]), AnyPod(b, [rule])], [pod]);
    var built := BuildRule(c, rule, pod).value;
    SharedFirstSync(c, rule, pod, a, b);
    FinishedCleanIsCleanAll(s, CALM, a, swept, s');
    assert [built][..0] == [] && Without([built], [RuleSha256(built)]) == [];
  }
}
