/** The arithmetic of the cluster controller on values: building a node's rules from cluster rules,
    merging without duplicates, the ownership index, and the filter that a clean applies. */
module ClusterMerge {

  import opened Wrappers
  import opened FlowTypes
  import opened Translation
  import opened ClusterTypes

  /** The digest under which a rule of a NodeFlowConfig is known; a free constructor, so injective. */
  datatype RuleKey = RuleSha256(preimage: FlowRules)

  /** For each ClusterFlowConfig and each NodeFlowConfig: the hashes of the rules put there. */
  type Index = map<NamespacedName, map<NamespacedName, seq<RuleKey>>>

  // ---------------------------------------------------------------------- building one rule

  /** The address of the first pci network of the pod with the interface name; empty means none. */
  function PciAddressFor(networks: seq<NetworkStatus>, iface: string): string {
    if networks == [] then ""
    else if networks[0].iface == iface && networks[0].pciAddress.Some? then networks[0].pciAddress.value
    else PciAddressFor(networks[1..], iface)
  }

  /** The network that decides: the first with the interface name and a pci device. */
  lemma {:induction false} PciAddressIsFirst(networks: seq<NetworkStatus>, iface: string, i: nat)
    requires i < |networks| && networks[i].iface == iface && networks[i].pciAddress.Some?
    requires forall j :: 0 <= j < i ==> networks[j].iface != iface || networks[j].pciAddress.None?
    ensures PciAddressFor(networks, iface) == networks[i].pciAddress.value
  {
    if i > 0 {
      assert networks[0].iface != iface || networks[0].pciAddress.None?;
      PciAddressIsFirst(networks[1..], iface, i - 1);
    }
  }

  function ActionForPodInterface(c: Codec, conf: Option<Raw>, pod: Pod): Option<FlowAction> {
    if conf.None? || c.decodePodInterface(conf.value).None? || !pod.networks.Networks? then None
    else
      var pciAddr := PciAddressFor(pod.networks.list, c.decodePodInterface(conf.value).value);
      if pciAddr == "" then None else Some(FlowAction(VfPciAddr, Some(c.encodePciAddr(pciAddr))))
  }

  function NodeAction(c: Codec, action: ClusterFlowAction, pod: Pod): Option<FlowAction> {
    match action.actionType
    case ToPodInterface => ActionForPodInterface(c, action.conf, pod)
    case RteType(t) => Some(FlowAction(Action(t), action.conf))
    case OtherNumber(_) => Some(FlowAction(UnknownAction(""), action.conf))
  }

  function ConvertActions(c: Codec, actions: seq<ClusterFlowAction>, pod: Pod): Option<seq<FlowAction>> {
    if actions == [] then Some([])
    else
      var before, last := ConvertActions(c, actions[..|actions| - 1], pod), NodeAction(c, actions[|actions| - 1], pod);
      if before.None? || last.None? then None else Some(before.value + [last.value])
  }

  /** The converted actions, closed by END unless there are none. */
  function NodeActions(c: Codec, actions: seq<ClusterFlowAction>, pod: Pod): Option<seq<FlowAction>> {
    match ConvertActions(c, actions, pod)
    case None => None
    case Some(converted) =>
      Some(if converted == [] then [] else converted + [FlowAction(Action(A_END), None)])
  }

  /** The rule for the pod's node; its port is left to the node controller. */
  function BuildRule(c: Codec, rule: ClusterFlowRule, pod: Pod): Option<FlowRules> {
    match NodeActions(c, rule.action, pod)
    case None => None
    case Some(actions) => Some(FlowRules(AUTOMATIC_PORT_ID, rule.attr, rule.pattern, actions))
  }

  lemma {:induction false} ConvertPrefix(c: Codec, actions: seq<ClusterFlowAction>, pod: Pod, n: nat)
    requires n <= |actions| && ConvertActions(c, actions[..n], pod).None?
    ensures ConvertActions(c, actions, pod).None?
  {
    if n == |actions| {
      assert actions[..n] == actions;
    } else {
      assert actions[..|actions| - 1][..n] == actions[..n];
      ConvertPrefix(c, actions[..|actions| - 1], pod, n);
    }
  }

  // ---------------------------------------------------------------------- building many rules

  /** The rules built until the first one that cannot be built for the pod. */
  function Built(c: Codec, rules: seq<ClusterFlowRule>, pod: Pod): seq<FlowRules> {
    if rules == [] then []
    else
      var before := Built(c, rules[..|rules| - 1], pod);
      if |before| < |rules| - 1 then before
      else match BuildRule(c, rules[|rules| - 1], pod)
           case None => before
           case Some(rule) => before + [rule]
  }

  predicate AllBuilt(c: Codec, rules: seq<ClusterFlowRule>, pod: Pod) {
    |Built(c, rules, pod)| == |rules|
  }

  lemma {:induction false} BuiltBound(c: Codec, rules: seq<ClusterFlowRule>, pod: Pod)
    ensures |Built(c, rules, pod)| <= |rules|
  {
    if rules != [] {
      BuiltBound(c, rules[..|rules| - 1], pod);
    }
  }

  lemma {:induction false} BuiltMember(c: Codec, rules: seq<ClusterFlowRule>, pod: Pod, i: nat)
    requires i < |Built(c, rules, pod)|
    ensures i < |rules| && BuildRule(c, rules[i], pod) == Some(Built(c, rules, pod)[i])
  {
    var init := rules[..|rules| - 1];
    BuiltBound(c, init, pod);
    if i < |Built(c, init, pod)| {
      BuiltMember(c, init, pod, i);
      assert init[i] == rules[i];
    }
  }

  lemma BuiltSnoc(c: Codec, rules: seq<ClusterFlowRule>, rule: ClusterFlowRule, pod: Pod)
    ensures Built(c, rules + [rule], pod) ==
            if AllBuilt(c, rules, pod) && BuildRule(c, rule, pod).Some?
            then Built(c, rules, pod) + [BuildRule(c, rule, pod).value] else Built(c, rules, pod)
  {
    assert (rules + [rule])[..|rules|] == rules;
    BuiltBound(c, rules, pod);
  }

  lemma {:induction false} BuiltConcat(c: Codec, a: seq<ClusterFlowRule>, b: seq<ClusterFlowRule>, pod: Pod)
    ensures Built(c, a + b, pod) ==
            Built(c, a, pod) + if AllBuilt(c, a, pod) then Built(c, b, pod) else []
  {
    if b == [] {
      assert a + b == a;
    } else {
      var b', last := b[..|b| - 1], b[|b| - 1];
      assert a + b == (a + b') + [last] && b == b' + [last];
      BuiltConcat(c, a, b', pod);
      BuiltSnoc(c, a + b', last, pod);
      BuiltSnoc(c, b', last, pod);
      BuiltBound(c, a, pod);
      BuiltBound(c, b', pod);
      var front, back := Built(c, a, pod), Built(c, b', pod);
      if AllBuilt(c, a, pod) {
        assert AllBuilt(c, a + b', pod) <==> AllBuilt(c, b', pod);
        if BuildRule(c, last, pod).Some? {
          var rule := BuildRule(c, last, pod).value;
          assert (front + back) + [rule] == front + (back + [rule]);
        }
      } else {
        assert front + [] == front;
        assert !AllBuilt(c, a + b', pod);
      }
    }
  }

  /** One turn of the loop that builds rules: it ends the list or extends it. */
  lemma BuiltStep(c: Codec, rules: seq<ClusterFlowRule>, pod: Pod, i: nat)
    requires i < |rules| && AllBuilt(c, rules[..i], pod)
    ensures match BuildRule(c, rules[i], pod)
            case None => Built(c, rules, pod) == Built(c, rules[..i], pod) && !AllBuilt(c, rules, pod)
            case Some(rule) =>
              Built(c, rules[..i + 1], pod) == Built(c, rules[..i], pod) + [rule] && AllBuilt(c, rules[..i + 1], pod)
  {
    assert rules[..i + 1][..i] == rules[..i];
    assert rules == rules[..i + 1] + rules[i + 1..];
    BuiltConcat(c, rules[..i + 1], rules[i + 1..], pod);
    BuiltBound(c, rules[..i + 1], pod);
  }

  /** Every rule is built exactly when each of them can be. */
  lemma {:induction false} AllBuiltIff(c: Codec, rules: seq<ClusterFlowRule>, pod: Pod)
    ensures AllBuilt(c, rules, pod) <==>
            forall i :: 0 <= i < |rules| ==> BuildRule(c, rules[i], pod).Some?
  {
    if rules != [] {
      AllBuiltIff(c, rules[..|rules| - 1], pod);
      BuiltBound(c, rules[..|rules| - 1], pod);
    }
  }

  /** The rules of all configs, one config after the other. */
  function AllRules(configs: seq<ClusterFlowConfig>): seq<ClusterFlowRule> {
    if configs == [] then [] else AllRules(configs[..|configs| - 1]) + configs[|configs| - 1].rules
  }

  lemma {:induction false} BuildFailurePersists(c: Codec, configs: seq<ClusterFlowConfig>, pod: Pod, n: nat)
    requires n <= |configs| && !AllBuilt(c, AllRules(configs[..n]), pod)
    ensures !AllBuilt(c, AllRules(configs), pod)
    ensures Built(c, AllRules(configs), pod) == Built(c, AllRules(configs[..n]), pod)
    decreases |configs|
  {
    if n == |configs| {
      assert configs[..n] == configs;
    } else {
      var before := configs[..|configs| - 1];
      assert before[..n] == configs[..n];
      BuildFailurePersists(c, before, pod, n);
      BuiltConcat(c, AllRules(before), configs[|configs| - 1].rules, pod);
      BuiltBound(c, AllRules(before), pod);
    }
  }

  // ---------------------------------------------------------------------- without duplicates

  /** The elements of xs in the order of their first occurrence. */
  function Distinct(xs: seq<FlowRules>): seq<FlowRules> {
    if xs == [] then []
    else
      var before, last := Distinct(xs[..|xs| - 1]), xs[|xs| - 1];
      if last in before then before else before + [last]
  }

  lemma DistinctSnoc(xs: seq<FlowRules>, x: FlowRules)
    ensures Distinct(xs + [x]) == if x in Distinct(xs) then Distinct(xs) else Distinct(xs) + [x]
  {
    assert (xs + [x])[..|xs|] == xs;
  }

  function KeysOf(rules: seq<FlowRules>): seq<RuleKey> {
    seq(|rules|, i requires 0 <= i < |rules| => RuleSha256(rules[i]))
  }

  lemma KeysOfSnoc(rules: seq<FlowRules>, rule: FlowRules)
    ensures KeysOf(rules + [rule]) == KeysOf(rules) + [RuleSha256(rule)]
  {}

  function KeySet(rules: seq<FlowRules>): set<RuleKey> {
    set r | r in rules :: RuleSha256(r)
  }

  lemma {:induction false} DistinctMembers(xs: seq<FlowRules>)
    ensures forall x :: x in Distinct(xs) <==> x in xs
    ensures KeySet(Distinct(xs)) == KeySet(xs)
  {
    if xs != [] {
      DistinctMembers(xs[..|xs| - 1]);
      assert xs == xs[..|xs| - 1] + [xs[|xs| - 1]];
    }
  }

  /** The position at which x first occurs. */
  function FirstIndex(xs: seq<FlowRules>, x: FlowRules): (i: nat)
    requires x in xs
    ensures i < |xs| && xs[i] == x && x !in xs[..i]
  {
    if xs[0] == x then 0
    else
      assert xs == [xs[0]] + xs[1..];
      var i := 1 + FirstIndex(xs[1..], x);
      assert xs[..i] == [xs[0]] + xs[1..][..i - 1];
      i
  }

  /** Distinct is a list without repetitions, ordered by first occurrence. */
  lemma {:induction false} DistinctOrder(xs: seq<FlowRules>, i: nat, j: nat)
    requires i < j < |Distinct(xs)|
    ensures Distinct(xs)[i] in xs && Distinct(xs)[j] in xs
    ensures FirstIndex(xs, Distinct(xs)[i]) < FirstIndex(xs, Distinct(xs)[j])
  {
    var before, last := xs[..|xs| - 1], xs[|xs| - 1];
    DistinctMembers(before);
    DistinctMembers(xs);
    var x, y := Distinct(xs)[i], Distinct(xs)[j];
    assert x in Distinct(before);
    FirstIndexOfPrefix(before, last, x);
    if j < |Distinct(before)| {
      DistinctOrder(before, i, j);
      FirstIndexOfPrefix(before, last, y);
    } else {
      assert y == last && last !in before;
      FirstIndexUnique(xs, last, |xs| - 1);
    }
  }

  lemma FirstIndexOfPrefix(before: seq<FlowRules>, last: FlowRules, x: FlowRules)
    requires x in before
    ensures forall xs :: xs != [] && xs[..|xs| - 1] == before && xs[|xs| - 1] == last ==>
              x in xs && FirstIndex(xs, x) == FirstIndex(before, x)
  {
    forall xs | xs != [] && xs[..|xs| - 1] == before && xs[|xs| - 1] == last
      ensures x in xs && FirstIndex(xs, x) == FirstIndex(before, x)
    {
      var i := FirstIndex(before, x);
      assert xs[i] == before[i] && xs[..i] == before[..i];
      FirstIndexUnique(xs, x, i);
    }
  }

  lemma FirstIndexUnique(xs: seq<FlowRules>, x: FlowRules, i: nat)
    requires i < |xs| && xs[i] == x && x !in xs[..i]
    ensures FirstIndex(xs, x) == i
  {
    var j := FirstIndex(xs, x);
    assert forall q :: 0 <= q < i ==> xs[q] == xs[..i][q];
    assert forall q :: 0 <= q < j ==> xs[q] == xs[..j][q];
  }

  // ---------------------------------------------------------------------- the index

  function SetEntry(index: Index, config: NamespacedName, node: NamespacedName, keys: seq<RuleKey>): Index {
    index[config := (if config in index then index[config] else map[])[node := keys]]
  }

  /** The index after the configs have been built for the pod, until the first that cannot be. */
  function Entered(c: Codec, index: Index, configs: seq<ClusterFlowConfig>, pod: Pod, node: NamespacedName): Index {
    if configs == [] then index
    else
      var before, last := configs[..|configs| - 1], configs[|configs| - 1];
      if AllBuilt(c, AllRules(configs), pod)
      then SetEntry(Entered(c, index, before, pod, node), last.id, node, KeysOf(Built(c, last.rules, pod)))
      else Entered(c, index, before, pod, node)
  }

  lemma {:induction false} EnteredPrefix(
      c: Codec, index: Index, configs: seq<ClusterFlowConfig>, pod: Pod, node: NamespacedName, n: nat)
    requires n <= |configs| && !AllBuilt(c, AllRules(configs[..n]), pod)
    ensures Entered(c, index, configs, pod, node) == Entered(c, index, configs[..n], pod, node)
    decreases |configs|
  {
    if n == |configs| {
      assert configs[..n] == configs;
    } else {
      assert configs[..|configs| - 1][..n] == configs[..n];
      EnteredPrefix(c, index, configs[..|configs| - 1], pod, node, n);
      BuildFailurePersists(c, configs, pod, n);
    }
  }

  /** The hashes that the index lists for a node under one config. */
  function Entry(index: Index, config: NamespacedName, node: NamespacedName): seq<RuleKey> {
    if config in index && node in index[config] then index[config][node] else []
  }

  ghost predicate Owned(index: Index, node: NamespacedName, k: RuleKey) {
    exists config :: config in index && k in Entry(index, config, node)
  }

  lemma {:induction false} AllBuiltParts(c: Codec, configs: seq<ClusterFlowConfig>, pod: Pod)
    requires configs != [] && AllBuilt(c, AllRules(configs), pod)
    ensures AllBuilt(c, AllRules(configs[..|configs| - 1]), pod)
    ensures AllBuilt(c, configs[|configs| - 1].rules, pod)
    ensures Built(c, AllRules(configs), pod) ==
            Built(c, AllRules(configs[..|configs| - 1]), pod) + Built(c, configs[|configs| - 1].rules, pod)
  {
    var before, last := AllRules(configs[..|configs| - 1]), configs[|configs| - 1].rules;
    BuiltConcat(c, before, last, pod);
    BuiltBound(c, before, pod);
    BuiltBound(c, last, pod);
  }

  lemma EntryOfSetEntry(
      index: Index, config: NamespacedName, node: NamespacedName, keys: seq<RuleKey>, id: NamespacedName, n: NamespacedName)
    ensures Entry(SetEntry(index, config, node, keys), id, n) ==
            if id == config && n == node then keys else Entry(index, id, n)
  {}

  /** Nothing else in the index changes, even when building fails half-way. */
  lemma {:induction false} EntryKept(
      c: Codec, index: Index, configs: seq<ClusterFlowConfig>, pod: Pod, node: NamespacedName,
      id: NamespacedName, n: NamespacedName)
    requires n != node || forall i :: 0 <= i < |configs| ==> configs[i].id != id
    ensures Entry(Entered(c, index, configs, pod, node), id, n) == Entry(index, id, n)
  {
    if configs != [] {
      var before, last := configs[..|configs| - 1], configs[|configs| - 1];
      assert forall i :: 0 <= i < |before| ==> before[i] == configs[i];
      EntryKept(c, index, before, pod, node, id, n);
      EntryOfSetEntry(Entered(c, index, before, pod, node), last.id, node, KeysOf(Built(c, last.rules, pod)), id, n);
    }
  }

  /** The entry of each config for the node: the hash list of its rules, repetitions included, when
      everything up to and including this config can be built; otherwise what was there before. */
  lemma {:induction false} EntryAfterEntered(
      c: Codec, index: Index, configs: seq<ClusterFlowConfig>, pod: Pod, node: NamespacedName, i: nat)
    requires DistinctIds(configs) && i < |configs|
    ensures Entry(Entered(c, index, configs, pod, node), configs[i].id, node) ==
            if AllBuilt(c, AllRules(configs[..i + 1]), pod) then KeysOf(Built(c, configs[i].rules, pod))
            else Entry(index, configs[i].id, node)
  {
    var before, last := configs[..|configs| - 1], configs[|configs| - 1];
    EntryOfSetEntry(Entered(c, index, before, pod, node), last.id, node, KeysOf(Built(c, last.rules, pod)),
                    configs[i].id, node);
    if i < |before| {
      assert before[i] == configs[i] && before[..i + 1] == configs[..i + 1];
      assert DistinctIds(before) by {
        assert forall p :: 0 <= p < |before| ==> before[p] == configs[p];
      }
      EntryAfterEntered(c, index, before, pod, node, i);
    } else {
      assert configs[..i + 1] == configs;
      assert forall p :: 0 <= p < |before| ==> before[p] == configs[p];
      EntryKept(c, index, before, pod, node, last.id, node);
    }
  }

  /** When every rule can be built the entries written are exactly those hash lists. */
  lemma EntryWritten(
      c: Codec, index: Index, configs: seq<ClusterFlowConfig>, pod: Pod, node: NamespacedName, i: nat)
    requires DistinctIds(configs) && AllBuilt(c, AllRules(configs), pod) && i < |configs|
    ensures Entry(Entered(c, index, configs, pod, node), configs[i].id, node) ==
            KeysOf(Built(c, configs[i].rules, pod))
  {
    EntryAfterEntered(c, index, configs, pod, node, i);
    if !AllBuilt(c, AllRules(configs[..i + 1]), pod) {
      BuildFailurePersists(c, configs, pod, i + 1);
    }
  }

  lemma KeysOfSet(rules: seq<FlowRules>)
    ensures forall k :: k in KeysOf(rules) <==> k in KeySet(rules)
  {
    forall r | r in rules ensures RuleSha256(r) in KeysOf(rules) {
      var i :| 0 <= i < |rules| && rules[i] == r;
      assert KeysOf(rules)[i] == RuleSha256(r);
    }
  }

  lemma {:induction false} KeySetOfAll(c: Codec, configs: seq<ClusterFlowConfig>, pod: Pod, k: RuleKey)
    requires AllBuilt(c, AllRules(configs), pod)
    ensures k in KeySet(Built(c, AllRules(configs), pod)) <==>
            exists i :: 0 <= i < |configs| && k in KeysOf(Built(c, configs[i].rules, pod))
  {
    if configs != [] {
      var before, last := configs[..|configs| - 1], configs[|configs| - 1];
      AllBuiltParts(c, configs, pod);
      KeySetOfAll(c, before, pod, k);
      KeysOfSet(Built(c, last.rules, pod));
      if i :| 0 <= i < |before| && k in KeysOf(Built(c, before[i].rules, pod)) {
        assert configs[i] == before[i];
      }
      if i :| 0 <= i < |configs| && k in KeysOf(Built(c, configs[i].rules, pod)) {
        if i < |before| { assert before[i] == configs[i]; }
      }
    }
  }

  /** Merge and index agree: the hashes of the merged rules are exactly those in the entries just
      written for the node, although an entry also lists hashes that the merge suppressed. */
  lemma MergeAndIndexAgree(
      c: Codec, index: Index, configs: seq<ClusterFlowConfig>, pod: Pod, node: NamespacedName, k: RuleKey)
    requires DistinctIds(configs) && AllBuilt(c, AllRules(configs), pod)
    ensures k in KeySet(Distinct(Built(c, AllRules(configs), pod))) <==>
            exists i :: 0 <= i < |configs| &&
                        k in Entry(Entered(c, index, configs, pod, node), configs[i].id, node)
  {
    DistinctMembers(Built(c, AllRules(configs), pod));
    KeySetOfAll(c, configs, pod, k);
    forall i | 0 <= i < |configs|
      ensures Entry(Entered(c, index, configs, pod, node), configs[i].id, node) ==
              KeysOf(Built(c, configs[i].rules, pod))
    {
      EntryWritten(c, index, configs, pod, node, i);
    }
  }

  // ---------------------------------------------------------------------- the filter of a clean

  /** The rules whose hash is not listed, in order. */
  function Without(rules: seq<FlowRules>, keys: seq<RuleKey>): seq<FlowRules> {
    if rules == [] then []
    else
      var before, last := Without(rules[..|rules| - 1], keys), rules[|rules| - 1];
      if RuleSha256(last) in keys then before else before + [last]
  }

  lemma WithoutSnoc(rules: seq<FlowRules>, rule: FlowRules, keys: seq<RuleKey>)
    ensures Without(rules + [rule], keys) ==
            if RuleSha256(rule) in keys then Without(rules, keys) else Without(rules, keys) + [rule]
  {
    assert (rules + [rule])[..|rules|] == rules;
  }

  lemma {:induction false} WithoutConcat(a: seq<FlowRules>, b: seq<FlowRules>, keys: seq<RuleKey>)
    ensures Without(a + b, keys) == Without(a, keys) + Without(b, keys)
  {
    if b == [] {
      assert a + b == a;
    } else {
      WithoutConcat(a, b[..|b| - 1], keys);
      assert (a + b)[..|a + b| - 1] == a + b[..|b| - 1];
    }
  }

  lemma {:induction false} WithoutMembers(rules: seq<FlowRules>, keys: seq<RuleKey>)
    ensures |Without(rules, keys)| <= |rules|
    ensures forall r :: r in Without(rules, keys) <==> r in rules && RuleSha256(r) !in keys
  {
    if rules != [] {
      WithoutMembers(rules[..|rules| - 1], keys);
      assert rules == rules[..|rules| - 1] + [rules[|rules| - 1]];
    }
  }

  lemma {:induction false} WithoutNothing(rules: seq<FlowRules>, keys: seq<RuleKey>)
    requires forall r :: r in rules ==> RuleSha256(r) !in keys
    ensures Without(rules, keys) == rules
  {
    if rules != [] {
      WithoutNothing(rules[..|rules| - 1], keys);
      assert rules[|rules| - 1] in rules;
    }
  }

  /** Filtering again changes nothing, which is what makes a clean restartable. */
  lemma WithoutTwice(rules: seq<FlowRules>, keys: seq<RuleKey>)
    ensures Without(Without(rules, keys), keys) == Without(rules, keys)
  {
    WithoutMembers(rules, keys);
    WithoutNothing(Without(rules, keys), keys);
  }
}
