/** The choice of the EthernetClusterConfig for each device of a node
    (pkg/fwddp-manager/ethernetclusterconfig_controller.go). */
module ConfigMatcher {

  datatype Device = Device(vendorId: string, deviceId: string, pciAddress: string)

  datatype DeviceSelector = DeviceSelector(vendorId: string, deviceId: string, pciAddress: string) {
    predicate Matches(d: Device) {
      && (vendorId != "" ==> vendorId == d.vendorId)
      && (pciAddress != "" ==> pciAddress == d.pciAddress)
      && (deviceId != "" ==> deviceId == d.deviceId)
    }
  }

  datatype ClusterConfig = ClusterConfig(
    name: string, nodeSelector: map<string, string>, deviceSelector: DeviceSelector,
    priority: int, creationTimestamp: int)

  type DeviceConfigContext = map<string, ClusterConfig>

  /** The config has a higher rank: a higher priority, or the same and a later creation time. */
  predicate Outranks(a: ClusterConfig, b: ClusterConfig) {
    a.priority > b.priority || (a.priority == b.priority && a.creationTimestamp > b.creationTimestamp)
  }

  predicate SameRank(a: ClusterConfig, b: ClusterConfig) {
    a.priority == b.priority && a.creationTimestamp == b.creationTimestamp
  }

  predicate SelectsNode(config: ClusterConfig, labels: map<string, string>) {
    forall k :: k in config.nodeSelector ==> k in labels && labels[k] == config.nodeSelector[k]
  }

  /** Some device with the address matches the config's selector. */
  predicate MatchesAddress(config: ClusterConfig, devices: seq<Device>, pci: string) {
    exists j :: 0 <= j < |devices| && devices[j].pciAddress == pci && config.deviceSelector.Matches(devices[j])
  }

  /** The i-th config wins an address: it matches, nothing that matches outranks it, and every
      earlier one that matches is outranked by it. */
  predicate WinsAt(configs: seq<ClusterConfig>, devices: seq<Device>, pci: string, i: nat) {
    && i < |configs|
    && MatchesAddress(configs[i], devices, pci)
    && (forall j :: 0 <= j < |configs| && MatchesAddress(configs[j], devices, pci) ==> !Outranks(configs[j], configs[i]))
    && (forall j :: 0 <= j < i && MatchesAddress(configs[j], devices, pci) ==> Outranks(configs[i], configs[j]))
  }

  predicate Wins(configs: seq<ClusterConfig>, devices: seq<Device>, pci: string, winner: ClusterConfig) {
    exists i: nat :: i < |configs| && WinsAt(configs, devices, pci, i) && configs[i] == winner
  }

  predicate Matched(configs: seq<ClusterConfig>, devices: seq<Device>, pci: string) {
    exists i :: 0 <= i < |configs| && MatchesAddress(configs[i], devices, pci)
  }

  /** The context holds the winner for each matched address and nothing else. */
  ghost predicate HoldsWinners(context: DeviceConfigContext, configs: seq<ClusterConfig>, devices: seq<Device>) {
    forall pci :: if pci in context then Wins(configs, devices, pci, context[pci]) else !Matched(configs, devices, pci)
  }

  // ---------------------------------------------------------------------- the loops

  /** The configs whose node selector is contained in the node's labels, in list order. */
  function ConfigsForNode(labels: map<string, string>, configs: seq<ClusterConfig>): seq<ClusterConfig> {
    if configs == [] then []
    else
      var last := configs[|configs| - 1];
      ConfigsForNode(labels, configs[..|configs| - 1]) + if SelectsNode(last, labels) then [last] else []
  }

  method MatchConfigsForNode(labels: map<string, string>, configs: seq<ClusterConfig>) returns (nodeConfigs: seq<ClusterConfig>)
    ensures nodeConfigs == ConfigsForNode(labels, configs)
  {
    nodeConfigs := [];
    for i := 0 to |configs|
      invariant nodeConfigs == ConfigsForNode(labels, configs[..i])
    {
      assert configs[..i + 1][..i] == configs[..i];
      if SelectsNode(configs[i], labels) {
        nodeConfigs := nodeConfigs + [configs[i]];
      }
    }
    assert configs[..|configs|] == configs;
  }

  /** The entry for one address after a matching config has been compared with it. */
  function Better(context: DeviceConfigContext, pci: string, current: ClusterConfig): ClusterConfig {
    if pci !in context || Outranks(current, context[pci]) then current else context[pci]
  }

  /** The double loop: configs outside, devices inside. */
  method PrepareDeviceConfigContext(devices: seq<Device>, configs: seq<ClusterConfig>) returns (context: DeviceConfigContext)
    ensures HoldsWinners(context, configs, devices)
  {
    context := map[];
    for i := 0 to |configs|
      invariant HoldsWinners(context, configs[..i], devices)
    {
      var before := context;
      var current := configs[i];
      for j := 0 to |devices|
        invariant forall pci ::
          if MatchesAddress(current, devices[..j], pci) then pci in context && context[pci] == Better(before, pci, current)
          else (pci in context <==> pci in before) && (pci in before ==> context[pci] == before[pci])
      {
        var device := devices[j];
        ghost var inner := context;
        assert devices[..j + 1] == devices[..j] + [device];
        forall pci ensures MatchesAddress(current, devices[..j + 1], pci) <==>
                           MatchesAddress(current, devices[..j], pci) ||
                           (device.pciAddress == pci && current.deviceSelector.Matches(device))
        {
          MatchesOneMore(current, devices[..j], device, pci);
        }
        if current.deviceSelector.Matches(device) {
          if device.pciAddress !in context {
            context := context[device.pciAddress := current];
          } else {
            var previous := context[device.pciAddress];
            if current.priority > previous.priority {
              context := context[device.pciAddress := current];
            } else if current.priority == previous.priority {
              if current.creationTimestamp > previous.creationTimestamp {
                context := context[device.pciAddress := current];
              }
            }
          }
        }
      }
      assert devices[..|devices|] == devices;
      OneMoreConfig(before, context, configs[..i], current, devices);
      assert configs[..i + 1] == configs[..i] + [current];
    }
    assert configs[..|configs|] == configs;
  }

  lemma MatchesOneMore(config: ClusterConfig, devices: seq<Device>, device: Device, pci: string)
    ensures MatchesAddress(config, devices + [device], pci) <==>
            MatchesAddress(config, devices, pci) || (device.pciAddress == pci && config.deviceSelector.Matches(device))
  {
    var more := devices + [device];
    if j :| 0 <= j < |devices| && devices[j].pciAddress == pci && config.deviceSelector.Matches(devices[j]) {
      assert more[j] == devices[j];
    }
    assert more[|devices|] == device;
  }

  /** The winners of a list with one more config. */
  lemma OneMoreConfig(
      before: DeviceConfigContext, after: DeviceConfigContext,
      configs: seq<ClusterConfig>, current: ClusterConfig, devices: seq<Device>)
    requires HoldsWinners(before, configs, devices)
    requires forall pci ::
               if MatchesAddress(current, devices, pci) then pci in after && after[pci] == Better(before, pci, current)
               else (pci in after <==> pci in before) && (pci in before ==> after[pci] == before[pci])
    ensures HoldsWinners(after, configs + [current], devices)
  {
    forall pci
      ensures if pci in after then Wins(configs + [current], devices, pci, after[pci])
              else !Matched(configs + [current], devices, pci)
    {
      OneMoreConfigAt(before, after, configs, current, devices, pci);
    }
  }

  lemma OneMoreConfigAt(
      before: DeviceConfigContext, after: DeviceConfigContext,
      configs: seq<ClusterConfig>, current: ClusterConfig, devices: seq<Device>, pci: string)
    requires if pci in before then Wins(configs, devices, pci, before[pci]) else !Matched(configs, devices, pci)
    requires if MatchesAddress(current, devices, pci) then pci in after && after[pci] == Better(before, pci, current)
             else (pci in after <==> pci in before) && (pci in before ==> after[pci] == before[pci])
    ensures if pci in after then Wins(configs + [current], devices, pci, after[pci])
            else !Matched(configs + [current], devices, pci)
  {
    var more := configs + [current];
    assert more[|configs|] == current && forall i :: 0 <= i < |configs| ==> more[i] == configs[i];
    if pci in before {
      var i: nat :| i < |configs| && WinsAt(configs, devices, pci, i) && configs[i] == before[pci];
      if MatchesAddress(current, devices, pci) && Outranks(current, before[pci]) {
        assert WinsAt(more, devices, pci, |configs|);
      } else {
        assert WinsAt(more, devices, pci, i);
      }
    } else if MatchesAddress(current, devices, pci) {
      assert WinsAt(more, devices, pci, |configs|);
    }
  }

  // ---------------------------------------------------------------------- independence of the order

  /** There is at most one winner. */
  lemma WinnerIsUnique(configs: seq<ClusterConfig>, devices: seq<Device>, pci: string, i: nat, j: nat)
    requires WinsAt(configs, devices, pci, i) && WinsAt(configs, devices, pci, j)
    ensures i == j
  {}

  /** The rank of a winner in numbers: no matching config has a higher priority, none of the same priority
      is younger, and the winner is the first in the list among those of its priority and age. */
  lemma WinnerIsHighest(configs: seq<ClusterConfig>, devices: seq<Device>, pci: string, i: nat, j: nat)
    requires WinsAt(configs, devices, pci, i) && j < |configs| && MatchesAddress(configs[j], devices, pci)
    ensures configs[j].priority <= configs[i].priority
    ensures configs[j].priority == configs[i].priority ==> configs[j].creationTimestamp <= configs[i].creationTimestamp
    ensures SameRank(configs[j], configs[i]) ==> i <= j
  {
    assert !Outranks(configs[j], configs[i]);
  }

  /** A selector matches the devices that agree with it wherever it says anything. */
  lemma SelectorMatchesIff(selector: DeviceSelector, d: Device)
    ensures selector.Matches(d) <==>
            && selector.vendorId in {"", d.vendorId}
            && selector.deviceId in {"", d.deviceId}
            && selector.pciAddress in {"", d.pciAddress}
  {}

  /** The context is determined by the configs and by which devices there are: neither the order of the
      devices nor repetitions among them matter. */
  lemma ContextIsDetermined(
      context: DeviceConfigContext, devices: seq<Device>,
      context': DeviceConfigContext, devices': seq<Device>, configs: seq<ClusterConfig>)
    requires forall d :: d in devices <==> d in devices'
    requires HoldsWinners(context, configs, devices) && HoldsWinners(context', configs, devices')
    ensures context == context'
  {
    forall pci ensures pci in context <==> pci in context'
               ensures pci in context ==> context[pci] == context'[pci]
    {
      forall config ensures MatchesAddress(config, devices, pci) <==> MatchesAddress(config, devices', pci) {
        SameDevices(config, devices, devices', pci);
        SameDevices(config, devices', devices, pci);
      }
      if pci in context && pci in context' {
        SameWinner(configs, devices, devices', pci, context[pci], context'[pci]);
      }
    }
  }

  lemma SameWinner(
      configs: seq<ClusterConfig>, devices: seq<Device>, devices': seq<Device>, pci: string,
      winner: ClusterConfig, winner': ClusterConfig)
    requires forall config :: MatchesAddress(config, devices, pci) <==> MatchesAddress(config, devices', pci)
    requires Wins(configs, devices, pci, winner) && Wins(configs, devices', pci, winner')
    ensures winner == winner'
  {
    var i: nat :| i < |configs| && WinsAt(configs, devices, pci, i) && configs[i] == winner;
    var j: nat :| j < |configs| && WinsAt(configs, devices', pci, j) && configs[j] == winner';
    assert WinsAt(configs, devices, pci, j);
    WinnerIsUnique(configs, devices, pci, i, j);
  }

  lemma SameDevices(config: ClusterConfig, devices: seq<Device>, devices': seq<Device>, pci: string)
    requires forall d :: d in devices ==> d in devices'
    ensures MatchesAddress(config, devices, pci) ==> MatchesAddress(config, devices', pci)
  {
    if j :| 0 <= j < |devices| && devices[j].pciAddress == pci && config.deviceSelector.Matches(devices[j]) {
      assert devices[j] in devices';
      var k :| 0 <= k < |devices'| && devices'[k] == devices[j];
    }
  }

  /** No two configs of the list that match the address have the same rank. */
  predicate NoTies(configs: seq<ClusterConfig>, devices: seq<Device>, pci: string) {
    forall i, j :: 0 <= i < j < |configs|
      && MatchesAddress(configs[i], devices, pci) && MatchesAddress(configs[j], devices, pci)
      ==> !SameRank(configs[i], configs[j])
  }

  /** Permuting the configs keeps which addresses are decided and the rank of each winner, and the
      winner itself unless two matching configs tie. */
  lemma WinnerIsOrderIndependent(
      context: DeviceConfigContext, configs: seq<ClusterConfig>,
      context': DeviceConfigContext, configs': seq<ClusterConfig>, devices: seq<Device>, pci: string)
    requires multiset(configs) == multiset(configs')
    requires HoldsWinners(context, configs, devices) && HoldsWinners(context', configs', devices)
    ensures pci in context <==> pci in context'
    ensures pci in context ==> SameRank(context[pci], context'[pci])
    ensures pci in context && NoTies(configs, devices, pci) ==> context[pci] == context'[pci]
  {
    SameMembers(configs, configs');
    if Matched(configs, devices, pci) { MatchedElsewhere(configs, configs', devices, pci); }
    if Matched(configs', devices, pci) { MatchedElsewhere(configs', configs, devices, pci); }
    if pci in context {
      var i: nat :| i < |configs| && WinsAt(configs, devices, pci, i) && configs[i] == context[pci];
      var j: nat :| j < |configs'| && WinsAt(configs', devices, pci, j) && configs'[j] == context'[pci];
      var k := Position(configs', configs[i]);
      var l := Position(configs, configs'[j]);
      assert SameRank(configs[i], configs[l]);
    }
  }

  lemma MatchedElsewhere(configs: seq<ClusterConfig>, configs': seq<ClusterConfig>, devices: seq<Device>, pci: string)
    requires Matched(configs, devices, pci)
    requires forall x :: x in configs ==> x in configs'
    ensures Matched(configs', devices, pci)
  {
    var i :| 0 <= i < |configs| && MatchesAddress(configs[i], devices, pci);
    var j := Position(configs', configs[i]);
    assert MatchesAddress(configs'[j], devices, pci);
  }

  lemma SameMembers(a: seq<ClusterConfig>, b: seq<ClusterConfig>)
    requires multiset(a) == multiset(b)
    ensures forall x :: x in a <==> x in b
  {
    forall x ensures x in a <==> x in b {
      assert x in a <==> x in multiset(a);
      assert x in b <==> x in multiset(b);
    }
  }

  lemma Position(configs: seq<ClusterConfig>, config: ClusterConfig) returns (i: nat)
    requires config in configs
    ensures i < |configs| && configs[i] == config
  {
    i :| i < |configs| && configs[i] == config;
  }

  lemma {:induction false} FilteredMultiset(labels: map<string, string>, configs: seq<ClusterConfig>, x: ClusterConfig)
    ensures multiset(ConfigsForNode(labels, configs))[x] == if SelectsNode(x, labels) then multiset(configs)[x] else 0
  {
    if configs != [] {
      var init, last := configs[..|configs| - 1], configs[|configs| - 1];
      assert configs == init + [last];
      FilteredMultiset(labels, init, x);
    }
  }

  /** Selected for a node are exactly the configs whose selector is part of the node's labels. */
  lemma {:induction false} SelectedIff(labels: map<string, string>, configs: seq<ClusterConfig>, config: ClusterConfig)
    ensures config in ConfigsForNode(labels, configs) <==>
            config in configs && config.nodeSelector.Items <= labels.Items
  {
    if configs != [] {
      var init, last := configs[..|configs| - 1], configs[|configs| - 1];
      SelectedIff(labels, init, config);
      PartOfIff(last, labels);
      assert configs == init + [last];
    }
  }

  lemma PartOfIff(config: ClusterConfig, labels: map<string, string>)
    ensures SelectsNode(config, labels) <==> config.nodeSelector.Items <= labels.Items
  {
    var selector := config.nodeSelector;
    if selector.Items <= labels.Items {
      forall k | k in selector ensures k in labels && labels[k] == selector[k] {
        assert (k, selector[k]) in selector.Items;
        assert (k, selector[k]) in labels.Items;
      }
    }
    if SelectsNode(config, labels) {
      forall item | item in selector.Items ensures item in labels.Items {
        assert item.0 in selector && selector[item.0] == item.1;
      }
    }
  }

  /** The selection keeps the order of the list, in which the first of equal rank wins. */
  lemma {:induction false} SelectionKeepsOrder(
      labels: map<string, string>, configs: seq<ClusterConfig>, more: seq<ClusterConfig>)
    ensures ConfigsForNode(labels, configs + more) == ConfigsForNode(labels, configs) + ConfigsForNode(labels, more)
  {
    if more == [] {
      assert configs + more == configs;
    } else {
      SelectionKeepsOrder(labels, configs, more[..|more| - 1]);
      assert (configs + more)[..|configs + more| - 1] == configs + more[..|more| - 1];
    }
  }

  /** Permuting all configs of the namespace permutes the configs for the node, so the winners on
      every node are as independent of the list order as the double loop is. */
  lemma SelectionIsOrderIndependent(labels: map<string, string>, configs: seq<ClusterConfig>, configs': seq<ClusterConfig>)
    requires multiset(configs) == multiset(configs')
    ensures multiset(ConfigsForNode(labels, configs)) == multiset(ConfigsForNode(labels, configs'))
  {
    forall x ensures multiset(ConfigsForNode(labels, configs))[x] == multiset(ConfigsForNode(labels, configs'))[x] {
      FilteredMultiset(labels, configs, x);
      FilteredMultiset(labels, configs', x);
    }
  }
}
