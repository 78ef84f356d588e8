/** Which ClusterFlowConfigs are reconciled when a pod changes, against which pods they select. */
module PodMapping {

  import opened Wrappers
  import opened ClusterTypes

  predicate AllLabelsMatch(config: ClusterFlowConfig, pod: Pod) {
    forall k :: k in config.podSelector.matchLabels ==>
      k in pod.labels && pod.labels[k] == config.podSelector.matchLabels[k]
  }

  /** The names of the configs whose MatchLabels all occur in the pod's labels, in list order. */
  function Matching(configs: seq<ClusterFlowConfig>, pod: Pod): seq<NamespacedName> {
    if configs == [] then []
    else
      var last := configs[|configs| - 1];
      Matching(configs[..|configs| - 1], pod) + if AllLabelsMatch(last, pod) then [last.id] else []
  }

  /** The configs of all namespaces are listed; None is a List call that failed. The loop over a map
      counts matches and stops at the first label that is missing or different; the count is
      compared with the number of labels. */
  method MapPodsToRequests(pod: Pod, listed: Option<seq<ClusterFlowConfig>>) returns (requests: seq<NamespacedName>)
    ensures requests == Matching(listed.GetOr([]), pod)
  {
    requests := [];
    if listed.None? {
      return;
    }
    var configs := listed.value;
    for i := 0 to |configs|
      invariant requests == Matching(configs[..i], pod)
    {
      var instance := configs[i];
      assert configs[..i + 1][..i] == configs[..i];
      var counter := CountMatches(instance.podSelector.matchLabels, pod);
      if |instance.podSelector.matchLabels| == counter {
        requests := requests + [instance.id];
      }
    }
    assert configs[..|configs|] == configs;
  }

  /** The inner loop. */
  method CountMatches(labels: map<string, string>, pod: Pod) returns (counter: nat)
    ensures counter == |labels| <==> forall k :: k in labels ==> k in pod.labels && pod.labels[k] == labels[k]
  {
    counter := 0;
    var pending := labels.Keys;
    assert |labels| == |labels.Keys|;
    while pending != {}
      invariant pending <= labels.Keys
      invariant counter == |labels.Keys| - |pending|
      invariant forall k :: k in labels && k !in pending ==> k in pod.labels && pod.labels[k] == labels[k]
    {
      var key :| key in pending;
      if key !in pod.labels {
        break;
      }
      if pod.labels[key] != labels[key] {
        break;
      }
      counter := counter + 1;
      pending := pending - {key};
    }
  }

  lemma {:induction false} MatchingContains(configs: seq<ClusterFlowConfig>, pod: Pod, id: NamespacedName)
    ensures id in Matching(configs, pod) <==>
            exists i :: 0 <= i < |configs| && configs[i].id == id && AllLabelsMatch(configs[i], pod)
  {
    if configs != [] {
      var before, last := configs[..|configs| - 1], configs[|configs| - 1];
      MatchingContains(before, pod, id);
      if id in Matching(before, pod) {
        var i :| 0 <= i < |before| && before[i].id == id && AllLabelsMatch(before[i], pod);
        assert configs[i] == before[i];
      }
      if i :| 0 <= i < |configs| && configs[i].id == id && AllLabelsMatch(configs[i], pod) {
        if i < |before| { assert before[i] == configs[i]; }
      }
    }
  }

  /** The labels satisfy each of the selector's expressions. */
  predicate ExpressionsHold(selector: LabelSelector, labels: map<string, string>) {
    forall e :: e in selector.expressions ==> ExpressionHolds(labels, e)
  }

  /** No pod is missed: whatever the order in which the labels are visited, a config for which a sync
      would list the pod is reconciled when the pod changes. */
  lemma NoMissedPods(configs: seq<ClusterFlowConfig>, pods: seq<Pod>, pod: Pod, i: nat)
    requires i < |configs| && pod in SelectedPods(configs[i], pods)
    ensures configs[i].id in Matching(configs, pod)
  {
    SelectedPodsMembers(configs[i], pods);
    SelectsIff(configs[i].podSelector, pod.labels);
    MatchingContains(configs, pod, configs[i].id);
  }

  /** Which of the reconciled configs list the pod: those of its namespace whose expressions hold for
      it. Neither the namespace nor an expression is looked at when the pod changes. */
  lemma ListedIffEnqueuedAnd(configs: seq<ClusterFlowConfig>, pods: seq<Pod>, pod: Pod, i: nat)
    requires i < |configs| && DistinctIds(configs) && pod in pods
    ensures pod in SelectedPods(configs[i], pods) <==>
            && configs[i].id in Matching(configs, pod)
            && configs[i].id.namespace == pod.id.namespace
            && ExpressionsHold(configs[i].podSelector, pod.labels)
  {
    SelectedPodsMembers(configs[i], pods);
    SelectsIff(configs[i].podSelector, pod.labels);
    MatchingContains(configs, pod, configs[i].id);
    if configs[i].id in Matching(configs, pod) {
      var j :| 0 <= j < |configs| && configs[j].id == configs[i].id && AllLabelsMatch(configs[j], pod);
      assert i == j;
    }
  }
}
