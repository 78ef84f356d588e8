/** Kubernetes objects as the cluster controller reads them, and the meaning of label selectors. */
module ClusterTypes {

  import opened Wrappers
  import opened FlowTypes

  datatype NamespacedName = NamespacedName(namespace: string, name: string)

  // ---------------------------------------------------------------------- label selectors

  datatype Operator = In | NotIn | Exists | DoesNotExist | UnknownOperator

  datatype Expression = Expression(key: string, operator: Operator, values: seq<string>)

  datatype LabelSelector = LabelSelector(matchLabels: map<string, string>, expressions: seq<Expression>)

  datatype Requirement =
    | Equals(key: string, value: string)
    | OneOf(key: string, values: set<string>)
    | NoneOf(key: string, values: set<string>)
    | Present(key: string)
    | Absent(key: string)

  predicate ConvertibleExpression(e: Expression) {
    match e.operator
    case In | NotIn => e.values != []
    case Exists | DoesNotExist => e.values == []
    case UnknownOperator => false
  }

  /** LabelSelectorAsSelector succeeds. */
  predicate Convertible(selector: LabelSelector) {
    forall e :: e in selector.expressions ==> ConvertibleExpression(e)
  }

  function RequirementOf(e: Expression): Requirement {
    match e.operator
    case In => OneOf(e.key, set v | v in e.values)
    case NotIn => NoneOf(e.key, set v | v in e.values)
    case DoesNotExist => Absent(e.key)
    case _ => Present(e.key)
  }

  /** The converted selector, as the set of its requirements. */
  function Requirements(selector: LabelSelector): set<Requirement> {
    (set k | k in selector.matchLabels :: Equals(k, selector.matchLabels[k]))
    + (set e | e in selector.expressions :: RequirementOf(e))
  }

  predicate Satisfies(labels: map<string, string>, r: Requirement) {
    match r
    case Equals(k, v) => k in labels && labels[k] == v
    case OneOf(k, vs) => k in labels && labels[k] in vs
    case NoneOf(k, vs) => k !in labels || labels[k] !in vs
    case Present(k) => k in labels
    case Absent(k) => k !in labels
  }

  predicate Selects(selector: LabelSelector, labels: map<string, string>) {
    Convertible(selector) && forall r :: r in Requirements(selector) ==> Satisfies(labels, r)
  }

  /** What one expression of a selector says about labels; no expression with a misplaced list of values
      or an unknown operator says anything. */
  predicate ExpressionHolds(labels: map<string, string>, e: Expression) {
    match e.operator
    case In => e.values != [] && e.key in labels && labels[e.key] in e.values
    case NotIn => e.values != [] && (e.key in labels ==> labels[e.key] !in e.values)
    case Exists => e.values == [] && e.key in labels
    case DoesNotExist => e.values == [] && e.key !in labels
    case UnknownOperator => false
  }

  /** A selector selects exactly the labels that contain its own and satisfy each of its expressions. */
  lemma SelectsIff(selector: LabelSelector, labels: map<string, string>)
    ensures Selects(selector, labels) <==>
            && (forall k :: k in selector.matchLabels ==> k in labels && labels[k] == selector.matchLabels[k])
            && (forall e :: e in selector.expressions ==> ExpressionHolds(labels, e))
    ensures Convertible(selector) <==>
            forall e :: e in selector.expressions ==>
              e.operator != UnknownOperator && (e.values != [] <==> e.operator in {In, NotIn})
  {
    forall e | e in selector.expressions
      ensures ExpressionHolds(labels, e) <==> ConvertibleExpression(e) && Satisfies(labels, RequirementOf(e))
      ensures RequirementOf(e) in Requirements(selector)
    {
      assert forall v :: v in e.values <==> v in set v' | v' in e.values;
    }
    forall k | k in selector.matchLabels
      ensures Satisfies(labels, Equals(k, selector.matchLabels[k])) <==> k in labels && labels[k] == selector.matchLabels[k]
      ensures Equals(k, selector.matchLabels[k]) in Requirements(selector)
    {}
  }

  /** How one requirement prints: values are sorted, and repetitions stay. */
  datatype Printed = PrintedLabel(value: string) | PrintedExpression(operator: Operator, values: multiset<string>)

  function PrintedExpressions(expressions: seq<Expression>, key: string): seq<Printed> {
    if expressions == [] then []
    else
      var last := expressions[|expressions| - 1];
      PrintedExpressions(expressions[..|expressions| - 1], key) +
      if last.key == key then [PrintedExpression(last.operator, multiset(last.values))] else []
  }

  /** What a selector prints for one key: its label, then its expressions in their order. */
  function PrintedFor(selector: LabelSelector, key: string): seq<Printed> {
    (if key in selector.matchLabels then [PrintedLabel(selector.matchLabels[key])] else [])
    + PrintedExpressions(selector.expressions, key)
  }

  function SelectorKeys(selector: LabelSelector): set<string> {
    selector.matchLabels.Keys + (set e | e in selector.expressions :: e.key)
  }

  /** The two selectors print as the same string: requirements are printed in the order of their keys. */
  predicate PrintAlike(a: LabelSelector, b: LabelSelector) {
    forall key :: key in SelectorKeys(a) + SelectorKeys(b) ==> PrintedFor(a, key) == PrintedFor(b, key)
  }

  lemma {:induction false} PrintedMembers(expressions: seq<Expression>, key: string)
    ensures forall p :: p in PrintedExpressions(expressions, key) <==>
              exists e :: e in expressions && e.key == key && p == PrintedExpression(e.operator, multiset(e.values))
  {
    if expressions != [] {
      var init, last := expressions[..|expressions| - 1], expressions[|expressions| - 1];
      PrintedMembers(init, key);
      assert expressions == init + [last];
    }
  }

  lemma PrintAlikeLabel(a: LabelSelector, b: LabelSelector, k: string)
    requires PrintAlike(a, b) && k in a.matchLabels
    ensures k in b.matchLabels && b.matchLabels[k] == a.matchLabels[k]
  {
    assert k in SelectorKeys(a) && PrintedFor(a, k) == PrintedFor(b, k);
    PrintedMembers(b.expressions, k);
    assert PrintedFor(a, k)[0] == PrintedLabel(a.matchLabels[k]);
    assert PrintedFor(b, k)[0] in PrintedFor(b, k);
  }

  lemma PrintAlikeExpression(a: LabelSelector, b: LabelSelector, e: Expression) returns (e': Expression)
    requires PrintAlike(a, b) && e in a.expressions
    ensures e' in b.expressions && e'.key == e.key && e'.operator == e.operator
    ensures multiset(e'.values) == multiset(e.values)
  {
    var p := PrintedExpression(e.operator, multiset(e.values));
    PrintedMembers(a.expressions, e.key);
    PrintedMembers(b.expressions, e.key);
    assert e.key in SelectorKeys(a) && p in PrintedFor(a, e.key);
    assert p in PrintedExpressions(b.expressions, e.key);
    e' :| e' in b.expressions && e'.key == e.key && p == PrintedExpression(e'.operator, multiset(e'.values));
  }

  lemma SameRequirement(e: Expression, e': Expression)
    requires e'.key == e.key && e'.operator == e.operator && multiset(e'.values) == multiset(e.values)
    ensures RequirementOf(e') == RequirementOf(e)
  {
    forall v ensures v in e.values <==> v in e'.values {
      assert v in e.values <==> v in multiset(e.values);
      assert v in e'.values <==> v in multiset(e'.values);
    }
    assert (set v | v in e.values) == (set v | v in e'.values);
  }

  lemma PrintAlikeRequires(a: LabelSelector, b: LabelSelector)
    requires PrintAlike(a, b)
    ensures Requirements(a) <= Requirements(b)
  {
    forall k | k in a.matchLabels ensures Equals(k, a.matchLabels[k]) in Requirements(b) {
      PrintAlikeLabel(a, b, k);
    }
    forall e | e in a.expressions ensures RequirementOf(e) in Requirements(b) {
      var e' := PrintAlikeExpression(a, b, e);
      SameRequirement(e, e');
    }
  }

  /** The expressions for one key, in their order. */
  function ExpressionsFor(expressions: seq<Expression>, key: string): seq<Expression> {
    if expressions == [] then []
    else
      var last := expressions[|expressions| - 1];
      ExpressionsFor(expressions[..|expressions| - 1], key) + if last.key == key then [last] else []
  }

  /** The same operators in the same order, each with the same values up to their order. */
  predicate SameExpressions(a: seq<Expression>, b: seq<Expression>) {
    && |a| == |b|
    && forall i :: 0 <= i < |a| ==> a[i].operator == b[i].operator && multiset(a[i].values) == multiset(b[i].values)
  }

  lemma {:induction false} PrintedPositions(expressions: seq<Expression>, key: string)
    ensures var printed, own := PrintedExpressions(expressions, key), ExpressionsFor(expressions, key);
            && |printed| == |own|
            && forall i :: 0 <= i < |own| ==> printed[i] == PrintedExpression(own[i].operator, multiset(own[i].values))
  {
    if expressions != [] {
      PrintedPositions(expressions[..|expressions| - 1], key);
    }
  }

  lemma SamePrinted(a: seq<Expression>, b: seq<Expression>, key: string)
    ensures PrintedExpressions(a, key) == PrintedExpressions(b, key) <==>
            SameExpressions(ExpressionsFor(a, key), ExpressionsFor(b, key))
  {
    PrintedPositions(a, key);
    PrintedPositions(b, key);
    var p, q := PrintedExpressions(a, key), PrintedExpressions(b, key);
    var x, y := ExpressionsFor(a, key), ExpressionsFor(b, key);
    if p == q {
      forall i | 0 <= i < |x| ensures x[i].operator == y[i].operator && multiset(x[i].values) == multiset(y[i].values) {
        assert p[i] == q[i];
      }
    }
  }

  lemma {:induction false} NoExpressions(expressions: seq<Expression>, key: string)
    requires forall e :: e in expressions ==> e.key != key
    ensures ExpressionsFor(expressions, key) == [] && PrintedExpressions(expressions, key) == []
  {
    if expressions != [] {
      NoExpressions(expressions[..|expressions| - 1], key);
      assert expressions[|expressions| - 1] in expressions;
    }
  }

  /** The same labels and, for each key, the same expressions. */
  ghost predicate AlikeSelectors(a: LabelSelector, b: LabelSelector) {
    && a.matchLabels == b.matchLabels
    && forall key :: SameExpressions(ExpressionsFor(a.expressions, key), ExpressionsFor(b.expressions, key))
  }

  lemma PrintAlikeExpressions(a: LabelSelector, b: LabelSelector, key: string)
    requires PrintAlike(a, b)
    ensures SameExpressions(ExpressionsFor(a.expressions, key), ExpressionsFor(b.expressions, key))
  {
    SameLabels(a, b);
    SamePrinted(a.expressions, b.expressions, key);
    if key in SelectorKeys(a) + SelectorKeys(b) {
      SameTail(a, b, key);
    } else {
      assert forall e :: e in a.expressions ==> e.key in SelectorKeys(a);
      assert forall e :: e in b.expressions ==> e.key in SelectorKeys(b);
      NoExpressions(a.expressions, key);
      NoExpressions(b.expressions, key);
    }
  }

  lemma AlikePrints(a: LabelSelector, b: LabelSelector, key: string)
    requires AlikeSelectors(a, b)
    ensures PrintedFor(a, key) == PrintedFor(b, key)
  {
    SamePrinted(a.expressions, b.expressions, key);
  }

  /** Two selectors print alike exactly when they have the same labels and, for each key, the same
      expressions. In particular a selector prints like itself. */
  lemma PrintAlikeIff(a: LabelSelector, b: LabelSelector)
    ensures PrintAlike(a, b) <==> AlikeSelectors(a, b)
    ensures PrintAlike(a, a)
  {
    if PrintAlike(a, b) {
      SameLabels(a, b);
      forall key ensures SameExpressions(ExpressionsFor(a.expressions, key), ExpressionsFor(b.expressions, key)) {
        PrintAlikeExpressions(a, b, key);
      }
    }
    if AlikeSelectors(a, b) {
      forall key | key in SelectorKeys(a) + SelectorKeys(b) ensures PrintedFor(a, key) == PrintedFor(b, key) {
        AlikePrints(a, b, key);
      }
    }
  }

  lemma SameLabels(a: LabelSelector, b: LabelSelector)
    requires PrintAlike(a, b)
    ensures a.matchLabels == b.matchLabels
  {
    assert PrintAlike(b, a);
    forall k ensures k in a.matchLabels <==> k in b.matchLabels
             ensures k in a.matchLabels ==> a.matchLabels[k] == b.matchLabels[k]
    {
      if k in a.matchLabels { PrintAlikeLabel(a, b, k); }
      if k in b.matchLabels { PrintAlikeLabel(b, a, k); }
    }
  }

  lemma SameTail(a: LabelSelector, b: LabelSelector, key: string)
    requires a.matchLabels == b.matchLabels && PrintedFor(a, key) == PrintedFor(b, key)
    ensures PrintedExpressions(a.expressions, key) == PrintedExpressions(b.expressions, key)
  {
    var n := if key in a.matchLabels then 1 else 0;
    assert PrintedFor(a, key)[n..] == PrintedExpressions(a.expressions, key);
    assert PrintedFor(b, key)[n..] == PrintedExpressions(b.expressions, key);
  }

  /** Selectors that print alike select the same labels. */
  lemma PrintAlikeSelectsAlike(a: LabelSelector, b: LabelSelector, labels: map<string, string>)
    requires PrintAlike(a, b) && Convertible(a) && Convertible(b)
    ensures Requirements(a) == Requirements(b)
    ensures Selects(a, labels) <==> Selects(b, labels)
  {
    PrintAlikeRequires(a, b);
    PrintAlikeRequires(b, a);
  }

  /** The converse fails: an expression that is written twice selects the same and prints differently. */
  lemma RepeatedExpressionPrintsApart(e: Expression)
    requires ConvertibleExpression(e)
    ensures var once, twice := LabelSelector(map[], [e]), LabelSelector(map[], [e, e]);
            Requirements(once) == Requirements(twice) && !PrintAlike(once, twice)
  {
    var once, twice := LabelSelector(map[], [e]), LabelSelector(map[], [e, e]);
    assert [e, e][..1] == [e] && [e][..0] == [];
    var p := PrintedExpression(e.operator, multiset(e.values));
    assert PrintedExpressions([e], e.key) == [p];
    assert PrintedExpressions([e, e], e.key) == PrintedExpressions([e], e.key) + [p];
    assert |PrintedFor(once, e.key)| == 1 && |PrintedFor(twice, e.key)| == 2;
    assert e in [e] && e in [e, e];
    assert e.key in SelectorKeys(once);
    assert forall x :: x in [e] <==> x in [e, e];
  }

  // ---------------------------------------------------------------------- pods and configs

  /** One network of a pod: the interface name and, for a device of type pci, its PCI address. */
  datatype NetworkStatus = NetworkStatus(iface: string, pciAddress: Option<string>)

  /** The network-status annotation: absent, not valid JSON, or a list. */
  datatype NetworkAnnotation = NoAnnotation | Malformed | Networks(list: seq<NetworkStatus>)

  datatype Pod = Pod(
    id: NamespacedName, nodeName: string, labels: map<string, string>, networks: NetworkAnnotation)

  datatype ClusterFlowConfig = ClusterFlowConfig(
    id: NamespacedName, podSelector: LabelSelector, rules: seq<ClusterFlowRule>)

  /** No two configs have the same name in the same namespace. */
  predicate DistinctIds(configs: seq<ClusterFlowConfig>) {
    forall i, j :: 0 <= i < j < |configs| ==> configs[i].id != configs[j].id
  }

  /** The pods in the config's namespace that its selector selects. */
  function SelectedPods(instance: ClusterFlowConfig, pods: seq<Pod>): seq<Pod> {
    if pods == [] then []
    else
      var last := pods[|pods| - 1];
      SelectedPods(instance, pods[..|pods| - 1]) +
      if last.id.namespace == instance.id.namespace && Selects(instance.podSelector, last.labels) then [last] else []
  }

  /** The config belongs to the namespace of the instance, and its selector prints alike. */
  predicate SharesSelector(instance: ClusterFlowConfig, config: ClusterFlowConfig) {
    && config.id.namespace == instance.id.namespace
    && Convertible(config.podSelector)
    && PrintAlike(config.podSelector, instance.podSelector)
  }

  function SameSelector(instance: ClusterFlowConfig, configs: seq<ClusterFlowConfig>): seq<ClusterFlowConfig> {
    if configs == [] then []
    else
      var last := configs[|configs| - 1];
      SameSelector(instance, configs[..|configs| - 1]) + if SharesSelector(instance, last) then [last] else []
  }

  lemma {:induction false} SelectedPodsMembers(instance: ClusterFlowConfig, pods: seq<Pod>)
    ensures forall p :: p in SelectedPods(instance, pods) <==>
              p in pods && p.id.namespace == instance.id.namespace && Selects(instance.podSelector, p.labels)
  {
    if pods != [] {
      SelectedPodsMembers(instance, pods[..|pods| - 1]);
      assert pods == pods[..|pods| - 1] + [pods[|pods| - 1]];
    }
  }

  lemma {:induction false} SharingMembers(instance: ClusterFlowConfig, configs: seq<ClusterFlowConfig>)
    ensures forall config :: config in SameSelector(instance, configs) <==>
              config in configs && SharesSelector(instance, config)
  {
    if configs != [] {
      SharingMembers(instance, configs[..|configs| - 1]);
      assert configs == configs[..|configs| - 1] + [configs[|configs| - 1]];
    }
  }

  lemma {:induction false} SharingDistinct(instance: ClusterFlowConfig, configs: seq<ClusterFlowConfig>)
    requires DistinctIds(configs)
    ensures DistinctIds(SameSelector(instance, configs))
  {
    if configs != [] {
      var init, last := configs[..|configs| - 1], configs[|configs| - 1];
      assert configs == init + [last];
      SharingDistinct(instance, init);
      SharingMembers(instance, init);
      var out := SameSelector(instance, init);
      forall i | 0 <= i < |out| ensures out[i].id != last.id {
        assert out[i] in init;
        var j :| 0 <= j < |init| && init[j] == out[i];
        assert configs[j] == init[j];
      }
    }
  }

  /** The configs that are merged: none twice, and exactly those of the namespace whose selector can be
      converted and has the same labels and, for each key, the same expressions. The instance itself
      is one of them. */
  lemma SameSelectorMembers(instance: ClusterFlowConfig, configs: seq<ClusterFlowConfig>)
    requires DistinctIds(configs)
    ensures forall config :: config in SameSelector(instance, configs) <==>
              && config in configs && config.id.namespace == instance.id.namespace && Convertible(config.podSelector)
              && AlikeSelectors(config.podSelector, instance.podSelector)
    ensures instance in configs && Convertible(instance.podSelector) ==> instance in SameSelector(instance, configs)
    ensures DistinctIds(SameSelector(instance, configs))
  {
    SharingMembers(instance, configs);
    SharingDistinct(instance, configs);
    forall config: ClusterFlowConfig
      ensures PrintAlike(config.podSelector, instance.podSelector) <==>
              AlikeSelectors(config.podSelector, instance.podSelector)
    {
      PrintAlikeIff(config.podSelector, instance.podSelector);
    }
    PrintAlikeIff(instance.podSelector, instance.podSelector);
  }

  /** The merged configs and the selected pods keep the order of the lists they are taken from. */
  lemma {:induction false} ConfigsKeepOrder(
      instance: ClusterFlowConfig, configs: seq<ClusterFlowConfig>, more: seq<ClusterFlowConfig>)
    ensures SameSelector(instance, configs + more) == SameSelector(instance, configs) + SameSelector(instance, more)
  {
    if more == [] {
      assert configs + more == configs;
    } else {
      ConfigsKeepOrder(instance, configs, more[..|more| - 1]);
      assert (configs + more)[..|configs + more| - 1] == configs + more[..|more| - 1];
    }
  }

  lemma {:induction false} PodsKeepOrder(instance: ClusterFlowConfig, pods: seq<Pod>, more: seq<Pod>)
    ensures SelectedPods(instance, pods + more) == SelectedPods(instance, pods) + SelectedPods(instance, more)
  {
    if more == [] {
      assert pods + more == pods;
    } else {
      PodsKeepOrder(instance, pods, more[..|more| - 1]);
      assert (pods + more)[..|pods + more| - 1] == pods + more[..|more| - 1];
    }
  }

  /** Every config that is merged selects the very pods that the rules are built for. */
  lemma {:induction false} MergedConfigsSelectSamePods(
      instance: ClusterFlowConfig, configs: seq<ClusterFlowConfig>, config: ClusterFlowConfig, pods: seq<Pod>)
    requires DistinctIds(configs) && Convertible(instance.podSelector)
    requires config in SameSelector(instance, configs)
    ensures SelectedPods(config, pods) == SelectedPods(instance, pods)
  {
    SharingMembers(instance, configs);
    if pods != [] {
      MergedConfigsSelectSamePods(instance, configs, config, pods[..|pods| - 1]);
      PrintAlikeSelectsAlike(config.podSelector, instance.podSelector, pods[|pods| - 1].labels);
    }
  }
}
