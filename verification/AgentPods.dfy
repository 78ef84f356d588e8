/** The node-agent pods (controllers/flowconfig/flowconfignodeagentdeployment_controller.go): one
    reconcile as a function on values, what every reconcile keeps, and convergence. */
module AgentPods {

  import opened Wrappers

  type Resources = map<string, nat>

  datatype Node = Node(name: string, capacity: Resources)

  /** The part of a flowconfig-daemon pod that the controller looks at: the limits of the uft
      container and the network annotation. */
  datatype AgentPod = AgentPod(limits: Resources, annotation: string)

  /** The custom resource: the VF pool to draw from and the network to attach. */
  datatype Deployment = Deployment(pool: string, nad: string)

  datatype Write = CreateWrite(node: string, pod: AgentPod) | DeleteWrite(node: string)

  /** The nodes for which reading, creating or deleting the pod fails. */
  datatype Faults = Faults(get: set<string>, create: set<string>, delete: set<string>)

  const NO_FAULTS := Faults({}, {}, {})

  /** The stored pods by node, the writes sent so far, and what the controller remembers: the last
      pool and network, and the limits in the pod template, which every new pod shares. */
  datatype AgentState = AgentState(
    pods: map<string, AgentPod>, writes: seq<Write>, oldPool: string, oldNad: string, template: Resources)

  datatype Outcome = Finished | RequeueNow | RequeueLater | RequeueLaterWithError | ReturnError

  datatype Fetched = Found(deployment: Deployment) | NotFound | ReadError

  function NodeResources(node: Node, pool: string): nat {
    if pool != "" && pool in node.capacity then node.capacity[pool] else 0
  }

  function PodResources(pod: AgentPod, pool: string): nat {
    if pool in pod.limits then pod.limits[pool] else 0
  }

  /** n copies of the network name, separated by a comma and a blank. */
  function Copies(n: nat, nad: string): string {
    if n == 0 then "" else if n == 1 then nad else Copies(n - 1, nad) + ", " + nad
  }

  // ---------------------------------------------------------------------- one reconcile

  /** CreatePod: nothing without resources; otherwise the limit goes into the shared template and
      the pod gets the template's limits, those of earlier pools included. */
  function Create(s: AgentState, d: Deployment, node: Node, faults: Faults): AgentState {
    var n := NodeResources(node, d.pool);
    if n == 0 then s
    else
      var template := s.template[d.pool := n];
      if node.name in faults.create then s.(template := template)
      else
        var pod := AgentPod(template, Copies(n, d.nad));
        s.(template := template,
           pods := s.pods[node.name := pod],
           writes := s.writes + [CreateWrite(node.name, pod)])
  }

  /** An existing pod goes when pool or network changed and it has a limit under the old pool, or
      when neither changed and its limit is not the node's capacity. */
  predicate MustDelete(s: AgentState, d: Deployment, node: Node)
    requires node.name in s.pods
  {
    var pod := s.pods[node.name];
    if s.oldPool != d.pool || s.oldNad != d.nad then s.oldPool in pod.limits
    else NodeResources(node, d.pool) != PodResources(pod, d.pool)
  }

  /** One node, and whether its pod was to be deleted. */
  function VisitNode(s: AgentState, d: Deployment, node: Node, faults: Faults): (AgentState, bool) {
    if node.name in faults.get then (s, false)
    else if node.name !in s.pods then (Create(s, d, node, faults), false)
    else if !MustDelete(s, d, node) then (s, false)
    else if node.name in faults.delete then (s, true)
    else (s.(pods := s.pods - {node.name}, writes := s.writes + [DeleteWrite(node.name)]), true)
  }

  function VisitNodes(s: AgentState, d: Deployment, nodes: seq<Node>, faults: Faults): (AgentState, bool) {
    if nodes == [] then (s, false)
    else
      var before := VisitNodes(s, d, nodes[..|nodes| - 1], faults);
      var last := VisitNode(before.0, d, nodes[|nodes| - 1], faults);
      (last.0, before.1 || last.1)
  }

  function ReconcileState(s: AgentState, d: Deployment, nodes: seq<Node>, faults: Faults): (AgentState, Outcome) {
    if d.nad == "" then (s, RequeueLater)
    else
      var visited := VisitNodes(s, d, nodes, faults);
      (visited.0.(oldPool := d.pool, oldNad := d.nad), if visited.1 then RequeueNow else Finished)
  }

  // ---------------------------------------------------------------------- the controller

  class PodApi {
    var pods: map<string, AgentPod>
    var faults: Faults
    ghost var writes: seq<Write>

    method CreatePod(node: string, pod: AgentPod) returns (ok: bool)
      modifies this`pods, this`writes
      ensures ok <==> node !in faults.create
      ensures pods == (if ok then old(pods)[node := pod] else old(pods))
      ensures writes == (if ok then old(writes) + [CreateWrite(node, pod)] else old(writes))
    {
      ok := node !in faults.create;
      if ok {
        pods := pods[node := pod];
        writes := writes + [CreateWrite(node, pod)];
      }
    }

    method DeletePod(node: string) returns (ok: bool)
      modifies this`pods, this`writes
      ensures ok <==> node !in faults.delete
      ensures pods == (if ok then old(pods) - {node} else old(pods))
      ensures writes == (if ok then old(writes) + [DeleteWrite(node)] else old(writes))
    {
      ok := node !in faults.delete;
      if ok {
        pods := pods - {node};
        writes := writes + [DeleteWrite(node)];
      }
    }
  }

  class FlowConfigNodeAgentDeploymentReconciler {
    const api: PodApi
    var oldDcfVfPoolName: string
    var oldNadAnnotation: string
    var templateLimits: Resources

    constructor (api: PodApi, templateLimits: Resources)
      ensures this.api == api && this.templateLimits == templateLimits
      ensures oldDcfVfPoolName == "" && oldNadAnnotation == ""
    {
      this.api, this.templateLimits := api, templateLimits;
      oldDcfVfPoolName, oldNadAnnotation := "", "";
    }

    ghost function State(): AgentState
      reads this, api
    {
      AgentState(api.pods, api.writes, oldDcfVfPoolName, oldNadAnnotation, templateLimits)
    }

    method Reconcile(fetched: Fetched, nodes: Option<seq<Node>>) returns (outcome: Outcome)
      modifies this, api`pods, api`writes
      ensures match fetched
              case NotFound => outcome == Finished && State() == old(State())
              case ReadError => outcome == RequeueLaterWithError && State() == old(State())
              case Found(d) =>
                if nodes.None? && d.nad != "" then outcome == ReturnError && State() == old(State())
                else (State(), outcome) == ReconcileState(old(State()), d, nodes.GetOr([]), api.faults)
    {
      match fetched {
        case NotFound => return Finished;
        case ReadError => return RequeueLaterWithError;
        case Found(_) =>
      }
      var d := fetched.deployment;
      if d.nad == "" {
        return RequeueLater;
      }
      if nodes.None? {
        return ReturnError;
      }
      var wasPodDeleted := false;
      for i := 0 to |nodes.value|
        invariant (State(), wasPodDeleted) == VisitNodes(old(State()), d, nodes.value[..i], api.faults)
        invariant oldDcfVfPoolName == old(oldDcfVfPoolName) && oldNadAnnotation == old(oldNadAnnotation)
      {
        assert nodes.value[..i + 1][..i] == nodes.value[..i];
        var deleted := ReconcileNode(d, nodes.value[i]);
        wasPodDeleted := wasPodDeleted || deleted;
      }
      assert nodes.value[..|nodes.value|] == nodes.value;
      oldDcfVfPoolName := d.pool;
      oldNadAnnotation := d.nad;
      outcome := if wasPodDeleted then RequeueNow else Finished;
    }

    /** One turn of the loop over nodes. */
    method ReconcileNode(d: Deployment, node: Node) returns (wasPodDeleted: bool)
      modifies this`templateLimits, api`pods, api`writes
      ensures (State(), wasPodDeleted) == VisitNode(old(State()), d, node, api.faults)
    {
      if node.name in api.faults.get {
        return false;
      }
      if node.name !in api.pods {
        CreatePod(d, node);
        return false;
      }
      var pod := api.pods[node.name];
      var deletePod := false;
      if oldDcfVfPoolName != d.pool || oldNadAnnotation != d.nad {
        if oldDcfVfPoolName in pod.limits {
          deletePod := true;
        }
      } else {
        var currentResource := PodResources(pod, d.pool);
        if NodeResources(node, d.pool) != currentResource {
          deletePod := true;
        }
      }
      if deletePod {
        var _ := api.DeletePod(node.name);
      }
      wasPodDeleted := deletePod;
    }

    method CreatePod(d: Deployment, node: Node)
      modifies this`templateLimits, api`pods, api`writes
      ensures State() == Create(old(State()), d, node, api.faults)
    {
      var numResources := NodeResources(node, d.pool);
      if numResources == 0 {
        return;
      }
      var annotation := AddAnnotations(numResources, d.nad);
      templateLimits := templateLimits[d.pool := numResources];
      var _ := api.CreatePod(node.name, AgentPod(templateLimits, annotation));
    }

    method AddAnnotations(numResources: nat, nad: string) returns (annotation: string)
      ensures annotation == Copies(numResources, nad)
    {
      annotation := "";
      for i := 1 to numResources + 1
        invariant annotation == Copies(i - 1, nad) + if 1 < i <= numResources then ", " else ""
      {
        annotation := annotation + nad;
        if i != numResources {
          annotation := annotation + ", ";
        }
      }
    }
  }

  // ---------------------------------------------------------------------- the invariant

  /** The pod was made for the pool and the network: it has a positive limit under that pool and its
      annotation is that many copies of the network. */
  predicate MadeFor(pod: AgentPod, pool: string, nad: string) {
    pool in pod.limits && pod.limits[pool] > 0 && pod.annotation == Copies(pod.limits[pool], nad)
  }

  /** Every existing pod was made for what the controller remembers. */
  predicate Inv(s: AgentState) {
    forall n :: n in s.pods ==> MadeFor(s.pods[n], s.oldPool, s.oldNad)
  }

  predicate DistinctNames(nodes: seq<Node>) {
    forall i, j :: 0 <= i < j < |nodes| ==> nodes[i].name != nodes[j].name
  }

  predicate Listed(nodes: seq<Node>, n: string) {
    exists i :: 0 <= i < |nodes| && nodes[i].name == n
  }

  /** Every pod belongs to a node of the list. */
  predicate Covers(nodes: seq<Node>, s: AgentState) {
    forall n :: n in s.pods ==> Listed(nodes, n)
  }

  predicate SamePod(before: map<string, AgentPod>, after: map<string, AgentPod>, n: string) {
    (n in after <==> n in before) && (n in before ==> after[n] == before[n])
  }

  /** What a visit does to the pod of the visited node. */
  predicate Visited(before: AgentState, d: Deployment, node: Node, faults: Faults, after: map<string, AgentPod>) {
    var n := NodeResources(node, d.pool);
    if node.name in faults.get then SamePod(before.pods, after, node.name)
    else if node.name !in before.pods then
      if n == 0 || node.name in faults.create then node.name !in after
      else && node.name in after
           && PodResources(after[node.name], d.pool) == n
           && after[node.name].annotation == Copies(n, d.nad)
    else if MustDelete(before, d, node) && node.name !in faults.delete then node.name !in after
    else SamePod(before.pods, after, node.name)
  }

  lemma VisitNodeEffect(s: AgentState, d: Deployment, node: Node, faults: Faults)
    ensures var s' := VisitNode(s, d, node, faults).0;
            && Visited(s, d, node, faults, s'.pods)
            && (forall n :: n != node.name ==> SamePod(s.pods, s'.pods, n))
            && s'.oldPool == s.oldPool && s'.oldNad == s.oldNad
  {}

  /** A visit of all nodes treats each node as if it were alone, and touches no other pod. */
  lemma {:induction false} VisitNodesEffect(s: AgentState, d: Deployment, nodes: seq<Node>, faults: Faults)
    requires DistinctNames(nodes)
    ensures var s' := VisitNodes(s, d, nodes, faults).0;
            && (forall i :: 0 <= i < |nodes| ==> Visited(s, d, nodes[i], faults, s'.pods))
            && (forall n :: !Listed(nodes, n) ==> SamePod(s.pods, s'.pods, n))
            && s'.oldPool == s.oldPool && s'.oldNad == s.oldNad
  {
    if nodes != [] {
      var init, last := nodes[..|nodes| - 1], nodes[|nodes| - 1];
      assert forall i :: 0 <= i < |init| ==> init[i] == nodes[i];
      VisitNodesEffect(s, d, init, faults);
      var mid := VisitNodes(s, d, init, faults).0;
      var s' := VisitNodes(s, d, nodes, faults).0;
      VisitNodeEffect(mid, d, last, faults);
      assert !Listed(init, last.name) && SamePod(s.pods, mid.pods, last.name);
      assert Visited(s, d, last, faults, s'.pods);
      forall i | 0 <= i < |init| ensures Visited(s, d, nodes[i], faults, s'.pods) {
        assert Visited(s, d, init[i], faults, mid.pods) && SamePod(mid.pods, s'.pods, nodes[i].name);
      }
      forall n | !Listed(nodes, n) ensures SamePod(s.pods, s'.pods, n) {
        assert nodes[|nodes| - 1].name != n && !Listed(init, n);
      }
    }
  }

  /** The controller cannot replace the pod: its node is not in the list, or the pod cannot be read
      or deleted. */
  predicate OutOfReach(nodes: seq<Node>, faults: Faults, n: string) {
    !Listed(nodes, n) || n in faults.get || n in faults.delete
  }

  /** Exactly when a reconcile keeps the invariant: every pod that is out of reach must already be
      made for the new pool and network. (Without a network nothing happens at all.) */
  lemma ReconcileKeepsInvIff(s: AgentState, d: Deployment, nodes: seq<Node>, faults: Faults)
    requires Inv(s) && DistinctNames(nodes)
    ensures Inv(ReconcileState(s, d, nodes, faults).0) <==>
            d.nad == "" || forall n :: n in s.pods && OutOfReach(nodes, faults, n) ==> MadeFor(s.pods[n], d.pool, d.nad)
    ensures forall n :: n in ReconcileState(s, d, nodes, faults).0.pods ==> n in s.pods || Listed(nodes, n)
  {
    if d.nad != "" {
      VisitNodesEffect(s, d, nodes, faults);
      var s' := ReconcileState(s, d, nodes, faults).0;
      forall n | !OutOfReach(nodes, faults, n) && n in s'.pods ensures MadeFor(s'.pods[n], d.pool, d.nad) {
        var i :| 0 <= i < |nodes| && nodes[i].name == n;
        assert Visited(s, d, nodes[i], faults, s'.pods);
      }
      forall n | OutOfReach(nodes, faults, n)
        ensures n in s'.pods ==> MadeFor(s'.pods[n], d.pool, d.nad) || (n in s.pods && s'.pods[n] == s.pods[n])
        ensures n in s.pods && !MadeFor(s.pods[n], d.pool, d.nad) ==> n in s'.pods && s'.pods[n] == s.pods[n]
      {
        if Listed(nodes, n) {
          var i :| 0 <= i < |nodes| && nodes[i].name == n;
          assert Visited(s, d, nodes[i], faults, s'.pods);
        }
      }
    }
  }

  /** The reconcile can read and delete what it needs to, or asks for what is remembered anyway. */
  predicate CanReplace(s: AgentState, d: Deployment, faults: Faults) {
    (faults.get == {} && faults.delete == {}) || (s.oldPool == d.pool && s.oldNad == d.nad)
  }

  /** Every reconcile, whatever pool, network and capacities it meets, keeps the invariant when the
      list of nodes covers the existing pods; and the list goes on covering them. */
  lemma ReconcileKeepsInv(s: AgentState, d: Deployment, nodes: seq<Node>, faults: Faults)
    requires Inv(s) && DistinctNames(nodes) && Covers(nodes, s) && CanReplace(s, d, faults)
    ensures Inv(ReconcileState(s, d, nodes, faults).0)
    ensures Covers(nodes, ReconcileState(s, d, nodes, faults).0)
  {
    ReconcileKeepsInvIff(s, d, nodes, faults);
    assert forall n :: n in s.pods ==> Listed(nodes, n);
  }

  // ---------------------------------------------------------------------- runs and convergence

  /** What one reconcile of a run meets. Capacities and faults may differ from one to the next. */
  datatype Round = Round(deployment: Deployment, nodes: seq<Node>, faults: Faults)

  function NodeNames(nodes: seq<Node>): set<string> {
    set i | 0 <= i < |nodes| :: nodes[i].name
  }

  function Run(s: AgentState, rounds: seq<Round>): AgentState {
    if rounds == [] then s
    else
      var last := rounds[|rounds| - 1];
      ReconcileState(Run(s, rounds[..|rounds| - 1]), last.deployment, last.nodes, last.faults).0
  }

  /** The set of nodes stays the same. */
  predicate FixedNodes(names: set<string>, rounds: seq<Round>) {
    forall i :: 0 <= i < |rounds| ==> DistinctNames(rounds[i].nodes) && NodeNames(rounds[i].nodes) == names
  }

  /** No read or deletion fails in a round that changes pool or network; creations may fail at any time. */
  predicate CalmChanges(start: AgentState, rounds: seq<Round>) {
    forall i :: 0 <= i < |rounds| ==> CanReplace(Run(start, rounds[..i]), rounds[i].deployment, rounds[i].faults)
  }

  lemma CoversNames(nodes: seq<Node>, s: AgentState)
    ensures Covers(nodes, s) <==> s.pods.Keys <= NodeNames(nodes)
  {
    forall n ensures Listed(nodes, n) <==> n in NodeNames(nodes) {
      if Listed(nodes, n) {
        var i :| 0 <= i < |nodes| && nodes[i].name == n;
        assert nodes[i].name in NodeNames(nodes);
      }
    }
  }

  /** Over every run on a fixed set of nodes that starts without pods: each existing pod has a limit
      under the remembered pool and an annotation of exactly that many copies of the remembered
      network. */
  lemma {:induction false} PodsMatchRemembered(start: AgentState, names: set<string>, rounds: seq<Round>)
    requires start.pods == map[] && FixedNodes(names, rounds) && CalmChanges(start, rounds)
    ensures Inv(Run(start, rounds)) && Run(start, rounds).pods.Keys <= names
  {
    if rounds != [] {
      var before, last := rounds[..|rounds| - 1], rounds[|rounds| - 1];
      assert forall i :: 0 <= i < |before| ==> before[i] == rounds[i] && before[..i] == rounds[..i];
      PodsMatchRemembered(start, names, before);
      CoversNames(last.nodes, Run(start, before));
      ReconcileKeepsInv(Run(start, before), last.deployment, last.nodes, last.faults);
      CoversNames(last.nodes, Run(start, rounds));
    }
  }

  /** The pods are as the deployment wants them: on each node with capacity, one pod with a limit
      equal to it, and no pod anywhere else. */
  predicate Converged(s: AgentState, d: Deployment, nodes: seq<Node>) {
    && s.oldPool == d.pool && s.oldNad == d.nad
    && Covers(nodes, s)
    && forall i :: 0 <= i < |nodes| ==> PodAsWanted(s, d, nodes[i])
  }

  /** The node has some of the pool. */
  predicate HasCapacity(node: Node, pool: string) {
    pool != "" && pool in node.capacity && node.capacity[pool] > 0
  }

  predicate PodAsWanted(s: AgentState, d: Deployment, node: Node) {
    if HasCapacity(node, d.pool) then
      && node.name in s.pods
      && d.pool in s.pods[node.name].limits
      && s.pods[node.name].limits[d.pool] == node.capacity[d.pool]
      && s.pods[node.name].annotation == Copies(node.capacity[d.pool], d.nad)
    else node.name !in s.pods
  }

  /** After any change two reconciles are enough, and the next one writes nothing and is the last. */
  lemma TwoReconcilesConverge(s: AgentState, d: Deployment, nodes: seq<Node>)
    requires Inv(s) && DistinctNames(nodes) && Covers(nodes, s) && d.nad != ""
    ensures var s1 := ReconcileState(s, d, nodes, NO_FAULTS).0;
            var s2 := ReconcileState(s1, d, nodes, NO_FAULTS).0;
            && Converged(s2, d, nodes)
            && ReconcileState(s2, d, nodes, NO_FAULTS) == (s2, Finished)
  {
    var s1 := ReconcileState(s, d, nodes, NO_FAULTS).0;
    var s2 := ReconcileState(s1, d, nodes, NO_FAULTS).0;
    ReconcileKeepsInv(s, d, nodes, NO_FAULTS);
    ReconcileKeepsInv(s1, d, nodes, NO_FAULTS);
    VisitNodesEffect(s, d, nodes, NO_FAULTS);
    VisitNodesEffect(s1, d, nodes, NO_FAULTS);
    forall i | 0 <= i < |nodes| ensures PodAsWanted(s2, d, nodes[i]) {
      assert Visited(s, d, nodes[i], NO_FAULTS, s1.pods) && Visited(s1, d, nodes[i], NO_FAULTS, s2.pods);
    }
    ConvergedIsStable(s2, d, nodes);
  }

  lemma ConvergedIsStable(s: AgentState, d: Deployment, nodes: seq<Node>)
    requires Converged(s, d, nodes) && d.nad != ""
    ensures ReconcileState(s, d, nodes, NO_FAULTS) == (s, Finished)
  {
    ConvergedVisits(s, d, nodes, |nodes|);
    assert nodes[..|nodes|] == nodes;
  }

  lemma {:induction false} ConvergedVisits(s: AgentState, d: Deployment, nodes: seq<Node>, k: nat)
    requires Converged(s, d, nodes) && k <= |nodes|
    ensures VisitNodes(s, d, nodes[..k], NO_FAULTS) == (s, false)
  {
    if k > 0 {
      ConvergedVisits(s, d, nodes, k - 1);
      assert nodes[..k][..k - 1] == nodes[..k - 1];
      assert PodAsWanted(s, d, nodes[k - 1]);
    }
  }

  // ---------------------------------------------------------------------- which pods are replaced

  /** The pod of the node is to be replaced: after a change of pool or network if it has a limit under
      the old pool, otherwise if its limit is not what the node has. */
  predicate ToReplace(s: AgentState, d: Deployment, node: Node, faults: Faults) {
    && node.name !in faults.get && node.name in s.pods
    && var pod := s.pods[node.name];
    if d != Deployment(s.oldPool, s.oldNad) then s.oldPool in pod.limits
    else if HasCapacity(node, d.pool) then d.pool !in pod.limits || pod.limits[d.pool] != node.capacity[d.pool]
    else d.pool in pod.limits && pod.limits[d.pool] > 0
  }

  lemma VisitReplaces(s: AgentState, d: Deployment, node: Node, faults: Faults)
    ensures VisitNode(s, d, node, faults).1 <==> ToReplace(s, d, node, faults)
    ensures node.name in s.pods ==>
              (node.name !in VisitNode(s, d, node, faults).0.pods <==>
               ToReplace(s, d, node, faults) && node.name !in faults.delete)
  {}

  lemma {:induction false} VisitsReplace(s: AgentState, d: Deployment, nodes: seq<Node>, faults: Faults)
    requires DistinctNames(nodes)
    ensures VisitNodes(s, d, nodes, faults).1 <==>
            exists i :: 0 <= i < |nodes| && ToReplace(s, d, nodes[i], faults)
    ensures forall i :: 0 <= i < |nodes| && nodes[i].name in s.pods ==>
              (nodes[i].name !in VisitNodes(s, d, nodes, faults).0.pods <==>
               ToReplace(s, d, nodes[i], faults) && nodes[i].name !in faults.delete)
  {
    if nodes != [] {
      var init, last := nodes[..|nodes| - 1], nodes[|nodes| - 1];
      assert forall i :: 0 <= i < |init| ==> init[i] == nodes[i];
      VisitsReplace(s, d, init, faults);
      VisitNodesEffect(s, d, init, faults);
      var mid := VisitNodes(s, d, init, faults).0;
      VisitReplaces(mid, d, last, faults);
      VisitNodeEffect(mid, d, last, faults);
      assert !Listed(init, last.name) && SamePod(s.pods, mid.pods, last.name);
      assert ToReplace(mid, d, last, faults) <==> ToReplace(s, d, last, faults);
      forall i | 0 <= i < |init| ensures SamePod(mid.pods, VisitNodes(s, d, nodes, faults).0.pods, nodes[i].name) {}
    }
  }

  /** A reconcile comes back at once exactly when some pod is to be replaced, and later exactly when there
      is no network; and exactly the pods to be replaced go, unless the deletion fails. */
  lemma ReconcileReplacesIff(s: AgentState, d: Deployment, nodes: seq<Node>, faults: Faults)
    requires DistinctNames(nodes)
    ensures ReconcileState(s, d, nodes, faults).1 == RequeueLater <==> d.nad == ""
    ensures ReconcileState(s, d, nodes, faults).1 == RequeueNow <==>
            d.nad != "" && exists i :: 0 <= i < |nodes| && ToReplace(s, d, nodes[i], faults)
    ensures d.nad != "" ==>
              forall i :: 0 <= i < |nodes| && nodes[i].name in s.pods ==>
                (nodes[i].name !in ReconcileState(s, d, nodes, faults).0.pods <==>
                 ToReplace(s, d, nodes[i], faults) && nodes[i].name !in faults.delete)
    ensures d.nad == "" ==> ReconcileState(s, d, nodes, faults).0 == s
  {
    VisitsReplace(s, d, nodes, faults);
  }

  /** The annotation, letter by letter: the k-th copy of the network and the separator after it. */
  lemma {:induction false} CopiesParts(n: nat, nad: string, k: nat)
    requires k < n
    ensures |Copies(n, nad)| == n * (|nad| + 2) - 2
    ensures var at := k * (|nad| + 2);
            && 0 <= at <= at + |nad| <= |Copies(n, nad)|
            && Copies(n, nad)[at..at + |nad|] == nad
            && (k < n - 1 ==> at + |nad| + 2 <= |Copies(n, nad)| && Copies(n, nad)[at + |nad|..at + |nad| + 2] == ", ")
  {
    var w := |nad| + 2;
    if n > 1 {
      var shorter := Copies(n - 1, nad);
      CopiesParts(n - 1, nad, if k < n - 1 then k else n - 2);
      assert (n - 1) * w + w == n * w;
      assert (n - 2) * w + w == (n - 1) * w;
      if k < n - 1 {
        var at := k * w;
        assert Copies(n, nad)[at..at + |nad|] == shorter[at..at + |nad|];
        if k < n - 2 {
          assert Copies(n, nad)[at + |nad|..at + |nad| + 2] == shorter[at + |nad|..at + |nad| + 2];
        }
      }
    }
  }

  // ---------------------------------------------------------------------- a deletion that fails

  lemma {:induction false} CopiesLength(n: nat, nad: string)
    ensures |Copies(n, nad)| == if n == 0 then 0 else n * |nad| + 2 * (n - 1)
  {
    if n > 1 {
      CopiesLength(n - 1, nad);
      assert (n - 1) * |nad| + |nad| == n * |nad|;
    }
  }

  lemma CopiesInjective(n: nat, a: string, b: string)
    requires n > 0 && Copies(n, a) == Copies(n, b)
    ensures a == b
  {
    CopiesLength(n, a);
    CopiesLength(n, b);
    SameFactor(n, |a|, |b|);
    assert Copies(n, a)[|Copies(n, a)| - |a|..] == a;
    assert Copies(n, b)[|Copies(n, b)| - |b|..] == b;
  }

  lemma SameFactor(n: nat, x: nat, y: nat)
    requires n > 0 && n * x == n * y
    ensures x == y
  {
    assert n * (x - y) == 0;
  }

  /** A pod with as many resources as its node stays, while nothing is remembered wrongly. */
  lemma {:induction false} VisitsLeavePod(s: AgentState, d: Deployment, nodes: seq<Node>, faults: Faults, name: string)
    requires name in s.pods && s.oldPool == d.pool && s.oldNad == d.nad
    requires forall i :: 0 <= i < |nodes| && nodes[i].name == name ==>
               NodeResources(nodes[i], d.pool) == PodResources(s.pods[name], d.pool)
    ensures var s' := VisitNodes(s, d, nodes, faults).0;
            SamePod(s.pods, s'.pods, name) && s'.oldPool == s.oldPool && s'.oldNad == s.oldNad
  {
    if nodes != [] {
      var init := nodes[..|nodes| - 1];
      assert forall i :: 0 <= i < |init| ==> init[i] == nodes[i];
      VisitsLeavePod(s, d, init, faults, name);
    }
  }

  /** The deployment and the node's capacity for its pool stay what they are. */
  predicate Steady(rounds: seq<Round>, d: Deployment, name: string, amount: nat) {
    forall r :: 0 <= r < |rounds| ==>
      && rounds[r].deployment == d
      && forall i :: 0 <= i < |rounds[r].nodes| && rounds[r].nodes[i].name == name ==>
           NodeResources(rounds[r].nodes[i], d.pool) == amount
  }

  lemma {:induction false} PodStays(s: AgentState, d: Deployment, name: string, rounds: seq<Round>)
    requires name in s.pods && s.oldPool == d.pool && s.oldNad == d.nad
    requires Steady(rounds, d, name, PodResources(s.pods[name], d.pool))
    ensures var end := Run(s, rounds);
            SamePod(s.pods, end.pods, name) && end.oldPool == d.pool && end.oldNad == d.nad
  {
    if rounds != [] {
      var before, last := rounds[..|rounds| - 1], rounds[|rounds| - 1];
      assert forall i :: 0 <= i < |before| ==> before[i] == rounds[i];
      PodStays(s, d, name, before);
      VisitsLeavePod(Run(s, before), d, last.nodes, last.faults, name);
    }
  }

  /** When the network changes and a pod cannot be read or deleted in that reconcile, the pod keeps the
      old network for good: no number of later reconciles, with faults or without, restores the
      invariant while deployment and capacity stay the same. */
  lemma NetworkChangeCanBeLost(
      s: AgentState, d: Deployment, nodes: seq<Node>, faults: Faults, name: string, rounds: seq<Round>)
    requires Inv(s) && DistinctNames(nodes) && name in s.pods && OutOfReach(nodes, faults, name)
    requires d.nad != "" && d.pool == s.oldPool && d.nad != s.oldNad
    requires Steady(rounds, d, name, PodResources(s.pods[name], d.pool))
    ensures var end := Run(ReconcileState(s, d, nodes, faults).0, rounds);
            && name in end.pods && end.pods[name] == s.pods[name]
            && !MadeFor(end.pods[name], end.oldPool, end.oldNad) && !Inv(end)
  {
    var s1 := ReconcileState(s, d, nodes, faults).0;
    VisitNodesEffect(s, d, nodes, faults);
    if Listed(nodes, name) {
      var i :| 0 <= i < |nodes| && nodes[i].name == name;
      assert Visited(s, d, nodes[i], faults, s1.pods);
    }
    assert SamePod(s.pods, s1.pods, name);
    PodStays(s1, d, name, rounds);
    var n := PodResources(s.pods[name], d.pool);
    if Copies(n, s.oldNad) == Copies(n, d.nad) {
      CopiesInjective(n, s.oldNad, d.nad);
    }
  }

  // ---------------------------------------------------------------------- limits of earlier pools

  /** Whatever fails, each pod that a visit of the nodes creates has limits for exactly the pools that
      were in the template and for the one it is created for. */
  lemma {:induction false} CreatedPodLimits(s: AgentState, d: Deployment, nodes: seq<Node>, faults: Faults)
    ensures var s' := VisitNodes(s, d, nodes, faults).0;
            && (s'.template.Keys == s.template.Keys || s'.template.Keys == s.template.Keys + {d.pool})
            && |s.writes| <= |s'.writes|
            && forall k :: |s.writes| <= k < |s'.writes| && s'.writes[k].CreateWrite? ==>
                 s'.writes[k].pod.limits.Keys == s.template.Keys + {d.pool}
  {
    if nodes != [] {
      CreatedPodLimits(s, d, nodes[..|nodes| - 1], faults);
    }
  }

  /** A creation is attempted: some node whose pod is read as missing has resources of the pool. */
  predicate Attempts(s: AgentState, r: Round) {
    r.deployment.nad != "" &&
    exists i :: 0 <= i < |r.nodes| && Missing(s, r.deployment, r.nodes[i], r.faults)
  }

  predicate Missing(s: AgentState, d: Deployment, node: Node, faults: Faults) {
    node.name !in faults.get && node.name !in s.pods && NodeResources(node, d.pool) > 0
  }

  lemma {:induction false} TemplateAfterVisits(s: AgentState, d: Deployment, nodes: seq<Node>, faults: Faults)
    requires DistinctNames(nodes)
    ensures VisitNodes(s, d, nodes, faults).0.template.Keys ==
            s.template.Keys +
            if exists i :: 0 <= i < |nodes| && Missing(s, d, nodes[i], faults) then {d.pool} else {}
  {
    if nodes != [] {
      var init, last := nodes[..|nodes| - 1], nodes[|nodes| - 1];
      assert forall i :: 0 <= i < |init| ==> init[i] == nodes[i];
      TemplateAfterVisits(s, d, init, faults);
      VisitNodesEffect(s, d, init, faults);
      var mid := VisitNodes(s, d, init, faults).0;
      assert !Listed(init, last.name) && SamePod(s.pods, mid.pods, last.name);
      assert Missing(mid, d, last, faults) <==> Missing(s, d, last, faults);
      if i :| 0 <= i < |nodes| && Missing(s, d, nodes[i], faults) {
        assert i < |init| ==> Missing(s, d, init[i], faults);
      }
    }
  }

  /** The pools under which the rounds of a run attempted a creation. */
  function AttemptedPools(start: AgentState, rounds: seq<Round>): set<string> {
    if rounds == [] then {}
    else
      var before, last := rounds[..|rounds| - 1], rounds[|rounds| - 1];
      AttemptedPools(start, before) + if Attempts(Run(start, before), last) then {last.deployment.pool} else {}
  }

  lemma {:induction false} TemplateOverRuns(start: AgentState, rounds: seq<Round>)
    requires forall i :: 0 <= i < |rounds| ==> DistinctNames(rounds[i].nodes)
    ensures Run(start, rounds).template.Keys == start.template.Keys + AttemptedPools(start, rounds)
  {
    if rounds != [] {
      var before, last := rounds[..|rounds| - 1], rounds[|rounds| - 1];
      assert forall i :: 0 <= i < |before| ==> before[i] == rounds[i];
      TemplateOverRuns(start, before);
      TemplateAfterVisits(Run(start, before), last.deployment, last.nodes, last.faults);
    }
  }

  /** The template is shared by all pods. After any run, with or without faults, a new pod asks for the
      pools of the template at the start, for every pool under which a creation was attempted since,
      and for its own; so it asks for its own pool alone exactly when there was no other. */
  lemma NewPodLimitsIff(start: AgentState, rounds: seq<Round>, next: Round, k: nat)
    requires forall i :: 0 <= i < |rounds| ==> DistinctNames(rounds[i].nodes)
    requires var s, s' := Run(start, rounds), Run(start, rounds + [next]);
             |s.writes| <= k < |s'.writes| && s'.writes[k].CreateWrite?
    ensures var limits, pool := Run(start, rounds + [next]).writes[k].pod.limits, next.deployment.pool;
            && limits.Keys == start.template.Keys + AttemptedPools(start, rounds) + {pool}
            && limits.Keys == Run(start, rounds).template.Keys + {pool}
            && (limits.Keys == {pool} <==> Run(start, rounds).template.Keys <= {pool})
            && (limits.Keys == {pool} <==> start.template.Keys <= {pool} && AttemptedPools(start, rounds) <= {pool})
  {
    var s := Run(start, rounds);
    assert (rounds + [next])[..|rounds|] == rounds;
    CreatedPodLimits(s, next.deployment, next.nodes, next.faults);
    TemplateOverRuns(start, rounds);
  }

  /** The template is shared: when the pool changes, the new pod also asks for the resources of the
      old pool. Three reconciles replace the pod; it then has limits under both pools. */
  lemma NewPodKeepsEarlierLimits(node: Node, p: string, q: string, nad: string)
    requires p != q && nad != "" && NodeResources(node, p) > 0 && NodeResources(node, q) > 0
    ensures var s := AgentState(map[], [], "", "", map[]);
            var first := ReconcileState(s, Deployment(p, nad), [node], NO_FAULTS).0;
            var second := ReconcileState(first, Deployment(q, nad), [node], NO_FAULTS).0;
            var third := ReconcileState(second, Deployment(q, nad), [node], NO_FAULTS).0;
            && node.name in third.pods
            && PodResources(third.pods[node.name], q) == NodeResources(node, q)
            && PodResources(third.pods[node.name], p) == NodeResources(node, p)
  {
    OneNode(AgentState(map[], [], "", "", map[]), Deployment(p, nad), node);
    var first := ReconcileState(AgentState(map[], [], "", "", map[]), Deployment(p, nad), [node], NO_FAULTS).0;
    OneNode(first, Deployment(q, nad), node);
    var second := ReconcileState(first, Deployment(q, nad), [node], NO_FAULTS).0;
    OneNode(second, Deployment(q, nad), node);
  }

  lemma OneNode(s: AgentState, d: Deployment, node: Node)
    ensures VisitNodes(s, d, [node], NO_FAULTS) == VisitNode(s, d, node, NO_FAULTS)
  {
    assert [node][..0] == [];
    assert VisitNodes(s, d, [], NO_FAULTS) == (s, false);
  }
}
