/** The node controller (controllers/flowconfig/nodeflowconfig_controller.go): each method is proved
    to perform a run of module NodeSync and to send exactly the calls of that run. */
module NodeFlowConfig {

  import opened Wrappers
  import opened FlowTypes
  import opened FlowSets
  import opened Dcf
  import opened NodeSync
  import opened Translation

  /** What reading the custom resource from the API server brings back. */
  datatype Fetched = Found(rules: seq<FlowRules>) | NotFound | ReadError

  datatype SyncError = PortListError | NotTranslated(error: TranslationError) | DcfError | RteFlowError

  function ErrorFor(answer: Answer): SyncError
    requires answer != Done
  {
    if answer.TransportError? then DcfError else RteFlowError
  }

  /** The records are some of those in the cache. */
  predicate Among(records: Cache, data: Cache) {
    forall k :: k in records ==> k in data && data[k] == records[k]
  }

  class NodeFlowConfigReconciler {
    const flowSets: FlowSets
    const dcf: DcfService
    const codec: Codec
    const sriov: Sriov

    constructor (flowSets: FlowSets, dcf: DcfService, codec: Codec, sriov: Sriov)
      ensures this.flowSets == flowSets && this.dcf == dcf && this.codec == codec && this.sriov == sriov
    {
      this.flowSets, this.dcf, this.codec, this.sriov := flowSets, dcf, codec, sriov;
    }

    ghost function State(): NodeState
      reads flowSets, dcf
    {
      NodeState(flowSets.data, dcf.live)
    }

    /** What a run of operations leaves behind: the state it leads to and its calls on the wire. */
    ghost predicate Reached(start: NodeState, log: seq<Call>, ops: seq<Op>)
      reads flowSets, dcf
    {
      State() == Exec(start, ops) && dcf.log == log + Calls(ops)
    }

    /** The same for a method as a whole. */
    twostate predicate Performed(ops: seq<Op>)
      reads flowSets, dcf
    {
      Reached(old(State()), old(dcf.log), ops) && dcf.ports == old(dcf.ports)
    }

    /** Adds to a run the operation that the last calls have carried out. */
    lemma Record(start: NodeState, log: seq<Call>, wanted: set<FlowKey>, ops: seq<Op>, op: Op) returns (more: seq<Op>)
      requires LegalRun(wanted, start, ops) && !Refused(ops) && Legal(wanted, Exec(start, ops), op)
      ensures more == ops + [op] && LegalRun(wanted, start, more)
      ensures Exec(start, more) == Apply(Exec(start, ops), op)
      ensures log + Calls(more) == log + Calls(ops) + CallsOf(op)
      ensures Refused(more) <==> Rejects(op)
    {
      more := ops + [op];
      ExtendRun(wanted, start, ops, op);
    }

    /** What has been sent since the log was as given: each Create validated first, nothing after a
        refusal, each new record with its Create, and, if cache and hardware agreed, each dropped record with one Destroy. */
    ghost predicate WireInOrder(before: NodeState, log: seq<Call>)
      reads flowSets, dcf
    {
      && log <= dcf.log
      && var calls := dcf.log[|log|..];
      && CreatesAreValidated(calls) && StopsAtRefusal(calls)
      && NewAreCreated(before.cache, flowSets.data, calls)
      && (Agree(before) ==> GoneAreDestroyed(before.cache, flowSets.data, calls))
    }

    lemma RunIsInOrder(wanted: set<FlowKey>, s: NodeState, log: seq<Call>, ops: seq<Op>)
      requires LegalRun(wanted, s, ops) && Reached(s, log, ops)
      ensures WireInOrder(s, log)
    {
      CallsAreValidated(ops);
      RunStopsAtRefusal(wanted, s, ops);
      NewOnTheWire(wanted, s, ops);
      if Agree(s) {
        GoneOnTheWire(wanted, s, ops);
      }
      assert dcf.log[|log|..] == Calls(ops);
    }

    method Reconcile(fetched: Fetched) returns (error: bool, ghost round: Option<Round>)
      modifies flowSets, dcf
      ensures WireInOrder(old(State()), old(dcf.log))
      ensures error <==> fetched.ReadError?
      ensures fetched.NotFound? ==> flowSets.data == map[]
      ensures round.None? ==> Performed([])
      ensures round.Some? ==>
                && SyncRun(round.value.wanted, old(State()), round.value.ops, round.value.ok)
                && Performed(round.value.ops)
      ensures fetched.NotFound? ==> round.Some? && round.value.wanted == {}
      ensures fetched.Found? && dcf.ports.Some? ==>
                var reqs := TranslateAll(codec, sriov, dcf.ports, fetched.rules);
                if reqs.Success? then round.Some? && round.value.wanted == Keys(reqs.value)
                else round.None?
      ensures fetched.Found? && dcf.ports.None? ==> round.None?
      ensures fetched.ReadError? ==> round.None?
    {
      error, round := false, None;
      match fetched {
        case NotFound =>
          ghost var ops := DeleteAllRules();
          round := Some(Round({}, ops, true));
        case ReadError =>
          error := true;
        case Found(rules) =>
          var syncErr;
          ghost var ops;
          syncErr, ops := SyncFlowConfig(rules);
          if dcf.ports.Some? && TranslateAll(codec, sriov, dcf.ports, rules).Success? {
            round := Some(Round(Keys(TranslateAll(codec, sriov, dcf.ports, rules).value), ops, syncErr.None?));
          }
      }
      ghost var wanted, ops := if round.Some? then round.value.wanted else {}, if round.Some? then round.value.ops else [];
      RunIsInOrder(wanted, old(State()), old(dcf.log), ops);
    }

    /** Lists the DCF ports first; without them nothing is synchronised. */
    method SyncFlowConfig(rules: seq<FlowRules>) returns (err: Option<SyncError>, ghost ops: seq<Op>)
      modifies flowSets, dcf
      ensures Performed(ops)
      ensures dcf.ports.None? ==> err == Some(PortListError) && ops == []
      ensures dcf.ports.Some? ==>
                match TranslateAll(codec, sriov, dcf.ports, rules)
                case Failure(e) => err == Some(NotTranslated(e)) && ops == []
                case Success(reqs) => SyncRun(Keys(reqs), old(State()), ops, err.None?)
    {
      if dcf.ports.None? {
        return Some(PortListError), [];
      }
      err, ops := SyncRules(rules);
    }

    method SyncRules(rules: seq<FlowRules>) returns (err: Option<SyncError>, ghost ops: seq<Op>)
      modifies flowSets, dcf
      ensures Performed(ops)
      ensures match TranslateAll(codec, sriov, dcf.ports, rules)
              case Failure(e) => err == Some(NotTranslated(e)) && ops == []
              case Success(reqs) => SyncRun(Keys(reqs), old(State()), ops, err.None?)
    {
      var flowReqs: seq<RequestFlowCreate> := [];
      for i := 0 to |rules|
        invariant TranslateAll(codec, sriov, dcf.ports, rules[..i]) == Success(flowReqs)
        invariant State() == old(State()) && dcf.log == old(dcf.log) && dcf.ports == old(dcf.ports)
      {
        var rteFlowCreateRequest := GetFlowCreateRequests(rules[i]);
        assert rules[..i + 1][..i] == rules[..i];
        if rteFlowCreateRequest.Failure? {
          RulesPrefix(codec, sriov, dcf.ports, rules, i + 1);
          return Some(NotTranslated(rteFlowCreateRequest.error)), [];
        }
        flowReqs := flowReqs + [rteFlowCreateRequest.value];
      }
      assert rules[..|rules|] == rules;
      var toAdd, toDelete := GetToAddAndDelete(flowReqs);
      err, ops := CreateAndDeleteRules(toAdd, toDelete, Keys(flowReqs));
    }

    method CreateAndDeleteRules(
        toAdd: map<FlowKey, RequestFlowCreate>, toDelete: Cache, ghost wanted: set<FlowKey>)
      returns (err: Option<SyncError>, ghost ops: seq<Op>)
      requires Among(toDelete, flowSets.data) && toDelete.Keys == flowSets.data.Keys - wanted
      requires toAdd.Keys == wanted - flowSets.data.Keys
      requires forall k :: k in toAdd ==> k == Sha256(toAdd[k])
      modifies flowSets, dcf
      ensures Performed(ops) && SyncRun(wanted, old(State()), ops, err.None?)
    {
      ghost var drops := DeleteRules(toDelete, wanted);
      err, ops := CreateRules(toAdd, wanted, old(State()), old(dcf.log), drops);
    }

    /** The error that deleteRules could report is dropped, so this never fails. */
    method DeleteAllRules() returns (ghost ops: seq<Op>)
      modifies flowSets, dcf
      ensures Performed(ops) && SyncRun({}, old(State()), ops, true)
    {
      var toDelete := flowSets.GetCompliments([]);
      ops := DeleteRules(toDelete, {});
    }

    /** Whatever Destroy answers, the record is dropped. */
    method DeleteRules(toDelete: Cache, ghost wanted: set<FlowKey>) returns (ghost ops: seq<Op>)
      requires Among(toDelete, flowSets.data) && toDelete.Keys !! wanted
      modifies flowSets, dcf
      ensures Performed(ops) && LegalRun(wanted, old(State()), ops) && !Refused(ops)
      ensures flowSets.data == old(flowSets.data) - toDelete.Keys
    {
      ops := [];
      var pending := toDelete.Keys;
      while pending != {}
        invariant pending <= toDelete.Keys
        invariant flowSets.data == old(flowSets.data) - (toDelete.Keys - pending)
        invariant Performed(ops) && LegalRun(wanted, old(State()), ops) && !Refused(ops)
      {
        var k :| k in pending;
        var fr := toDelete[k];
        var took := dcf.Destroy(Slot(fr.rule.portId, fr.flowId));
        flowSets.Delete(k);
        ops := Record(old(State()), old(dcf.log), wanted, ops, Drop(k, fr, took));
        pending := pending - {k};
      }
    }

    /** Validates and creates one rule after the other and stops at the first refusal. Continues the
        run of drops that led here. */
    method CreateRules(
        toAdd: map<FlowKey, RequestFlowCreate>, ghost wanted: set<FlowKey>,
        ghost start: NodeState, ghost log: seq<Call>, ghost drops: seq<Op>)
      returns (err: Option<SyncError>, ghost ops: seq<Op>)
      requires Reached(start, log, drops) && LegalRun(wanted, start, drops) && !Refused(drops)
      requires flowSets.data.Keys <= wanted && toAdd.Keys == wanted - flowSets.data.Keys
      requires forall k :: k in toAdd ==> k == Sha256(toAdd[k])
      modifies flowSets, dcf
      ensures Reached(start, log, ops) && SyncRun(wanted, start, ops, err.None?)
      ensures err.Some? ==> err == Some(ErrorFor(ops[|ops| - 1].answer))
      ensures dcf.ports == old(dcf.ports)
    {
      ops, err := drops, None;
      var pending := toAdd.Keys;
      while pending != {}
        invariant pending <= toAdd.Keys
        invariant flowSets.data.Keys == wanted - pending
        invariant Reached(start, log, ops) && LegalRun(wanted, start, ops) && !Refused(ops)
        invariant err.None? && dcf.ports == old(dcf.ports)
      {
        var k :| k in pending;
        var req := toAdd[k];
        ghost var op;
        assert MayCreate(wanted, State(), req);
        err, op := CreateRule(k, req, wanted);
        ops := Record(start, log, wanted, ops, op);
        if err.Some? {
          break;
        }
        assert (wanted - pending) + {k} == wanted - (pending - {k});
        pending := pending - {k};
      }
    }

    /** One turn of the loop in createRules. */
    method CreateRule(k: FlowKey, req: RequestFlowCreate, ghost wanted: set<FlowKey>)
      returns (err: Option<SyncError>, ghost op: Op)
      requires MayCreate(wanted, State(), req) && k == Sha256(req)
      modifies flowSets, dcf
      ensures Legal(wanted, old(State()), op)
      ensures State() == Apply(old(State()), op)
      ensures dcf.log == old(dcf.log) + CallsOf(op) && dcf.ports == old(dcf.ports)
      ensures err.None? ==> flowSets.data.Keys == old(flowSets.data.Keys) + {k}
      ensures if err.None? then op.Put? && op.rule == req else Rejects(op) && err == Some(ErrorFor(op.answer))
    {
      var answer := dcf.Validate(req);
      if answer != Done {
        return Some(ErrorFor(answer)), RejectedByValidate(req, answer);
      }
      var created := dcf.Create(req);
      if created.NotCreated? {
        return Some(ErrorFor(created.reason)), RejectedByCreate(req, created.reason);
      }
      flowSets.Add(k, created.flowId, req);
      return None, Put(req, created.flowId);
    }

    /** The rules to create, by hash, and the records whose rule is no longer wanted. */
    method GetToAddAndDelete(flowReqs: seq<RequestFlowCreate>)
      returns (toAdd: map<FlowKey, RequestFlowCreate>, toDelete: Cache)
      ensures toAdd.Keys == Keys(flowReqs) - flowSets.data.Keys
      ensures forall k :: k in toAdd ==> k == Sha256(toAdd[k])
      ensures Among(toDelete, flowSets.data) && toDelete.Keys == flowSets.data.Keys - Keys(flowReqs)
    {
      toAdd := map[];
      var newKeys: seq<FlowKey> := [];
      for i := 0 to |flowReqs|
        invariant toAdd.Keys == Keys(flowReqs[..i]) - flowSets.data.Keys
        invariant forall k :: k in toAdd ==> k == Sha256(toAdd[k])
        invariant forall k :: k in newKeys <==> k in Keys(flowReqs[..i])
      {
        var key := Sha256(flowReqs[i]);
        newKeys := newKeys + [key];
        assert flowReqs[..i + 1] == flowReqs[..i] + [flowReqs[i]];
        assert Keys(flowReqs[..i + 1]) == Keys(flowReqs[..i]) + {key};
        if !flowSets.Has(key) {
          toAdd := toAdd[key := flowReqs[i]];
        }
      }
      assert flowReqs[..|flowReqs|] == flowReqs;
      toDelete := flowSets.GetCompliments(newKeys);
    }

    method GetFlowCreateRequests(fr: FlowRules) returns (r: Result<RequestFlowCreate, TranslationError>)
      ensures r == Translate(codec, sriov, dcf.ports, fr)
    {
      var pattern := GetFlowPatterns(fr.pattern);
      if pattern.Failure? {
        return Failure(pattern.error);
      }
      var actions, podPciAddress := GetFlowActions(fr.action);
      if actions.Failure? {
        return Failure(actions.error);
      }
      var portId := fr.portId;
      if fr.portId == AUTOMATIC_PORT_ID {
        var found := GetPortIdFromDcfPort(podPciAddress);
        if found.Failure? {
          return Failure(found.error);
        }
        portId := found.value;
      }
      r := Success(RequestFlowCreate(portId, fr.attr, pattern.value, actions.value));
    }

    /** The first loop of getFlowCreateRequests. */
    method GetFlowPatterns(items: seq<FlowItem>) returns (r: Result<seq<RteFlowItem>, TranslationError>)
      ensures r == TranslateItems(codec, items)
    {
      var pattern: seq<RteFlowItem> := [];
      for i := 0 to |items|
        invariant TranslateItems(codec, items[..i]) == Success(pattern)
      {
        assert items[..i + 1][..i] == items[..i];
        var rteFlowItem := GetFlowItem(items[i]);
        if rteFlowItem.Failure? {
          ItemsPrefix(codec, items, i + 1);
          return Failure(rteFlowItem.error);
        }
        pattern := pattern + [rteFlowItem.value];
      }
      assert items[..|items|] == items;
      r := Success(pattern);
    }

    /** One turn of that loop. */
    method GetFlowItem(item: FlowItem) returns (r: Result<RteFlowItem, TranslationError>)
      ensures r == TranslateItem(codec, item)
    {
      if item.name.UnknownItem? {
        return Failure(InvalidItemType);
      }
      var rteFlowItem := RteFlowItem(item.name.itemType, None, None, None);
      if item.spec.Some? {
        var specAny := GetFlowItemAny(codec, item.name, item.spec.value);
        if specAny.Failure? {
          return Failure(specAny.error);
        }
        rteFlowItem := rteFlowItem.(spec := Some(specAny.value));
      }
      if item.last.Some? {
        var lastAny := GetFlowItemAny(codec, item.name, item.last.value);
        if lastAny.Failure? {
          return Failure(lastAny.error);
        }
        rteFlowItem := rteFlowItem.(spec := Some(lastAny.value));
      }
      if item.mask.Some? {
        var maskAny := GetFlowItemAny(codec, item.name, item.mask.value);
        if maskAny.Failure? {
          return Failure(maskAny.error);
        }
        rteFlowItem := rteFlowItem.(mask := Some(maskAny.value));
      }
      r := Success(rteFlowItem);
    }

    /** The second loop of getFlowCreateRequests, which also notes the first PCI address. */
    method GetFlowActions(actions: seq<FlowAction>)
      returns (r: Result<seq<RteFlowAction>, TranslationError>, podPciAddress: string)
      ensures r == TranslateActions(codec, sriov, actions)
      ensures r.Success? ==> podPciAddress == FirstPciAddress(codec, actions)
    {
      podPciAddress := "";
      var rteFlowActions: seq<RteFlowAction> := [];
      for i := 0 to |actions|
        invariant TranslateActions(codec, sriov, actions[..i]) == Success(rteFlowActions)
        invariant podPciAddress == FirstPciAddress(codec, actions[..i])
      {
        var action := actions[i];
        assert actions[..i + 1][..i] == actions[..i];
        var val := GetFlowActionType(action.name);
        if val.None? {
          ActionsPrefix(codec, sriov, actions, i + 1);
          return Failure(InvalidActionType), podPciAddress;
        }
        var rteFlowAction := RteFlowAction(val.value, None);
        if action.conf.Some? {
          var actionAny := GetFlowActionAny(codec, action.name, action.conf.value, Some(sriov));
          if actionAny.Failure? {
            ActionsPrefix(codec, sriov, actions, i + 1);
            return Failure(actionAny.error), podPciAddress;
          }
          if action.name.VfPciAddr? {
            var addr := codec.decodePciAddr(action.conf.value);
            if podPciAddress == "" {
              podPciAddress := addr.value;
            }
          }
          rteFlowAction := rteFlowAction.(conf := Some(actionAny.value));
        }
        rteFlowActions := rteFlowActions + [rteFlowAction];
      }
      assert actions[..|actions|] == actions;
      r := Success(rteFlowActions);
    }

    method GetPortIdFromDcfPort(otherVfPciAddress: string) returns (r: Result<uint32, TranslationError>)
      ensures r == PortOf(sriov, dcf.ports, otherVfPciAddress)
    {
      var pfName := sriov.getPfName(otherVfPciAddress);
      if pfName.None? {
        return Failure(PfLookupFailed);
      }
      if dcf.ports.None? {
        return Failure(PortsUnavailable);
      }
      var dcfPorts := dcf.ports.value;
      for i := 0 to |dcfPorts|
        invariant MatchPort(sriov, dcfPorts, pfName.value) == MatchPort(sriov, dcfPorts[i..], pfName.value)
      {
        var dcfPfName := sriov.getPfName(dcfPorts[i].portPci);
        assert dcfPorts[i..][1..] == dcfPorts[i + 1..];
        if dcfPfName.None? {
          return Failure(PfLookupFailed);
        }
        if pfName.value == dcfPfName.value {
          return Success(dcfPorts[i].portId);
        }
      }
      r := Failure(NoMatchingPort);
    }
  }
}
