/** The DCF gRPC service as the node controller sees it: a per-port table of live flows that may
    accept or refuse any request. */
module Dcf {

  import opened Wrappers
  import opened FlowTypes

  /** A live flow is addressed by its port and by the flow id that Create handed out. */
  datatype Slot = Slot(portId: uint32, flowId: uint32)

  type Hardware = map<Slot, RequestFlowCreate>

  /** What a call brings back: success, a gRPC error, or a response carrying an RTE flow error. */
  datatype Answer = Done | TransportError | FlowError

  datatype CreateAnswer = Created(flowId: uint32) | NotCreated(reason: Answer)

  /** One request on the wire together with its answer. */
  datatype Call =
    | ValidateCall(req: RequestFlowCreate, answer: Answer)
    | CreateCall(req: RequestFlowCreate, created: CreateAnswer)
    | DestroyCall(slot: Slot, took: bool)

  class DcfService {
    var live: Hardware
    var ports: Option<seq<PortInformation>>
    ghost var log: seq<Call>

    /** Validate checks a rule and changes nothing. */
    method Validate(req: RequestFlowCreate) returns (answer: Answer)
      modifies this`log
      ensures log == old(log) + [ValidateCall(req, answer)]
    {
      answer := *;
      log := log + [ValidateCall(req, answer)];
    }

    /** Create installs the rule under a flow id that is not live on its port, or refuses. */
    method Create(req: RequestFlowCreate) returns (created: CreateAnswer)
      modifies this`log, this`live
      ensures log == old(log) + [CreateCall(req, created)]
      ensures created.NotCreated? ==> created.reason != Done && live == old(live)
      ensures created.Created? ==>
                && Slot(req.portId, created.flowId) !in old(live)
                && live == old(live)[Slot(req.portId, created.flowId) := req]
    {
      if * {
        created := NotCreated(TransportError);
      } else if id: uint32 :| 0 <= id < 0x1_0000_0000 && Slot(req.portId, id) !in live {
        created := Created(id);
        live := live[Slot(req.portId, id) := req];
      } else {
        created := NotCreated(FlowError);
      }
      log := log + [CreateCall(req, created)];
    }

    /** Destroy removes the flow, or answers with an error and leaves it. */
    method Destroy(slot: Slot) returns (took: bool)
      modifies this`log, this`live
      ensures log == old(log) + [DestroyCall(slot, took)]
      ensures live == if took then old(live) - {slot} else old(live)
    {
      took := *;
      if took {
        live := live - {slot};
      }
      log := log + [DestroyCall(slot, took)];
    }
  }
}
