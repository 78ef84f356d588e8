/** The values that travel through the flow-rule pipeline: the custom resources written by users
    and by the cluster controller, and the requests that the node controller sends to the DCF. */
module FlowTypes {

  import opened Wrappers

  type byte = x: int | 0 <= x < 0x100
  type uint32 = x: int | 0 <= x < 0x1_0000_0000

  /** The port id that tells the node controller to look the port up itself. */
  const AUTOMATIC_PORT_ID: uint32 := 0xFFFF_FFFF

  /** An undecoded JSON document (runtime.RawExtension). */
  type Raw = string

  // ---------------------------------------------------------------------- custom resources

  datatype ItemType =
    | END | VOID | INVERT | ANY | PF | VF | PHY_PORT | PORT_ID | RAW | ETH | VLAN | IPV4 | IPV6
    | ICMP | UDP | TCP | SCTP | VXLAN | E_TAG | NVGRE | MPLS | GRE | FUZZY | GTP | GTPC | GTPU
    | ESP | GENEVE | VXLAN_GPE | ARP_ETH_IPV4 | IPV6_EXT | ICMP6 | ICMP6_ND_NS | ICMP6_ND_NA
    | ICMP6_ND_OPT | ICMP6_ND_OPT_SLA_ETH | ICMP6_ND_OPT_TLA_ETH | MARK | META | GRE_KEY
    | GTP_PSC | PPPOES | PPPOED | PPPOE_PROTO_ID | NSH | IGMP | AH | HIGIG2 | TAG

  /** What the string in FlowItem.Type denotes: a name of the protobuf enumeration or anything else. */
  datatype ItemName = Item(itemType: ItemType) | UnknownItem(text: string)

  datatype ActionType =
    | A_END | A_VOID | A_PASSTHRU | A_JUMP | A_MARK | A_FLAG | A_QUEUE | A_DROP | A_COUNT | A_RSS
    | A_PF | A_VF | A_PHY_PORT | A_PORT_ID | A_METER | A_SECURITY | A_OF_SET_MPLS_TTL
    | A_OF_DEC_MPLS_TTL | A_OF_SET_NW_TTL | A_OF_DEC_NW_TTL | A_OF_COPY_TTL_OUT
    | A_OF_COPY_TTL_IN | A_OF_POP_VLAN | A_OF_PUSH_VLAN | A_OF_SET_VLAN_VID | A_OF_SET_VLAN_PCP
    | A_OF_POP_MPLS | A_OF_PUSH_MPLS | A_VXLAN_ENCAP | A_VXLAN_DECAP | A_NVGRE_ENCAP
    | A_NVGRE_DECAP | A_RAW_ENCAP | A_RAW_DECAP | A_SET_IPV4_SRC | A_SET_IPV4_DST
    | A_SET_IPV6_SRC | A_SET_IPV6_DST | A_SET_TP_SRC | A_SET_TP_DST | A_MAC_SWAP | A_DEC_TTL
    | A_SET_TTL | A_SET_MAC_SRC | A_SET_MAC_DST | A_INC_TCP_SEQ | A_DEC_TCP_SEQ | A_INC_TCP_ACK
    | A_DEC_TCP_ACK | A_SET_TAG | A_SET_META

  /** What the string in FlowAction.Type denotes: a name of the protobuf enumeration, the
      operator's own RTE_FLOW_ACTION_TYPE_VFPCIADDR, or anything else. */
  datatype ActionName = Action(actionType: ActionType) | VfPciAddr | UnknownAction(text: string)

  datatype FlowAttr = FlowAttr(
    group: uint32, priority: uint32, ingress: uint32, egress: uint32, transfer: uint32, reserved: uint32)

  datatype FlowItem = FlowItem(name: ItemName, spec: Option<Raw>, last: Option<Raw>, mask: Option<Raw>)

  datatype FlowAction = FlowAction(name: ActionName, conf: Option<Raw>)

  datatype FlowRules = FlowRules(
    portId: uint32, attr: Option<FlowAttr>, pattern: seq<FlowItem>, action: seq<FlowAction>)

  /** The integer in ClusterFlowAction.Type: 20000, a number of the protobuf enumeration, or another. */
  datatype ClusterActionType = ToPodInterface | RteType(actionType: ActionType) | OtherNumber(n: int)

  datatype ClusterFlowAction = ClusterFlowAction(actionType: ClusterActionType, conf: Option<Raw>)

  datatype ClusterFlowRule = ClusterFlowRule(
    attr: Option<FlowAttr>, pattern: seq<FlowItem>, action: seq<ClusterFlowAction>)

  // ---------------------------------------------------------------------- DCF messages

  datatype Ipv4Hdr = Ipv4Hdr(
    versionIhl: uint32, typeOfService: uint32, totalLength: uint32, packetId: uint32,
    fragmentOffset: uint32, timeToLive: uint32, nextProtoId: uint32, hdrChecksum: uint32,
    srcAddr: uint32, dstAddr: uint32)

  datatype UdpHdr = UdpHdr(srcPort: uint32, dstPort: uint32, dgramLen: uint32, dgramCksum: uint32)

  /** The message inside a protobuf Any of a pattern item. */
  datatype ItemMsg =
    | EthMsg(etherType: uint32, dst: Option<seq<byte>>, src: Option<seq<byte>>)
    | VlanMsg(tci: uint32, innerType: uint32)
    | Ipv4Msg(ipv4: Option<Ipv4Hdr>)
    | UdpMsg(udp: Option<UdpHdr>)
    | PppoeMsg(versionType: uint32, code: uint32, sessionId: uint32, length: uint32)
    | ProtoIdMsg(protoId: uint32)
    | OtherItemMsg(itemType: ItemType, payload: string)

  datatype VfConf = VfConf(reserved: uint32, original: uint32, id: uint32)

  /** The message inside a protobuf Any of an action. */
  datatype ActionMsg = VfMsg(vf: VfConf) | OtherActionMsg(actionType: ActionType, payload: string)

  datatype RteFlowItem = RteFlowItem(
    itemType: ItemType, spec: Option<ItemMsg>, last: Option<ItemMsg>, mask: Option<ItemMsg>)

  datatype RteFlowAction = RteFlowAction(actionType: ActionType, conf: Option<ActionMsg>)

  datatype RequestFlowCreate = RequestFlowCreate(
    portId: uint32, attr: Option<FlowAttr>, pattern: seq<RteFlowItem>, action: seq<RteFlowAction>)

  datatype PortInformation = PortInformation(portId: uint32, portPci: string, portMode: string)
}
