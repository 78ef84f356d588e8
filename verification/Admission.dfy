/** The admission webhooks of NodeFlowConfig and ClusterFlowConfig (apis/flowconfig/v1). */
module Admission {

  import opened Wrappers
  import opened FlowTypes
  import opened Translation
  import Bytes

  /** A webhook accepts, returns an error, or panics on a nil pointer. */
  datatype Verdict = Accept | Reject | Crash

  /** Which of the three documents of a pattern item is looked at. */
  datatype Role = SpecDoc | LastDoc | MaskDoc

  function When(ok: bool): Verdict {
    if ok then Accept else Reject
  }

  // ---------------------------------------------------------------------- validate.go

  /** A last or mask field needs a non-zero spec field, and a last field must not be below it. */
  predicate ValidateUint32ItemField(role: Role, specValue: uint32, fieldValue: uint32) {
    role == SpecDoc ||
    (!(specValue == 0 && fieldValue != 0) && !(role == LastDoc && fieldValue < specValue))
  }

  predicate MacFieldOk(role: Role, spec: Option<MacBytes>, item: Option<MacBytes>) {
    item.Some? ==>
      var specInt := if spec.Some? then Bytes.EncodeHexMacAddress(spec.value) else Some(0);
      var itemInt := Bytes.EncodeHexMacAddress(item.value);
      specInt.Some? && itemInt.Some? && ValidateUint32ItemField(role, specInt.value, itemInt.value)
  }

  function ValidateEth(role: Role, spec: Option<ItemMsg>, item: ItemMsg): Verdict {
    match (spec.GetOr(EthMsg(0, None, None)), item)
    case (EthMsg(specType, specDst, specSrc), EthMsg(etherType, dst, src)) =>
      When(&& (etherType != 0 ==> ValidateUint32ItemField(role, specType, etherType))
           && MacFieldOk(role, specDst, dst)
           && MacFieldOk(role, specSrc, src)
           && etherType <= 0xFFFF)
    case _ => Reject
  }

  function ValidateVlan(role: Role, spec: Option<ItemMsg>, item: ItemMsg): Verdict {
    match (spec.GetOr(VlanMsg(0, 0)), item)
    case (VlanMsg(specTci, specInner), VlanMsg(tci, inner)) =>
      When(&& ValidateUint32ItemField(role, specTci, tci)
           && ValidateUint32ItemField(role, specInner, inner)
           && tci <= 0xFFFF && inner <= 0xFFFF)
    case _ => Reject
  }

  /** The header of the checked document is dereferenced without a test. */
  function ValidateIpv4(role: Role, spec: Option<ItemMsg>, item: ItemMsg): Verdict {
    match (spec.GetOr(Ipv4Msg(None)), item)
    case (Ipv4Msg(_), Ipv4Msg(None)) => Crash
    case (Ipv4Msg(specHdr), Ipv4Msg(Some(hdr))) =>
      When(&& (specHdr.Some? ==> Ipv4FieldsOk(role, specHdr.value, hdr))
           && hdr.versionIhl <= 0xFF && hdr.typeOfService <= 0xFF && hdr.totalLength <= 0xFFFF
           && hdr.packetId <= 0xFFFF && hdr.fragmentOffset <= 0xFFFF && hdr.timeToLive <= 0xFF
           && hdr.nextProtoId <= 0xFF && hdr.hdrChecksum <= 0xFF)
    case _ => Reject
  }

  predicate Ipv4FieldsOk(role: Role, spec: Ipv4Hdr, hdr: Ipv4Hdr) {
    && ValidateUint32ItemField(role, spec.versionIhl, hdr.versionIhl)
    && ValidateUint32ItemField(role, spec.typeOfService, hdr.typeOfService)
    && ValidateUint32ItemField(role, spec.totalLength, hdr.totalLength)
    && ValidateUint32ItemField(role, spec.packetId, hdr.packetId)
    && ValidateUint32ItemField(role, spec.fragmentOffset, hdr.fragmentOffset)
    && ValidateUint32ItemField(role, spec.timeToLive, hdr.timeToLive)
    && ValidateUint32ItemField(role, spec.nextProtoId, hdr.nextProtoId)
    && ValidateUint32ItemField(role, spec.hdrChecksum, hdr.hdrChecksum)
    && ValidateUint32ItemField(role, spec.srcAddr, hdr.srcAddr)
    && ValidateUint32ItemField(role, spec.dstAddr, hdr.dstAddr)
  }

  /** The header of the checked document is dereferenced when the spec document has one. */
  function ValidateUdp(role: Role, spec: Option<ItemMsg>, item: ItemMsg): Verdict {
    match (spec.GetOr(UdpMsg(None)), item)
    case (UdpMsg(specHdr), UdpMsg(None)) => if specHdr.Some? then Crash else Accept
    case (UdpMsg(specHdr), UdpMsg(Some(hdr))) =>
      When(&& (specHdr.Some? ==> UdpFieldsOk(role, specHdr.value, hdr))
           && hdr.srcPort <= 0xFFFF && hdr.dstPort <= 0xFFFF
           && hdr.dgramLen <= 0xFFFF && hdr.dgramCksum <= 0xFFFF)
    case _ => Reject
  }

  predicate UdpFieldsOk(role: Role, spec: UdpHdr, hdr: UdpHdr) {
    && (hdr.srcPort != 0 ==> ValidateUint32ItemField(role, spec.srcPort, hdr.srcPort))
    && (hdr.dstPort != 0 ==> ValidateUint32ItemField(role, spec.dstPort, hdr.dstPort))
    && (hdr.dgramLen != 0 ==> ValidateUint32ItemField(role, spec.dgramLen, hdr.dgramLen))
    && (hdr.dgramCksum != 0 ==> ValidateUint32ItemField(role, spec.dgramCksum, hdr.dgramCksum))
  }

  function ValidatePppoe(role: Role, spec: Option<ItemMsg>, item: ItemMsg): Verdict {
    match (spec.GetOr(PppoeMsg(0, 0, 0, 0)), item)
    case (PppoeMsg(specVersion, specCode, specSession, specLength), PppoeMsg(version, code, session, length)) =>
      When(&& (specVersion != 0 ==> ValidateUint32ItemField(role, specVersion, version))
           && (specCode != 0 ==> ValidateUint32ItemField(role, specCode, code))
           && (specSession != 0 ==> ValidateUint32ItemField(role, specSession, session))
           && (specLength != 0 ==> ValidateUint32ItemField(role, specLength, length))
           && version <= 0xFF && code <= 0xFF && session <= 0xFFFF && length <= 0xFFFF)
    case _ => Reject
  }

  function ValidatePppoeProtoId(role: Role, spec: Option<ItemMsg>, item: ItemMsg): Verdict {
    match (spec.GetOr(ProtoIdMsg(0)), item)
    case (ProtoIdMsg(specId), ProtoIdMsg(id)) =>
      When(ValidateUint32ItemField(role, specId, id) && id <= 0xFFFF)
    case _ => Reject
  }

  function ValidateRteFlowActionVf(conf: Option<ActionMsg>): Verdict {
    match conf
    case Some(VfMsg(vf)) => When(vf.id <= 255 && vf.original <= 1 && vf.reserved == 0)
    case _ => Reject
  }

  // ---------------------------------------------------------------------- webhook_common.go

  function ValidateItem(t: ItemType, role: Role, spec: Option<ItemMsg>, item: ItemMsg): Verdict {
    if spec.None? && role != SpecDoc then Reject
    else match t
         case ETH => ValidateEth(role, spec, item)
         case VLAN => ValidateVlan(role, spec, item)
         case IPV4 => ValidateIpv4(role, spec, item)
         case UDP => ValidateUdp(role, spec, item)
         case PPPOES | PPPOED => ValidatePppoe(role, spec, item)
         case PPPOE_PROTO_ID => ValidatePppoeProtoId(role, spec, item)
         case _ => Accept
  }

  /** One document of an item: absent is fine, undecodable is not. */
  function ValidateDocument(c: Codec, name: ItemName, role: Role, spec: Option<ItemMsg>, raw: Option<Raw>): Verdict
    requires name.Item?
  {
    match raw
    case None => Accept
    case Some(b) =>
      match GetFlowItemAny(c, name, b)
      case Failure(_) => Reject
      case Success(msg) => ValidateItem(name.itemType, role, spec, msg)
  }

  /** The decoded spec document, if there is one and it can be decoded. */
  function SpecOf(c: Codec, item: FlowItem): Option<ItemMsg> {
    match item.spec
    case None => None
    case Some(b) => match GetFlowItemAny(c, item.name, b) case Failure(_) => None case Success(msg) => Some(msg)
  }

  function ValidateRteFlowItem(c: Codec, item: FlowItem): Verdict {
    if item.name.UnknownItem? then Reject
    else
      var spec := ValidateDocument(c, item.name, SpecDoc, None, item.spec);
      if spec != Accept then spec
      else
        var last := ValidateDocument(c, item.name, LastDoc, SpecOf(c, item), item.last);
        if last != Accept then last
        else ValidateDocument(c, item.name, MaskDoc, SpecOf(c, item), item.mask)
  }

  /** The verdict on items one after the other: the first that is not accepted decides. */
  function ItemsVerdict(c: Codec, items: seq<FlowItem>): Verdict {
    if items == [] then Accept
    else
      var before := ItemsVerdict(c, items[..|items| - 1]);
      if before != Accept then before else ValidateRteFlowItem(c, items[|items| - 1])
  }

  function PatternsVerdict(c: Codec, patterns: seq<FlowItem>): Verdict {
    var items := ItemsVerdict(c, patterns);
    if items != Accept then items
    else When(patterns == [] || patterns[|patterns| - 1].name == Item(END))
  }

  method ValidateFlowPatterns(c: Codec, patterns: seq<FlowItem>) returns (v: Verdict)
    ensures v == PatternsVerdict(c, patterns)
  {
    for i := 0 to |patterns|
      invariant ItemsVerdict(c, patterns[..i]) == Accept
      invariant 0 < i == |patterns| ==> patterns[i - 1].name == Item(END)
    {
      var item := patterns[i];
      assert patterns[..i + 1][..i] == patterns[..i];
      v := ValidateRteFlowItem(c, item);
      if v != Accept {
        ItemsVerdictPrefix(c, patterns, i + 1);
        return;
      }
      if i == |patterns| - 1 {
        if item.name != Item(END) {
          assert patterns[..i + 1] == patterns;
          return Reject;
        }
      }
    }
    assert patterns[..|patterns|] == patterns;
    v := Accept;
  }

  lemma {:induction false} ItemsVerdictPrefix(c: Codec, items: seq<FlowItem>, n: nat)
    requires n <= |items| && ItemsVerdict(c, items[..n]) != Accept
    ensures ItemsVerdict(c, items) == ItemsVerdict(c, items[..n])
  {
    if n == |items| {
      assert items[..n] == items;
    } else {
      assert items[..|items| - 1][..n] == items[..n];
      ItemsVerdictPrefix(c, items[..|items| - 1], n);
    }
  }

  function ValidateFlowAttr(attr: Option<FlowAttr>): Verdict {
    match attr
    case None => Crash
    case Some(a) => When(a.ingress <= 1 && a.egress <= 1 && a.transfer <= 1)
  }

  // ---------------------------------------------------------------------- nodeflowconfig_webhook.go

  /** The action types that take no configuration. */
  predicate TakesNoConf(t: ActionType) {
    match t
    case A_END | A_VOID | A_PASSTHRU | A_FLAG | A_DROP | A_PF | A_OF_DEC_MPLS_TTL | A_OF_DEC_NW_TTL
       | A_OF_COPY_TTL_OUT | A_OF_COPY_TTL_IN | A_OF_POP_VLAN | A_VXLAN_DECAP | A_NVGRE_DECAP
       | A_MAC_SWAP | A_DEC_TTL | A_INC_TCP_SEQ | A_DEC_TCP_SEQ | A_INC_TCP_ACK | A_DEC_TCP_ACK => true
    case _ => false
  }

  function ValidateRteFlowAction(t: ActionType, conf: Option<ActionMsg>): Verdict {
    if t == A_VF then ValidateRteFlowActionVf(conf)
    else if TakesNoConf(t) then When(conf.None?)
    else Accept
  }

  function ValidateAction(c: Codec, action: FlowAction): Verdict {
    match GetFlowActionType(action.name)
    case None => Reject
    case Some(t) =>
      match action.conf
      case None => ValidateRteFlowAction(t, None)
      case Some(b) =>
        match GetFlowActionAnyForWebhook(c, action.name, b)
        case Failure(_) => Reject
        case Success(msg) => ValidateRteFlowAction(t, Some(msg))
  }

  function ActionsVerdict(c: Codec, actions: seq<FlowAction>): Verdict {
    if actions == [] then Accept
    else
      var before := ActionsVerdict(c, actions[..|actions| - 1]);
      if before != Accept then before else ValidateAction(c, actions[|actions| - 1])
  }

  /** FlowRules.validate: patterns, then actions, then the attribute. */
  function NodeRuleVerdict(c: Codec, rules: FlowRules): Verdict {
    var patterns := PatternsVerdict(c, rules.pattern);
    if patterns != Accept then patterns
    else
      var actions := NodeActionsVerdict(c, rules.action);
      if actions != Accept then actions else ValidateFlowAttr(rules.attr)
  }

  function NodeActionsVerdict(c: Codec, actions: seq<FlowAction>): Verdict {
    var verdict := ActionsVerdict(c, actions);
    if verdict != Accept then verdict
    else When(actions == [] || actions[|actions| - 1].name == Action(A_END))
  }

  method ValidateNodeRule(c: Codec, rules: FlowRules) returns (v: Verdict)
    ensures v == NodeRuleVerdict(c, rules)
  {
    v := ValidateFlowPatterns(c, rules.pattern);
    if v != Accept {
      return;
    }
    v := ValidateNodeActions(c, rules.action);
    if v != Accept {
      return;
    }
    v := ValidateFlowAttr(rules.attr);
  }

  /** The loop over the actions; the last one must be END. */
  method ValidateNodeActions(c: Codec, actions: seq<FlowAction>) returns (v: Verdict)
    ensures v == NodeActionsVerdict(c, actions)
  {
    for i := 0 to |actions|
      invariant ActionsVerdict(c, actions[..i]) == Accept
      invariant 0 < i == |actions| ==> actions[i - 1].name == Action(A_END)
    {
      var action := actions[i];
      assert actions[..i + 1][..i] == actions[..i];
      v := ValidateNodeAction(c, action);
      if v != Accept {
        ActionsVerdictPrefix(c, actions, i + 1);
        return;
      }
      if i == |actions| - 1 {
        if action.name != Action(A_END) {
          assert actions[..i + 1] == actions;
          return Reject;
        }
      }
    }
    assert actions[..|actions|] == actions;
    v := Accept;
  }

  /** One turn of that loop. */
  method ValidateNodeAction(c: Codec, action: FlowAction) returns (v: Verdict)
    ensures v == ValidateAction(c, action)
  {
    var val := GetFlowActionType(action.name);
    if val.None? {
      return Reject;
    }
    var rteFlowAction := RteFlowAction(val.value, None);
    if action.conf.Some? {
      var conf := GetFlowActionAnyForWebhook(c, action.name, action.conf.value);
      if conf.Failure? {
        return Reject;
      }
      rteFlowAction := rteFlowAction.(conf := Some(conf.value));
    }
    v := ValidateRteFlowAction(rteFlowAction.actionType, rteFlowAction.conf);
  }

  lemma {:induction false} ActionsVerdictPrefix(c: Codec, actions: seq<FlowAction>, n: nat)
    requires n <= |actions| && ActionsVerdict(c, actions[..n]) != Accept
    ensures ActionsVerdict(c, actions) == ActionsVerdict(c, actions[..n])
  {
    if n == |actions| {
      assert actions[..n] == actions;
    } else {
      assert actions[..|actions| - 1][..n] == actions[..n];
      ActionsVerdictPrefix(c, actions[..|actions| - 1], n);
    }
  }

  // ---------------------------------------------------------------------- clusterflowconfig_webhook.go

  function ValidateClusterAction(c: Codec, action: ClusterFlowAction): Verdict {
    When(&& action.actionType == ToPodInterface
         && action.conf.Some?
         && c.decodePodInterface(action.conf.value).Some?
         && c.decodePodInterface(action.conf.value) != Some(""))
  }

  predicate ClusterActionsAccepted(c: Codec, actions: seq<ClusterFlowAction>) {
    forall i :: 0 <= i < |actions| ==> ValidateClusterAction(c, actions[i]) == Accept
  }

  method ValidateClusterFlowAction(c: Codec, actions: seq<ClusterFlowAction>) returns (v: Verdict)
    ensures v == When(ClusterActionsAccepted(c, actions))
  {
    for i := 0 to |actions|
      invariant forall j :: 0 <= j < i ==> ValidateClusterAction(c, actions[j]) == Accept
    {
      var action := actions[i];
      if action.actionType == ToPodInterface {
        if action.conf.None? {
          return Reject;
        }
        var podInterfaceName := c.decodePodInterface(action.conf.value);
        if podInterfaceName.None? {
          return Reject;
        }
        if podInterfaceName.value == "" {
          return Reject;
        }
      } else {
        return Reject;
      }
    }
    v := Accept;
  }

  /** ClusterFlowRule.validate: patterns, then actions, then the attribute. */
  function ClusterRuleVerdict(c: Codec, rule: ClusterFlowRule): Verdict {
    var patterns := PatternsVerdict(c, rule.pattern);
    if patterns != Accept then patterns
    else if !ClusterActionsAccepted(c, rule.action) then Reject
    else ValidateFlowAttr(rule.attr)
  }

  // ---------------------------------------------------------------------- meaning of the verdicts

  /** The value of a MAC address as the webhook compares it; no address counts as zero. */
  function LowWord(addr: Option<MacBytes>): nat {
    if addr.None? then 0 else Bytes.BigEndian(addr.value) % 0x1_0000_0000
  }

  /** The address can be compared: it has bytes, and its value fits a signed 64-bit integer. */
  predicate Comparable(addr: Option<MacBytes>) {
    addr.Some? ==> addr.value != [] && Bytes.BigEndian(addr.value) < 0x8000_0000_0000_0000
  }

  /** What each document must satisfy on its own. */
  predicate InBounds(t: ItemType, msg: ItemMsg) {
    match t
    case ETH => msg.EthMsg? && msg.etherType <= 65535 && Comparable(msg.dst) && Comparable(msg.src)
    case VLAN => msg.VlanMsg? && msg.tci <= 65535 && msg.innerType <= 65535
    case IPV4 =>
      && msg.Ipv4Msg? && msg.ipv4.Some?
      && var hdr := msg.ipv4.value;
      && hdr.versionIhl <= 255 && hdr.typeOfService <= 255 && hdr.totalLength <= 65535 && hdr.packetId <= 65535
      && hdr.fragmentOffset <= 65535 && hdr.timeToLive <= 255 && hdr.nextProtoId <= 255 && hdr.hdrChecksum <= 255
    case UDP =>
      msg.UdpMsg? && (msg.udp.Some? ==> msg.udp.value.srcPort <= 65535 && msg.udp.value.dstPort <= 65535 &&
                                        msg.udp.value.dgramLen <= 65535 && msg.udp.value.dgramCksum <= 65535)
    case PPPOES | PPPOED =>
      msg.PppoeMsg? && msg.versionType <= 255 && msg.code <= 255 && msg.sessionId <= 65535 && msg.length <= 65535
    case PPPOE_PROTO_ID => msg.ProtoIdMsg? && msg.protoId <= 65535
    case _ => true
  }

  /** How a last or mask value must relate to the spec value: it is zero where the spec is, and a last
      value is not below. */
  predicate Follows(spec: nat, value: nat, isLast: bool) {
    (spec == 0 ==> value == 0) && (isLast ==> spec <= value)
  }

  predicate AddressFollows(spec: Option<MacBytes>, addr: Option<MacBytes>, isLast: bool) {
    addr.Some? ==> Comparable(spec) && Follows(LowWord(spec), LowWord(addr), isLast)
  }

  /** What a last or mask document must satisfy beside a spec document. A zero field is always fine in
      the type of an Ethernet item and in UDP; a PPPoE field is free where the spec is zero. */
  predicate Accompanies(t: ItemType, spec: ItemMsg, msg: ItemMsg, isLast: bool)
    requires InBounds(t, spec) && InBounds(t, msg)
  {
    match t
    case ETH =>
      && (msg.etherType == 0 || Follows(spec.etherType, msg.etherType, isLast))
      && AddressFollows(spec.dst, msg.dst, isLast) && AddressFollows(spec.src, msg.src, isLast)
    case VLAN => Follows(spec.tci, msg.tci, isLast) && Follows(spec.innerType, msg.innerType, isLast)
    case IPV4 =>
      var a, b := spec.ipv4.value, msg.ipv4.value;
      && Follows(a.versionIhl, b.versionIhl, isLast) && Follows(a.typeOfService, b.typeOfService, isLast)
      && Follows(a.totalLength, b.totalLength, isLast) && Follows(a.packetId, b.packetId, isLast)
      && Follows(a.fragmentOffset, b.fragmentOffset, isLast) && Follows(a.timeToLive, b.timeToLive, isLast)
      && Follows(a.nextProtoId, b.nextProtoId, isLast) && Follows(a.hdrChecksum, b.hdrChecksum, isLast)
      && Follows(a.srcAddr, b.srcAddr, isLast) && Follows(a.dstAddr, b.dstAddr, isLast)
    case UDP =>
      spec.udp.Some? ==>
        && msg.udp.Some?
        && var a, b := spec.udp.value, msg.udp.value;
        && (b.srcPort == 0 || Follows(a.srcPort, b.srcPort, isLast))
        && (b.dstPort == 0 || Follows(a.dstPort, b.dstPort, isLast))
        && (b.dgramLen == 0 || Follows(a.dgramLen, b.dgramLen, isLast))
        && (b.dgramCksum == 0 || Follows(a.dgramCksum, b.dgramCksum, isLast))
    case PPPOES | PPPOED =>
      isLast ==> spec.versionType <= msg.versionType && spec.code <= msg.code
                 && spec.sessionId <= msg.sessionId && spec.length <= msg.length
    case PPPOE_PROTO_ID => Follows(spec.protoId, msg.protoId, isLast)
    case _ => true
  }

  /** The document is absent; or there is a spec document, both can be decoded and fit together. */
  predicate Companion(c: Codec, t: ItemType, spec: Option<Raw>, raw: Option<Raw>, isLast: bool) {
    raw.Some? ==>
      && spec.Some?
      && var a, b := GetFlowItemAny(c, Item(t), spec.value), GetFlowItemAny(c, Item(t), raw.value);
      && a.Success? && b.Success? && InBounds(t, a.value) && InBounds(t, b.value)
      && Accompanies(t, a.value, b.value, isLast)
  }

  /** What makes an item acceptable, in terms of its decoded documents. */
  predicate ItemOk(c: Codec, item: FlowItem) {
    && item.name.Item?
    && var t := item.name.itemType;
    && (item.spec.Some? ==>
          var spec := GetFlowItemAny(c, item.name, item.spec.value);
          spec.Success? && InBounds(t, spec.value))
    && Companion(c, t, item.spec, item.last, true) && Companion(c, t, item.spec, item.mask, false)
  }

  lemma EncodedAddress(addr: MacBytes)
    ensures Bytes.EncodeHexMacAddress(addr).Some? <==> Comparable(Some(addr))
    ensures Bytes.EncodeHexMacAddress(addr).Some? ==> Bytes.EncodeHexMacAddress(addr).value == LowWord(Some(addr))
  {
    Bytes.HexRoundTrip(addr);
    Bytes.MacEncodingIsLastFourBytes(addr);
  }

  lemma MacFieldIff(role: Role, spec: Option<MacBytes>, item: Option<MacBytes>)
    ensures MacFieldOk(role, spec, item) <==>
            && Comparable(item)
            && (item.Some? ==> Comparable(spec))
            && (role == SpecDoc || AddressFollows(spec, item, role == LastDoc))
  {
    if spec.Some? { EncodedAddress(spec.value); }
    if item.Some? { EncodedAddress(item.value); }
  }

  /** A spec document is accepted exactly when it is within bounds. */
  lemma SpecAcceptedIff(t: ItemType, msg: ItemMsg)
    ensures ValidateItem(t, SpecDoc, None, msg) == Accept <==> InBounds(t, msg)
  {
    if msg.EthMsg? {
      MacFieldIff(SpecDoc, None, msg.dst);
      MacFieldIff(SpecDoc, None, msg.src);
    }
  }

  function CompanionRole(isLast: bool): Role {
    if isLast then LastDoc else MaskDoc
  }

  lemma FieldIff(isLast: bool, spec: uint32, value: uint32)
    ensures ValidateUint32ItemField(CompanionRole(isLast), spec, value) <==> Follows(spec, value, isLast)
  {}

  lemma EthCompanionIff(spec: ItemMsg, msg: ItemMsg, isLast: bool)
    requires InBounds(ETH, spec)
    ensures ValidateItem(ETH, CompanionRole(isLast), Some(spec), msg) == Accept <==>
            InBounds(ETH, msg) && Accompanies(ETH, spec, msg, isLast)
  {
    if msg.EthMsg? {
      FieldIff(isLast, spec.etherType, msg.etherType);
      MacFieldIff(CompanionRole(isLast), spec.dst, msg.dst);
      MacFieldIff(CompanionRole(isLast), spec.src, msg.src);
    }
  }

  lemma Ipv4CompanionIff(spec: ItemMsg, msg: ItemMsg, isLast: bool)
    requires InBounds(IPV4, spec)
    ensures ValidateItem(IPV4, CompanionRole(isLast), Some(spec), msg) == Accept <==>
            InBounds(IPV4, msg) && Accompanies(IPV4, spec, msg, isLast)
  {}

  lemma UdpCompanionIff(spec: ItemMsg, msg: ItemMsg, isLast: bool)
    requires InBounds(UDP, spec)
    ensures ValidateItem(UDP, CompanionRole(isLast), Some(spec), msg) == Accept <==>
            InBounds(UDP, msg) && Accompanies(UDP, spec, msg, isLast)
  {}

  lemma PppoeCompanionIff(t: ItemType, spec: ItemMsg, msg: ItemMsg, isLast: bool)
    requires (t == PPPOES || t == PPPOED) && InBounds(t, spec)
    ensures ValidateItem(t, CompanionRole(isLast), Some(spec), msg) == Accept <==>
            InBounds(t, msg) && Accompanies(t, spec, msg, isLast)
  {}

  lemma OtherCompanionIff(t: ItemType, spec: ItemMsg, msg: ItemMsg, isLast: bool)
    requires t !in {ETH, IPV4, UDP, PPPOES, PPPOED} && InBounds(t, spec)
    ensures ValidateItem(t, CompanionRole(isLast), Some(spec), msg) == Accept <==>
            InBounds(t, msg) && Accompanies(t, spec, msg, isLast)
  {}

  /** A last or mask document beside an accepted spec document. */
  lemma CompanionAcceptedIff(t: ItemType, spec: ItemMsg, msg: ItemMsg, isLast: bool)
    requires InBounds(t, spec)
    ensures ValidateItem(t, CompanionRole(isLast), Some(spec), msg) == Accept <==>
            InBounds(t, msg) && Accompanies(t, spec, msg, isLast)
  {
    match t {
      case ETH => EthCompanionIff(spec, msg, isLast);
      case IPV4 => Ipv4CompanionIff(spec, msg, isLast);
      case UDP => UdpCompanionIff(spec, msg, isLast);
      case PPPOES | PPPOED => PppoeCompanionIff(t, spec, msg, isLast);
      case _ => OtherCompanionIff(t, spec, msg, isLast);
    }
  }

  lemma CompanionIff(c: Codec, item: FlowItem, raw: Option<Raw>, isLast: bool)
    requires item.name.Item? && ValidateDocument(c, item.name, SpecDoc, None, item.spec) == Accept
    ensures ValidateDocument(c, item.name, CompanionRole(isLast), SpecOf(c, item), raw) == Accept <==>
            Companion(c, item.name.itemType, item.spec, raw, isLast)
  {
    var t := item.name.itemType;
    if item.spec.Some? && raw.Some? {
      var spec, msg := GetFlowItemAny(c, item.name, item.spec.value), GetFlowItemAny(c, item.name, raw.value);
      SpecAcceptedIff(t, spec.value);
      if msg.Success? {
        CompanionAcceptedIff(t, spec.value, msg.value, isLast);
      }
    }
  }

  /** An item is accepted exactly when its documents can be decoded, are within bounds and fit together. */
  lemma ItemAcceptedIff(c: Codec, item: FlowItem)
    ensures ValidateRteFlowItem(c, item) == Accept <==> ItemOk(c, item)
  {
    if item.name.Item? {
      if item.spec.Some? && GetFlowItemAny(c, item.name, item.spec.value).Success? {
        SpecAcceptedIff(item.name.itemType, GetFlowItemAny(c, item.name, item.spec.value).value);
      }
      if ValidateDocument(c, item.name, SpecDoc, None, item.spec) == Accept {
        CompanionIff(c, item, item.last, true);
        CompanionIff(c, item, item.mask, false);
      }
    }
  }

  /** The configuration of a VF action. */
  predicate VfOk(vf: Option<VfConf>) {
    vf.Some? && vf.value.id <= 255 && vf.value.original <= 1 && vf.value.reserved == 0
  }

  const TYPES_WITHOUT_CONF: set<ActionType> := {
    A_END, A_VOID, A_PASSTHRU, A_FLAG, A_DROP, A_PF, A_OF_DEC_MPLS_TTL, A_OF_DEC_NW_TTL, A_OF_COPY_TTL_OUT,
    A_OF_COPY_TTL_IN, A_OF_POP_VLAN, A_VXLAN_DECAP, A_NVGRE_DECAP, A_MAC_SWAP, A_DEC_TTL, A_INC_TCP_SEQ,
    A_DEC_TCP_SEQ, A_INC_TCP_ACK, A_DEC_TCP_ACK }

  /** What makes an action acceptable: a VF needs its configuration, a PCI address its form (it then
      counts as VF 0), some types take no configuration, and any other may have one that decodes. */
  predicate ActionOk(c: Codec, action: FlowAction) {
    match action.name
    case UnknownAction(_) => false
    case VfPciAddr =>
      && action.conf.Some? && c.decodePciAddr(action.conf.value).Some?
      && ContainsPciAddress(c.decodePciAddr(action.conf.value).value)
      && VfOk(c.decodeVf("{\"id\":0}"))
    case Action(t) =>
      if t == A_VF then action.conf.Some? && VfOk(c.decodeVf(action.conf.value))
      else if t in TYPES_WITHOUT_CONF then action.conf.None?
      else action.conf.Some? ==> c.decodeAction(t, action.conf.value).Some?
  }

  lemma ActionAcceptedIff(c: Codec, action: FlowAction)
    ensures ValidateAction(c, action) == Accept <==> ActionOk(c, action)
  {
    assert Decimal(0) == "0";
    assert VfIdJson(0) == "{\"id\":0}";
    if action.name == VfPciAddr && action.conf.Some? && c.decodePciAddr(action.conf.value).Some? {
      assert GetFlowActionAny(c, Action(A_VF), VfIdJson(0), None) == DecodeConf(c, A_VF, VfIdJson(0));
    }
  }

  lemma {:induction false} ItemsAccepted(c: Codec, items: seq<FlowItem>)
    ensures ItemsVerdict(c, items) == Accept <==> forall i :: 0 <= i < |items| ==> ItemOk(c, items[i])
  {
    if items != [] {
      var init, last := items[..|items| - 1], items[|items| - 1];
      ItemsAccepted(c, init);
      ItemAcceptedIff(c, last);
      assert forall i :: 0 <= i < |init| ==> init[i] == items[i];
    }
  }

  predicate ActionsOk(c: Codec, actions: seq<FlowAction>) {
    forall i :: 0 <= i < |actions| ==> ActionOk(c, actions[i])
  }

  lemma ActionsOkSnoc(c: Codec, init: seq<FlowAction>, last: FlowAction)
    ensures ActionsOk(c, init + [last]) <==> ActionsOk(c, init) && ActionOk(c, last)
  {
    var actions := init + [last];
    assert actions[|init|] == last && forall i :: 0 <= i < |init| ==> actions[i] == init[i];
  }

  lemma {:induction false} ActionsAccepted(c: Codec, actions: seq<FlowAction>)
    ensures ActionsVerdict(c, actions) == Accept <==> ActionsOk(c, actions)
  {
    if actions != [] {
      var init, last := actions[..|actions| - 1], actions[|actions| - 1];
      ActionsAccepted(c, init);
      ActionAcceptedIff(c, last);
      ActionsOkSnoc(c, init, last);
      assert actions == init + [last];
    }
  }

  /** The document is there, can be decoded, and has no header in it. */
  predicate Headerless(c: Codec, name: ItemName, raw: Option<Raw>) {
    raw.Some? && GetFlowItemAny(c, name, raw.value) == Success(if name == Item(IPV4) then Ipv4Msg(None) else UdpMsg(None))
  }

  /** What makes the webhook dereference a header that is not there: an IPv4 document without a header,
      or a UDP range or mask without one beside a spec document that has one. Documents are looked
      at in the order spec, last, mask, and one that is not accepted ends the check. */
  predicate MissingHeader(c: Codec, item: FlowItem)
    requires item.name.Item?
  {
    var t := item.name.itemType;
    var specOk :=
      item.spec.Some? && GetFlowItemAny(c, item.name, item.spec.value).Success? &&
      InBounds(t, GetFlowItemAny(c, item.name, item.spec.value).value);
    var laterHeaderless :=
      specOk && (Headerless(c, item.name, item.last) ||
                 (Companion(c, t, item.spec, item.last, true) && Headerless(c, item.name, item.mask)));
    match item.name.itemType
    case IPV4 => Headerless(c, item.name, item.spec) || laterHeaderless
    case UDP => laterHeaderless && !Headerless(c, item.name, item.spec)
    case _ => false
  }

  lemma DocumentCrashesIff(c: Codec, name: ItemName, role: Role, spec: Option<ItemMsg>, raw: Option<Raw>)
    requires name.Item?
    ensures ValidateDocument(c, name, role, spec, raw) == Crash <==>
            && raw.Some? && GetFlowItemAny(c, name, raw.value).Success?
            && (role == SpecDoc || spec.Some?)
            && match (name.itemType, spec, GetFlowItemAny(c, name, raw.value).value)
               case (IPV4, None, Ipv4Msg(None)) => true
               case (IPV4, Some(Ipv4Msg(_)), Ipv4Msg(None)) => true
               case (UDP, Some(UdpMsg(Some(_))), UdpMsg(None)) => true
               case _ => false
  {}

  /** An item makes the webhook panic exactly when it meets a missing header. */
  lemma ItemCrashesIff(c: Codec, item: FlowItem)
    ensures ValidateRteFlowItem(c, item) == Crash <==> item.name.Item? && MissingHeader(c, item)
  {
    if item.name.Item? {
      DocumentCrashesIff(c, item.name, SpecDoc, None, item.spec);
      DocumentCrashesIff(c, item.name, LastDoc, SpecOf(c, item), item.last);
      DocumentCrashesIff(c, item.name, MaskDoc, SpecOf(c, item), item.mask);
      if item.spec.Some? && GetFlowItemAny(c, item.name, item.spec.value).Success? {
        SpecAcceptedIff(item.name.itemType, GetFlowItemAny(c, item.name, item.spec.value).value);
      }
      if ValidateDocument(c, item.name, SpecDoc, None, item.spec) == Accept {
        CompanionIff(c, item, item.last, true);
      }
    }
  }

  /** The i-th item meets a missing header, and all items before it are accepted. */
  predicate CrashesAt(c: Codec, items: seq<FlowItem>, i: nat)
    requires i < |items|
  {
    && items[i].name.Item? && MissingHeader(c, items[i])
    && forall j :: 0 <= j < i ==> ItemOk(c, items[j])
  }

  predicate CrashesFirst(c: Codec, items: seq<FlowItem>) {
    exists i :: 0 <= i < |items| && CrashesAt(c, items, i)
  }

  lemma CrashesFirstSnoc(c: Codec, items: seq<FlowItem>, last: FlowItem)
    ensures CrashesFirst(c, items + [last]) <==>
            || CrashesFirst(c, items)
            || ((forall j :: 0 <= j < |items| ==> ItemOk(c, items[j]))
                && last.name.Item? && MissingHeader(c, last))
  {
    var more := items + [last];
    assert forall j :: 0 <= j < |items| ==> more[j] == items[j];
    assert forall i :: 0 <= i < |items| ==> (CrashesAt(c, more, i) <==> CrashesAt(c, items, i));
    assert more[|items|] == last;
    assert CrashesFirst(c, more) <==> CrashesFirst(c, items) || CrashesAt(c, more, |items|);
  }

  lemma {:induction false} ItemsCrashIff(c: Codec, items: seq<FlowItem>)
    ensures ItemsVerdict(c, items) == Crash <==> CrashesFirst(c, items)
  {
    if items != [] {
      var init, last := items[..|items| - 1], items[|items| - 1];
      assert items == init + [last];
      ItemsCrashIff(c, init);
      ItemsAccepted(c, init);
      CrashesFirstSnoc(c, init, last);
      ItemCrashesIff(c, last);
    }
  }

  lemma {:induction false} ActionsNeverCrash(c: Codec, actions: seq<FlowAction>)
    ensures ActionsVerdict(c, actions) != Crash
  {
    if actions != [] {
      ActionsNeverCrash(c, actions[..|actions| - 1]);
    }
  }

  /** Every item passes, and a non-empty list ends in END. */
  predicate PatternOk(c: Codec, pattern: seq<FlowItem>) {
    && (forall i :: 0 <= i < |pattern| ==> ItemOk(c, pattern[i]))
    && (pattern == [] || pattern[|pattern| - 1].name == Item(END))
  }

  predicate AttrOk(attr: FlowAttr) {
    attr.ingress <= 1 && attr.egress <= 1 && attr.transfer <= 1
  }

  /** Items and actions pass, and a non-empty list of either ends in END. */
  predicate BodyOk(c: Codec, fr: FlowRules) {
    && PatternOk(c, fr.pattern)
    && ActionsOk(c, fr.action)
    && (fr.action == [] || fr.action[|fr.action| - 1].name == Action(A_END))
  }

  /** What the verdict on a node rule means. It is accepted exactly when its body is good and the
      attribute is there with flags of 0 or 1. It makes the webhook panic exactly when the first item
      that is not accepted meets a missing header, or the body is good and the attribute is missing. */
  lemma NodeRuleVerdictIff(c: Codec, fr: FlowRules)
    ensures NodeRuleVerdict(c, fr) == Accept <==>
            BodyOk(c, fr) && fr.attr.Some? && AttrOk(fr.attr.value)
    ensures NodeRuleVerdict(c, fr) == Crash <==>
            CrashesFirst(c, fr.pattern) || (BodyOk(c, fr) && fr.attr.None?)
  {
    ItemsAccepted(c, fr.pattern);
    ItemsCrashIff(c, fr.pattern);
    ActionsAccepted(c, fr.action);
    ActionsNeverCrash(c, fr.action);
  }

  /** Every action asks for an interface of the pod and names it. */
  predicate NamesInterfaces(c: Codec, actions: seq<ClusterFlowAction>) {
    forall action :: action in actions ==>
      && action.actionType == ToPodInterface && action.conf.Some?
      && c.decodePodInterface(action.conf.value).Some? && c.decodePodInterface(action.conf.value).value != ""
  }

  lemma NamesInterfacesIff(c: Codec, actions: seq<ClusterFlowAction>)
    ensures ClusterActionsAccepted(c, actions) <==> NamesInterfaces(c, actions)
  {
    forall action | action in actions && ClusterActionsAccepted(c, actions)
      ensures ValidateClusterAction(c, action) == Accept
    {
      var i :| 0 <= i < |actions| && actions[i] == action;
    }
    forall i | 0 <= i < |actions| && NamesInterfaces(c, actions)
      ensures ValidateClusterAction(c, actions[i]) == Accept
    {
      assert actions[i] in actions;
    }
  }

  /** The same for a cluster rule, whose actions must all name an interface of the pod's network. */
  lemma ClusterRuleVerdictIff(c: Codec, rule: ClusterFlowRule)
    ensures ClusterRuleVerdict(c, rule) == Accept <==>
            && PatternOk(c, rule.pattern) && NamesInterfaces(c, rule.action)
            && rule.attr.Some? && AttrOk(rule.attr.value)
    ensures ClusterRuleVerdict(c, rule) == Crash <==>
            || CrashesFirst(c, rule.pattern)
            || (PatternOk(c, rule.pattern) && NamesInterfaces(c, rule.action) && rule.attr.None?)
  {
    ItemsAccepted(c, rule.pattern);
    ItemsCrashIff(c, rule.pattern);
    NamesInterfacesIff(c, rule.action);
  }

  /** A MAC range is judged on the last four bytes only. Between six-byte addresses whose spec does
      not end in four zero bytes the verdict is that of the 48-bit order exactly when both have the
      same top two bytes in value, or the top two bytes happen to be ordered as the rest. */
  lemma MacRangeVerdict(spec: MacBytes, last: MacBytes)
    requires |spec| == 6 && |last| == 6
    ensures MacRangeAccepted(spec, last) <==>
            && Bytes.BigEndian(spec[2..]) <= Bytes.BigEndian(last[2..])
            && (Bytes.BigEndian(spec[2..]) == 0 ==> Bytes.BigEndian(last[2..]) == 0)
    ensures Bytes.BigEndian(spec[2..]) != 0 ==>
              ((MacRangeAccepted(spec, last) <==> Bytes.BigEndian(spec) <= Bytes.BigEndian(last))
               <==> || Bytes.BigEndian(spec[..2]) == Bytes.BigEndian(last[..2])
                    || (Bytes.BigEndian(spec[2..]) <= Bytes.BigEndian(last[2..])
                        <==> Bytes.BigEndian(spec[..2]) < Bytes.BigEndian(last[..2])))
  {
    Bytes.MacEncodingIsLastFourBytes(spec);
    Bytes.MacEncodingIsLastFourBytes(last);
    Bytes.TruncatedOrderAgreesIff(spec, last);
    EncodedAddress(spec);
    EncodedAddress(last);
    CompanionAcceptedIff(ETH, EthMsg(0, Some(spec), None), EthMsg(0, Some(last), None), true);
  }

  /** The webhook accepts a last document with the one destination address beside a spec document with
      the other. */
  predicate MacRangeAccepted(spec: MacBytes, last: MacBytes) {
    ValidateItem(ETH, LastDoc, Some(EthMsg(0, Some(spec), None)), EthMsg(0, Some(last), None)) == Accept
  }

  /** An admitted range can lose its start on the way to the DCF: a VLAN item from 1 to 2 becomes an
      item for 2 alone. */
  lemma AdmittedRangeLosesItsStart(c: Codec, first: Raw, last: Raw)
    requires c.decodeItem(VLAN, first) == Some(VlanMsg(1, 1)) && c.decodeItem(VLAN, last) == Some(VlanMsg(2, 2))
    ensures var item := FlowItem(Item(VLAN), Some(first), Some(last), None);
            && ValidateRteFlowItem(c, item) == Accept
            && TranslateItem(c, item) == Success(RteFlowItem(VLAN, Some(VlanMsg(2, 2)), None, None))
            && !SpecSurvives(c, item)
  {
    var item := FlowItem(Item(VLAN), Some(first), Some(last), None);
    SpecSurvivesIff(c, item);
  }

  // ---------------------------------------------------------------------- admission implies translation

  /** sysfs answers with an error, with "not found", or with an index that fits the message. */
  ghost predicate VfIndexesFit(sriov: Sriov) {
    forall addr :: sriov.getVfId(addr).Some? ==> -1 <= sriov.getVfId(addr).value < 0x1_0000_0000
  }

  /** The VF behind an action's PCI address can be found. */
  predicate VfResolves(c: Codec, sriov: Sriov, action: FlowAction) {
    action.name.VfPciAddr? ==>
      var vfId := sriov.getVfId(PciAddressOf(c, action));
      vfId.Some? && vfId.value != -1
  }

  lemma AcceptedItemTranslates(c: Codec, item: FlowItem)
    requires ValidateRteFlowItem(c, item) == Accept
    ensures TranslateItem(c, item).Success?
  {}

  lemma AcceptedActionTranslatesIff(c: Codec, sriov: Sriov, action: FlowAction)
    requires c.Valid() && VfIndexesFit(sriov) && ValidateAction(c, action) == Accept
    ensures TranslateAction(c, sriov, action).Success? <==> VfResolves(c, sriov, action)
    ensures TranslateAction(c, sriov, action).Failure? ==>
              TranslateAction(c, sriov, action).error == VfLookupFailed
  {
    if action.name.VfPciAddr? {
      PciConfBecomesVf(c, sriov, action.conf.value);
    }
  }

  lemma {:induction false} AcceptedItemsTranslate(c: Codec, items: seq<FlowItem>)
    requires ItemsVerdict(c, items) == Accept
    ensures TranslateItems(c, items).Success?
  {
    if items != [] {
      AcceptedItemsTranslate(c, items[..|items| - 1]);
      AcceptedItemTranslates(c, items[|items| - 1]);
    }
  }

  lemma ResolvesSnoc(c: Codec, sriov: Sriov, before: seq<FlowAction>, last: FlowAction)
    ensures var actions := before + [last];
            (forall i :: 0 <= i < |actions| ==> VfResolves(c, sriov, actions[i])) <==>
            (forall i :: 0 <= i < |before| ==> VfResolves(c, sriov, before[i])) && VfResolves(c, sriov, last)
  {
    var actions := before + [last];
    assert actions[|before|] == last && forall i :: 0 <= i < |before| ==> actions[i] == before[i];
  }

  lemma {:induction false} AcceptedActionsTranslateIff(c: Codec, sriov: Sriov, actions: seq<FlowAction>)
    requires c.Valid() && VfIndexesFit(sriov) && ActionsVerdict(c, actions) == Accept
    ensures TranslateActions(c, sriov, actions).Success? <==>
            forall i :: 0 <= i < |actions| ==> VfResolves(c, sriov, actions[i])
    ensures TranslateActions(c, sriov, actions).Failure? ==>
              TranslateActions(c, sriov, actions).error == VfLookupFailed
  {
    if actions != [] {
      var before, last := actions[..|actions| - 1], actions[|actions| - 1];
      AcceptedActionsTranslateIff(c, sriov, before);
      AcceptedActionTranslatesIff(c, sriov, last);
      ResolvesSnoc(c, sriov, before, last);
      assert actions == before + [last];
    }
  }

  /** An admitted rule translates exactly when every PCI address in it leads to a VF and, for an
      automatic port, the DCF has a port on the same physical function. A failure is never about
      the rule itself. (TranslationPreservesShape says what the translation is.) */
  lemma AdmittedRuleTranslatesIff(c: Codec, sriov: Sriov, ports: Option<seq<PortInformation>>, fr: FlowRules)
    requires c.Valid() && VfIndexesFit(sriov) && NodeRuleVerdict(c, fr) == Accept
    ensures Translate(c, sriov, ports, fr).Success? <==>
            && (forall i :: 0 <= i < |fr.action| ==> VfResolves(c, sriov, fr.action[i]))
            && (fr.portId == AUTOMATIC_PORT_ID ==>
                  PortOf(sriov, ports, FirstPciAddress(c, fr.action)).Success?)
    ensures Translate(c, sriov, ports, fr).Failure? ==>
              Translate(c, sriov, ports, fr).error in
                {VfLookupFailed, PfLookupFailed, PortsUnavailable, NoMatchingPort}
  {
    AcceptedItemsTranslate(c, fr.pattern);
    AcceptedActionsTranslateIff(c, sriov, fr.action);
    match sriov.getPfName(FirstPciAddress(c, fr.action)) {
      case None =>
      case Some(pf) => if ports.Some? { MatchPortErrors(sriov, ports.value, pf); }
    }
  }

  lemma {:induction false} MatchPortErrors(sriov: Sriov, ports: seq<PortInformation>, pf: string)
    ensures MatchPort(sriov, ports, pf).Failure? ==>
              MatchPort(sriov, ports, pf).error in {PfLookupFailed, NoMatchingPort}
  {
    if ports != [] {
      MatchPortErrors(sriov, ports[1..], pf);
    }
  }

  /** In particular a rule with its own port and no PCI address always translates. */
  lemma ExplicitRuleTranslates(c: Codec, sriov: Sriov, ports: Option<seq<PortInformation>>, fr: FlowRules)
    requires c.Valid() && VfIndexesFit(sriov) && NodeRuleVerdict(c, fr) == Accept
    requires fr.portId != AUTOMATIC_PORT_ID
    requires forall i :: 0 <= i < |fr.action| ==> !fr.action[i].name.VfPciAddr?
    ensures Translate(c, sriov, ports, fr).Success?
    ensures Translate(c, sriov, ports, fr).value.portId == fr.portId
  {
    AdmittedRuleTranslatesIff(c, sriov, ports, fr);
  }
}
