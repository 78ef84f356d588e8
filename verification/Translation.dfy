/** From a rule of the custom resource to a DCF request: the decoding shared by the webhook and the
    controller (pkg/flowconfig/utils) and the specification of getFlowCreateRequests. */
module Translation {

  import opened Wrappers
  import opened FlowTypes
  import Bytes

  // ---------------------------------------------------------------------- the outside world

  type MacBytes = seq<byte>
  type Ip16 = s: seq<byte> | |s| == 16 witness seq(16, _ => 0)

  /** The JSON form of an Ethernet item, addresses still as text (empty means absent). */
  datatype EthJson = EthJson(dst: string, src: string, etherType: uint32)

  /** The JSON form of an IPv4 header: the numeric fields of the header and two addresses as text. */
  datatype Ipv4Json = Ipv4Json(fields: Ipv4Hdr, srcText: string, dstText: string)

  /** JSON decoding and address parsing, as partial functions that every caller shares. */
  datatype Codec = Codec(
    decodeEth: Raw -> Option<EthJson>,
    decodeIpv4: Raw -> Option<Option<Ipv4Json>>,
    decodeItem: (ItemType, Raw) -> Option<ItemMsg>,
    decodeVf: Raw -> Option<VfConf>,
    decodeAction: (ActionType, Raw) -> Option<string>,
    decodePciAddr: Raw -> Option<string>,
    encodePciAddr: string -> Raw,
    decodePodInterface: Raw -> Option<string>,
    parseMac: string -> Option<MacBytes>,
    parseIp: string -> Option<Ip16>)
  {
    /** What the code relies on: the two documents that it writes itself read back unchanged. */
    ghost predicate Valid() {
      && (forall id: uint32 :: decodeVf(VfIdJson(id)) == Some(VfConf(0, 0, id)))
      && (forall addr :: decodePciAddr(encodePciAddr(addr)) == Some(addr))
    }
  }

  /** What sysfs says about a PCI address; None is an error. */
  datatype Sriov = Sriov(getVfId: string -> Option<int>, getPfName: string -> Option<string>)

  datatype TranslationError =
    | InvalidItemType | UndecodableItem | InvalidActionType | UndecodableConf
    | BadPciAddress | VfLookupFailed | PfLookupFailed | PortsUnavailable | NoMatchingPort

  function Decimal(n: nat): string {
    var digit := ['0' + (n % 10) as char];
    if n < 10 then digit else Decimal(n / 10) + digit
  }

  /** The document {"id":n}. */
  function VfIdJson(n: int): Raw {
    "{\"id\":" + (if n < 0 then "-" + Decimal(-n) else Decimal(n)) + "}"
  }

  // ---------------------------------------------------------------------- items

  function ToRteFlowItemEth(c: Codec, eth: EthJson): Result<ItemMsg, TranslationError> {
    var dst :- OptionalMac(c, eth.dst);
    var src :- OptionalMac(c, eth.src);
    Success(EthMsg(eth.etherType, dst, src))
  }

  function OptionalMac(c: Codec, text: string): Result<Option<MacBytes>, TranslationError> {
    if text == "" then Success(None)
    else match c.parseMac(text)
         case None => Failure(UndecodableItem)
         case Some(mac) => Success(Some(mac))
  }

  function ToRteFlowItemIpv4(c: Codec, ipv4: Option<Ipv4Json>): Result<ItemMsg, TranslationError> {
    match ipv4
    case None => Success(Ipv4Msg(None))
    case Some(hdr) =>
      var src :- OptionalIp(c, hdr.srcText);
      var dst :- OptionalIp(c, hdr.dstText);
      Success(Ipv4Msg(Some(hdr.fields.(srcAddr := src, dstAddr := dst))))
  }

  function OptionalIp(c: Codec, text: string): Result<uint32, TranslationError> {
    if text == "" then Success(0)
    else match c.parseIp(text)
         case None => Failure(UndecodableItem)
         case Some(ip) => Success(Bytes.IpToUint32(ip).value)
  }

  function GetFlowItemAny(c: Codec, name: ItemName, b: Raw): Result<ItemMsg, TranslationError> {
    match name
    case UnknownItem(_) => Failure(InvalidItemType)
    case Item(ETH) =>
      (match c.decodeEth(b)
       case None => Failure(UndecodableItem)
       case Some(eth) => ToRteFlowItemEth(c, eth))
    case Item(IPV4) =>
      (match c.decodeIpv4(b)
       case None => Failure(UndecodableItem)
       case Some(ipv4) => ToRteFlowItemIpv4(c, ipv4))
    case Item(t) =>
      (match c.decodeItem(t, b)
       case None => Failure(UndecodableItem)
       case Some(msg) => Success(msg))
  }

  /** An optional document: absent stays absent. */
  function GetOptionalItem(c: Codec, name: ItemName, raw: Option<Raw>): Result<Option<ItemMsg>, TranslationError> {
    match raw
    case None => Success(None)
    case Some(b) =>
      var msg :- GetFlowItemAny(c, name, b);
      Success(Some(msg))
  }

  // ---------------------------------------------------------------------- actions

  function DecodeConf(c: Codec, t: ActionType, b: Raw): Result<ActionMsg, TranslationError> {
    if t == A_VF then
      match c.decodeVf(b)
      case None => Failure(UndecodableConf)
      case Some(vf) => Success(VfMsg(vf))
    else
      match c.decodeAction(t, b)
      case None => Failure(UndecodableConf)
      case Some(payload) => Success(OtherActionMsg(t, payload))
  }

  function GetFlowActionAnyForWebhook(c: Codec, name: ActionName, b: Raw): Result<ActionMsg, TranslationError> {
    match name
    case VfPciAddr => HandleActionVfPciAddr(c, b, None)
    case UnknownAction(_) => Failure(InvalidActionType)
    case Action(t) => DecodeConf(c, t, b)
  }

  function GetFlowActionAny(c: Codec, name: ActionName, b: Raw, sriov: Option<Sriov>): Result<ActionMsg, TranslationError>
    decreases if name.VfPciAddr? then 2 else 0
  {
    match name
    case VfPciAddr => HandleActionVfPciAddr(c, b, sriov)
    case UnknownAction(_) => Failure(InvalidActionType)
    case Action(t) => DecodeConf(c, t, b)
  }

  /** Called by the webhook (sriov is None) the address is only checked for its form; called by the
      controller it is converted to a VF index. Either way the conversion goes around once more
      through GetFlowActionAny, with the type RTE_FLOW_ACTION_TYPE_VF. */
  function HandleActionVfPciAddr(c: Codec, b: Raw, sriov: Option<Sriov>): Result<ActionMsg, TranslationError>
    decreases 1
  {
    match c.decodePciAddr(b)
    case None => Failure(UndecodableConf)
    case Some(addr) =>
      match sriov
      case Some(s) =>
        (match s.getVfId(addr)
         case None => Failure(VfLookupFailed)
         case Some(vfId) =>
           if vfId == -1 then Failure(VfLookupFailed)
           else GetFlowActionAny(c, Action(A_VF), VfIdJson(vfId), sriov))
      case None =>
        if ContainsPciAddress(addr) then GetFlowActionAny(c, Action(A_VF), VfIdJson(0), sriov)
        else Failure(BadPciAddress)
  }

  // ---------------------------------------------------------------------- form of a PCI address

  predicate IsDigit(ch: char) {
    '0' <= ch <= '9'
  }

  predicate IsHexDigit(ch: char) {
    IsDigit(ch) || 'a' <= ch <= 'f' || 'A' <= ch <= 'F'
  }

  predicate IsWordChar(ch: char) {
    IsDigit(ch) || 'a' <= ch <= 'z' || 'A' <= ch <= 'Z' || ch == '_'
  }

  /** A match of dddd:dd:dd.d (hexadecimal, the separator before the last digit being any character
      but a line break) that starts at a word boundary. */
  predicate PciAddressAt(s: string, i: nat) {
    && i + 12 <= |s|
    && (i == 0 || !IsWordChar(s[i - 1]))
    && IsHexDigit(s[i]) && IsHexDigit(s[i + 1]) && IsHexDigit(s[i + 2]) && IsHexDigit(s[i + 3])
    && s[i + 4] == ':' && IsHexDigit(s[i + 5]) && IsHexDigit(s[i + 6])
    && s[i + 7] == ':' && IsHexDigit(s[i + 8]) && IsHexDigit(s[i + 9])
    && s[i + 10] != '\n' && IsDigit(s[i + 11])
  }

  /** The regular expression is not anchored: a match anywhere in the string will do. */
  predicate ContainsPciAddress(s: string) {
    exists i: nat :: i < |s| && PciAddressAt(s, i)
  }

  predicate HexDigits(s: string, n: nat) {
    |s| == n && forall i :: 0 <= i < n ==> IsHexDigit(s[i])
  }

  function PciText(domain: string, bus: string, device: string, separator: char, function': char): string {
    domain + ":" + bus + ":" + device + [separator, function']
  }

  predicate PciParts(domain: string, bus: string, device: string, separator: char, function': char) {
    HexDigits(domain, 4) && HexDigits(bus, 2) && HexDigits(device, 2) && separator != '\n' && '0' <= function' <= '9'
  }

  lemma PciTextAt(
      s: string, i: nat, domain: string, bus: string, device: string, separator: char, function': char)
    requires PciParts(domain, bus, device, separator, function')
    requires i + 12 <= |s| && s[i..i + 12] == PciText(domain, bus, device, separator, function')
    ensures IsHexDigit(s[i]) && IsHexDigit(s[i + 1]) && IsHexDigit(s[i + 2]) && IsHexDigit(s[i + 3]) && s[i + 4] == ':'
    ensures IsHexDigit(s[i + 5]) && IsHexDigit(s[i + 6]) && s[i + 7] == ':'
    ensures IsHexDigit(s[i + 8]) && IsHexDigit(s[i + 9]) && s[i + 10] != '\n' && IsDigit(s[i + 11])
  {
    var t := s[i..i + 12];
    assert t[0] == domain[0] && t[1] == domain[1] && t[2] == domain[2] && t[3] == domain[3];
    assert t[5] == bus[0] && t[6] == bus[1] && t[8] == device[0] && t[9] == device[1];
  }

  /** An address domain:bus:device.function is found, with any text around it as long as the text on the
      left does not end in a letter, a digit or an underscore. */
  lemma FormattedAddressIsFound(
      before: string, domain: string, bus: string, device: string, separator: char, function': char, after: string)
    requires PciParts(domain, bus, device, separator, function')
    requires before == "" || !IsWordChar(before[|before| - 1])
    ensures ContainsPciAddress(before + PciText(domain, bus, device, separator, function') + after)
  {
    var s := before + PciText(domain, bus, device, separator, function') + after;
    PciTextAt(s, |before|, domain, bus, device, separator, function');
    assert PciAddressAt(s, |before|);
  }

  /** It is not found after one such character. */
  lemma EmbeddedAddressIsNotFound(
      first: char, domain: string, bus: string, device: string, separator: char, function': char)
    requires PciParts(domain, bus, device, separator, function')
    requires '0' <= first <= '9' || 'a' <= first <= 'z' || 'A' <= first <= 'Z' || first == '_'
    ensures !ContainsPciAddress([first] + PciText(domain, bus, device, separator, function'))
  {
    var s := [first] + PciText(domain, bus, device, separator, function');
    PciTextAt(s, 1, domain, bus, device, separator, function');
    if i: nat :| i < |s| && PciAddressAt(s, i) {
      assert i == 0 ==> s[4] == ':' && IsHexDigit(s[4]);
    }
  }

  /** Whatever is found has those parts. */
  lemma FoundAddressHasParts(s: string)
      returns (i: nat, domain: string, bus: string, device: string, separator: char, function': char)
    requires ContainsPciAddress(s)
    ensures PciParts(domain, bus, device, separator, function')
    ensures i + 12 <= |s| && s[i..i + 12] == PciText(domain, bus, device, separator, function')
  {
    i :| i < |s| && PciAddressAt(s, i);
    domain, bus, device, separator, function' := s[i..i + 4], s[i + 5..i + 7], s[i + 8..i + 10], s[i + 10], s[i + 11];
    var t := PciText(domain, bus, device, separator, function');
    assert t[0..4] == domain && t[4] == ':' && t[5..7] == bus && t[7] == ':' && t[8..10] == device;
    assert t == t[0..4] + [t[4]] + t[5..7] + [t[7]] + t[8..10] + [t[10], t[11]];
    assert s[i..i + 12] == s[i..i + 4] + [s[i + 4]] + s[i + 5..i + 7] + [s[i + 7]] + s[i + 8..i + 10] + [s[i + 10], s[i + 11]];
  }

  // ---------------------------------------------------------------------- whole rules

  /** One pattern item. The last document is stored in the spec field, over the spec document. */
  function TranslateItem(c: Codec, item: FlowItem): Result<RteFlowItem, TranslationError> {
    match item.name
    case UnknownItem(_) => Failure(InvalidItemType)
    case Item(t) =>
      var spec :- GetOptionalItem(c, item.name, item.spec);
      var last :- GetOptionalItem(c, item.name, item.last);
      var mask :- GetOptionalItem(c, item.name, item.mask);
      Success(RteFlowItem(t, if last.Some? then last else spec, None, mask))
  }

  function TranslateItems(c: Codec, items: seq<FlowItem>): Result<seq<RteFlowItem>, TranslationError> {
    if items == [] then Success([])
    else
      var before :- TranslateItems(c, items[..|items| - 1]);
      var last :- TranslateItem(c, items[|items| - 1]);
      Success(before + [last])
  }

  /** GetFlowActionType: the operator's own type counts as RTE_FLOW_ACTION_TYPE_VF. */
  function GetFlowActionType(name: ActionName): Option<ActionType> {
    match name
    case Action(t) => Some(t)
    case VfPciAddr => Some(A_VF)
    case UnknownAction(_) => None
  }

  function TranslateAction(c: Codec, sriov: Sriov, action: FlowAction): Result<RteFlowAction, TranslationError> {
    match GetFlowActionType(action.name)
    case None => Failure(InvalidActionType)
    case Some(t) =>
      match action.conf
      case None => Success(RteFlowAction(t, None))
      case Some(b) =>
        var msg :- GetFlowActionAny(c, action.name, b, Some(sriov));
        Success(RteFlowAction(t, Some(msg)))
  }

  function TranslateActions(c: Codec, sriov: Sriov, actions: seq<FlowAction>): Result<seq<RteFlowAction>, TranslationError> {
    if actions == [] then Success([])
    else
      var before :- TranslateActions(c, sriov, actions[..|actions| - 1]);
      var last :- TranslateAction(c, sriov, actions[|actions| - 1]);
      Success(before + [last])
  }

  /** The address carried by a PCI-address action, or the empty string. */
  function PciAddressOf(c: Codec, action: FlowAction): string {
    if action.name.VfPciAddr? && action.conf.Some? && c.decodePciAddr(action.conf.value).Some?
    then c.decodePciAddr(action.conf.value).value
    else ""
  }

  /** The first PCI address among the actions, or the empty string. */
  function FirstPciAddress(c: Codec, actions: seq<FlowAction>): string {
    if actions == [] then ""
    else
      var before := FirstPciAddress(c, actions[..|actions| - 1]);
      if before == "" then PciAddressOf(c, actions[|actions| - 1]) else before
  }

  /** The port whose physical function carries the VF at the given address. */
  function PortOf(sriov: Sriov, ports: Option<seq<PortInformation>>, pci: string): Result<uint32, TranslationError> {
    match sriov.getPfName(pci)
    case None => Failure(PfLookupFailed)
    case Some(pf) =>
      match ports
      case None => Failure(PortsUnavailable)
      case Some(list) => MatchPort(sriov, list, pf)
  }

  function MatchPort(sriov: Sriov, ports: seq<PortInformation>, pf: string): Result<uint32, TranslationError> {
    if ports == [] then Failure(NoMatchingPort)
    else match sriov.getPfName(ports[0].portPci)
         case None => Failure(PfLookupFailed)
         case Some(dcfPf) => if pf == dcfPf then Success(ports[0].portId) else MatchPort(sriov, ports[1..], pf)
  }

  function Translate(c: Codec, sriov: Sriov, ports: Option<seq<PortInformation>>, fr: FlowRules)
    : Result<RequestFlowCreate, TranslationError>
  {
    var pattern :- TranslateItems(c, fr.pattern);
    var action :- TranslateActions(c, sriov, fr.action);
    var portId :-
      if fr.portId != AUTOMATIC_PORT_ID then Success(fr.portId)
      else PortOf(sriov, ports, FirstPciAddress(c, fr.action));
    Success(RequestFlowCreate(portId, fr.attr, pattern, action))
  }

  function TranslateAll(c: Codec, sriov: Sriov, ports: Option<seq<PortInformation>>, rules: seq<FlowRules>)
    : Result<seq<RequestFlowCreate>, TranslationError>
  {
    if rules == [] then Success([])
    else
      var before :- TranslateAll(c, sriov, ports, rules[..|rules| - 1]);
      var last :- Translate(c, sriov, ports, rules[|rules| - 1]);
      Success(before + [last])
  }

  // ---------------------------------------------------------------------- prefixes, for the loops

  lemma {:induction false} ItemsPrefix(c: Codec, items: seq<FlowItem>, n: nat)
    requires n <= |items| && TranslateItems(c, items[..n]).Failure?
    ensures TranslateItems(c, items) == Failure(TranslateItems(c, items[..n]).error)
  {
    if n == |items| {
      assert items[..n] == items;
    } else {
      assert items[..|items| - 1][..n] == items[..n];
      ItemsPrefix(c, items[..|items| - 1], n);
    }
  }

  lemma {:induction false} ActionsPrefix(c: Codec, sriov: Sriov, actions: seq<FlowAction>, n: nat)
    requires n <= |actions| && TranslateActions(c, sriov, actions[..n]).Failure?
    ensures TranslateActions(c, sriov, actions) == Failure(TranslateActions(c, sriov, actions[..n]).error)
  {
    if n == |actions| {
      assert actions[..n] == actions;
    } else {
      assert actions[..|actions| - 1][..n] == actions[..n];
      ActionsPrefix(c, sriov, actions[..|actions| - 1], n);
    }
  }

  lemma {:induction false} RulesPrefix(
      c: Codec, sriov: Sriov, ports: Option<seq<PortInformation>>, rules: seq<FlowRules>, n: nat)
    requires n <= |rules| && TranslateAll(c, sriov, ports, rules[..n]).Failure?
    ensures TranslateAll(c, sriov, ports, rules) == Failure(TranslateAll(c, sriov, ports, rules[..n]).error)
  {
    if n == |rules| {
      assert rules[..n] == rules;
    } else {
      assert rules[..|rules| - 1][..n] == rules[..n];
      RulesPrefix(c, sriov, ports, rules[..|rules| - 1], n);
    }
  }

  // ---------------------------------------------------------------------- what a translation is

  lemma {:induction false} ItemsCorrespond(c: Codec, items: seq<FlowItem>)
    requires TranslateItems(c, items).Success?
    ensures var out := TranslateItems(c, items).value;
            && |out| == |items|
            && forall i :: 0 <= i < |items| ==> TranslateItem(c, items[i]) == Success(out[i])
  {
    if items != [] {
      ItemsCorrespond(c, items[..|items| - 1]);
    }
  }

  lemma {:induction false} ActionsCorrespond(c: Codec, sriov: Sriov, actions: seq<FlowAction>)
    requires TranslateActions(c, sriov, actions).Success?
    ensures var out := TranslateActions(c, sriov, actions).value;
            && |out| == |actions|
            && forall i :: 0 <= i < |actions| ==> TranslateAction(c, sriov, actions[i]) == Success(out[i])
  {
    if actions != [] {
      ActionsCorrespond(c, sriov, actions[..|actions| - 1]);
    }
  }

  lemma {:induction false} RulesCorrespond(
      c: Codec, sriov: Sriov, ports: Option<seq<PortInformation>>, rules: seq<FlowRules>)
    requires TranslateAll(c, sriov, ports, rules).Success?
    ensures var out := TranslateAll(c, sriov, ports, rules).value;
            && |out| == |rules|
            && forall i :: 0 <= i < |rules| ==> Translate(c, sriov, ports, rules[i]) == Success(out[i])
  {
    if rules != [] {
      RulesCorrespond(c, sriov, ports, rules[..|rules| - 1]);
    }
  }

  /** A successful translation keeps the attribute and the number and order of items and actions.
      Each item's document is the decoded last document if there is one and the decoded spec
      otherwise, its last field stays empty, and a PCI address becomes the index of the VF. */
  lemma TranslationPreservesShape(c: Codec, sriov: Sriov, ports: Option<seq<PortInformation>>, fr: FlowRules)
    requires c.Valid() && Translate(c, sriov, ports, fr).Success?
    ensures var req := Translate(c, sriov, ports, fr).value;
            && req.attr == fr.attr
            && |req.pattern| == |fr.pattern| && |req.action| == |fr.action|
            && (if fr.portId != AUTOMATIC_PORT_ID then req.portId == fr.portId
                else FirstPortOnFunction(sriov, ports, FirstPciAddress(c, fr.action), req.portId))
            && (forall i :: 0 <= i < |fr.pattern| ==> ItemMatches(c, fr.pattern[i], req.pattern[i]))
            && (forall i :: 0 <= i < |fr.action| ==> ActionMatches(c, sriov, fr.action[i], req.action[i]))
  {
    ItemsMatched(c, fr.pattern);
    ActionsMatched(c, sriov, fr.action);
    PortOfIff(sriov, ports, FirstPciAddress(c, fr.action), Translate(c, sriov, ports, fr).value.portId);
  }

  lemma ItemsMatched(c: Codec, items: seq<FlowItem>)
    requires TranslateItems(c, items).Success?
    ensures var out := TranslateItems(c, items).value;
            |out| == |items| && forall i :: 0 <= i < |items| ==> ItemMatches(c, items[i], out[i])
  {
    var out := TranslateItems(c, items).value;
    ItemsCorrespond(c, items);
    forall i | 0 <= i < |items| ensures ItemMatches(c, items[i], out[i]) {
      assert TranslateItem(c, items[i]) == Success(out[i]);
      ItemMatched(c, items[i]);
    }
  }

  lemma ActionsMatched(c: Codec, sriov: Sriov, actions: seq<FlowAction>)
    requires c.Valid() && TranslateActions(c, sriov, actions).Success?
    ensures var out := TranslateActions(c, sriov, actions).value;
            |out| == |actions| && forall i :: 0 <= i < |actions| ==> ActionMatches(c, sriov, actions[i], out[i])
  {
    var out := TranslateActions(c, sriov, actions).value;
    ActionsCorrespond(c, sriov, actions);
    forall i | 0 <= i < |actions| ensures ActionMatches(c, sriov, actions[i], out[i]) {
      assert TranslateAction(c, sriov, actions[i]) == Success(out[i]);
      if actions[i].name.VfPciAddr? && actions[i].conf.Some? {
        PciConfBecomesVf(c, sriov, actions[i].conf.value);
      }
    }
  }

  /** The recursion through the action type VF ends in the message with the looked-up index. */
  lemma PciConfBecomesVf(c: Codec, sriov: Sriov, b: Raw)
    requires c.Valid()
    ensures var out := GetFlowActionAny(c, VfPciAddr, b, Some(sriov));
            match c.decodePciAddr(b)
            case None => out == Failure(UndecodableConf)
            case Some(addr) =>
              match sriov.getVfId(addr)
              case None => out == Failure(VfLookupFailed)
              case Some(n) =>
                && (n == -1 ==> out == Failure(VfLookupFailed))
                && (0 <= n < 0x1_0000_0000 ==> out == Success(VfMsg(VfConf(0, 0, n))))
  {
    if c.decodePciAddr(b).Some? && sriov.getVfId(c.decodePciAddr(b).value).Some? {
      var n := sriov.getVfId(c.decodePciAddr(b).value).value;
      if 0 <= n < 0x1_0000_0000 {
        assert c.decodeVf(VfIdJson(n)) == Some(VfConf(0, 0, n));
        assert GetFlowActionAny(c, Action(A_VF), VfIdJson(n), Some(sriov)) == Success(VfMsg(VfConf(0, 0, n)));
      }
    }
  }

  /** The port that is found belongs to the first DCF port on the same physical function, all before
      it being on other functions; and there is one exactly when the search gets that far. */
  lemma {:induction false} MatchPortIff(sriov: Sriov, ports: seq<PortInformation>, pf: string, portId: uint32)
    ensures MatchPort(sriov, ports, pf) == Success(portId) <==>
            exists i :: && 0 <= i < |ports| && ports[i].portId == portId
                        && sriov.getPfName(ports[i].portPci) == Some(pf)
                        && OthersBefore(sriov, ports, pf, i)
  {
    if ports != [] {
      MatchPortIff(sriov, ports[1..], pf, portId);
      if MatchPort(sriov, ports, pf) == Success(portId) && sriov.getPfName(ports[0].portPci) != Some(pf) {
        var i :| && 0 <= i < |ports[1..]| && ports[1..][i].portId == portId
                 && sriov.getPfName(ports[1..][i].portPci) == Some(pf)
                 && OthersBefore(sriov, ports[1..], pf, i);
        forall j | 0 <= j < i + 1 ensures sriov.getPfName(ports[j].portPci).Some? && sriov.getPfName(ports[j].portPci) != Some(pf) {
          if j > 0 { assert ports[1..][j - 1] == ports[j]; }
        }
        assert OthersBefore(sriov, ports, pf, i + 1);
      }
      if i :| && 0 <= i < |ports| && ports[i].portId == portId
              && sriov.getPfName(ports[i].portPci) == Some(pf) && OthersBefore(sriov, ports, pf, i)
      {
        if i > 0 {
          assert ports[1..][i - 1] == ports[i];
          assert OthersBefore(sriov, ports[1..], pf, i - 1);
        }
      }
    }
  }

  /** The id is that of the first DCF port on the physical function that carries the VF at the address. */
  predicate FirstPortOnFunction(sriov: Sriov, ports: Option<seq<PortInformation>>, pci: string, portId: uint32) {
    && sriov.getPfName(pci).Some? && ports.Some?
    && exists i :: && 0 <= i < |ports.value| && ports.value[i].portId == portId
                   && sriov.getPfName(ports.value[i].portPci) == sriov.getPfName(pci)
                   && OthersBefore(sriov, ports.value, sriov.getPfName(pci).value, i)
  }

  lemma PortOfIff(sriov: Sriov, ports: Option<seq<PortInformation>>, pci: string, portId: uint32)
    ensures PortOf(sriov, ports, pci) == Success(portId) <==> FirstPortOnFunction(sriov, ports, pci, portId)
  {
    if sriov.getPfName(pci).Some? && ports.Some? {
      MatchPortIff(sriov, ports.value, sriov.getPfName(pci).value, portId);
    }
  }

  predicate OthersBefore(sriov: Sriov, ports: seq<PortInformation>, pf: string, i: int)
    requires i <= |ports|
  {
    forall j :: 0 <= j < i ==> sriov.getPfName(ports[j].portPci).Some? && sriov.getPfName(ports[j].portPci) != Some(pf)
  }

  /** The automatic port follows the first action that carries an address. */
  lemma {:induction false} FirstPciAddressIsFirst(c: Codec, actions: seq<FlowAction>, i: nat)
    requires i < |actions| && PciAddressOf(c, actions[i]) != ""
    requires forall j :: 0 <= j < i ==> PciAddressOf(c, actions[j]) == ""
    ensures FirstPciAddress(c, actions) == PciAddressOf(c, actions[i])
  {
    if i < |actions| - 1 {
      FirstPciAddressIsFirst(c, actions[..|actions| - 1], i);
    } else {
      NoPciAddress(c, actions[..i]);
    }
  }

  lemma {:induction false} NoPciAddress(c: Codec, actions: seq<FlowAction>)
    requires forall j :: 0 <= j < |actions| ==> PciAddressOf(c, actions[j]) == ""
    ensures FirstPciAddress(c, actions) == ""
  {
    if actions != [] {
      NoPciAddress(c, actions[..|actions| - 1]);
    }
  }

  /** The number stands for the address in the text: no text is zero, and otherwise the number
      written out as four bytes is the parsed address. */
  predicate StandsFor(c: Codec, addr: uint32, text: string) {
    if text == "" then addr == 0
    else c.parseIp(text).Some? && Bytes.IpBytes(addr) == c.parseIp(text).value[12..]
  }

  lemma OptionalIpStandsFor(c: Codec, text: string)
    requires OptionalIp(c, text).Success?
    ensures StandsFor(c, OptionalIp(c, text).value, text)
  {
    if text != "" {
      Bytes.IpRoundTrip(c.parseIp(text).value, 0);
    }
  }

  /** A MAC address in a message: none for no text, otherwise what the text parses to. */
  predicate AddressMeans(c: Codec, text: string, addr: Option<MacBytes>) {
    if text == "" then addr.None? else addr.Some? && c.parseMac(text) == addr
  }

  predicate HeaderMeans(c: Codec, json: Ipv4Json, hdr: Ipv4Hdr) {
    && StandsFor(c, hdr.srcAddr, json.srcText)
    && StandsFor(c, hdr.dstAddr, json.dstText)
    && hdr.(srcAddr := 0, dstAddr := 0) == json.fields.(srcAddr := 0, dstAddr := 0)
  }

  /** The message that a document stands for, by the type of the item. */
  predicate DocumentMeans(c: Codec, t: ItemType, b: Raw, msg: ItemMsg) {
    if t == ETH then
      && c.decodeEth(b).Some? && msg.EthMsg?
      && msg.etherType == c.decodeEth(b).value.etherType
      && AddressMeans(c, c.decodeEth(b).value.dst, msg.dst)
      && AddressMeans(c, c.decodeEth(b).value.src, msg.src)
    else if t == IPV4 then
      && c.decodeIpv4(b).Some? && msg.Ipv4Msg?
      && (msg.ipv4.None? <==> c.decodeIpv4(b).value.None?)
      && (msg.ipv4.Some? ==> HeaderMeans(c, c.decodeIpv4(b).value.value, msg.ipv4.value))
    else c.decodeItem(t, b) == Some(msg)
  }

  lemma OptionalMacIff(c: Codec, text: string, addr: Option<MacBytes>)
    ensures OptionalMac(c, text) == Success(addr) <==> AddressMeans(c, text, addr)
  {}

  lemma OptionalIpIff(c: Codec, text: string, addr: uint32)
    ensures OptionalIp(c, text) == Success(addr) <==> StandsFor(c, addr, text)
  {
    if text != "" && c.parseIp(text).Some? {
      OptionalIpStandsFor(c, text);
      var parsed := OptionalIp(c, text).value;
      Bytes.IpRoundTrip([], addr);
      Bytes.IpRoundTrip([], parsed);
    }
  }

  /** A document is decoded to a message exactly when it stands for it. */
  lemma DocumentDecodesIff(c: Codec, t: ItemType, b: Raw, msg: ItemMsg)
    ensures GetFlowItemAny(c, Item(t), b) == Success(msg) <==> DocumentMeans(c, t, b, msg)
  {
    if t == ETH && c.decodeEth(b).Some? && msg.EthMsg? {
      OptionalMacIff(c, c.decodeEth(b).value.dst, msg.dst);
      OptionalMacIff(c, c.decodeEth(b).value.src, msg.src);
    }
    if t == IPV4 && c.decodeIpv4(b).Some? && c.decodeIpv4(b).value.Some? && msg.Ipv4Msg? && msg.ipv4.Some? {
      var json, hdr := c.decodeIpv4(b).value.value, msg.ipv4.value;
      OptionalIpIff(c, json.srcText, hdr.srcAddr);
      OptionalIpIff(c, json.dstText, hdr.dstAddr);
      if OptionalIp(c, json.srcText) == Success(hdr.srcAddr) && OptionalIp(c, json.dstText) == Success(hdr.dstAddr) {
        assert ToRteFlowItemIpv4(c, Some(json)) ==
               Success(Ipv4Msg(Some(json.fields.(srcAddr := hdr.srcAddr, dstAddr := hdr.dstAddr))));
        assert hdr == hdr.(srcAddr := 0, dstAddr := 0).(srcAddr := hdr.srcAddr, dstAddr := hdr.dstAddr);
      }
    }
  }

  /** A decoded Ethernet document keeps its type, and each address stays on its side. */
  lemma EthHeaderSurvives(c: Codec, b: Raw, json: EthJson)
    requires c.decodeEth(b) == Some(json) && GetFlowItemAny(c, Item(ETH), b).Success?
    ensures var msg := GetFlowItemAny(c, Item(ETH), b).value;
            && msg.EthMsg? && msg.etherType == json.etherType
            && (msg.dst.None? <==> json.dst == "") && (json.dst != "" ==> msg.dst == c.parseMac(json.dst))
            && (msg.src.None? <==> json.src == "") && (json.src != "" ==> msg.src == c.parseMac(json.src))
  {
    DocumentDecodesIff(c, ETH, b, GetFlowItemAny(c, Item(ETH), b).value);
  }

  /** A decoded IPv4 document keeps its numeric fields, and its addresses are those that were parsed. */
  lemma Ipv4HeaderSurvives(c: Codec, b: Raw, json: Ipv4Json)
    requires c.decodeIpv4(b) == Some(Some(json)) && GetFlowItemAny(c, Item(IPV4), b).Success?
    ensures var msg := GetFlowItemAny(c, Item(IPV4), b).value;
            && msg.Ipv4Msg? && msg.ipv4.Some?
            && StandsFor(c, msg.ipv4.value.srcAddr, json.srcText)
            && StandsFor(c, msg.ipv4.value.dstAddr, json.dstText)
            && msg.ipv4.value.(srcAddr := 0, dstAddr := 0) == json.fields.(srcAddr := 0, dstAddr := 0)
  {
    DocumentDecodesIff(c, IPV4, b, GetFlowItemAny(c, Item(IPV4), b).value);
  }

  predicate ItemMatches(c: Codec, item: FlowItem, out: RteFlowItem) {
    && item.name == Item(out.itemType)
    && out.last == None
    && DecodesTo(c, out.itemType, if item.last.Some? then item.last else item.spec, out.spec)
    && DecodesTo(c, out.itemType, item.mask, out.mask)
  }

  predicate DecodesTo(c: Codec, t: ItemType, raw: Option<Raw>, msg: Option<ItemMsg>) {
    if raw.None? then msg.None? else msg.Some? && DocumentMeans(c, t, raw.value, msg.value)
  }

  lemma ItemMatched(c: Codec, item: FlowItem)
    requires TranslateItem(c, item).Success?
    ensures ItemMatches(c, item, TranslateItem(c, item).value)
  {
    var t, out := item.name.itemType, TranslateItem(c, item).value;
    if item.spec.Some? && out.spec.Some? { DocumentDecodesIff(c, t, item.spec.value, out.spec.value); }
    if item.last.Some? { DocumentDecodesIff(c, t, item.last.value, out.spec.value); }
    if item.mask.Some? { DocumentDecodesIff(c, t, item.mask.value, out.mask.value); }
  }

  /** The item that goes to the DCF holds the spec document that was asked for. */
  predicate SpecSurvives(c: Codec, item: FlowItem)
    requires TranslateItem(c, item).Success?
  {
    DecodesTo(c, item.name.itemType, item.spec, TranslateItem(c, item).value.spec)
  }

  /** It does exactly when there is no last document, or both documents decode alike. */
  lemma SpecSurvivesIff(c: Codec, item: FlowItem)
    requires TranslateItem(c, item).Success?
    ensures SpecSurvives(c, item) <==>
            || item.last.None?
            || (item.spec.Some? &&
                GetFlowItemAny(c, item.name, item.spec.value) == GetFlowItemAny(c, item.name, item.last.value))
  {
    var spec := TranslateItem(c, item).value.spec;
    if item.spec.Some? && spec.Some? {
      assert GetFlowItemAny(c, item.name, item.spec.value).Success?;
      DocumentDecodesIff(c, item.name.itemType, item.spec.value, spec.value);
    }
  }

  predicate ActionMatches(c: Codec, sriov: Sriov, action: FlowAction, out: RteFlowAction) {
    match action.name
    case UnknownAction(_) => false
    case Action(t) =>
      && out.actionType == t
      && (if action.conf.None? then out.conf.None?
          else if t == A_VF then
            c.decodeVf(action.conf.value).Some? && out.conf == Some(VfMsg(c.decodeVf(action.conf.value).value))
          else
            && c.decodeAction(t, action.conf.value).Some?
            && out.conf == Some(OtherActionMsg(t, c.decodeAction(t, action.conf.value).value)))
    case VfPciAddr =>
      && out.actionType == A_VF
      && (action.conf.None? ==> out.conf.None?)
      && (action.conf.Some? ==>
            && c.decodePciAddr(action.conf.value).Some?
            && var vf := sriov.getVfId(c.decodePciAddr(action.conf.value).value);
            && vf.Some?
            && (0 <= vf.value < 0x1_0000_0000 ==> out.conf == Some(VfMsg(VfConf(0, 0, vf.value)))))
  }
}
