/** The firmware/DDP update of a node on values: one reconcile of the daemon with DrainHelper.Run
    (pkg/fwddp-daemon/daemon.go, pkg/drainhelper/drainhelper.go), when it leaves the node cordoned,
    and when it reboots. */
module UpdateSpec {

  import opened Wrappers

  datatype Reason = InProgress | PostUpdateReboot | Failed | NotRequested | Succeeded

  /** The status of the node's EthernetNodeConfig: no object, no condition yet, or a reason. */
  datatype Condition = NoObject | NoCondition | Because(reason: Reason)

  datatype Event =
    | ConditionWritten(reason: Reason)
    | FirmwareFlashed(pci: string)
    | DdpCopied(pci: string)
    | Rebooted
    | NodeDrained
    | NodeUncordoned

  /** cordoned: the daemon has cordoned the node and not uncordoned it since. */
  datatype DaemonState = DaemonState(cordoned: bool, condition: Condition, log: seq<Event>)

  datatype DeviceConfig = DeviceConfig(
    ddpUrl: string, ddpChecksum: string, fwUrl: string, fwChecksum: string, fwUpdateParam: string)

  const EMPTY_DEVICE_CONFIG := DeviceConfig("", "", "", "", "")

  datatype DeviceNodeConfig = DeviceNodeConfig(pciAddress: string, deviceConfig: DeviceConfig)

  datatype NodeSpec = NodeSpec(config: seq<DeviceNodeConfig>, drainSkip: bool)

  /** Paths of the unpacked files; an empty path means nothing to install. */
  datatype Artifacts = Artifacts(fwPath: string, ddpPath: string, fwUpdateParam: string)

  type Queue = map<string, Artifacts>

  /** The flashing tool cannot be run, or ends with a code and a result file that may be unreadable. */
  datatype FlashOutcome = FlashError | FlashExit(code: int, rebootFlag: Option<bool>)

  /** The exit codes of the flashing tool that do not count as an error. */
  const GOOD_EXIT_CODES: set<int> := {0, 3, 30, 50, 51}

  /** CreateEmptyNodeConfigIfNeeded writes the object and then its status. */
  datatype CreateOutcome = NotCreated | CreatedWithoutStatus | Created

  datatype DrainOutcome = Drained | NotDrained(cordoned: bool)

  /** How the world answers during one reconcile. The lease is held throughout. */
  datatype Script = Script(
    getOk: bool, create: CreateOutcome,
    inventoryOk: bool, cleanupOk: bool, prepare: DeviceNodeConfig -> Option<Artifacts>,
    electorOk: bool, drain: DrainOutcome, uncordonOk: bool,
    flash: string -> FlashOutcome, copyDdp: string -> bool,
    rebootOk: bool, writeOk: Reason -> bool)

  datatype Outcome = Finished | RequeueLater | RequeueNow(error: bool)

  // ---------------------------------------------------------------------- devices

  datatype DeviceResult = DeviceError | DeviceDone(reboot: bool)

  /** handleFWUpdate: exit codes 50 and 51 ask for a reboot; otherwise the result file decides, and
      an unreadable file counts as a request. */
  function HandleFwUpdate(script: Script, pci: string, fwPath: string): DeviceResult {
    if fwPath == "" then DeviceDone(false)
    else match script.flash(pci)
         case FlashError => DeviceError
         case FlashExit(code, flag) =>
           if code !in GOOD_EXIT_CODES then DeviceError
           else DeviceDone(code == 50 || code == 51 || flag != Some(false))
  }

  function HandleDdpUpdate(script: Script, pci: string, ddpPath: string): DeviceResult {
    if ddpPath == "" then DeviceDone(false)
    else if script.copyDdp(pci) then DeviceDone(true)
    else DeviceError
  }

  /** Firmware first, then DDP; a firmware error leaves the DDP alone. */
  function HandleDevice(script: Script, pci: string, a: Artifacts): DeviceResult {
    match HandleFwUpdate(script, pci, a.fwPath)
    case DeviceError => DeviceError
    case DeviceDone(fwReboot) =>
      match HandleDdpUpdate(script, pci, a.ddpPath)
      case DeviceError => DeviceError
      case DeviceDone(ddpReboot) => DeviceDone(fwReboot || ddpReboot)
  }

  function DeviceEvents(script: Script, pci: string, a: Artifacts): seq<Event> {
    (if a.fwPath == "" then [] else [FirmwareFlashed(pci)]) +
    (if a.ddpPath == "" || HandleFwUpdate(script, pci, a.fwPath).DeviceError? then [] else [DdpCopied(pci)])
  }

  datatype WorkResult = WorkResult(events: seq<Event>, failed: bool, reboot: bool)

  /** The devices in the order of the map iteration, up to the first error. */
  function Work(script: Script, queue: Queue, order: seq<string>): WorkResult
    requires forall pci :: pci in order ==> pci in queue
  {
    if order == [] then WorkResult([], false, false)
    else
      var before, pci := Work(script, queue, order[..|order| - 1]), order[|order| - 1];
      if before.failed then before
      else
        var events := before.events + DeviceEvents(script, pci, queue[pci]);
        match HandleDevice(script, pci, queue[pci])
        case DeviceError => WorkResult(events, true, before.reboot)
        case DeviceDone(reboot) => WorkResult(events, false, before.reboot || reboot)
  }

  /** The firmware of a device cannot be installed: the tool does not run, or ends with another code than
      0, 3, 30, 50 and 51. */
  predicate FlashFails(script: Script, pci: string, a: Artifacts) {
    a.fwPath != "" &&
    match script.flash(pci)
    case FlashError => true
    case FlashExit(code, _) => code != 0 && code != 3 && code != 30 && code != 50 && code != 51
  }

  /** Installed firmware asks for a reboot: by its code, or by a result file that does not say no. */
  predicate FlashAsks(script: Script, pci: string, a: Artifacts) {
    a.fwPath != "" &&
    match script.flash(pci)
    case FlashError => false
    case FlashExit(code, file) => code == 50 || code == 51 || (file.Some? ==> file.value)
  }

  predicate DeviceFails(script: Script, pci: string, a: Artifacts) {
    FlashFails(script, pci, a) || (a.ddpPath != "" && !script.copyDdp(pci))
  }

  predicate DeviceAsks(script: Script, pci: string, a: Artifacts) {
    FlashAsks(script, pci, a) || a.ddpPath != ""
  }

  /** What becomes of one device, in terms of the answers of the tools. */
  lemma DeviceIff(script: Script, pci: string, a: Artifacts)
    ensures HandleDevice(script, pci, a).DeviceError? <==> DeviceFails(script, pci, a)
    ensures HandleDevice(script, pci, a) == DeviceDone(true) <==> !DeviceFails(script, pci, a) && DeviceAsks(script, pci, a)
  {}

  predicate AllDevicesOk(script: Script, queue: Queue) {
    forall pci :: pci in queue ==> !DeviceFails(script, pci, queue[pci])
  }

  predicate SomeDeviceNeedsReboot(script: Script, queue: Queue) {
    exists pci :: pci in queue && !DeviceFails(script, pci, queue[pci]) && DeviceAsks(script, pci, queue[pci])
  }

  /** The order visits every device of the queue. */
  predicate Covers(order: seq<string>, queue: Queue) {
    (forall pci :: pci in order ==> pci in queue) && forall pci :: pci in queue ==> pci in order
  }

  lemma {:induction false} WorkOutcome(script: Script, queue: Queue, order: seq<string>)
    requires forall pci :: pci in order ==> pci in queue
    ensures Work(script, queue, order).failed <==>
            exists pci :: pci in order && DeviceFails(script, pci, queue[pci])
    ensures !Work(script, queue, order).failed ==>
              (Work(script, queue, order).reboot <==>
               exists pci :: pci in order && DeviceAsks(script, pci, queue[pci]))
  {
    if order != [] {
      var init, last := order[..|order| - 1], order[|order| - 1];
      WorkOutcome(script, queue, init);
      DeviceIff(script, last, queue[last]);
      assert order == init + [last];
    }
  }

  /** The device at the i-th place is reached: none before it has failed. */
  predicate DeviceReached(script: Script, queue: Queue, order: seq<string>, i: nat)
    requires i < |order| && forall pci :: pci in order ==> pci in queue
  {
    forall j :: 0 <= j < i ==> !DeviceFails(script, order[j], queue[order[j]])
  }

  /** What is done to the devices, in the order of the walk: firmware is flashed on each device that is
      reached and has some, and a profile is copied after that unless the flash failed. */
  predicate FlashDue(script: Script, queue: Queue, order: seq<string>, i: nat)
    requires i < |order| && forall pci :: pci in order ==> pci in queue
  {
    DeviceReached(script, queue, order, i) && queue[order[i]].fwPath != ""
  }

  predicate CopyDue(script: Script, queue: Queue, order: seq<string>, i: nat)
    requires i < |order| && forall pci :: pci in order ==> pci in queue
  {
    && DeviceReached(script, queue, order, i) && queue[order[i]].ddpPath != ""
    && !FlashFails(script, order[i], queue[order[i]])
  }

  /** Whatever the map order, the work fails exactly when some device fails, and otherwise asks for a
      reboot exactly when some device does. */
  lemma WorkIsOrderIndependent(script: Script, queue: Queue, order: seq<string>)
    requires Covers(order, queue)
    ensures Work(script, queue, order).failed <==> !AllDevicesOk(script, queue)
    ensures AllDevicesOk(script, queue) ==>
              (Work(script, queue, order).reboot <==> SomeDeviceNeedsReboot(script, queue))
  {
    WorkOutcome(script, queue, order);
  }

  lemma OneMoreDue(script: Script, queue: Queue, init: seq<string>, last: string, i: nat)
    requires last in queue && (forall pci :: pci in init ==> pci in queue) && i < |init|
    ensures forall pci :: pci in init + [last] ==> pci in queue
    ensures FlashDue(script, queue, init + [last], i) <==> FlashDue(script, queue, init, i)
    ensures CopyDue(script, queue, init + [last], i) <==> CopyDue(script, queue, init, i)
    ensures (init + [last])[i] == init[i]
  {
    var order := init + [last];
    assert forall j :: 0 <= j < |init| ==> order[j] == init[j];
  }

  lemma LastDue(script: Script, queue: Queue, init: seq<string>, last: string)
    requires last in queue && (forall pci :: pci in init ==> pci in queue)
    ensures var order, ok := init + [last], !Work(script, queue, init).failed;
            && (forall pci :: pci in order ==> pci in queue)
            && (FlashDue(script, queue, order, |init|) <==> ok && queue[last].fwPath != "")
            && (CopyDue(script, queue, order, |init|) <==>
                  ok && queue[last].ddpPath != "" && !FlashFails(script, last, queue[last]))
  {
    var order := init + [last];
    WorkOutcome(script, queue, init);
    assert order[|init|] == last && forall j :: 0 <= j < |init| ==> order[j] == init[j];
    if Work(script, queue, init).failed {
      var pci :| pci in init && DeviceFails(script, pci, queue[pci]);
      var j :| 0 <= j < |init| && init[j] == pci;
      assert DeviceFails(script, order[j], queue[order[j]]);
    } else {
      assert forall j :: 0 <= j < |init| ==> order[j] in init;
    }
  }

  /** The device is flashed somewhere in the walk. */
  predicate FlashedIn(script: Script, queue: Queue, order: seq<string>, pci: string)
    requires forall p :: p in order ==> p in queue
  {
    exists i :: 0 <= i < |order| && order[i] == pci && FlashDue(script, queue, order, i)
  }

  predicate CopiedIn(script: Script, queue: Queue, order: seq<string>, pci: string)
    requires forall p :: p in order ==> p in queue
  {
    exists i :: 0 <= i < |order| && order[i] == pci && CopyDue(script, queue, order, i)
  }

  lemma FlashedSnoc(script: Script, queue: Queue, init: seq<string>, last: string, pci: string)
    requires last in queue && (forall p :: p in init ==> p in queue)
    ensures forall p :: p in init + [last] ==> p in queue
    ensures FlashedIn(script, queue, init + [last], pci) <==>
            || FlashedIn(script, queue, init, pci)
            || (last == pci && FlashDue(script, queue, init + [last], |init|))
  {
    var order := init + [last];
    forall i | 0 <= i < |init| ensures order[i] == init[i] && (FlashDue(script, queue, order, i) <==> FlashDue(script, queue, init, i)) {
      OneMoreDue(script, queue, init, last, i);
    }
    assert order[|init|] == last;
  }

  lemma CopiedSnoc(script: Script, queue: Queue, init: seq<string>, last: string, pci: string)
    requires last in queue && (forall p :: p in init ==> p in queue)
    ensures forall p :: p in init + [last] ==> p in queue
    ensures CopiedIn(script, queue, init + [last], pci) <==>
            || CopiedIn(script, queue, init, pci)
            || (last == pci && CopyDue(script, queue, init + [last], |init|))
  {
    var order := init + [last];
    forall i | 0 <= i < |init| ensures order[i] == init[i] && (CopyDue(script, queue, order, i) <==> CopyDue(script, queue, init, i)) {
      OneMoreDue(script, queue, init, last, i);
    }
    assert order[|init|] == last;
  }

  lemma FirmwareFails(script: Script, pci: string, a: Artifacts)
    ensures HandleFwUpdate(script, pci, a.fwPath).DeviceError? <==> FlashFails(script, pci, a)
  {}

  lemma DeviceTouches(script: Script, last: string, a: Artifacts, pci: string)
    ensures FirmwareFlashed(pci) in DeviceEvents(script, last, a) <==> last == pci && a.fwPath != ""
    ensures DdpCopied(pci) in DeviceEvents(script, last, a) <==>
            last == pci && a.ddpPath != "" && !FlashFails(script, last, a)
  {
    FirmwareFails(script, last, a);
  }

  /** One more device adds its own events, if it is reached. */
  lemma OneMoreTouched(script: Script, queue: Queue, init: seq<string>, last: string, pci: string)
    requires last in queue && (forall p :: p in init ==> p in queue)
    ensures forall p :: p in init + [last] ==> p in queue
    ensures FirmwareFlashed(pci) in Work(script, queue, init + [last]).events <==>
            || FirmwareFlashed(pci) in Work(script, queue, init).events
            || (last == pci && FlashDue(script, queue, init + [last], |init|))
    ensures DdpCopied(pci) in Work(script, queue, init + [last]).events <==>
            || DdpCopied(pci) in Work(script, queue, init).events
            || (last == pci && CopyDue(script, queue, init + [last], |init|))
  {
    assert (init + [last])[..|init|] == init;
    LastDue(script, queue, init, last);
    DeviceTouches(script, last, queue[last], pci);
  }

  lemma {:induction false} DueInWork(script: Script, queue: Queue, order: seq<string>, pci: string)
    requires forall p :: p in order ==> p in queue
    ensures FirmwareFlashed(pci) in Work(script, queue, order).events <==> FlashedIn(script, queue, order, pci)
    ensures DdpCopied(pci) in Work(script, queue, order).events <==> CopiedIn(script, queue, order, pci)
  {
    if order == [] {
      assert Work(script, queue, order).events == [];
    } else {
      var init, last := order[..|order| - 1], order[|order| - 1];
      DueInWork(script, queue, init, pci);
      assert order == init + [last];
      OneMoreTouched(script, queue, init, last, pci);
      FlashedSnoc(script, queue, init, last, pci);
      CopiedSnoc(script, queue, init, last, pci);
    }
  }

  /** Exactly what the work does: a device is flashed or copied to when it is due in the walk; the
      firmware of a device comes right before its profile. */
  lemma WorkTouchesIff(script: Script, queue: Queue, order: seq<string>, pci: string)
    requires forall p :: p in order ==> p in queue
    ensures FirmwareFlashed(pci) in Work(script, queue, order).events <==> FlashedIn(script, queue, order, pci)
    ensures DdpCopied(pci) in Work(script, queue, order).events <==> CopiedIn(script, queue, order, pci)
    ensures FirmwareComesFirst(queue, Work(script, queue, order).events)
  {
    DueInWork(script, queue, order, pci);
    WorkOrder(script, queue, order);
  }

  /** If a profile is copied at the place, the firmware of the same device comes right before, if any. */
  predicate CopyFollows(queue: Queue, events: seq<Event>, k: nat)
    requires k < |events|
  {
    events[k].DdpCopied? ==>
      && events[k].pci in queue
      && (queue[events[k].pci].fwPath != "" ==> k > 0 && events[k - 1] == FirmwareFlashed(events[k].pci))
  }

  predicate FirmwareComesFirst(queue: Queue, events: seq<Event>) {
    forall k :: 0 <= k < |events| ==> CopyFollows(queue, events, k)
  }

  lemma DeviceOrder(script: Script, queue: Queue, pci: string)
    requires pci in queue
    ensures FirmwareComesFirst(queue, DeviceEvents(script, pci, queue[pci]))
  {}

  lemma OrderOfBoth(queue: Queue, before: seq<Event>, more: seq<Event>)
    requires FirmwareComesFirst(queue, before) && FirmwareComesFirst(queue, more)
    ensures FirmwareComesFirst(queue, before + more)
  {
    var events := before + more;
    forall k | 0 <= k < |events| ensures CopyFollows(queue, events, k) {
      if k < |before| {
        assert CopyFollows(queue, before, k);
      } else {
        assert CopyFollows(queue, more, k - |before|);
      }
    }
  }

  lemma {:induction false} WorkOrder(script: Script, queue: Queue, order: seq<string>)
    requires forall pci :: pci in order ==> pci in queue
    ensures FirmwareComesFirst(queue, Work(script, queue, order).events)
  {
    if order != [] {
      var init, last := order[..|order| - 1], order[|order| - 1];
      WorkOrder(script, queue, init);
      DeviceOrder(script, queue, last);
      OrderOfBoth(queue, Work(script, queue, init).events, DeviceEvents(script, last, queue[last]));
    }
  }

  // ---------------------------------------------------------------------- one reconcile

  /** updateCondition: a refused write leaves the old condition. */
  function WriteCondition(s: DaemonState, script: Script, reason: Reason): DaemonState {
    if script.writeOk(reason)
    then s.(condition := Because(reason), log := s.log + [ConditionWritten(reason)])
    else s
  }

  function Uncordon(s: DaemonState, script: Script): DaemonState {
    if script.uncordonOk then s.(cordoned := false, log := s.log + [NodeUncordoned]) else s
  }

  /** What the worker function brings back: whether to uncordon, and its two captured variables. */
  datatype WorkerResult = WorkerResult(uncordon: bool, error: bool, reboot: bool)

  function Worker(s: DaemonState, script: Script, queue: Queue, order: seq<string>): (DaemonState, WorkerResult)
    requires forall pci :: pci in order ==> pci in queue
  {
    var work := Work(script, queue, order);
    var s1 := s.(log := s.log + work.events);
    if work.failed then (s1, WorkerResult(true, true, work.reboot))
    else if !work.reboot then (s1, WorkerResult(true, false, false))
    else
      var s2 := WriteCondition(s1, script, PostUpdateReboot);
      if script.rebootOk then (s2.(log := s2.log + [Rebooted]), WorkerResult(false, false, true))
      else (s2, WorkerResult(false, true, true))
  }

  function Drain(s: DaemonState, drain: bool): DaemonState {
    if drain then s.(cordoned := true, log := s.log + [NodeDrained]) else s
  }

  /** DrainHelper.Run around the worker, together with the error checks of configureNode. The result
      says whether there was an error, and otherwise whether a reboot is under way. */
  function Configure(s: DaemonState, script: Script, drain: bool, queue: Queue, order: seq<string>): (DaemonState, Result<bool, ()>)
    requires forall pci :: pci in order ==> pci in queue
  {
    if !script.electorOk then (s, Failure(()))
    else if drain && script.drain.NotDrained? then
      (Uncordon(s.(cordoned := s.cordoned || script.drain.cordoned), script), Failure(()))
    else
      var worker := Worker(Drain(s, drain), script, queue, order);
      var uncordon := drain && worker.1.uncordon;
      ( if uncordon then Uncordon(worker.0, script) else worker.0,
        if (uncordon && !script.uncordonOk) || worker.1.error then Failure(()) else Success(worker.1.reboot))
  }

  /** prepareUpdateQueue: an error for one device is an error for all. */
  function PrepareQueue(script: Script, config: seq<DeviceNodeConfig>): Option<Queue> {
    if !script.inventoryOk || !script.cleanupOk then None else PrepareDevices(script, config)
  }

  function PrepareDevices(script: Script, config: seq<DeviceNodeConfig>): Option<Queue> {
    if config == [] then Some(map[])
    else
      var before, last := PrepareDevices(script, config[..|config| - 1]), config[|config| - 1];
      if before.None? || script.prepare(last).None? then None
      else Some(before.value[last.pciAddress := script.prepare(last).value])
  }

  /** The i-th entry is the last one for its address. */
  predicate LastEntry(config: seq<DeviceNodeConfig>, i: nat)
    requires i < |config|
  {
    forall j :: i < j < |config| ==> config[j].pciAddress != config[i].pciAddress
  }

  lemma {:induction false} PrepareDevicesIff(script: Script, config: seq<DeviceNodeConfig>)
    ensures PrepareDevices(script, config).Some? <==>
            forall i :: 0 <= i < |config| ==> script.prepare(config[i]).Some?
  {
    if config != [] {
      PrepareDevicesIff(script, config[..|config| - 1]);
    }
  }

  predicate Configured(config: seq<DeviceNodeConfig>, pci: string) {
    exists i :: 0 <= i < |config| && config[i].pciAddress == pci
  }

  lemma ConfiguredSnoc(init: seq<DeviceNodeConfig>, last: DeviceNodeConfig, pci: string)
    ensures Configured(init + [last], pci) <==> Configured(init, pci) || last.pciAddress == pci
  {
    var config := init + [last];
    assert config[|init|] == last && forall i :: 0 <= i < |init| ==> config[i] == init[i];
  }

  lemma {:induction false} QueueKeys(script: Script, config: seq<DeviceNodeConfig>, pci: string)
    requires PrepareDevices(script, config).Some?
    ensures pci in PrepareDevices(script, config).value <==> Configured(config, pci)
  {
    if config != [] {
      var init, last := config[..|config| - 1], config[|config| - 1];
      QueueKeys(script, init, pci);
      ConfiguredSnoc(init, last, pci);
      assert config == init + [last];
    }
  }

  lemma {:induction false} QueueEntry(script: Script, config: seq<DeviceNodeConfig>, i: nat)
    requires PrepareDevices(script, config).Some? && i < |config| && LastEntry(config, i)
    ensures config[i].pciAddress in PrepareDevices(script, config).value
    ensures Some(PrepareDevices(script, config).value[config[i].pciAddress]) == script.prepare(config[i])
  {
    var init := config[..|config| - 1];
    if i < |init| {
      assert config[|init|].pciAddress != config[i].pciAddress;
      assert init[i] == config[i] && LastEntry(init, i);
      QueueEntry(script, init, i);
    }
  }

  /** There is a queue exactly when the inventory, the cleaning of the folder and every preparation
      succeed. It has one entry for each address; of several for one address the last counts. */
  lemma PrepareQueueIff(script: Script, config: seq<DeviceNodeConfig>)
    ensures PrepareQueue(script, config).Some? <==>
            && script.inventoryOk && script.cleanupOk
            && forall i :: 0 <= i < |config| ==> script.prepare(config[i]).Some?
    ensures PrepareQueue(script, config).Some? ==>
              var queue := PrepareQueue(script, config).value;
              && (forall pci :: pci in queue <==> Configured(config, pci))
              && forall i :: 0 <= i < |config| && LastEntry(config, i) ==>
                   && config[i].pciAddress in queue
                   && Some(queue[config[i].pciAddress]) == script.prepare(config[i])
  {
    PrepareDevicesIff(script, config);
    if PrepareQueue(script, config).Some? {
      forall pci ensures pci in PrepareDevices(script, config).value <==> Configured(config, pci) {
        QueueKeys(script, config, pci);
      }
      forall i | 0 <= i < |config| && LastEntry(config, i)
        ensures config[i].pciAddress in PrepareDevices(script, config).value
        ensures Some(PrepareDevices(script, config).value[config[i].pciAddress]) == script.prepare(config[i])
      {
        QueueEntry(script, config, i);
      }
    }
  }

  predicate NothingToDo(spec: NodeSpec) {
    forall device :: device in spec.config ==> device.deviceConfig == EMPTY_DEVICE_CONFIG
  }

  /** No entry names a package or has any other field set. */
  predicate NoUpdateRequested(spec: NodeSpec) {
    forall i :: 0 <= i < |spec.config| ==>
      var d := spec.config[i].deviceConfig;
      d.ddpUrl == "" && d.ddpChecksum == "" && d.fwUrl == "" && d.fwChecksum == "" && d.fwUpdateParam == ""
  }

  lemma NothingToDoIff(spec: NodeSpec)
    ensures NothingToDo(spec) <==> NoUpdateRequested(spec)
  {
    if NoUpdateRequested(spec) {
      forall device | device in spec.config ensures device.deviceConfig == EMPTY_DEVICE_CONFIG {
        var i :| 0 <= i < |spec.config| && spec.config[i] == device;
      }
    }
    if NothingToDo(spec) {
      forall i | 0 <= i < |spec.config| ensures spec.config[i].deviceConfig == EMPTY_DEVICE_CONFIG {
        assert spec.config[i] in spec.config;
      }
    }
  }

  /** The queue that this reconcile works on, if it gets that far. */
  function QueueOf(s: DaemonState, script: Script, spec: NodeSpec): Option<Queue> {
    if !script.getOk || s.condition == NoObject || s.condition == Because(PostUpdateReboot) || NothingToDo(spec)
    then None
    else PrepareQueue(script, spec.config)
  }

  /** One reconcile. The order is that in which the map of devices is walked. */
  function Reconcile(s: DaemonState, script: Script, spec: NodeSpec, order: seq<string>): (DaemonState, Outcome)
    requires QueueOf(s, script, spec).Some? ==> Covers(order, QueueOf(s, script, spec).value)
  {
    if !script.getOk then (s, RequeueNow(true))
    else if s.condition == NoObject then
      if script.create == NotCreated then (s, RequeueNow(true))
      else (s.(condition := NoCondition), RequeueNow(script.create == CreatedWithoutStatus))
    else if s.condition == Because(PostUpdateReboot) then
      if script.uncordonOk then (WriteCondition(Uncordon(s, script), script, Succeeded), Finished)
      else (s, RequeueLater)
    else if NothingToDo(spec) then (WriteCondition(s, script, NotRequested), Finished)
    else
      var s1 := WriteCondition(s, script, InProgress);
      match PrepareQueue(script, spec.config)
      case None => (WriteCondition(s1, script, Failed), RequeueLater)
      case Some(queue) =>
        var configured := Configure(s1, script, !spec.drainSkip, queue, order);
        match configured.1
        case Failure(_) => (WriteCondition(configured.0, script, Failed), RequeueLater)
        case Success(reboot) =>
          (if reboot then configured.0 else WriteCondition(configured.0, script, Succeeded), Finished)
  }

  /** Everything up to the devices works: the lease, the drain and every device; and so does the
      uncordon, which is due unless the node is left to reboot. */
  predicate UpdateWorks(script: Script, spec: NodeSpec, queue: Queue) {
    && script.electorOk
    && (spec.drainSkip || script.drain.Drained?)
    && AllDevicesOk(script, queue)
    && (spec.drainSkip || SomeDeviceNeedsReboot(script, queue) || script.uncordonOk)
  }

  /** The recorded reason says what happened, whatever the map order: for a node with a status that
      is not waiting for a reboot, when status writes succeed. */
  lemma FinalCondition(s: DaemonState, script: Script, spec: NodeSpec, order: seq<string>)
    requires Enabled(s, Round(script, spec, order))
    requires script.getOk && s.condition != NoObject && s.condition != Because(PostUpdateReboot)
    requires forall reason :: script.writeOk(reason)
    ensures var end, queue := Reconcile(s, script, spec, order), PrepareQueue(script, spec.config);
            && (end.0.condition == Because(NotRequested) <==> NoUpdateRequested(spec))
            && (end.0.condition == Because(Succeeded) <==>
                  && !NoUpdateRequested(spec) && queue.Some? && UpdateWorks(script, spec, queue.value)
                  && !SomeDeviceNeedsReboot(script, queue.value))
            && (end.0.condition == Because(PostUpdateReboot) <==>
                  && !NoUpdateRequested(spec) && queue.Some? && UpdateWorks(script, spec, queue.value)
                  && SomeDeviceNeedsReboot(script, queue.value) && script.rebootOk)
            && (end.0.condition == Because(Failed) <==> end.1 == RequeueLater)
            && (end.1 == RequeueLater || end.1 == Finished)
            && end.0.condition != Because(InProgress)
  {
    NothingToDoIff(spec);
    if QueueOf(s, script, spec).Some? {
      WorkIsOrderIndependent(script, QueueOf(s, script, spec).value, order);
    }
  }

  // ---------------------------------------------------------------------- never stranded cordoned

  /** A node that the daemon has cordoned is waiting for the reboot to complete. */
  predicate Safe(s: DaemonState) {
    s.cordoned ==> s.condition == Because(PostUpdateReboot)
  }

  /** The ways to strand the node: the final uncordon fails; or a reboot is due and either its
      condition is not recorded, or the reboot command fails and that failure is recorded. */
  predicate Strands(s: DaemonState, script: Script, spec: NodeSpec) {
    QueueOf(s, script, spec).Some? && !spec.drainSkip && script.electorOk &&
    var queue := QueueOf(s, script, spec).value;
    match script.drain
    case NotDrained(cordoned) => cordoned && !script.uncordonOk
    case Drained =>
      if AllDevicesOk(script, queue) && SomeDeviceNeedsReboot(script, queue)
      then !script.writeOk(PostUpdateReboot) || (!script.rebootOk && script.writeOk(Failed))
      else !script.uncordonOk
  }

  /** Exactly when a reconcile keeps the node from being stranded, for every answer of the world and
      every map order. */
  lemma ReconcileSafeIff(s: DaemonState, script: Script, spec: NodeSpec, order: seq<string>)
    requires Safe(s)
    requires QueueOf(s, script, spec).Some? ==> Covers(order, QueueOf(s, script, spec).value)
    ensures Safe(Reconcile(s, script, spec, order).0) <==> !Strands(s, script, spec)
  {
    if QueueOf(s, script, spec).Some? {
      WorkIsOrderIndependent(script, QueueOf(s, script, spec).value, order);
    }
  }

  /** In particular when a reboot is due after a drain and its command fails: the node stays cordoned,
      and because the failure is recorded no later reconcile takes it for rebooted. */
  lemma FailedRebootStrands(s: DaemonState, script: Script, spec: NodeSpec, order: seq<string>)
    requires QueueOf(s, script, spec).Some? && Covers(order, QueueOf(s, script, spec).value)
    requires script.electorOk && !spec.drainSkip && script.drain.Drained?
    requires AllDevicesOk(script, QueueOf(s, script, spec).value)
    requires SomeDeviceNeedsReboot(script, QueueOf(s, script, spec).value)
    requires !script.rebootOk && forall reason :: script.writeOk(reason)
    ensures var s' := Reconcile(s, script, spec, order).0;
            s'.cordoned && s'.condition == Because(Failed) && !Safe(s')
  {
    WorkIsOrderIndependent(script, QueueOf(s, script, spec).value, order);
  }

  /** Firmware that is installed and asks for a reboot, and a reboot command that fails. */
  function FailingReboot(): Script {
    Script(true, Created, true, true, _ => Some(Artifacts("fw", "", "")), true, Drained, true,
           _ => FlashExit(50, None), _ => true, false, _ => true)
  }

  function OneDevice(pci: string, fwUrl: string): NodeSpec {
    NodeSpec([DeviceNodeConfig(pci, EMPTY_DEVICE_CONFIG.(fwUrl := fwUrl))], false)
  }

  /** A node with one device. */
  lemma FailedRebootExample(pci: string, fwUrl: string)
    requires fwUrl != ""
    ensures QueueOf(DaemonState(false, NoCondition, []), FailingReboot(), OneDevice(pci, fwUrl)) ==
            Some(map[pci := Artifacts("fw", "", "")])
    ensures var s' := Reconcile(DaemonState(false, NoCondition, []), FailingReboot(), OneDevice(pci, fwUrl), [pci]).0;
            s'.cordoned && s'.condition == Because(Failed)
  {
    var s, script, spec := DaemonState(false, NoCondition, []), FailingReboot(), OneDevice(pci, fwUrl);
    var queue := map[pci := Artifacts("fw", "", "")];
    assert spec.config[0] in spec.config && spec.config[0].deviceConfig != EMPTY_DEVICE_CONFIG;
    assert spec.config[..0] == [] && PrepareDevices(script, []) == Some(map[]);
    assert QueueOf(s, script, spec) == Some(queue);
    assert pci in queue && HandleDevice(script, pci, queue[pci]) == DeviceDone(true);
    assert SomeDeviceNeedsReboot(script, queue);
    FailedRebootStrands(s, script, spec, [pci]);
  }

  /** What one reconcile of a run meets: the answers, the specification at that time, and the order. */
  datatype Round = Round(script: Script, spec: NodeSpec, order: seq<string>)

  /** Status writes and the reboot command succeed, and so does the uncordon inside Run. The uncordon
      after a reboot may fail, as may the drain, the preparation and the devices. */
  predicate Fair(s: DaemonState, r: Round) {
    && (forall reason :: r.script.writeOk(reason))
    && r.script.rebootOk
    && (s.condition != Because(PostUpdateReboot) ==> r.script.uncordonOk)
  }

  predicate Enabled(s: DaemonState, r: Round) {
    QueueOf(s, r.script, r.spec).Some? ==> Covers(r.order, QueueOf(s, r.script, r.spec).value)
  }

  /** A run: the state before each round, and after the last. */
  predicate IsRun(states: seq<DaemonState>, rounds: seq<Round>) {
    && |states| == |rounds| + 1
    && forall i :: 0 <= i < |rounds| ==>
         Enabled(states[i], rounds[i]) &&
         states[i + 1] == Reconcile(states[i], rounds[i].script, rounds[i].spec, rounds[i].order).0
  }

  /** On every run of fair reconciles a node that starts uncordoned is never stranded. */
  lemma {:induction false} NeverStranded(states: seq<DaemonState>, rounds: seq<Round>, i: nat)
    requires IsRun(states, rounds) && i < |states|
    requires Safe(states[0])
    requires forall j :: 0 <= j < |rounds| ==> Fair(states[j], rounds[j])
    ensures Safe(states[i])
  {
    if i > 0 {
      NeverStranded(states, rounds, i - 1);
      var r := rounds[i - 1];
      assert Enabled(states[i - 1], r) && Fair(states[i - 1], r);
      ReconcileSafeIff(states[i - 1], r.script, r.spec, r.order);
    }
  }

  // ---------------------------------------------------------------------- reboot discipline

  function Reboots(log: seq<Event>): nat {
    if log == [] then 0 else Reboots(log[..|log| - 1]) + if log[|log| - 1] == Rebooted then 1 else 0
  }

  lemma {:induction false} RebootsConcat(log: seq<Event>, more: seq<Event>)
    ensures Reboots(log + more) == Reboots(log) + Reboots(more)
  {
    if more == [] {
      assert log + more == log;
    } else {
      RebootsConcat(log, more[..|more| - 1]);
      assert (log + more)[..|log + more| - 1] == log + more[..|more| - 1];
    }
  }

  lemma OneEvent(log: seq<Event>, e: Event)
    ensures Reboots(log + [e]) == Reboots(log) + if e == Rebooted then 1 else 0
  {
    assert (log + [e])[..|log|] == log;
  }

  lemma {:induction false} WorkEvents(script: Script, queue: Queue, order: seq<string>)
    requires forall pci :: pci in order ==> pci in queue
    ensures forall e :: e in Work(script, queue, order).events ==> e.FirmwareFlashed? || e.DdpCopied?
  {
    if order != [] {
      WorkEvents(script, queue, order[..|order| - 1]);
    }
  }

  lemma {:induction false} NoReboots(log: seq<Event>)
    requires Rebooted !in log
    ensures Reboots(log) == 0
  {
    if log != [] {
      assert log[|log| - 1] in log;
      NoReboots(log[..|log| - 1]);
    }
  }

  lemma WriteIsNoReboot(s: DaemonState, script: Script, reason: Reason)
    ensures Reboots(WriteCondition(s, script, reason).log) == Reboots(s.log)
  {
    OneEvent(s.log, ConditionWritten(reason));
  }

  lemma WorkerReboots(s: DaemonState, script: Script, queue: Queue, order: seq<string>)
    requires Covers(order, queue)
    ensures Reboots(Worker(s, script, queue, order).0.log) == Reboots(s.log) +
            if AllDevicesOk(script, queue) && SomeDeviceNeedsReboot(script, queue) && script.rebootOk then 1 else 0
  {
    var work := Work(script, queue, order);
    WorkIsOrderIndependent(script, queue, order);
    WorkEvents(script, queue, order);
    NoReboots(work.events);
    RebootsConcat(s.log, work.events);
    var s1 := s.(log := s.log + work.events);
    WriteIsNoReboot(s1, script, PostUpdateReboot);
    OneEvent(WriteCondition(s1, script, PostUpdateReboot).log, Rebooted);
  }

  lemma ConfigureReboots(s: DaemonState, script: Script, drain: bool, queue: Queue, order: seq<string>)
    requires Covers(order, queue)
    ensures Reboots(Configure(s, script, drain, queue, order).0.log) == Reboots(s.log) +
            if && script.electorOk && (!drain || script.drain.Drained?)
               && AllDevicesOk(script, queue) && SomeDeviceNeedsReboot(script, queue) && script.rebootOk
            then 1 else 0
  {
    OneEvent(s.log, NodeDrained);
    OneEvent(s.log, NodeUncordoned);
    WorkerReboots(Drain(s, drain), script, queue, order);
    OneEvent(Worker(Drain(s, drain), script, queue, order).0.log, NodeUncordoned);
  }

  /** There is something to do, it was prepared, the drain (if any) succeeded, every device is
      processed without error, at least one needs a reboot, and the reboot command works. */
  predicate RebootDue(s: DaemonState, script: Script, spec: NodeSpec) {
    && QueueOf(s, script, spec).Some?
    && script.electorOk
    && (spec.drainSkip || script.drain.Drained?)
    && AllDevicesOk(script, QueueOf(s, script, spec).value)
    && SomeDeviceNeedsReboot(script, QueueOf(s, script, spec).value)
    && script.rebootOk
  }

  /** A reconcile reboots the node once when a reboot is due and otherwise not at all, whatever the
      map order and the status writes. */
  lemma RebootIff(s: DaemonState, script: Script, spec: NodeSpec, order: seq<string>)
    requires Enabled(s, Round(script, spec, order))
    ensures Reboots(Reconcile(s, script, spec, order).0.log) ==
            Reboots(s.log) + if RebootDue(s, script, spec) then 1 else 0
  {
    if QueueOf(s, script, spec).Some? {
      UpdateReboots(s, script, spec, order);
    } else {
      OneEvent(s.log, NodeUncordoned);
      WriteIsNoReboot(Uncordon(s, script), script, Succeeded);
      WriteIsNoReboot(s, script, NotRequested);
      WriteIsNoReboot(s, script, InProgress);
      WriteIsNoReboot(WriteCondition(s, script, InProgress), script, Failed);
    }
  }

  lemma UpdateReboots(s: DaemonState, script: Script, spec: NodeSpec, order: seq<string>)
    requires Enabled(s, Round(script, spec, order)) && QueueOf(s, script, spec).Some?
    ensures Reboots(Reconcile(s, script, spec, order).0.log) ==
            Reboots(s.log) + if RebootDue(s, script, spec) then 1 else 0
  {
    var queue, drain := QueueOf(s, script, spec).value, !spec.drainSkip;
    var s1 := WriteCondition(s, script, InProgress);
    WriteIsNoReboot(s, script, InProgress);
    ConfigureReboots(s1, script, drain, queue, order);
    var configured := Configure(s1, script, drain, queue, order);
    WriteIsNoReboot(configured.0, script, Failed);
    WriteIsNoReboot(configured.0, script, Succeeded);
  }

  /** A reconcile that finds the node waiting for its reboot flashes nothing and reboots nothing: it
      records the success, or leaves everything for the next time. */
  lemma PostRebootOnlyFinishes(s: DaemonState, script: Script, spec: NodeSpec, order: seq<string>)
    requires s.condition == Because(PostUpdateReboot)
    ensures var s' := Reconcile(s, script, spec, order).0;
            if script.getOk && script.uncordonOk && script.writeOk(Succeeded)
            then s' == DaemonState(false, Because(Succeeded), s.log + [NodeUncordoned] + [ConditionWritten(Succeeded)])
            else (s'.log == s.log || s'.log == s.log + [NodeUncordoned]) && s'.condition == s.condition
                 && (s'.cordoned ==> s.cordoned)
  {}

  /** The event changes a device or the node. */
  predicate Touches(e: Event) {
    e.FirmwareFlashed? || e.DdpCopied? || e.Rebooted?
  }

  /** A reboot has happened and no success has been recorded since. */
  predicate RebootOpen(log: seq<Event>) {
    exists i :: 0 <= i < |log| && log[i] == Rebooted && ConditionWritten(Succeeded) !in log[i..]
  }

  /** Between a reboot and the next time that a device is touched or the node rebooted a success has
      been recorded. */
  predicate RebootsSeparated(log: seq<Event>) {
    forall i, j :: 0 <= i < j < |log| && log[i] == Rebooted && Touches(log[j]) ==>
      ConditionWritten(Succeeded) in log[i..j]
  }

  /** Each reboot has been announced just before. */
  predicate RebootsAnnounced(log: seq<Event>) {
    forall i :: 0 <= i < |log| && log[i] == Rebooted ==> i > 0 && log[i - 1] == ConditionWritten(PostUpdateReboot)
  }

  predicate InOrder(log: seq<Event>) {
    RebootsSeparated(log) && RebootsAnnounced(log)
  }

  predicate Disciplined(s: DaemonState) {
    InOrder(s.log) && (RebootOpen(s.log) ==> s.condition == Because(PostUpdateReboot))
  }

  lemma AppendOpen(log: seq<Event>, e: Event)
    ensures RebootOpen(log + [e]) ==> (RebootOpen(log) || e == Rebooted) && e != ConditionWritten(Succeeded)
  {
    var more := log + [e];
    if i :| 0 <= i < |more| && more[i] == Rebooted && ConditionWritten(Succeeded) !in more[i..] {
      assert more[i..][|log| - i] == e;
      if i < |log| {
        assert more[i..] == log[i..] + [e];
      }
    }
  }

  lemma AppendSeparated(log: seq<Event>, e: Event)
    requires (!Touches(e) || !RebootOpen(log)) && RebootsSeparated(log)
    ensures RebootsSeparated(log + [e])
  {
    var more := log + [e];
    forall i, j | 0 <= i < j < |more| && more[i] == Rebooted && Touches(more[j])
      ensures ConditionWritten(Succeeded) in more[i..j]
    {
      assert log[i] == Rebooted && more[i..j] == log[i..j];
      assert j == |log| ==> log[i..j] == log[i..];
    }
  }

  /** A device may be touched when no reboot is open, the node rebooted when it has also been announced,
      and anything else recorded at any time. */
  lemma AppendEvent(log: seq<Event>, e: Event)
    requires !Touches(e) || !RebootOpen(log)
    requires e == Rebooted ==> log != [] && log[|log| - 1] == ConditionWritten(PostUpdateReboot)
    ensures InOrder(log) ==> InOrder(log + [e])
    ensures RebootOpen(log + [e]) ==> (RebootOpen(log) || e == Rebooted) && e != ConditionWritten(Succeeded)
  {
    AppendOpen(log, e);
    if InOrder(log) {
      AppendSeparated(log, e);
    }
  }

  lemma {:induction false} AppendWork(log: seq<Event>, events: seq<Event>)
    requires !RebootOpen(log) && Rebooted !in events
    ensures InOrder(log) ==> InOrder(log + events)
    ensures !RebootOpen(log + events)
  {
    if events == [] {
      assert log + events == log;
    } else {
      var init, last := events[..|events| - 1], events[|events| - 1];
      assert events == init + [last];
      AppendWork(log, init);
      AppendEvent(log + init, last);
      assert log + events == (log + init) + [last];
    }
  }

  lemma WriteKeepsDiscipline(s: DaemonState, script: Script, reason: Reason)
    requires Disciplined(s) && (RebootOpen(s.log) ==> reason == Succeeded)
    ensures Disciplined(WriteCondition(s, script, reason))
  {
    AppendEvent(s.log, ConditionWritten(reason));
  }

  lemma WorkerKeepsDiscipline(s: DaemonState, script: Script, queue: Queue, order: seq<string>)
    requires forall pci :: pci in order ==> pci in queue
    requires InOrder(s.log) && !RebootOpen(s.log)
    requires script.writeOk(PostUpdateReboot)
    ensures Disciplined(Worker(s, script, queue, order).0)
    ensures RebootOpen(Worker(s, script, queue, order).0.log) ==>
              !Worker(s, script, queue, order).1.uncordon && !Worker(s, script, queue, order).1.error
              && Worker(s, script, queue, order).1.reboot
  {
    var work := Work(script, queue, order);
    WorkEvents(script, queue, order);
    AppendWork(s.log, work.events);
    if !work.failed && work.reboot {
      var log := s.log + work.events;
      AppendEvent(log, ConditionWritten(PostUpdateReboot));
      AppendEvent(log + [ConditionWritten(PostUpdateReboot)], Rebooted);
    }
  }

  /** One reconcile keeps the discipline if the write of PostUpdateReboot does not fail. */
  lemma ReconcileKeepsDiscipline(s: DaemonState, script: Script, spec: NodeSpec, order: seq<string>)
    requires Disciplined(s) && script.writeOk(PostUpdateReboot)
    requires Enabled(s, Round(script, spec, order))
    ensures Disciplined(Reconcile(s, script, spec, order).0)
  {
    if script.getOk && s.condition == Because(PostUpdateReboot) {
      PostRebootOnlyFinishes(s, script, spec, order);
      AppendEvent(s.log, NodeUncordoned);
      AppendEvent(s.log + [NodeUncordoned], ConditionWritten(Succeeded));
    } else if script.getOk && s.condition != NoObject {
      WriteKeepsDiscipline(s, script, NotRequested);
      WriteKeepsDiscipline(s, script, InProgress);
      AppendEvent(s.log, ConditionWritten(InProgress));
      UpdateKeepsDiscipline(s, WriteCondition(s, script, InProgress), script, spec, order);
    }
  }

  lemma UpdateKeepsDiscipline(s: DaemonState, s1: DaemonState, script: Script, spec: NodeSpec, order: seq<string>)
    requires Disciplined(s1) && !RebootOpen(s1.log) && script.writeOk(PostUpdateReboot)
    requires Enabled(s, Round(script, spec, order)) && s1 == WriteCondition(s, script, InProgress)
    requires script.getOk && s.condition != NoObject && s.condition != Because(PostUpdateReboot)
    ensures !NothingToDo(spec) ==> Disciplined(Reconcile(s, script, spec, order).0)
  {
    if !NothingToDo(spec) {
      match PrepareQueue(script, spec.config) {
        case None => WriteKeepsDiscipline(s1, script, Failed);
        case Some(queue) => ConfigureKeepsDiscipline(s1, script, !spec.drainSkip, queue, order);
      }
    }
  }

  lemma ConfigureKeepsDiscipline(s: DaemonState, script: Script, drain: bool, queue: Queue, order: seq<string>)
    requires forall pci :: pci in order ==> pci in queue
    requires Disciplined(s) && !RebootOpen(s.log) && script.writeOk(PostUpdateReboot)
    ensures var configured := Configure(s, script, drain, queue, order);
            match configured.1
            case Failure(_) => Disciplined(WriteCondition(configured.0, script, Failed))
            case Success(reboot) =>
              Disciplined(if reboot then configured.0 else WriteCondition(configured.0, script, Succeeded))
  {
    AppendEvent(s.log, NodeDrained);
    AppendEvent(s.log, NodeUncordoned);
    WorkerKeepsDiscipline(Drain(s, drain), script, queue, order);
    AppendEvent(Worker(Drain(s, drain), script, queue, order).0.log, NodeUncordoned);
    var configured := Configure(s, script, drain, queue, order);
    AppendEvent(configured.0.log, ConditionWritten(Failed));
    AppendEvent(configured.0.log, ConditionWritten(Succeeded));
  }

  /** No trace has a reboot after which a device is flashed or the node rebooted again before a success
      has been recorded: for every run that starts with an empty log and records each
      PostUpdateReboot. */
  lemma {:induction false} NoRebootLoop(states: seq<DaemonState>, rounds: seq<Round>, i: nat)
    requires IsRun(states, rounds) && i < |states|
    requires states[0].log == []
    requires forall j :: 0 <= j < |rounds| ==> rounds[j].script.writeOk(PostUpdateReboot)
    ensures Disciplined(states[i])
  {
    if i > 0 {
      NoRebootLoop(states, rounds, i - 1);
      var r := rounds[i - 1];
      assert Enabled(states[i - 1], r);
      ReconcileKeepsDiscipline(states[i - 1], r.script, r.spec, r.order);
    }
  }

  // ---------------------------------------------------------------------- one reconcile on the log

  /** Since the given place the node has been drained and not uncordoned again. */
  predicate DrainedSince(log: seq<Event>, from: nat) {
    exists i :: from <= i < |log| && log[i] == NodeDrained && NodeUncordoned !in log[i..]
  }

  /** From that place on devices are touched and the node rebooted only while it is drained. */
  predicate TouchedWhileDrained(log: seq<Event>, from: nat) {
    forall j :: from <= j < |log| && Touches(log[j]) ==> DrainedSince(log[..j], from)
  }

  lemma AppendDrained(log: seq<Event>, from: nat, e: Event)
    requires from <= |log|
    ensures TouchedWhileDrained(log, from) && (Touches(e) ==> DrainedSince(log, from)) ==>
              TouchedWhileDrained(log + [e], from)
    ensures e == NodeDrained || (DrainedSince(log, from) && e != NodeUncordoned) ==> DrainedSince(log + [e], from)
  {
    var more := log + [e];
    forall j | from <= j < |more| ensures j < |log| ==> more[..j] == log[..j] && more[j] == log[j]
                                  ensures j == |log| ==> more[..j] == log && more[j] == e
    {}
    if e == NodeDrained {
      assert more[|log|..] == [e];
    }
    if i :| from <= i < |log| && log[i] == NodeDrained && NodeUncordoned !in log[i..] {
      assert more[i] == NodeDrained && more[i..] == log[i..] + [e];
    }
  }

  lemma {:induction false} AppendWorkDrained(log: seq<Event>, from: nat, events: seq<Event>)
    requires from <= |log| && TouchedWhileDrained(log, from) && DrainedSince(log, from)
    requires NodeUncordoned !in events
    ensures TouchedWhileDrained(log + events, from) && DrainedSince(log + events, from)
  {
    if events == [] {
      assert log + events == log;
    } else {
      var init, last := events[..|events| - 1], events[|events| - 1];
      assert events == init + [last];
      AppendWorkDrained(log, from, init);
      AppendDrained(log + init, from, last);
      assert log + events == (log + init) + [last];
    }
  }

  lemma WorkerDrained(s: DaemonState, from: nat, script: Script, queue: Queue, order: seq<string>)
    requires forall pci :: pci in order ==> pci in queue
    requires from <= |s.log| && TouchedWhileDrained(s.log, from) && DrainedSince(s.log, from)
    ensures TouchedWhileDrained(Worker(s, script, queue, order).0.log, from)
    ensures |s.log| <= |Worker(s, script, queue, order).0.log|
  {
    var work := Work(script, queue, order);
    WorkEvents(script, queue, order);
    AppendWorkDrained(s.log, from, work.events);
    var log := s.log + work.events;
    AppendDrained(log, from, ConditionWritten(PostUpdateReboot));
    AppendDrained(WriteCondition(s.(log := log), script, PostUpdateReboot).log, from, Rebooted);
  }

  /** Unless draining is switched off, a reconcile touches devices and reboots only while the node is
      drained: after a drain of its own, and before any uncordon. */
  lemma DevicesTouchedWhileDrained(s: DaemonState, script: Script, spec: NodeSpec, order: seq<string>)
    requires Enabled(s, Round(script, spec, order)) && !spec.drainSkip
    ensures TouchedWhileDrained(Reconcile(s, script, spec, order).0.log, |s.log|)
  {
    var from := |s.log|;
    assert TouchedWhileDrained(s.log, from);
    AppendDrained(s.log, from, NodeUncordoned);
    AppendDrained(Uncordon(s, script).log, from, ConditionWritten(Succeeded));
    AppendDrained(s.log, from, ConditionWritten(NotRequested));
    AppendDrained(s.log, from, ConditionWritten(InProgress));
    var s1 := WriteCondition(s, script, InProgress);
    AppendDrained(s1.log, from, ConditionWritten(Failed));
    if QueueOf(s, script, spec).Some? {
      ConfigureDrained(s1, from, script, QueueOf(s, script, spec).value, order);
      var configured := Configure(s1, script, true, QueueOf(s, script, spec).value, order);
      AppendDrained(configured.0.log, from, ConditionWritten(Failed));
      AppendDrained(configured.0.log, from, ConditionWritten(Succeeded));
    }
  }

  lemma ConfigureDrained(s: DaemonState, from: nat, script: Script, queue: Queue, order: seq<string>)
    requires forall pci :: pci in order ==> pci in queue
    requires from <= |s.log| && TouchedWhileDrained(s.log, from)
    ensures TouchedWhileDrained(Configure(s, script, true, queue, order).0.log, from)
    ensures |s.log| <= |Configure(s, script, true, queue, order).0.log|
  {
    AppendDrained(s.log, from, NodeUncordoned);
    AppendDrained(s.log, from, NodeDrained);
    WorkerDrained(Drain(s, true), from, script, queue, order);
    AppendDrained(Worker(Drain(s, true), script, queue, order).0.log, from, NodeUncordoned);
  }

  /** The update gets as far as the devices. */
  predicate UpdateStarts(s: DaemonState, script: Script, spec: NodeSpec) {
    QueueOf(s, script, spec).Some? && script.electorOk && (spec.drainSkip || script.drain.Drained?)
  }

  lemma ConfigureTouches(s: DaemonState, script: Script, drain: bool, queue: Queue, order: seq<string>, e: Event)
    requires (forall pci :: pci in order ==> pci in queue) && (e.FirmwareFlashed? || e.DdpCopied?)
    ensures e in Configure(s, script, drain, queue, order).0.log <==>
            || e in s.log
            || (script.electorOk && (!drain || script.drain.Drained?) && e in Work(script, queue, order).events)
  {}

  lemma ReconcileTouches(s: DaemonState, script: Script, spec: NodeSpec, order: seq<string>, e: Event)
    requires Enabled(s, Round(script, spec, order)) && (e.FirmwareFlashed? || e.DdpCopied?)
    ensures e in Reconcile(s, script, spec, order).0.log <==>
            || e in s.log
            || (UpdateStarts(s, script, spec) && e in Work(script, QueueOf(s, script, spec).value, order).events)
  {
    if QueueOf(s, script, spec).Some? {
      ConfigureTouches(WriteCondition(s, script, InProgress), script, !spec.drainSkip,
                       QueueOf(s, script, spec).value, order, e);
    }
  }

  /** Which devices a reconcile touches: exactly those that are due in the walk, provided that the update
      gets as far as the devices; in particular none after a failed drain or preparation. */
  lemma ReconcileTouchesIff(s: DaemonState, script: Script, spec: NodeSpec, order: seq<string>, pci: string)
    requires Enabled(s, Round(script, spec, order))
    ensures FirmwareFlashed(pci) in Reconcile(s, script, spec, order).0.log <==>
            || FirmwareFlashed(pci) in s.log
            || (UpdateStarts(s, script, spec) && FlashedIn(script, QueueOf(s, script, spec).value, order, pci))
    ensures DdpCopied(pci) in Reconcile(s, script, spec, order).0.log <==>
            || DdpCopied(pci) in s.log
            || (UpdateStarts(s, script, spec) && CopiedIn(script, QueueOf(s, script, spec).value, order, pci))
  {
    ReconcileTouches(s, script, spec, order, FirmwareFlashed(pci));
    ReconcileTouches(s, script, spec, order, DdpCopied(pci));
    if UpdateStarts(s, script, spec) {
      WorkTouchesIff(script, QueueOf(s, script, spec).value, order, pci);
    }
  }

  /** Which outcome a reconcile has: again at once while there is no object, later after a failure, and
      none otherwise. */
  lemma OutcomeIff(s: DaemonState, script: Script, spec: NodeSpec, order: seq<string>)
    requires Enabled(s, Round(script, spec, order))
    ensures var s', outcome := Reconcile(s, script, spec, order).0, Reconcile(s, script, spec, order).1;
            && (outcome == RequeueNow(true) <==> !script.getOk || (s.condition == NoObject && script.create != Created))
            && (outcome == RequeueNow(false) <==> script.getOk && s.condition == NoObject && script.create == Created)
            && (outcome.RequeueNow? ==>
                  && s'.log == s.log && s'.cordoned == s.cordoned
                  && s'.condition == if script.getOk && script.create != NotCreated then NoCondition else s.condition)
            && (script.getOk && s.condition == Because(PostUpdateReboot) ==>
                  outcome == if script.uncordonOk then Finished else RequeueLater)
  {}

  /** An update with something to do records that it is in progress before anything else. */
  lemma ProgressIsRecordedFirst(s: DaemonState, script: Script, spec: NodeSpec, order: seq<string>)
    requires Enabled(s, Round(script, spec, order)) && script.writeOk(InProgress)
    requires script.getOk && s.condition != NoObject && s.condition != Because(PostUpdateReboot) && !NothingToDo(spec)
    ensures s.log + [ConditionWritten(InProgress)] <= Reconcile(s, script, spec, order).0.log
  {
    var s1 := WriteCondition(s, script, InProgress);
    if QueueOf(s, script, spec).Some? {
      ConfigureExtends(s1, script, !spec.drainSkip, QueueOf(s, script, spec).value, order);
    }
  }

  lemma ConfigureExtends(s: DaemonState, script: Script, drain: bool, queue: Queue, order: seq<string>)
    requires forall pci :: pci in order ==> pci in queue
    ensures s.log <= Configure(s, script, drain, queue, order).0.log
  {}
}
