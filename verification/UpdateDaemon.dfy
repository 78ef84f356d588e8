/** The update daemon and the drain helper with their state, proved to behave as module UpdateSpec
    says (pkg/fwddp-daemon/daemon.go, pkg/drainhelper/drainhelper.go). */
module UpdateDaemon {

  import opened Wrappers
  import opened UpdateSpec

  /** The node and its EthernetNodeConfig, as the API server and the machine hold them. */
  class Cluster {
    var cordoned: bool
    var condition: Condition
    ghost var log: seq<Event>

    ghost function State(): DaemonState
      reads this
    {
      DaemonState(cordoned, condition, log)
    }

    /** updateCondition: a refused write is only reported. */
    method UpdateCondition(script: Script, reason: Reason)
      modifies this
      ensures State() == WriteCondition(old(State()), script, reason)
    {
      if script.writeOk(reason) {
        condition := Because(reason);
        log := log + [ConditionWritten(reason)];
      }
    }
  }

  /** The closure that configureNode passes to Run, with the variables it captures. */
  class DrainFunc {
    const cluster: Cluster
    const script: Script
    const updateQueue: Queue
    var nodeActionErr: bool
    var rebootRequired: bool

    constructor (cluster: Cluster, script: Script, updateQueue: Queue)
      ensures this.cluster == cluster && this.script == script && this.updateQueue == updateQueue
      ensures !nodeActionErr && !rebootRequired
    {
      this.cluster, this.script, this.updateQueue := cluster, script, updateQueue;
      nodeActionErr, rebootRequired := false, false;
    }

    method Call() returns (performUncordon: bool, ghost order: seq<string>)
      requires !nodeActionErr && !rebootRequired
      modifies this, cluster
      ensures Covers(order, updateQueue)
      ensures (cluster.State(), WorkerResult(performUncordon, nodeActionErr, rebootRequired)) ==
              Worker(old(cluster.State()), script, updateQueue, order)
    {
      order := HandleDevices();
      if nodeActionErr {
        return true, order;
      }
      if rebootRequired {
        cluster.UpdateCondition(script, PostUpdateReboot);
        if script.rebootOk {
          cluster.log := cluster.log + [Rebooted];
        } else {
          nodeActionErr := true;
        }
        return false, order;
      }
      performUncordon := true;
    }

    /** The loop over the devices, in any order; it returns at the first error. */
    method HandleDevices() returns (ghost order: seq<string>)
      requires !nodeActionErr && !rebootRequired
      modifies this, cluster`log
      ensures Covers(order, updateQueue)
      ensures nodeActionErr == Work(script, updateQueue, order).failed
      ensures rebootRequired == Work(script, updateQueue, order).reboot
      ensures cluster.log == old(cluster.log) + Work(script, updateQueue, order).events
    {
      order := [];
      var pending := updateQueue.Keys;
      while pending != {}
        invariant pending <= updateQueue.Keys
        invariant forall pci :: pci in order <==> pci in updateQueue.Keys - pending
        invariant !nodeActionErr && !Work(script, updateQueue, order).failed
        invariant rebootRequired == Work(script, updateQueue, order).reboot
        invariant cluster.log == old(cluster.log) + Work(script, updateQueue, order).events
      {
        var pciAddr :| pciAddr in pending;
        var result := HandleDevice(pciAddr, updateQueue[pciAddr]);
        ghost var before := order;
        WorkSnoc(script, updateQueue, before, pciAddr);
        order := before + [pciAddr];
        if result.DeviceError? {
          nodeActionErr := true;
          order := CompleteOrder(script, updateQueue, order);
          return;
        }
        if result.reboot {
          rebootRequired := true;
        }
        pending := pending - {pciAddr};
      }
    }

    /** One turn of the loop over devices: flash the firmware, then copy the DDP profile. */
    method HandleDevice(pciAddr: string, a: Artifacts) returns (result: DeviceResult)
      modifies cluster`log
      ensures result == UpdateSpec.HandleDevice(script, pciAddr, a)
      ensures cluster.log == old(cluster.log) + DeviceEvents(script, pciAddr, a)
    {
      if a.fwPath != "" {
        cluster.log := cluster.log + [FirmwareFlashed(pciAddr)];
      }
      var fw := HandleFwUpdate(script, pciAddr, a.fwPath);
      if fw.DeviceError? {
        return DeviceError;
      }
      if a.ddpPath != "" {
        cluster.log := cluster.log + [DdpCopied(pciAddr)];
      }
      var ddp := HandleDdpUpdate(script, pciAddr, a.ddpPath);
      if ddp.DeviceError? {
        return DeviceError;
      }
      result := DeviceDone(fw.reboot || ddp.reboot);
    }
  }

  class DrainHelper {
    const cluster: Cluster

    constructor (cluster: Cluster)
      ensures this.cluster == cluster
    {
      this.cluster := cluster;
    }

    /** Cordons, drains if asked to, runs the worker and uncordons if the worker says so. A failed
        drain is followed by an attempt to uncordon. */
    method Run(f: DrainFunc, drain: bool) returns (innerErr: bool, ghost order: seq<string>)
      requires f.cluster == cluster && !f.nodeActionErr && !f.rebootRequired
      modifies f, cluster
      ensures Covers(order, f.updateQueue)
      ensures var s, script := old(cluster.State()), f.script;
              var configured := Configure(s, script, drain, f.updateQueue, order);
              && cluster.State() == configured.0
              && configured.1 == if innerErr || f.nodeActionErr then Failure(()) else Success(f.rebootRequired)
    {
      order := AnyOrder(f.updateQueue);
      if !f.script.electorOk {
        return true, order;
      }
      innerErr := false;
      if drain {
        var drained := CordonAndDrain(f.script);
        if !drained {
          var _ := Uncordon(f.script);
          return true, order;
        }
      }
      var performUncordon;
      performUncordon, order := f.Call();
      if drain && performUncordon {
        var ok := Uncordon(f.script);
        innerErr := !ok;
      }
    }

    /** Fails before or after the node has been cordoned, or drains it. */
    method CordonAndDrain(script: Script) returns (ok: bool)
      modifies cluster`cordoned, cluster`log
      ensures ok <==> script.drain.Drained?
      ensures ok ==> cluster.State() == Drain(old(cluster.State()), true)
      ensures !ok ==> cluster.log == old(cluster.log) && cluster.cordoned == (old(cluster.cordoned) || script.drain.cordoned)
    {
      ok := script.drain.Drained?;
      if ok {
        cluster.cordoned := true;
        cluster.log := cluster.log + [NodeDrained];
      } else {
        cluster.cordoned := cluster.cordoned || script.drain.cordoned;
      }
    }

    method Uncordon(script: Script) returns (ok: bool)
      modifies cluster`cordoned, cluster`log
      ensures ok <==> script.uncordonOk
      ensures cluster.State() == UpdateSpec.Uncordon(old(cluster.State()), script)
    {
      ok := script.uncordonOk;
      if ok {
        cluster.cordoned := false;
        cluster.log := cluster.log + [NodeUncordoned];
      }
    }
  }

  lemma WorkSnoc(script: Script, queue: Queue, order: seq<string>, pci: string)
    requires (forall p :: p in order ==> p in queue) && pci in queue && !Work(script, queue, order).failed
    ensures forall p :: p in order + [pci] ==> p in queue
    ensures var before, work := Work(script, queue, order), Work(script, queue, order + [pci]);
            var result := UpdateSpec.HandleDevice(script, pci, queue[pci]);
            && work.events == before.events + DeviceEvents(script, pci, queue[pci])
            && work.failed == result.DeviceError?
            && work.reboot == (before.reboot || result == DeviceDone(true))
  {
    assert (order + [pci])[..|order|] == order;
  }

  lemma AnyOrder(queue: Queue) returns (order: seq<string>)
    ensures Covers(order, queue)
    decreases |queue|
  {
    if queue == map[] {
      order := [];
    } else {
      var pci :| pci in queue;
      var rest := AnyOrder(queue - {pci});
      order := rest + [pci];
    }
  }

  /** An order that stops at the first failing device can be completed without changing the work. */
  lemma CompleteOrder(script: Script, queue: Queue, order: seq<string>) returns (full: seq<string>)
    requires forall pci :: pci in order ==> pci in queue
    requires Work(script, queue, order).failed
    ensures Covers(full, queue) && Work(script, queue, full) == Work(script, queue, order)
  {
    var rest := AnyOrder(queue);
    full := order + rest;
    FailedWorkStays(script, queue, order, rest);
  }

  lemma {:induction false} FailedWorkStays(script: Script, queue: Queue, order: seq<string>, more: seq<string>)
    requires forall pci :: pci in order + more ==> pci in queue
    requires (forall pci :: pci in order ==> pci in queue) && Work(script, queue, order).failed
    ensures Work(script, queue, order + more) == Work(script, queue, order)
  {
    if more == [] {
      assert order + more == order;
    } else {
      var init := more[..|more| - 1];
      assert (order + more)[..|order + more| - 1] == order + init;
      FailedWorkStays(script, queue, order, init);
    }
  }

  class NodeConfigReconciler {
    const cluster: Cluster
    const drainHelper: DrainHelper

    constructor (cluster: Cluster, drainHelper: DrainHelper)
      requires drainHelper.cluster == cluster
      ensures this.cluster == cluster && this.drainHelper == drainHelper
    {
      this.cluster, this.drainHelper := cluster, drainHelper;
    }

    method Reconcile(script: Script, spec: NodeSpec) returns (outcome: Outcome, ghost order: seq<string>)
      requires drainHelper.cluster == cluster
      modifies cluster
      ensures Enabled(old(cluster.State()), Round(script, spec, order))
      ensures (cluster.State(), outcome) == UpdateSpec.Reconcile(old(cluster.State()), script, spec, order)
    {
      order := [];
      if !script.getOk {
        return RequeueNow(true), order;
      }
      if cluster.condition == NoObject {
        var createErr := CreateEmptyNodeConfigIfNeeded(script);
        return RequeueNow(createErr), order;
      }
      if cluster.condition == Because(PostUpdateReboot) {
        var ok := drainHelper.Uncordon(script);
        if !ok {
          return RequeueLater, order;
        }
        cluster.UpdateCondition(script, Succeeded);
        return Finished, order;
      }
      var empty := AllDeviceConfigsEmpty(spec.config);
      if |spec.config| == 0 || empty {
        cluster.UpdateCondition(script, NotRequested);
        return Finished, order;
      }
      cluster.UpdateCondition(script, InProgress);
      var updateQueue := PrepareUpdateQueue(script, spec.config);
      if updateQueue.None? {
        cluster.UpdateCondition(script, Failed);
        return RequeueLater, order;
      }
      var rebootRequired;
      rebootRequired, order := ConfigureNode(script, updateQueue.value, spec);
      if rebootRequired.Failure? {
        cluster.UpdateCondition(script, Failed);
        return RequeueLater, order;
      }
      if !rebootRequired.value {
        cluster.UpdateCondition(script, Succeeded);
      }
      outcome := Finished;
    }

    /** Creates the object, then writes its status; either step may fail. */
    method CreateEmptyNodeConfigIfNeeded(script: Script) returns (error: bool)
      requires cluster.condition == NoObject
      modifies cluster`condition
      ensures error <==> script.create != Created
      ensures cluster.condition == if script.create == NotCreated then NoObject else NoCondition
    {
      if script.create == NotCreated {
        return true;
      }
      cluster.condition := NoCondition;
      error := script.create == CreatedWithoutStatus;
    }

    method ConfigureNode(script: Script, updateQueue: Queue, spec: NodeSpec)
      returns (r: Result<bool, ()>, ghost order: seq<string>)
      requires drainHelper.cluster == cluster
      modifies cluster
      ensures Covers(order, updateQueue)
      ensures (cluster.State(), r) == Configure(old(cluster.State()), script, !spec.drainSkip, updateQueue, order)
    {
      var drainFunc := new DrainFunc(cluster, script, updateQueue);
      var drainErr;
      drainErr, order := drainHelper.Run(drainFunc, !spec.drainSkip);
      if drainErr {
        return Failure(()), order;
      }
      if drainFunc.nodeActionErr {
        return Failure(()), order;
      }
      r := Success(drainFunc.rebootRequired);
    }

    method PrepareUpdateQueue(script: Script, config: seq<DeviceNodeConfig>) returns (r: Option<Queue>)
      ensures r == PrepareQueue(script, config)
    {
      if !script.inventoryOk || !script.cleanupOk {
        return None;
      }
      var updateQueue: Queue := map[];
      for i := 0 to |config|
        invariant PrepareDevices(script, config[..i]) == Some(updateQueue)
      {
        assert config[..i + 1][..i] == config[..i];
        var artifacts := script.prepare(config[i]);
        if artifacts.None? {
          PreparePrefix(script, config, i + 1);
          return None;
        }
        updateQueue := updateQueue[config[i].pciAddress := artifacts.value];
      }
      assert config[..|config|] == config;
      r := Some(updateQueue);
    }

    lemma {:induction false} PreparePrefix(script: Script, config: seq<DeviceNodeConfig>, n: nat)
      requires n <= |config| && PrepareDevices(script, config[..n]).None?
      ensures PrepareDevices(script, config).None?
    {
      if n == |config| {
        assert config[..n] == config;
      } else {
        assert config[..|config| - 1][..n] == config[..n];
        PreparePrefix(script, config[..|config| - 1], n);
      }
    }

    method AllDeviceConfigsEmpty(config: seq<DeviceNodeConfig>) returns (empty: bool)
      ensures empty <==> forall device :: device in config ==> device.deviceConfig == EMPTY_DEVICE_CONFIG
    {
      for i := 0 to |config|
        invariant forall j :: 0 <= j < i ==> config[j].deviceConfig == EMPTY_DEVICE_CONFIG
      {
        if config[i].deviceConfig != EMPTY_DEVICE_CONFIG {
          return false;
        }
      }
      empty := true;
    }
  }
}
