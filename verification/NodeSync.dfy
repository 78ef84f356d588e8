/** One node's cache and hardware as values, the operations a sync may perform on them, and what
    every run of such operations keeps. The controller's methods are proved to perform exactly
    these runs (module NodeFlowConfig). */
module NodeSync {

  import opened FlowTypes
  import opened FlowSets
  import opened Dcf

  datatype NodeState = NodeState(cache: Cache, hw: Hardware)

  function SlotOf(rec: FlowCreateRecord): Slot {
    Slot(rec.rule.portId, rec.flowId)
  }

  function Slots(cache: Cache): set<Slot> {
    set k | k in cache :: SlotOf(cache[k])
  }

  // ---------------------------------------------------------------------- operations

  /** One turn of the loop in deleteRules (Drop) or of the loop in createRules (the others). */
  datatype Op =
    | Drop(key: FlowKey, rec: FlowCreateRecord, took: bool)
    | Put(rule: RequestFlowCreate, id: uint32)
    | RejectedByValidate(rule: RequestFlowCreate, answer: Answer)
    | RejectedByCreate(rule: RequestFlowCreate, answer: Answer)

  predicate Rejects(op: Op) {
    op.RejectedByValidate? || op.RejectedByCreate?
  }

  function Apply(s: NodeState, op: Op): NodeState {
    match op
    case Drop(key, rec, took) =>
      NodeState(s.cache - {key}, if took then s.hw - {SlotOf(rec)} else s.hw)
    case Put(rule, id) =>
      NodeState(s.cache[Sha256(rule) := FlowCreateRecord(id, rule)], s.hw[Slot(rule.portId, id) := rule])
    case _ => s
  }

  function Exec(s: NodeState, ops: seq<Op>): NodeState {
    if ops == [] then s else Apply(Exec(s, ops[..|ops| - 1]), ops[|ops| - 1])
  }

  /** The requests that an operation puts on the wire, with their answers. */
  function CallsOf(op: Op): seq<Call> {
    match op
    case Drop(key, rec, took) => [DestroyCall(SlotOf(rec), took)]
    case Put(rule, id) => [ValidateCall(rule, Done), CreateCall(rule, Created(id))]
    case RejectedByValidate(rule, answer) => [ValidateCall(rule, answer)]
    case RejectedByCreate(rule, answer) => [ValidateCall(rule, Done), CreateCall(rule, NotCreated(answer))]
  }

  function Calls(ops: seq<Op>): seq<Call> {
    if ops == [] then [] else Calls(ops[..|ops| - 1]) + CallsOf(ops[|ops| - 1])
  }

  /** What the code may do next when the keys of the translated rules are wanted: drop a key that is
      not wanted; and, once no such key is left, create a wanted rule that is not cached. */
  predicate Legal(wanted: set<FlowKey>, s: NodeState, op: Op) {
    match op
    case Drop(key, rec, took) => key in s.cache && s.cache[key] == rec && key !in wanted
    case Put(rule, id) => MayCreate(wanted, s, rule) && Slot(rule.portId, id) !in s.hw
    case RejectedByValidate(rule, answer) => MayCreate(wanted, s, rule) && answer != Done
    case RejectedByCreate(rule, answer) => MayCreate(wanted, s, rule) && answer != Done
  }

  predicate MayCreate(wanted: set<FlowKey>, s: NodeState, rule: RequestFlowCreate) {
    s.cache.Keys <= wanted && Sha256(rule) in wanted - s.cache.Keys
  }

  /** Every operation is legal where it happens, and a refusal is the last one. */
  predicate LegalRun(wanted: set<FlowKey>, s: NodeState, ops: seq<Op>) {
    ops == [] ||
    var before := ops[..|ops| - 1];
    && LegalRun(wanted, s, before)
    && (before != [] ==> !Rejects(before[|before| - 1]))
    && Legal(wanted, Exec(s, before), ops[|ops| - 1])
  }

  predicate Refused(ops: seq<Op>) {
    ops != [] && Rejects(ops[|ops| - 1])
  }

  /** A whole createAndDeleteRules: all unwanted keys go; either everything wanted is there at the
      end (ok) or the DCF refused a rule and the sync stopped at that point. */
  predicate SyncRun(wanted: set<FlowKey>, s: NodeState, ops: seq<Op>, ok: bool) {
    && LegalRun(wanted, s, ops)
    && ok == !Refused(ops)
    && Exec(s, ops).cache.Keys <= wanted
    && (ok ==> Exec(s, ops).cache.Keys == wanted)
  }

  lemma ExtendRun(wanted: set<FlowKey>, s: NodeState, ops: seq<Op>, op: Op)
    requires LegalRun(wanted, s, ops) && !Refused(ops)
    requires Legal(wanted, Exec(s, ops), op)
    ensures LegalRun(wanted, s, ops + [op])
    ensures Exec(s, ops + [op]) == Apply(Exec(s, ops), op)
    ensures Calls(ops + [op]) == Calls(ops) + CallsOf(op)
  {
    assert (ops + [op])[..|ops + [op]| - 1] == ops;
  }

  // ---------------------------------------------------------------------- cache and hardware agree

  /** Every record is filed under the hash of its rule and is live in the DCF with that rule. */
  predicate Agree(s: NodeState) {
    forall k :: k in s.cache ==>
      && k == Sha256(s.cache[k].rule)
      && SlotOf(s.cache[k]) in s.hw
      && s.hw[SlotOf(s.cache[k])] == s.cache[k].rule
  }

  /** The live flows are the recorded ones and the orphans, and no flow is both. */
  predicate Ledger(s: NodeState, orphans: set<Slot>) {
    && Agree(s)
    && s.hw.Keys == Slots(s.cache) + orphans
    && Slots(s.cache) !! orphans
  }

  /** The flows whose Destroy was refused although their record was dropped. */
  function Leaked(ops: seq<Op>): set<Slot> {
    if ops == [] then {}
    else
      var last := ops[|ops| - 1];
      Leaked(ops[..|ops| - 1]) + if last.Drop? && !last.took then {SlotOf(last.rec)} else {}
  }

  lemma NoSharedSlot(s: NodeState, k: FlowKey, k': FlowKey)
    requires Agree(s) && k in s.cache && k' in s.cache
    requires SlotOf(s.cache[k]) == SlotOf(s.cache[k'])
    ensures k == k'
  {
    assert s.hw[SlotOf(s.cache[k])] == s.cache[k].rule;
  }

  lemma SlotsInsert(cache: Cache, k: FlowKey, rec: FlowCreateRecord)
    requires k !in cache
    ensures Slots(cache[k := rec]) == Slots(cache) + {SlotOf(rec)}
  {
    var cache' := cache[k := rec];
    assert k in cache' && SlotOf(cache'[k]) == SlotOf(rec);
    forall slot | slot in Slots(cache) ensures slot in Slots(cache') {
      var k' :| k' in cache && SlotOf(cache[k']) == slot;
      assert k' in cache' && SlotOf(cache'[k']) == slot;
    }
  }

  lemma LedgerDrop(s: NodeState, orphans: set<Slot>, key: FlowKey, took: bool)
    requires Ledger(s, orphans) && key in s.cache
    ensures var rec := s.cache[key];
            Ledger(Apply(s, Drop(key, rec, took)), orphans + if took then {} else {SlotOf(rec)})
  {
    var rec := s.cache[key];
    var s' := Apply(s, Drop(key, rec, took));
    forall k | k in s'.cache ensures SlotOf(s'.cache[k]) != SlotOf(rec) {
      if SlotOf(s'.cache[k]) == SlotOf(rec) { NoSharedSlot(s, k, key); }
    }
    assert s'.cache[key := rec] == s.cache;
    SlotsInsert(s'.cache, key, rec);
  }

  lemma LedgerPut(s: NodeState, orphans: set<Slot>, rule: RequestFlowCreate, id: uint32)
    requires Ledger(s, orphans) && Sha256(rule) !in s.cache && Slot(rule.portId, id) !in s.hw
    ensures Ledger(Apply(s, Put(rule, id)), orphans)
  {
    SlotsInsert(s.cache, Sha256(rule), FlowCreateRecord(id, rule));
  }

  lemma LedgerStep(wanted: set<FlowKey>, s: NodeState, orphans: set<Slot>, op: Op)
    requires Ledger(s, orphans) && Legal(wanted, s, op)
    ensures Ledger(Apply(s, op), orphans + Leaked([op]))
  {
    assert [op][..0] == [];
    match op {
      case Drop(key, rec, took) =>
        LedgerDrop(s, orphans, key, took);
        assert orphans + Leaked([op]) == orphans + if took then {} else {SlotOf(rec)};
      case Put(rule, id) =>
        LedgerPut(s, orphans, rule, id);
        assert orphans + Leaked([op]) == orphans;
      case _ =>
        assert orphans + Leaked([op]) == orphans;
    }
  }

  /** Conservation: whatever the DCF answers and in whatever order the maps are walked, the live
      flows are always exactly the recorded ones plus the flows whose Destroy was refused. */
  lemma {:induction false} LedgerRun(wanted: set<FlowKey>, s: NodeState, orphans: set<Slot>, ops: seq<Op>)
    requires Ledger(s, orphans) && LegalRun(wanted, s, ops)
    ensures Ledger(Exec(s, ops), orphans + Leaked(ops))
  {
    if ops == [] {
      assert orphans + Leaked(ops) == orphans;
    } else {
      var before, last := ops[..|ops| - 1], ops[|ops| - 1];
      LedgerRun(wanted, s, orphans, before);
      LedgerStep(wanted, Exec(s, before), orphans + Leaked(before), last);
      assert [last][..0] == [];
      assert orphans + Leaked(ops) == orphans + Leaked(before) + Leaked([last]);
    }
  }

  // ---------------------------------------------------------------------- on the wire

  /** Each Create among the calls follows at once on an accepted Validate of the same rule. */
  predicate CreatesAreValidated(calls: seq<Call>) {
    forall i :: 0 <= i < |calls| && calls[i].CreateCall? ==>
      i > 0 && calls[i - 1] == ValidateCall(calls[i].req, Done)
  }

  /** Validate or Create was refused. */
  predicate IsRefusal(call: Call) {
    match call
    case ValidateCall(_, answer) => answer != Done
    case CreateCall(_, created) => created.NotCreated?
    case DestroyCall(_, _) => false
  }

  /** Nothing is sent after a refusal. */
  predicate StopsAtRefusal(calls: seq<Call>) {
    forall i :: 0 <= i < |calls| - 1 ==> !IsRefusal(calls[i])
  }

  function Destroys(calls: seq<Call>, slot: Slot): nat {
    if calls == [] then 0
    else
      var last := calls[|calls| - 1];
      Destroys(calls[..|calls| - 1], slot) + if last.DestroyCall? && last.slot == slot then 1 else 0
  }

  /** Each record that has gone was destroyed once, at its own port and flow id, and nothing else was. */
  predicate GoneAreDestroyed(before: Cache, after: Cache, calls: seq<Call>) {
    && (forall k :: k in before ==> Destroys(calls, SlotOf(before[k])) == if k in after then 0 else 1)
    && (forall i :: 0 <= i < |calls| && calls[i].DestroyCall? ==> calls[i].slot in Slots(before))
  }

  /** Each new record tells of a Create of its rule and of the flow id in the answer. */
  predicate NewAreCreated(before: Cache, after: Cache, calls: seq<Call>) {
    forall k :: k in after && k !in before ==>
      k == Sha256(after[k].rule) && CreateCall(after[k].rule, Created(after[k].flowId)) in calls
  }

  lemma {:induction false} DestroysConcat(a: seq<Call>, b: seq<Call>, slot: Slot)
    ensures Destroys(a + b, slot) == Destroys(a, slot) + Destroys(b, slot)
  {
    if b == [] {
      assert a + b == a;
    } else {
      DestroysConcat(a, b[..|b| - 1], slot);
      assert (a + b)[..|a + b| - 1] == a + b[..|b| - 1];
    }
  }

  lemma CallsOfShape(op: Op, slot: Slot)
    ensures CreatesAreValidated(CallsOf(op))
    ensures Destroys(CallsOf(op), slot) == if op.Drop? && SlotOf(op.rec) == slot then 1 else 0
    ensures forall i :: 0 <= i < |CallsOf(op)| && CallsOf(op)[i].DestroyCall? ==> op.Drop? && CallsOf(op)[i].slot == SlotOf(op.rec)
    ensures op.Put? ==> CreateCall(op.rule, Created(op.id)) in CallsOf(op)
  {
    var calls := CallsOf(op);
    assert Destroys([], slot) == 0;
    assert calls[..|calls|] == calls && calls[..0] == [];
    if |calls| == 2 {
      assert calls[..1][..0] == [];
    }
  }

  lemma {:induction false} CallsAreValidated(ops: seq<Op>)
    ensures CreatesAreValidated(Calls(ops))
  {
    if ops != [] {
      var before, last := Calls(ops[..|ops| - 1]), CallsOf(ops[|ops| - 1]);
      CallsAreValidated(ops[..|ops| - 1]);
      CallsOfShape(ops[|ops| - 1], Slot(0, 0));
      var calls := Calls(ops);
      forall i | 0 <= i < |calls| && calls[i].CreateCall? ensures i > 0 && calls[i - 1] == ValidateCall(calls[i].req, Done) {
        if i < |before| {
          assert calls[i] == before[i];
        } else {
          assert calls[i] == last[i - |before|];
        }
      }
    }
  }

  lemma {:induction false} RunStopsAtRefusal(wanted: set<FlowKey>, s: NodeState, ops: seq<Op>)
    requires LegalRun(wanted, s, ops)
    ensures StopsAtRefusal(Calls(ops))
    ensures ops != [] ==> Calls(ops) != [] && (IsRefusal(Calls(ops)[|Calls(ops)| - 1]) ==> Refused(ops))
  {
    if ops != [] {
      var before, last := Calls(ops[..|ops| - 1]), CallsOf(ops[|ops| - 1]);
      RunStopsAtRefusal(wanted, s, ops[..|ops| - 1]);
      var calls := Calls(ops);
      assert forall i :: 0 <= i < |before| ==> calls[i] == before[i];
      assert forall i :: |before| <= i < |calls| ==> calls[i] == last[i - |before|];
    }
  }

  /** A record stays as it is until it goes; one that has gone was not wanted, and a new one is. */
  lemma {:induction false} RunKeepsRecords(wanted: set<FlowKey>, s: NodeState, ops: seq<Op>)
    requires LegalRun(wanted, s, ops)
    ensures forall k :: k in s.cache && k in Exec(s, ops).cache ==> Exec(s, ops).cache[k] == s.cache[k]
    ensures forall k :: k in s.cache && k !in Exec(s, ops).cache ==> k !in wanted
    ensures forall k :: k in Exec(s, ops).cache && k !in s.cache ==> k in wanted
  {
    if ops != [] {
      RunKeepsRecords(wanted, s, ops[..|ops| - 1]);
    }
  }

  /** What one more operation adds: the Destroy of the record that it drops. */
  lemma OneMoreDestroyed(s: NodeState, mid: NodeState, op: Op, calls: seq<Call>, k: FlowKey)
    requires Agree(s) && k in s.cache
    requires op.Drop? ==> op.key in mid.cache && op.key in s.cache && s.cache[op.key] == op.rec
    requires op.Put? ==> Sha256(op.rule) in mid.cache || Sha256(op.rule) != k
    requires Destroys(calls, SlotOf(s.cache[k])) == if k in mid.cache then 0 else 1
    ensures Destroys(calls + CallsOf(op), SlotOf(s.cache[k])) == if k in Apply(mid, op).cache then 0 else 1
  {
    DestroysConcat(calls, CallsOf(op), SlotOf(s.cache[k]));
    CallsOfShape(op, SlotOf(s.cache[k]));
    if op.Drop? && SlotOf(op.rec) == SlotOf(s.cache[k]) {
      NoSharedSlot(s, k, op.key);
    }
  }

  lemma {:induction false} DestroysAreKnown(wanted: set<FlowKey>, s: NodeState, ops: seq<Op>)
    requires LegalRun(wanted, s, ops)
    ensures var calls := Calls(ops);
            forall i :: 0 <= i < |calls| && calls[i].DestroyCall? ==> calls[i].slot in Slots(s.cache)
  {
    if ops != [] {
      var init, op := ops[..|ops| - 1], ops[|ops| - 1];
      DestroysAreKnown(wanted, s, init);
      RunKeepsRecords(wanted, s, init);
      CallsOfShape(op, Slot(0, 0));
      var calls := Calls(ops);
      forall i | 0 <= i < |calls| && calls[i].DestroyCall? ensures calls[i].slot in Slots(s.cache) {
        if i < |Calls(init)| {
          assert calls[i] == Calls(init)[i];
        } else {
          assert calls[i] == CallsOf(op)[i - |Calls(init)|];
          assert op.key in s.cache && s.cache[op.key] == op.rec;
        }
      }
    }
  }

  lemma {:induction false} DestroyedOnce(wanted: set<FlowKey>, s: NodeState, ops: seq<Op>, k: FlowKey)
    requires Agree(s) && LegalRun(wanted, s, ops) && k in s.cache
    ensures Destroys(Calls(ops), SlotOf(s.cache[k])) == if k in Exec(s, ops).cache then 0 else 1
  {
    if ops != [] {
      var init := ops[..|ops| - 1];
      DestroyedOnce(wanted, s, init, k);
      RunKeepsRecords(wanted, s, init);
      OneMoreDestroyed(s, Exec(s, init), ops[|ops| - 1], Calls(init), k);
    }
  }

  /** What any run sends: each record that goes is destroyed exactly once, and none that stays. */
  lemma GoneOnTheWire(wanted: set<FlowKey>, s: NodeState, ops: seq<Op>)
    requires Agree(s) && LegalRun(wanted, s, ops)
    ensures GoneAreDestroyed(s.cache, Exec(s, ops).cache, Calls(ops))
  {
    DestroysAreKnown(wanted, s, ops);
    forall k | k in s.cache
      ensures Destroys(Calls(ops), SlotOf(s.cache[k])) == if k in Exec(s, ops).cache then 0 else 1
    {
      DestroyedOnce(wanted, s, ops, k);
    }
  }

  lemma {:induction false} NewOnTheWire(wanted: set<FlowKey>, s: NodeState, ops: seq<Op>)
    requires LegalRun(wanted, s, ops)
    ensures NewAreCreated(s.cache, Exec(s, ops).cache, Calls(ops))
  {
    if ops != [] {
      var init, op := ops[..|ops| - 1], ops[|ops| - 1];
      NewOnTheWire(wanted, s, init);
      CallsOfShape(op, Slot(0, 0));
      assert Calls(ops) == Calls(init) + CallsOf(op);
    }
  }

  // ---------------------------------------------------------------------- many reconciles

  /** One reconcile that reached the DCF. A deletion of the custom resource is a round in which
      nothing is wanted; a reconcile that fails before the DCF is reached changes nothing. */
  datatype Round = Round(wanted: set<FlowKey>, ops: seq<Op>, ok: bool)

  function ExecRounds(s: NodeState, rounds: seq<Round>): NodeState {
    if rounds == [] then s
    else Exec(ExecRounds(s, rounds[..|rounds| - 1]), rounds[|rounds| - 1].ops)
  }

  predicate LegalRounds(s: NodeState, rounds: seq<Round>) {
    rounds == [] ||
    var before, last := rounds[..|rounds| - 1], rounds[|rounds| - 1];
    LegalRounds(s, before) && SyncRun(last.wanted, ExecRounds(s, before), last.ops, last.ok)
  }

  function LeakedIn(rounds: seq<Round>): set<Slot> {
    if rounds == [] then {}
    else LeakedIn(rounds[..|rounds| - 1]) + Leaked(rounds[|rounds| - 1].ops)
  }

  lemma {:induction false} LedgerRounds(s: NodeState, orphans: set<Slot>, rounds: seq<Round>)
    requires Ledger(s, orphans) && LegalRounds(s, rounds)
    ensures Ledger(ExecRounds(s, rounds), orphans + LeakedIn(rounds))
  {
    if rounds == [] {
      assert orphans + LeakedIn(rounds) == orphans;
    } else {
      var before, last := rounds[..|rounds| - 1], rounds[|rounds| - 1];
      LedgerRounds(s, orphans, before);
      LedgerRun(last.wanted, ExecRounds(s, before), orphans + LeakedIn(before), last.ops);
      assert orphans + LeakedIn(rounds) == orphans + LeakedIn(before) + Leaked(last.ops);
    }
  }

  lemma OrphanUntouchedStep(wanted: set<FlowKey>, s: NodeState, orphans: set<Slot>, op: Op, slot: Slot)
    requires Ledger(s, orphans) && Legal(wanted, s, op) && slot in orphans
    ensures slot in s.hw && slot in Apply(s, op).hw && Apply(s, op).hw[slot] == s.hw[slot]
  {
    if op.Drop? {
      assert SlotOf(op.rec) in Slots(s.cache);
    }
  }

  /** A sync never touches a flow that is not recorded, be it leaked earlier or somebody else's. */
  lemma {:induction false} OrphanUntouched(
      wanted: set<FlowKey>, s: NodeState, orphans: set<Slot>, ops: seq<Op>, slot: Slot)
    requires Ledger(s, orphans) && LegalRun(wanted, s, ops) && slot in orphans
    ensures slot in s.hw && slot in Exec(s, ops).hw && Exec(s, ops).hw[slot] == s.hw[slot]
  {
    if ops != [] {
      var before, last := ops[..|ops| - 1], ops[|ops| - 1];
      OrphanUntouched(wanted, s, orphans, before, slot);
      LedgerRun(wanted, s, orphans, before);
      OrphanUntouchedStep(wanted, Exec(s, before), orphans + Leaked(before), last, slot);
    }
  }

  lemma {:induction false} OrphanUntouchedInRounds(s: NodeState, orphans: set<Slot>, rounds: seq<Round>, slot: Slot)
    requires Ledger(s, orphans) && LegalRounds(s, rounds) && slot in orphans
    ensures slot in s.hw && slot in ExecRounds(s, rounds).hw && ExecRounds(s, rounds).hw[slot] == s.hw[slot]
  {
    if rounds != [] {
      var before, last := rounds[..|rounds| - 1], rounds[|rounds| - 1];
      OrphanUntouchedInRounds(s, orphans, before, slot);
      LedgerRounds(s, orphans, before);
      OrphanUntouched(last.wanted, ExecRounds(s, before), orphans + LeakedIn(before), last.ops, slot);
    }
  }

  /** Exactly one record describes the flow in a slot, and it holds the rule that is live there. */
  ghost predicate RecordedOnce(s: NodeState, slot: Slot) {
    slot in s.hw &&
    exists k :: k in s.cache && SlotOf(s.cache[k]) == slot && s.cache[k].rule == s.hw[slot] &&
                forall k' :: k' in s.cache && SlotOf(s.cache[k']) == slot ==> k' == k
  }

  /** No record describes the slot. */
  predicate Unrecorded(s: NodeState, slot: Slot) {
    forall k :: k in s.cache ==> SlotOf(s.cache[k]) != slot
  }

  lemma LedgerMeansRecordedOnce(s: NodeState, orphans: set<Slot>)
    requires Ledger(s, orphans)
    ensures forall k :: k in s.cache ==> RecordedOnce(s, SlotOf(s.cache[k]))
    ensures forall slot :: slot in s.hw && slot !in orphans ==> RecordedOnce(s, slot)
    ensures forall slot :: slot in orphans ==> slot in s.hw && Unrecorded(s, slot)
  {
    forall k | k in s.cache ensures RecordedOnce(s, SlotOf(s.cache[k])) {
      forall k' | k' in s.cache && SlotOf(s.cache[k']) == SlotOf(s.cache[k]) ensures k' == k {
        NoSharedSlot(s, k, k');
      }
    }
    forall slot | slot in s.hw && slot !in orphans ensures RecordedOnce(s, slot) {
      assert slot in Slots(s.cache);
      var k :| k in s.cache && SlotOf(s.cache[k]) == slot;
      assert RecordedOnce(s, SlotOf(s.cache[k]));
    }
    forall slot, k | slot in orphans && k in s.cache ensures SlotOf(s.cache[k]) != slot {
      assert SlotOf(s.cache[k]) in Slots(s.cache);
    }
  }

  /** The cache agrees with the hardware after any number of reconciles and at any instant of the
      one in progress, whatever flows the DCF already had. Each record's flow is live with that
      record's rule and no two records share a flow; a live flow has exactly one record unless it
      was there from the start or leaked by a refused Destroy; and the flows that were there from
      the start are still there as they were. */
  lemma CacheAgreesWithHardware(hw: Hardware, rounds: seq<Round>, wanted: set<FlowKey>, ops: seq<Op>)
    requires LegalRounds(NodeState(map[], hw), rounds)
    requires LegalRun(wanted, ExecRounds(NodeState(map[], hw), rounds), ops)
    ensures var s, leaked := Exec(ExecRounds(NodeState(map[], hw), rounds), ops), LeakedIn(rounds) + Leaked(ops);
            && (forall k :: k in s.cache ==> RecordedOnce(s, SlotOf(s.cache[k])))
            && (forall slot :: slot in s.hw && slot !in hw && slot !in leaked ==> RecordedOnce(s, slot))
            && (forall slot :: slot in hw || slot in leaked ==> slot in s.hw && Unrecorded(s, slot))
            && (forall slot :: slot in hw ==> s.hw[slot] == hw[slot])
  {
    var start, leaked := NodeState(map[], hw), LeakedIn(rounds) + Leaked(ops);
    var mid, s := ExecRounds(start, rounds), Exec(ExecRounds(start, rounds), ops);
    LedgerRounds(start, hw.Keys, rounds);
    LedgerRun(wanted, mid, hw.Keys + LeakedIn(rounds), ops);
    assert hw.Keys + LeakedIn(rounds) + Leaked(ops) == hw.Keys + leaked;
    LedgerMeansRecordedOnce(s, hw.Keys + leaked);
    forall slot | slot in hw ensures slot in s.hw && s.hw[slot] == hw[slot] {
      OrphanUntouchedInRounds(start, hw.Keys, rounds, slot);
      OrphanUntouched(wanted, mid, hw.Keys + LeakedIn(rounds), ops, slot);
    }
  }

  // ---------------------------------------------------------------------- progress

  function Puts(ops: seq<Op>): nat {
    if ops == [] then 0 else Puts(ops[..|ops| - 1]) + if ops[|ops| - 1].Put? then 1 else 0
  }

  lemma InsertWanted(wanted: set<FlowKey>, have: set<FlowKey>, k: FlowKey)
    requires k in wanted - have
    ensures |wanted - (have + {k})| == |wanted - have| - 1
  {
    assert wanted - have == (wanted - (have + {k})) + {k};
  }

  lemma StepKeys(wanted: set<FlowKey>, s: NodeState, op: Op)
    requires Legal(wanted, s, op)
    ensures forall k :: k in s.cache && k in wanted ==> k in Apply(s, op).cache
    ensures forall k :: k in Apply(s, op).cache ==> k in s.cache || k in wanted
  {}

  lemma StepMissing(wanted: set<FlowKey>, s: NodeState, op: Op)
    requires Legal(wanted, s, op)
    ensures |wanted - Apply(s, op).cache.Keys| == |wanted - s.cache.Keys| - if op.Put? then 1 else 0
  {
    var have, have' := s.cache.Keys, Apply(s, op).cache.Keys;
    if op.Put? {
      assert have' == have + {Sha256(op.rule)};
      InsertWanted(wanted, have, Sha256(op.rule));
    } else {
      assert wanted - have' == wanted - have;
    }
  }

  lemma {:induction false} RunProgress(wanted: set<FlowKey>, s: NodeState, ops: seq<Op>)
    requires LegalRun(wanted, s, ops)
    ensures forall k :: k in s.cache && k in wanted ==> k in Exec(s, ops).cache
    ensures forall k :: k in Exec(s, ops).cache ==> k in s.cache || k in wanted
    ensures |wanted - Exec(s, ops).cache.Keys| == |wanted - s.cache.Keys| - Puts(ops)
  {
    if ops != [] {
      var before, last := ops[..|ops| - 1], ops[|ops| - 1];
      RunProgress(wanted, s, before);
      StepKeys(wanted, Exec(s, before), last);
      StepMissing(wanted, Exec(s, before), last);
    }
  }

  /** A sync, even one cut short by a refusal, keeps what was already right, leaves nothing that is
      not wanted, and shortens the list of missing rules by one for each successful Create. */
  lemma SyncProgress(wanted: set<FlowKey>, s: NodeState, ops: seq<Op>, ok: bool)
    requires SyncRun(wanted, s, ops, ok)
    ensures s.cache.Keys * wanted <= Exec(s, ops).cache.Keys <= wanted
    ensures |wanted - Exec(s, ops).cache.Keys| == |wanted - s.cache.Keys| - Puts(ops)
    ensures ok <==> Exec(s, ops).cache.Keys == wanted
  {
    RunProgress(wanted, s, ops);
    if !ok {
      var before, last := ops[..|ops| - 1], ops[|ops| - 1];
      assert Exec(s, ops) == Exec(s, before);
      assert Sha256(last.rule) in wanted - Exec(s, before).cache.Keys;
    }
  }

  /** A sync sends nothing to the DCF exactly when the cache already holds what is wanted. */
  lemma QuiescentIffInSync(wanted: set<FlowKey>, s: NodeState, ops: seq<Op>, ok: bool)
    requires SyncRun(wanted, s, ops, ok)
    ensures Calls(ops) == [] <==> s.cache.Keys == wanted
  {
    if ops != [] {
      assert |CallsOf(ops[|ops| - 1])| > 0;
      if s.cache.Keys == wanted {
        InSyncAllowsNothing(wanted, s, ops);
      }
    }
  }

  lemma {:induction false} InSyncAllowsNothing(wanted: set<FlowKey>, s: NodeState, ops: seq<Op>)
    requires LegalRun(wanted, s, ops) && s.cache.Keys == wanted
    ensures ops == []
  {
    if ops != [] {
      InSyncAllowsNothing(wanted, s, ops[..|ops| - 1]);
    }
  }

  // ---------------------------------------------------------------------- refinement of a rebuild

  function Rules(cache: Cache): map<FlowKey, RequestFlowCreate> {
    map k | k in cache :: cache[k].rule
  }

  function Keys(reqs: seq<RequestFlowCreate>): set<FlowKey> {
    set r | r in reqs :: Sha256(r)
  }

  /** The simple form: start from nothing and enter every translated rule in turn. */
  function Rebuild(reqs: seq<RequestFlowCreate>): map<FlowKey, RequestFlowCreate> {
    if reqs == [] then map[]
    else Rebuild(reqs[..|reqs| - 1])[Sha256(reqs[|reqs| - 1]) := reqs[|reqs| - 1]]
  }

  lemma {:induction false} RebuildContents(reqs: seq<RequestFlowCreate>)
    ensures Rebuild(reqs).Keys == Keys(reqs)
    ensures forall k :: k in Rebuild(reqs) ==> Rebuild(reqs)[k] == k.preimage
  {
    if reqs != [] {
      var before, last := reqs[..|reqs| - 1], reqs[|reqs| - 1];
      RebuildContents(before);
      assert reqs == before + [last];
      assert Keys(reqs) == Keys(before) + {Sha256(last)};
    }
  }

  /** The incremental diff refines the rebuild: whatever was cached and however often a rule is
      repeated, a successful sync ends with the rules of a rebuild from nothing. */
  lemma DiffRefinesRebuild(reqs: seq<RequestFlowCreate>, s: NodeState, orphans: set<Slot>, ops: seq<Op>)
    requires Ledger(s, orphans) && SyncRun(Keys(reqs), s, ops, true)
    ensures Rules(Exec(s, ops).cache) == Rebuild(reqs)
  {
    LedgerRun(Keys(reqs), s, orphans, ops);
    RebuildContents(reqs);
  }

  /** The same against the controller's own operations: deleteAllRules followed by a sync. */
  lemma DiffRefinesWipeAndCreate(
      reqs: seq<RequestFlowCreate>, s: NodeState, orphans: set<Slot>,
      ops: seq<Op>, wipe: seq<Op>, create: seq<Op>)
    requires Ledger(s, orphans) && SyncRun(Keys(reqs), s, ops, true)
    requires SyncRun({}, s, wipe, true) && SyncRun(Keys(reqs), Exec(s, wipe), create, true)
    ensures Exec(s, wipe).cache == map[]
    ensures Rules(Exec(s, ops).cache) == Rules(Exec(Exec(s, wipe), create).cache)
  {
    LedgerRun({}, s, orphans, wipe);
    DiffRefinesRebuild(reqs, s, orphans, ops);
    DiffRefinesRebuild(reqs, Exec(s, wipe), orphans + Leaked(wipe), create);
  }

  // ---------------------------------------------------------------------- occupancy

  lemma {:induction false} SlotsSize(s: NodeState)
    requires Agree(s)
    ensures |Slots(s.cache)| == |s.cache|
    decreases |s.cache|
  {
    if s.cache == map[] {
      assert Slots(s.cache) == {};
    } else {
      var k :| k in s.cache;
      var rest := NodeState(s.cache - {k}, s.hw);
      SlotsSize(rest);
      assert SlotOf(s.cache[k]) !in Slots(rest.cache) by {
        forall k' | k' in rest.cache ensures SlotOf(s.cache[k']) != SlotOf(s.cache[k]) {
          if SlotOf(s.cache[k']) == SlotOf(s.cache[k]) { NoSharedSlot(s, k, k'); }
        }
      }
      assert rest.cache[k := s.cache[k]] == s.cache;
      SlotsInsert(rest.cache, k, s.cache[k]);
    }
  }

  lemma LedgerSize(s: NodeState, orphans: set<Slot>)
    requires Ledger(s, orphans)
    ensures |s.hw| == |s.cache| + |orphans|
  {
    SlotsSize(s);
    assert |s.hw| == |s.hw.Keys|;
  }

  lemma StepSize(wanted: set<FlowKey>, s: NodeState, op: Op)
    requires Legal(wanted, s, op)
    ensures op.Put? ==> Apply(s, op).cache.Keys <= wanted
    ensures !op.Put? ==> Apply(s, op).cache.Keys <= s.cache.Keys && |Apply(s, op).cache| <= |s.cache|
  {
    if op.Drop? {
      var rest := s.cache - {op.key};
      SubsetSize(rest.Keys, s.cache.Keys);
      assert |rest| == |rest.Keys| && |s.cache| == |s.cache.Keys|;
    }
  }

  /** The cache only shrinks while something unwanted is left and never outgrows what is wanted. */
  lemma {:induction false} CacheSizeBound(wanted: set<FlowKey>, s: NodeState, ops: seq<Op>)
    requires LegalRun(wanted, s, ops)
    ensures |Exec(s, ops).cache| <= |s.cache| || Exec(s, ops).cache.Keys <= wanted
  {
    if ops != [] {
      var before, last := ops[..|ops| - 1], ops[|ops| - 1];
      CacheSizeBound(wanted, s, before);
      StepSize(wanted, Exec(s, before), last);
    }
  }

  lemma SubsetSize<T>(a: set<T>, b: set<T>)
    requires a <= b
    ensures |a| <= |b|
  {
    assert b == a + (b - a);
  }

  predicate DestroysTakeEffect(ops: seq<Op>) {
    forall op :: op in ops && op.Drop? ==> op.took
  }

  lemma {:induction false} NothingLeaks(ops: seq<Op>)
    requires DestroysTakeEffect(ops)
    ensures Leaked(ops) == {}
  {
    if ops != [] {
      assert ops[|ops| - 1] in ops;
      NothingLeaks(ops[..|ops| - 1]);
    }
  }

  function Max(a: nat, b: nat): nat {
    if a < b then b else a
  }

  lemma RunOccupancy(wanted: set<FlowKey>, s: NodeState, orphans: set<Slot>, ops: seq<Op>)
    requires Ledger(s, orphans) && LegalRun(wanted, s, ops)
    ensures |Exec(s, ops).hw| <= Max(|s.cache|, |wanted|) + |orphans + Leaked(ops)|
  {
    LedgerRun(wanted, s, orphans, ops);
    LedgerSize(Exec(s, ops), orphans + Leaked(ops));
    CacheSizeBound(wanted, s, ops);
    if Exec(s, ops).cache.Keys <= wanted { SubsetSize(Exec(s, ops).cache.Keys, wanted); }
  }

  /** At every instant of a sync, i operations in, the DCF holds no more flows than it held at the
      start or than there are distinct new rules, beside those that a refused Destroy left behind. */
  lemma OccupancyBound(wanted: set<FlowKey>, s: NodeState, ops: seq<Op>, i: nat)
    requires Ledger(s, {}) && LegalRun(wanted, s, ops) && i <= |ops|
    ensures |Exec(s, ops[..i]).hw| <= Max(|s.hw|, |wanted|) + |Leaked(ops[..i])|
    ensures DestroysTakeEffect(ops) ==> |Exec(s, ops[..i]).hw| <= Max(|s.hw|, |wanted|)
  {
    PrefixIsLegal(wanted, s, ops, i);
    LedgerSize(s, {});
    RunOccupancy(wanted, s, {}, ops[..i]);
    assert {} + Leaked(ops[..i]) == Leaked(ops[..i]);
    if DestroysTakeEffect(ops) { NothingLeaks(ops[..i]); }
  }

  lemma {:induction false} PrefixIsLegal(wanted: set<FlowKey>, s: NodeState, ops: seq<Op>, i: nat)
    requires LegalRun(wanted, s, ops) && i <= |ops|
    ensures LegalRun(wanted, s, ops[..i])
  {
    if i < |ops| {
      PrefixIsLegal(wanted, s, ops[..|ops| - 1], i);
      assert ops[..|ops| - 1][..i] == ops[..i];
    } else {
      assert ops[..i] == ops;
    }
  }
}
