/** The mirror: inventory, plan and execution of one repair sweep for one secret. */
module Mirror {
  import opened GoStrings
  import opened Resolve
  import opened Checksum
  import opened Replica

  // ------------------------------------------------------------ data model

  datatype SecretState = SecretState(
    present: bool,
    version: Int64,
    timestamp: int,
    checksum: string,
    hasMetadata: bool,
    failed: bool)

  type Inventory = map<string, SecretState>

  datatype MirrorType = Skip | Update | Create | RestoreMetadata

  /** A plan as the planner returns it. */
  datatype SecretMirrorPlan = SecretMirrorPlan(
    sourceDevice: string,
    sourceVersion: Int64,
    targetDevices: seq<string>,
    mirrorType: MirrorType)

  /** The same plan up to the order of its targets, which follows map iteration. */
  datatype Plan = Plan(source: string, sourceVersion: Int64, targets: set<string>, kind: MirrorType)

  ghost function Abstract(p: SecretMirrorPlan): Plan
  {
    Plan(p.sourceDevice, p.sourceVersion, Elements(p.targetDevices), p.mirrorType)
  }

  /** What the environment does during one sweep: the devices listed as
      available; for the inventory those a connection can be opened to, those
      whose secret and those whose metadata can be read; for the execution those
      whose secret and those whose metadata can be read again and those that
      accept writes; the time each device is inventoried and the time stamped on
      the copies. */
  datatype Environment = Environment(
    available: set<string>,
    connected: set<string>,
    readable: set<string>,
    described: set<string>,
    reread: set<string>,
    redescribed: set<string>,
    writable: set<string>,
    clock: string -> int,
    now: int)

  datatype SecretMirrorResult = SecretMirrorResult(mirrorType: MirrorType, success: bool)

  // --------------------------------------------------------- specification

  /** A metadata read that fails is taken for missing metadata. */
  function LabelsRead(labels: Labels, metadataOk: bool): Labels
  {
    if metadataOk then labels else NO_LABELS
  }

  /** A device without the secret, and one whose read fails, look the same. */
  function AsRead(slot: Slot, readOk: bool, metadataOk: bool): Slot
  {
    if slot.Copy? && readOk then Copy(slot.data, LabelsRead(slot.labels, metadataOk)) else Absent
  }

  ghost function Observed(hex: string -> string, slot: Slot, now: int): SecretState
  {
    if slot.Copy? then
      SecretState(true, MetadataVersion(slot.labels),
                  if slot.labels.time.Some? then slot.labels.time.value else now,
                  MirrorSum(hex, slot.data), slot.labels.version.Counter?, false)
    else
      SecretState(false, 0, now, "", false, false)
  }

  ghost function InventoryOf(hex: string -> string, slots: Slots, env: Environment): Inventory
  {
    map d | d in env.available && d in slots ::
      if d in env.connected then Observed(hex, AsRead(slots[d], d in env.readable, d in env.described), env.clock(d))
      else SecretState(false, 0, env.clock(d), "", false, true)
  }

  ghost function RespondingIn(inv: Inventory): set<string>
  {
    set d | d in inv && !inv[d].failed
  }

  ghost function MissingIn(inv: Inventory): set<string>
  {
    set d | d in inv && !inv[d].failed && !inv[d].present
  }

  ghost function UnlabelledIn(inv: Inventory): set<string>
  {
    set d | d in inv && !inv[d].failed && inv[d].present && !inv[d].hasMetadata
  }

  ghost function VotesIn(inv: Inventory): Votes
  {
    map d | d in inv && !inv[d].failed && inv[d].present ::
      Vote(inv[d].checksum, inv[d].version, inv[d].timestamp)
  }

  /** The plan: nothing when no responding device has the secret; otherwise
      bring missing, unlabelled and outlying devices to the winning copy. */
  ghost function PlanFor(inv: Inventory): Option<Plan>
  {
    var votes := VotesIn(inv);
    if votes.Keys == {} then None
    else
      var n := |RespondingIn(inv)|;
      var source := WinningDevice(votes, n);
      var version := if source in inv then inv[source].version else 0;
      var missing, unlabelled, outliers := MissingIn(inv), UnlabelledIn(inv), Outliers(votes, n);
      var targets := missing + unlabelled + outliers - {source};
      if targets == {} then Some(Plan(source, version, {}, Skip))
      else
        var kind :=
          if missing != {} then Create
          else if unlabelled != {} then RestoreMetadata
          else Update;
        Some(Plan(source, version, targets, kind))
  }

  /** The labels a sweep stamps: the version of the source, or 1 when it has none. */
  function SyncLabels(source: Labels, now: int): Labels
  {
    var v := MetadataVersion(source);
    Labels(Counter(if v <= 0 then 1 else v), Some(now), false)
  }

  /** The source's labels as execution reads them. */
  ghost function SourceLabels(slots: Slots, plan: Plan, env: Environment): Labels
    requires plan.source in slots && slots[plan.source].Copy?
  {
    LabelsRead(slots[plan.source].labels, plan.source in env.redescribed)
  }

  ghost predicate RestoresSource(slots: Slots, plan: Plan, env: Environment)
    requires plan.source in slots && slots[plan.source].Copy?
  {
    plan.kind == RestoreMetadata && SourceLabels(slots, plan, env).version.Missing?
  }

  /** Whether execution gets as far as writing to its targets. */
  ghost predicate Starts(slots: Slots, plan: Plan, env: Environment)
  {
    && plan.kind != Skip
    && plan.source in slots && plan.source in env.available
    && plan.source in env.reread && slots[plan.source].Copy?
    && (RestoresSource(slots, plan, env) ==> plan.source in env.writable)
  }

  /** Whether the write to target `d` succeeds. */
  ghost predicate Lands(slots: Slots, plan: Plan, env: Environment, d: string)
  {
    && d in slots && d in env.available && d in env.writable
    && (plan.kind == RestoreMetadata ==> d in env.reread && slots[d].Copy?)
  }

  ghost function Written(slots: Slots, plan: Plan, env: Environment, d: string): Slot
    requires Starts(slots, plan, env) && d in slots
  {
    var source := slots[plan.source];
    var labels := SyncLabels(SourceLabels(slots, plan, env), env.now);
    if d in plan.targets && Lands(slots, plan, env, d) then
      Copy(if plan.kind == RestoreMetadata then slots[d].data else source.data, labels)
    else if d == plan.source && RestoresSource(slots, plan, env) then
      Copy(source.data, labels)
    else
      slots[d]
  }

  ghost function Executed(slots: Slots, plan: Plan, env: Environment): Slots
  {
    if Starts(slots, plan, env) then map d | d in slots :: Written(slots, plan, env, d) else slots
  }

  /** The devices after one sweep. */
  ghost function Swept(hex: string -> string, slots: Slots, env: Environment): Slots
  {
    var plan := PlanFor(InventoryOf(hex, slots, env));
    if plan.None? then slots else Executed(slots, plan.value, env)
  }

  /** What executing a plan reports: success if there is nothing to do, or if every target was written. */
  ghost function Reported(slots: Slots, plan: Plan, env: Environment): SecretMirrorResult
  {
    SecretMirrorResult(plan.kind,
      plan.kind == Skip || (Starts(slots, plan, env) && forall d :: d in plan.targets ==> Lands(slots, plan, env, d)))
  }

  /** What one sweep reports: nothing if it has fewer than two devices or finds no copy. */
  ghost function SweepReport(hex: string -> string, slots: Slots, env: Environment): Option<SecretMirrorResult>
  {
    var plan := PlanFor(InventoryOf(hex, slots, env));
    if |env.available| < 2 || plan.None? then None else Some(Reported(slots, plan.value, env))
  }

  // ------------------------------------------------------- the planner's loops

  /** `s` lists the set `elements` without repetition. */
  ghost predicate Lists(s: seq<string>, elements: set<string>)
  {
    Distinct(s) && Elements(s) == elements
  }

  /** `obs` are the observations of the responding devices. */
  ghost predicate Observes(obs: seq<Observation>, inv: Inventory)
  {
    && ValidIDs(obs) && VotesOf(obs) == VotesIn(inv)
    && (forall i :: 0 <= i < |obs| ==> obs[i].deviceID in inv)
  }

  /** What the planner's loop has filed after going through `inv`. */
  ghost predicate Filed(inv: Inventory, present: seq<string>, missing: seq<string>, unlabelled: seq<string>,
                        obs: seq<Observation>, responding: nat)
  {
    && Lists(present, VotesIn(inv).Keys)
    && Lists(missing, MissingIn(inv))
    && Lists(unlabelled, UnlabelledIn(inv))
    && Observes(obs, inv)
    && responding == |RespondingIn(inv)|
  }

  function ObservationOf(d: string, state: SecretState): Observation
  {
    if state.present then Observation(d, true, false, state.checksum, state.version, state.timestamp)
    else Observation(d, false, false, "", 0, 0)
  }

  lemma SetsStep(inv: Inventory, d: string, state: SecretState)
    requires d !in inv
    ensures var inv' := inv[d := state];
      && RespondingIn(inv') == RespondingIn(inv) + (if state.failed then {} else {d})
      && MissingIn(inv') == MissingIn(inv) + (if !state.failed && !state.present then {d} else {})
      && UnlabelledIn(inv') ==
        UnlabelledIn(inv) + (if !state.failed && state.present && !state.hasMetadata then {d} else {})
      && VotesIn(inv') == (if !state.failed && state.present
                           then VotesIn(inv)[d := Vote(state.checksum, state.version, state.timestamp)]
                           else VotesIn(inv))
  {}

  lemma ObsStep(inv: Inventory, obs: seq<Observation>, d: string, state: SecretState)
    requires Observes(obs, inv) && d !in inv && d != ""
    ensures Observes(if state.failed then obs else obs + [ObservationOf(d, state)], inv[d := state])
  {
    VotesOfSnoc(obs, ObservationOf(d, state));
    SetsStep(inv, d, state);
  }

  method Append(s: seq<string>, x: string) returns (r: seq<string>)
    requires Distinct(s) && x !in Elements(s)
    ensures r == s + [x] && Distinct(r) && Elements(r) == Elements(s) + {x}
  {
    r := s + [x];
  }

  function With(s: seq<string>, x: string, add: bool): seq<string>
  {
    if add then s + [x] else s
  }

  lemma ListsStep(s: seq<string>, elements: set<string>, elements': set<string>, x: string, add: bool)
    requires Lists(s, elements) && x !in elements
    requires elements' == if add then elements + {x} else elements
    ensures Lists(With(s, x, add), elements')
  {
    if add { ElementsSnoc(s, x); }
  }

  lemma PresentStep(inv: Inventory, present: seq<string>, d: string, state: SecretState)
    requires Lists(present, VotesIn(inv).Keys) && d !in inv
    ensures Lists(With(present, d, !state.failed && state.present), VotesIn(inv[d := state]).Keys)
  {
    SetsStep(inv, d, state);
    ListsStep(present, VotesIn(inv).Keys, VotesIn(inv[d := state]).Keys, d, !state.failed && state.present);
  }

  lemma MissingStep(inv: Inventory, missing: seq<string>, d: string, state: SecretState)
    requires Lists(missing, MissingIn(inv)) && d !in inv
    ensures Lists(With(missing, d, !state.failed && !state.present), MissingIn(inv[d := state]))
  {
    SetsStep(inv, d, state);
    ListsStep(missing, MissingIn(inv), MissingIn(inv[d := state]), d, !state.failed && !state.present);
  }

  lemma UnlabelledStep(inv: Inventory, unlabelled: seq<string>, d: string, state: SecretState)
    requires Lists(unlabelled, UnlabelledIn(inv)) && d !in inv
    ensures Lists(With(unlabelled, d, !state.failed && state.present && !state.hasMetadata),
                  UnlabelledIn(inv[d := state]))
  {
    SetsStep(inv, d, state);
    ListsStep(unlabelled, UnlabelledIn(inv), UnlabelledIn(inv[d := state]), d,
              !state.failed && state.present && !state.hasMetadata);
  }

  lemma RespondingStep(inv: Inventory, d: string, state: SecretState)
    requires d !in inv
    ensures |RespondingIn(inv[d := state])| == |RespondingIn(inv)| + if state.failed then 0 else 1
  {
    SetsStep(inv, d, state);
  }

  /** The analysis loop of the planner. */
  method FileStates(inv: Inventory)
    returns (present: seq<string>, missing: seq<string>, unlabelled: seq<string>, obs: seq<Observation>,
             responding: nat)
    requires "" !in inv
    ensures Filed(inv, present, missing, unlabelled, obs, responding)
  {
    present, missing, unlabelled, obs, responding := [], [], [], [], 0;
    var rest := inv.Keys;
    ghost var done: Inventory := map[];
    while rest != {}
      invariant rest <= inv.Keys && done.Keys == inv.Keys - rest
      invariant forall d :: d in done ==> done[d] == inv[d]
      invariant Filed(done, present, missing, unlabelled, obs, responding)
      decreases rest
    {
      var d :| d in rest;
      var state := inv[d];
      PresentStep(done, present, d, state);
      MissingStep(done, missing, d, state);
      UnlabelledStep(done, unlabelled, d, state);
      RespondingStep(done, d, state);
      ObsStep(done, obs, d, state);
      done := done[d := state];
      rest := rest - {d};
      if state.failed {
        continue;
      }
      responding := responding + 1;
      if state.present {
        present := present + [d];
        if !state.hasMetadata {
          unlabelled := unlabelled + [d];
        }
      } else {
        missing := missing + [d];
      }
      obs := obs + [ObservationOf(d, state)];
    }
    assert done == inv;
  }

  method RemoveDuplicates(slice: seq<string>) returns (result: seq<string>)
    ensures Distinct(result) && Elements(result) == Elements(slice)
  {
    var keys: set<string> := {};
    result := [];
    for k := 0 to |slice|
      invariant Distinct(result) && Elements(result) == Elements(slice[..k]) == keys
    {
      assert Elements(slice[..k+1]) == Elements(slice[..k]) + {slice[k]} by {
        assert slice[..k+1] == slice[..k] + [slice[k]];
      }
      if slice[k] !in keys {
        keys := keys + {slice[k]};
        result := Append(result, slice[k]);
      }
    }
    assert slice[..|slice|] == slice;
  }

  /** Every occurrence of the device is dropped and nothing else. */
  method RemoveDevice(devices: seq<string>, gone: string) returns (result: seq<string>)
    ensures multiset(result) == multiset(devices)[gone := 0]
  {
    result := [];
    for k := 0 to |devices|
      invariant multiset(result) == multiset(devices[..k])[gone := 0]
    {
      assert devices[..k+1] == devices[..k] + [devices[k]];
      if devices[k] != gone {
        result := result + [devices[k]];
      }
    }
    assert devices[..|devices|] == devices;
  }

  lemma RemovedOnce(devices: seq<string>, gone: string, result: seq<string>)
    requires Distinct(devices) && multiset(result) == multiset(devices)[gone := 0]
    ensures Distinct(result) && Elements(result) == Elements(devices) - {gone}
  {
    DistinctMultiset(devices);
    forall x ensures x in Elements(result) <==> x in Elements(devices) - {gone} {
      assert x in result <==> x in multiset(result);
      assert x in devices <==> x in multiset(devices);
    }
    forall i, j | 0 <= i < j < |result| ensures result[i] != result[j] {
      if result[i] == result[j] { RepeatedTwice(result, i, j); }
    }
  }

  lemma ElementsConcat(a: seq<string>, b: seq<string>)
    ensures Elements(a + b) == Elements(a) + Elements(b)
  {}

  lemma ElementsEmpty(a: seq<string>)
    ensures |a| == 0 <==> Elements(a) == {}
  {
    if |a| > 0 { assert a[0] in Elements(a); }
  }

  method CreateMirrorPlan(inv: Inventory) returns (plan: Option<SecretMirrorPlan>)
    requires "" !in inv
    ensures plan.None? <==> PlanFor(inv).None?
    ensures plan.Some? ==> Abstract(plan.value) == PlanFor(inv).value && Distinct(plan.value.targetDevices)
  {
    var present, missing, unlabelled, obs, responding := FileStates(inv);
    ElementsEmpty(present);
    if |present| == 0 {
      return None;
    }
    var decision := Resolve.Resolve(obs, responding);
    var source := decision.winningDeviceID;
    var version := if source in inv then inv[source].version else 0;
    ElementsEmpty(missing);
    ElementsEmpty(unlabelled);
    ElementsEmpty(decision.outliers);
    if !decision.diverged && |missing| == 0 && |unlabelled| == 0 {
      return Some(SecretMirrorPlan(source, version, [], Skip));
    }
    var targets := missing + unlabelled + decision.outliers;
    ElementsConcat(missing, unlabelled);
    ElementsConcat(missing + unlabelled, decision.outliers);
    var kind := if |missing| > 0 then Create else if |unlabelled| > 0 then RestoreMetadata else Update;
    targets := RemoveDuplicates(targets);
    var kept := RemoveDevice(targets, source);
    RemovedOnce(targets, source, kept);
    targets := kept;
    ElementsEmpty(targets);
    if |targets| == 0 {
      return Some(SecretMirrorPlan(source, version, [], Skip));
    }
    return Some(SecretMirrorPlan(source, version, targets, kind));
  }

  // ------------------------------------------------------------- execution

  lemma InventoryStep(hex: string -> string, slots: Slots, env: Environment, done: set<string>, d: string)
    requires d in slots && d !in done
    ensures InventoryOf(hex, slots, env.(available := done + {d})) ==
      InventoryOf(hex, slots, env.(available := done))
        [d := if d in env.connected
              then Observed(hex, AsRead(slots[d], d in env.readable, d in env.described), env.clock(d))
              else SecretState(false, 0, env.clock(d), "", false, true)]
  {}

  ghost function Upto(plan: Plan, done: set<string>): Plan
  {
    plan.(targets := done)
  }

  /** Writing one more target is one more element of the target set. */
  lemma ExecutedStep(slots: Slots, plan: Plan, env: Environment, done: set<string>, t: string)
    requires Starts(slots, plan, env)
    ensures Executed(slots, Upto(plan, done + {t}), env) ==
      if Lands(slots, plan, env, t)
      then Executed(slots, Upto(plan, done), env)[t := Written(slots, Upto(plan, {t}), env, t)]
      else Executed(slots, Upto(plan, done), env)
  {}

  /** What the write to target `t` does, in terms of the slots at that point. */
  lemma TargetStep(before: Slots, plan: Plan, env: Environment, done: set<string>, t: string, slots: Slots)
    requires Starts(before, plan, env) && slots == Executed(before, Upto(plan, done), env)
    ensures slots.Keys == before.Keys
    ensures Lands(before, plan, env, t) <==> Lands(slots, plan, env, t)
    ensures Executed(before, Upto(plan, done + {t}), env) ==
      if Lands(slots, plan, env, t) then
        slots[t := Copy(if plan.kind == RestoreMetadata then slots[t].data else before[plan.source].data,
                        SyncLabels(SourceLabels(before, plan, env), env.now))]
      else slots
  {
    WrittenKeepsPresence(before, Upto(plan, done), env);
    ExecutedStep(before, plan, env, done, t);
  }

  lemma LoneDevicePlan(inv: Inventory, x: string)
    requires inv.Keys <= {x}
    ensures PlanFor(inv).None? || PlanFor(inv).value.kind == Skip
  {
    var votes, n := VotesIn(inv), |RespondingIn(inv)|;
    if votes.Keys != {} {
      WinnerHasHolders(votes, n);
      assert WinningDevice(votes, n) in votes;
      assert WinningDevice(votes, n) == x;
      assert MissingIn(inv) + UnlabelledIn(inv) + Outliers(votes, n) <= {x};
    }
  }

  /** With a single device there is never anything to repair. */
  lemma OneDeviceIdle(hex: string -> string, slots: Slots, env: Environment)
    requires |env.available| <= 1
    ensures Swept(hex, slots, env) == slots
  {
    var x :| env.available <= {x} by {
      if env.available == {} {
        assert env.available <= {""};
      } else {
        var y :| y in env.available;
        assert env.available == {y} + (env.available - {y});
        assert |env.available| == 1 + |env.available - {y}|;
        assert env.available <= {y};
      }
    }
    LoneDevicePlan(InventoryOf(hex, slots, env), x);
  }

  /** The mirror manager over the devices it can reach. */
  class MirrorManager {
    var slots: Slots
    const hex: string -> string

    constructor (hex: string -> string, slots: Slots)
      ensures this.hex == hex && this.slots == slots
    {
      this.hex, this.slots := hex, slots;
    }

    method BuildSecretInventory(devices: seq<string>, env: Environment) returns (inv: Inventory)
      requires Distinct(devices) && Elements(devices) == env.available && env.available <= slots.Keys
      ensures inv == InventoryOf(hex, slots, env)
    {
      inv := map[];
      for k := 0 to |devices|
        invariant inv == InventoryOf(hex, slots, env.(available := Elements(devices[..k])))
      {
        var d := devices[k];
        assert d in Elements(devices) && d !in Elements(devices[..k]);
        assert Elements(devices[..k+1]) == Elements(devices[..k]) + {d};
        InventoryStep(hex, slots, env, Elements(devices[..k]), d);
        if d !in env.connected {
          inv := inv[d := SecretState(false, 0, env.clock(d), "", false, true)];
          continue;
        }
        var state := SecretState(false, 0, env.clock(d), "", false, false);
        if slots[d].Copy? && d in env.readable {
          var sum := CalculateMirrorChecksum(hex, slots[d].data);
          state := state.(present := true, checksum := sum);
          if d in env.described {
            if slots[d].labels.version.Counter? {
              state := state.(version := slots[d].labels.version.n, hasMetadata := true);
            }
            if slots[d].labels.time.Some? {
              state := state.(timestamp := slots[d].labels.time.value);
            }
          }
        }
        inv := inv[d := state];
      }
      assert devices[..|devices|] == devices;
      assert env.(available := Elements(devices)) == env;
    }

    /** The write to one target: the source's data, or its own under new labels. */
    method WriteTarget(ghost plan: Plan, kind: MirrorType, t: string, data: SecretData, labels: Labels,
                       env: Environment)
      returns (ok: bool)
      requires kind == plan.kind
      modifies this
      ensures ok <==> Lands(old(slots), plan, env, t)
      ensures slots ==
        if Lands(old(slots), plan, env, t)
        then old(slots)[t := Copy(if kind == RestoreMetadata then old(slots)[t].data else data, labels)]
        else old(slots)
    {
      if t !in slots || t !in env.available || t !in env.writable {
        return false;
      }
      if kind != RestoreMetadata {
        slots := slots[t := Copy(data, labels)];
        return true;
      }
      if t !in env.reread || slots[t].Absent? {
        return false;
      }
      slots := slots[t := Copy(slots[t].data, labels)];
      return true;
    }

    /** One target's turn. */
    method SyncTarget(plan: SecretMirrorPlan, env: Environment, data: SecretData, labels: Labels, k: nat,
                      ghost before: Slots)
      returns (ok: bool)
      requires Starts(before, Abstract(plan), env) && k < |plan.targetDevices|
      requires data == before[plan.sourceDevice].data
      requires labels == SyncLabels(SourceLabels(before, Abstract(plan), env), env.now)
      requires slots == Executed(before, Upto(Abstract(plan), Elements(plan.targetDevices[..k])), env)
      modifies this
      ensures slots == Executed(before, Upto(Abstract(plan), Elements(plan.targetDevices[..k+1])), env)
      ensures ok <==> Lands(before, Abstract(plan), env, plan.targetDevices[k])
    {
      ghost var whole := Abstract(plan);
      var t := plan.targetDevices[k];
      TargetStep(before, whole, env, Elements(plan.targetDevices[..k]), t, slots);
      assert Elements(plan.targetDevices[..k+1]) == Elements(plan.targetDevices[..k]) + {t};
      ok := WriteTarget(whole, plan.mirrorType, t, data, labels, env);
    }

    /** The loop over the targets. */
    method SyncTargets(plan: SecretMirrorPlan, env: Environment, data: SecretData, labels: Labels, ghost before: Slots)
      returns (failedTargets: nat)
      requires Starts(before, Abstract(plan), env)
      requires data == before[plan.sourceDevice].data
      requires labels == SyncLabels(SourceLabels(before, Abstract(plan), env), env.now)
      requires slots == Executed(before, Upto(Abstract(plan), {}), env)
      modifies this
      ensures slots == Executed(before, Abstract(plan), env)
      ensures failedTargets == 0 <==>
        forall i :: 0 <= i < |plan.targetDevices| ==> Lands(before, Abstract(plan), env, plan.targetDevices[i])
    {
      failedTargets := 0;
      for k := 0 to |plan.targetDevices|
        invariant slots == Executed(before, Upto(Abstract(plan), Elements(plan.targetDevices[..k])), env)
        invariant failedTargets == 0 <==>
          forall i :: 0 <= i < k ==> Lands(before, Abstract(plan), env, plan.targetDevices[i])
      {
        var ok := SyncTarget(plan, env, data, labels, k, before);
        if !ok {
          failedTargets := failedTargets + 1;
        }
      }
      assert plan.targetDevices[..|plan.targetDevices|] == plan.targetDevices;
      assert Upto(Abstract(plan), Abstract(plan).targets) == Abstract(plan);
    }

    method ExecuteMirrorPlan(plan: SecretMirrorPlan, env: Environment) returns (result: SecretMirrorResult)
      modifies this
      ensures slots == Executed(old(slots), Abstract(plan), env)
      ensures result == Reported(old(slots), Abstract(plan), env)
    {
      if plan.mirrorType == Skip {
        return SecretMirrorResult(plan.mirrorType, true);
      }
      var s := plan.sourceDevice;
      if s !in slots || s !in env.available || s !in env.reread || slots[s].Absent? {
        return SecretMirrorResult(plan.mirrorType, false);
      }
      ghost var before := slots;
      var source := slots[s];
      var sourceLabels := LabelsRead(source.labels, s in env.redescribed);
      var labels := SyncLabels(sourceLabels, env.now);
      if plan.mirrorType == RestoreMetadata && sourceLabels.version.Missing? {
        if s !in env.writable {
          return SecretMirrorResult(plan.mirrorType, false);
        }
        slots := slots[s := Copy(source.data, labels)];
      }
      var failedTargets := SyncTargets(plan, env, source.data, labels, before);
      assert forall i :: 0 <= i < |plan.targetDevices| ==> plan.targetDevices[i] in Abstract(plan).targets;
      return SecretMirrorResult(plan.mirrorType, failedTargets == 0);
    }

    /** One sweep: list, inventory, plan, execute. */
    method MirrorSecret(devices: seq<string>, env: Environment) returns (result: Option<SecretMirrorResult>)
      requires Distinct(devices) && Elements(devices) == env.available && env.available <= slots.Keys
      requires "" !in slots
      modifies this
      ensures slots == Swept(hex, old(slots), env)
      ensures result == SweepReport(hex, old(slots), env)
    {
      DistinctMultiset(devices);
      assert |multiset(devices)| == |multiset(env.available)| == |env.available|;
      if |devices| <= 1 {
        OneDeviceIdle(hex, slots, env);
        return None;
      }
      var inv := BuildSecretInventory(devices, env);
      var plan := CreateMirrorPlan(inv);
      if plan.None? {
        return None;
      }
      var r := ExecuteMirrorPlan(plan.value, env);
      return Some(r);
    }
  }

  /** A metadata restoration keeps the data everywhere, so it can be read back. */
  lemma WrittenKeepsPresence(slots: Slots, plan: Plan, env: Environment)
    ensures Executed(slots, plan, env).Keys == slots.Keys
    ensures plan.kind == RestoreMetadata ==>
      forall d :: d in slots ==>
        var after := Executed(slots, plan, env)[d];
        after.Copy? == slots[d].Copy? && (after.Copy? ==> after.data == slots[d].data)
  {}
}
