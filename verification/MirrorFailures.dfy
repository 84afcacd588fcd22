/** Sweeps in which anything may fail.

Devices may be unlisted or unconnected, reads of secrets or of metadata may
fail, for the inventory or again when the plan is executed, and so may writes.
The plan of such a sweep is that for the cluster as the inventory saw it; what
it writes follows the labels its source shows when it is read again.
*/
module MirrorFailures {
  import opened Resolve
  import opened Checksum
  import opened Replica
  import opened Mirror
  import opened MirrorConvergence

  /** The devices that respond to a sweep. */
  ghost function Heard(slots: Slots, env: Environment): set<string>
  {
    slots.Keys * env.available * env.connected
  }

  /** The cluster as a sweep sees it. */
  ghost function Visible(slots: Slots, env: Environment): Slots
  {
    map d | d in Heard(slots, env) :: AsRead(slots[d], d in env.readable, d in env.described)
  }

  /** Whatever secret is read, its metadata is read too. */
  ghost predicate DescribesRead(slots: Slots, env: Environment)
  {
    Heard(slots, env) * env.readable <= env.described
  }

  /** The same writes and clocks, with nothing failing to respond or to be read. */
  ghost function Undisturbed(slots: Slots, env: Environment): Environment
  {
    var heard := Heard(slots, env);
    env.(available := heard, connected := heard, readable := heard, described := heard,
         reread := heard, redescribed := heard)
  }

  lemma VisibleInventory(hex: string -> string, slots: Slots, env: Environment)
    ensures var inv := InventoryOf(hex, slots, env);
      var inv' := InventoryOf(hex, Visible(slots, env), Undisturbed(slots, env));
      && inv'.Keys == Heard(slots, env) <= inv.Keys
      && (forall d :: d in inv' ==> inv[d] == inv'[d])
      && (forall d :: d in inv && d !in inv' ==> inv[d].failed)
  {
    var v := Visible(slots, env);
    forall d | d in Heard(slots, env)
      ensures AsRead(v[d], true, true) == AsRead(slots[d], d in env.readable, d in env.described) {}
  }

  /** Devices that fail are no part of the plan. */
  lemma FailedIgnored(inv: Inventory, inv': Inventory)
    requires inv'.Keys <= inv.Keys && (forall d :: d in inv' ==> inv[d] == inv'[d])
    requires forall d :: d in inv && d !in inv' ==> inv[d].failed
    ensures VotesIn(inv) == VotesIn(inv') && MissingIn(inv) == MissingIn(inv')
    ensures UnlabelledIn(inv) == UnlabelledIn(inv') && RespondingIn(inv) == RespondingIn(inv')
  {}

  lemma SamePlan(inv: Inventory, inv': Inventory)
    requires inv'.Keys <= inv.Keys && (forall d :: d in inv' ==> inv[d] == inv'[d])
    requires forall d :: d in inv && d !in inv' ==> inv[d].failed
    ensures PlanFor(inv) == PlanFor(inv')
  {
    FailedIgnored(inv, inv');
    if VotesIn(inv).Keys != {} {
      WinnerHasHolders(VotesIn(inv), |RespondingIn(inv)|);
      assert WinningDevice(VotesIn(inv), |RespondingIn(inv)|) in VotesIn(inv');
    }
  }

  /** The plan of a sweep is the plan of an undisturbed sweep of what is visible. */
  lemma VisiblePlan(hex: string -> string, slots: Slots, env: Environment)
    ensures PlanFor(InventoryOf(hex, slots, env)) ==
            PlanFor(InventoryOf(hex, Visible(slots, env), Undisturbed(slots, env)))
    ensures Responds(Visible(slots, env), Undisturbed(slots, env))
  {
    VisibleInventory(hex, slots, env);
    SamePlan(InventoryOf(hex, slots, env), InventoryOf(hex, Visible(slots, env), Undisturbed(slots, env)));
  }

  lemma NothingVisible(hex: string -> string, slots: Slots, env: Environment)
    requires !SomeCopy(Visible(slots, env))
    ensures PlanFor(InventoryOf(hex, slots, env)).None? && Swept(hex, slots, env) == slots
  {
    VisiblePlan(hex, slots, env);
    var v := Visible(slots, env);
    assert VotesIn(InventoryOf(hex, v, Undisturbed(slots, env))).Keys == {} by {
      FullInventory(hex, v, Undisturbed(slots, env));
    }
  }

  // ------------------------------------------------------------- execution

  /** The labels of the source when the plan is executed. */
  ghost function LabelsAgain(slots: Slots, env: Environment, ch: Choice): Labels
    requires ch.source in slots && slots[ch.source].Copy?
  {
    LabelsRead(slots[ch.source].labels, ch.source in env.redescribed)
  }

  /** A restoration of labels that finds none on the source begins with the source. */
  ghost predicate Relabels(hex: string -> string, slots: Slots, env: Environment, ch: Choice)
    requires Chosen(hex, Visible(slots, env), ch)
  {
    Kind(hex, Visible(slots, env), ch) == RestoreMetadata && LabelsAgain(slots, env, ch).version.Missing?
  }

  /** The source can be read again, and written first where that is called for. */
  ghost predicate GetsGoing(hex: string -> string, slots: Slots, env: Environment, ch: Choice)
    requires Chosen(hex, Visible(slots, env), ch)
  {
    && Kind(hex, Visible(slots, env), ch) != Skip && ch.source in env.reread
    && (Relabels(hex, slots, env, ch) ==> ch.source in env.writable)
  }

  /** A sweep under the verdict `ch` writes to device `d`. */
  ghost predicate WritesAt(hex: string -> string, slots: Slots, env: Environment, ch: Choice, d: string)
    requires Chosen(hex, Visible(slots, env), ch)
  {
    && GetsGoing(hex, slots, env, ch) && d in slots && d in env.writable
    && if d == ch.source then Relabels(hex, slots, env, ch)
       else d in Targets(hex, Visible(slots, env), ch)
            && (Kind(hex, Visible(slots, env), ch) == RestoreMetadata ==> d in env.reread)
  }

  /** The data it leaves there: the device's own under new labels, or the source's. */
  ghost function DataAt(hex: string -> string, slots: Slots, env: Environment, ch: Choice, d: string): SecretData
    requires Chosen(hex, Visible(slots, env), ch) && d in slots
  {
    if Kind(hex, Visible(slots, env), ch) == RestoreMetadata && slots[d].Copy? then slots[d].data
    else slots[ch.source].data
  }

  ghost function CopyAt(hex: string -> string, slots: Slots, env: Environment, ch: Choice, d: string): Slot
    requires Chosen(hex, Visible(slots, env), ch) && d in slots
  {
    Copy(DataAt(hex, slots, env, ch, d), SyncLabels(LabelsAgain(slots, env, ch), env.now))
  }

  ghost predicate PlannedFor(hex: string -> string, slots: Slots, env: Environment, plan: Plan, ch: Choice)
  {
    && Chosen(hex, Visible(slots, env), ch) && plan.source == ch.source
    && plan.targets == Targets(hex, Visible(slots, env), ch) && plan.kind == Kind(hex, Visible(slots, env), ch)
  }

  lemma StartsIff(hex: string -> string, slots: Slots, env: Environment, plan: Plan, ch: Choice)
    requires PlannedFor(hex, slots, env, plan, ch)
    ensures slots[ch.source].Copy? && SourceLabels(slots, plan, env) == LabelsAgain(slots, env, ch)
    ensures RestoresSource(slots, plan, env) <==> Relabels(hex, slots, env, ch)
    ensures Starts(slots, plan, env) <==> GetsGoing(hex, slots, env, ch)
  {}

  lemma WrittenSlot(hex: string -> string, slots: Slots, env: Environment, plan: Plan, ch: Choice, d: string)
    requires PlannedFor(hex, slots, env, plan, ch) && d in slots && Starts(slots, plan, env)
    ensures Written(slots, plan, env, d) ==
      if WritesAt(hex, slots, env, ch, d) then CopyAt(hex, slots, env, ch, d) else slots[d]
  {
    StartsIff(hex, slots, env, plan, ch);
    if d in plan.targets && plan.kind == RestoreMetadata { assert d !in MissingFrom(Visible(slots, env)); }
  }

  lemma ExecutedSlot(hex: string -> string, slots: Slots, env: Environment, plan: Plan, ch: Choice, d: string)
    requires PlannedFor(hex, slots, env, plan, ch) && d in slots
    ensures Executed(slots, plan, env).Keys == slots.Keys
    ensures Executed(slots, plan, env)[d] ==
      if WritesAt(hex, slots, env, ch, d) then CopyAt(hex, slots, env, ch, d) else slots[d]
  {
    ExecutedKeys(slots, plan, env);
    ExecutedAt(slots, plan, env, d);
    StartsIff(hex, slots, env, plan, ch);
    if Starts(slots, plan, env) { WrittenSlot(hex, slots, env, plan, ch, d); }
  }

  /** One device after a sweep, whatever fails during it. */
  lemma SweptSlot(hex: string -> string, slots: Slots, env: Environment, d: string)
    requires d in slots
    ensures var v, after := Visible(slots, env), Swept(hex, slots, env);
      && after.Keys == slots.Keys
      && after[d] == if SomeCopy(v) && WritesAt(hex, slots, env, ChoiceOf(hex, v, env.clock), d)
                     then CopyAt(hex, slots, env, ChoiceOf(hex, v, env.clock), d) else slots[d]
  {
    var v := Visible(slots, env);
    if SomeCopy(v) {
      SomethingVisible(hex, slots, env);
      ExecutedSlot(hex, slots, env, PlanFor(InventoryOf(hex, slots, env)).value, ChoiceOf(hex, v, env.clock), d);
    } else {
      NothingVisible(hex, slots, env);
    }
  }

  /** Whatever a sweep writes is stamped with its time, with a version of at least 1, and as not deleted; the
  version is that of the source wherever that is read again and is at least 1. */
  lemma StampOfSweep(hex: string -> string, slots: Slots, env: Environment, d: string)
    requires d in slots && SomeCopy(Visible(slots, env))
    requires WritesAt(hex, slots, env, ChoiceOf(hex, Visible(slots, env), env.clock), d)
    ensures var after := Swept(hex, slots, env);
      && d in after && after[d].Copy? && after[d].labels.version.Counter? && after[d].labels.version.n >= 1
      && after[d].labels.time == Some(env.now) && !after[d].labels.deleted
    ensures var source := slots[ChoiceOf(hex, Visible(slots, env), env.clock).source];
      ChoiceOf(hex, Visible(slots, env), env.clock).source in env.redescribed
      && source.labels.version.Counter? && source.labels.version.n >= 1 ==>
        Swept(hex, slots, env)[d].labels.version == source.labels.version
  {
    SweptSlot(hex, slots, env, d);
  }

  // --------------------------------------------------------- what is reported

  /** The plan for what the inventory saw can be carried out on every target. */
  ghost predicate Complete(hex: string -> string, slots: Slots, env: Environment, ch: Choice)
    requires Chosen(hex, Visible(slots, env), ch)
  {
    && ch.source in env.reread
    && (Relabels(hex, slots, env, ch) ==> ch.source in env.writable)
    && forall d :: d in Targets(hex, Visible(slots, env), ch) ==>
         d in env.writable && (Kind(hex, Visible(slots, env), ch) == RestoreMetadata ==> d in env.reread)
  }

  lemma SomethingVisible(hex: string -> string, slots: Slots, env: Environment)
    requires SomeCopy(Visible(slots, env))
    ensures var plan := PlanFor(InventoryOf(hex, slots, env));
      && plan.Some? && PlannedFor(hex, slots, env, plan.value, ChoiceOf(hex, Visible(slots, env), env.clock))
      && plan.value.sourceVersion == MetadataVersion(Visible(slots, env)[plan.value.source].labels)
  {
    VisiblePlan(hex, slots, env);
    FullPlan(hex, Visible(slots, env), Undisturbed(slots, env));
  }

  lemma ReportedPlan(hex: string -> string, slots: Slots, env: Environment, plan: Plan, ch: Choice)
    requires PlannedFor(hex, slots, env, plan, ch)
    ensures Reported(slots, plan, env).success <==>
            Targets(hex, Visible(slots, env), ch) == {} || Complete(hex, slots, env, ch)
  {
    StartsIff(hex, slots, env, plan, ch);
    forall d | d in plan.targets
      ensures Lands(slots, plan, env, d) <==>
              d in env.writable && (Kind(hex, Visible(slots, env), ch) == RestoreMetadata ==> d in env.reread)
    {
      if plan.kind == RestoreMetadata { assert d !in MissingFrom(Visible(slots, env)); }
    }
  }

  /** A sweep reports if and only if it has two devices or more and sees a copy; it reports success if and only if
  no device calls for repair, or its source could be read again and every device that did was written. */
  lemma ReportIff(hex: string -> string, slots: Slots, env: Environment)
    ensures SweepReport(hex, slots, env).Some? <==> |env.available| >= 2 && SomeCopy(Visible(slots, env))
    ensures SweepReport(hex, slots, env).Some? ==>
      var v := Visible(slots, env);
      var r, ch := SweepReport(hex, slots, env).value, ChoiceOf(hex, v, env.clock);
      && r.mirrorType == Kind(hex, v, ch)
      && (r.success <==> Targets(hex, v, ch) == {} || Complete(hex, slots, env, ch))
  {
    var v := Visible(slots, env);
    if SomeCopy(v) {
      SomethingVisible(hex, slots, env);
      ReportedPlan(hex, slots, env, PlanFor(InventoryOf(hex, slots, env)).value, ChoiceOf(hex, v, env.clock));
    } else {
      NothingVisible(hex, slots, env);
    }
  }

  lemma DoneAt(hex: string -> string, slots: Slots, env: Environment, ch: Choice, d: string)
    requires Chosen(hex, Visible(slots, env), ch) && d in Heard(slots, env)
    requires Kind(hex, Visible(slots, env), ch) != RestoreMetadata
    requires Targets(hex, Visible(slots, env), ch) == {} || Complete(hex, slots, env, ch)
    ensures if WritesAt(hex, slots, env, ch, d) then CopyAt(hex, slots, env, ch, d).data == slots[ch.source].data
            else HoldsSum(hex, slots, ch.checksum, d)
  {
    var v := Visible(slots, env);
    if d != ch.source && d !in Targets(hex, v, ch) {
      assert d !in MissingFrom(v) && d !in Disagreeing(hex, v, ch.checksum);
    }
  }

  /** Reported success means it: unless the sweep only restored labels, every device that responded now holds the
  content that was chosen. */
  lemma SuccessMeansAgreement(hex: string -> string, slots: Slots, env: Environment, d: string)
    requires SweepReport(hex, slots, env).Some? && SweepReport(hex, slots, env).value.success
    requires SweepReport(hex, slots, env).value.mirrorType != RestoreMetadata && d in Heard(slots, env)
    ensures SomeCopy(Visible(slots, env))
    ensures HoldsSum(hex, Swept(hex, slots, env), ChoiceOf(hex, Visible(slots, env), env.clock).checksum, d)
  {
    ReportIff(hex, slots, env);
    SweptSlot(hex, slots, env, d);
    DoneAt(hex, slots, env, ChoiceOf(hex, Visible(slots, env), env.clock), d);
  }

  /** And failure too: some device that called for repair is as it was. */
  lemma FailureLeavesTarget(hex: string -> string, slots: Slots, env: Environment) returns (d: string)
    requires SweepReport(hex, slots, env).Some? && !SweepReport(hex, slots, env).value.success
    ensures SomeCopy(Visible(slots, env))
    ensures d in Targets(hex, Visible(slots, env), ChoiceOf(hex, Visible(slots, env), env.clock))
    ensures d in slots && d in Swept(hex, slots, env) && Swept(hex, slots, env)[d] == slots[d]
  {
    ReportIff(hex, slots, env);
    d := LeftOut(hex, slots, env, ChoiceOf(hex, Visible(slots, env), env.clock));
    SweptSlot(hex, slots, env, d);
  }

  lemma LeftOut(hex: string -> string, slots: Slots, env: Environment, ch: Choice) returns (d: string)
    requires Chosen(hex, Visible(slots, env), ch)
    requires Targets(hex, Visible(slots, env), ch) != {} && !Complete(hex, slots, env, ch)
    ensures d in Targets(hex, Visible(slots, env), ch) && d in slots && !WritesAt(hex, slots, env, ch, d)
  {
    if GetsGoing(hex, slots, env, ch) {
      d :| d in Targets(hex, Visible(slots, env), ch) &&
        !(d in env.writable && (Kind(hex, Visible(slots, env), ch) == RestoreMetadata ==> d in env.reread));
    } else {
      d :| d in Targets(hex, Visible(slots, env), ch);
    }
  }

  lemma SweepKeys(hex: string -> string, slots: Slots, env: Environment)
    ensures Swept(hex, slots, env).Keys == slots.Keys
  {}
}
