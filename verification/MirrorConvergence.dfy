/** Repeated sweeps over a fixed set of responding devices bring them together. */
module MirrorConvergence {
  import opened GoStrings
  import opened Resolve
  import opened ResolveLaws
  import opened Checksum
  import opened Replica
  import opened Mirror

  // ------------------------------------- the plan when every device responds

  /** Every device responds and its secret and metadata are read without error, both times. */
  ghost predicate Responds(slots: Slots, env: Environment)
  {
    && env.available == slots.Keys && slots.Keys <= env.connected
    && slots.Keys <= env.readable && slots.Keys <= env.described
    && slots.Keys <= env.reread && slots.Keys <= env.redescribed
  }

  /** Besides, every write succeeds. */
  ghost predicate AllSucceed(slots: Slots, env: Environment)
  {
    Responds(slots, env) && slots.Keys <= env.writable
  }

  lemma SameKeysSucceed(slots: Slots, slots': Slots, env: Environment)
    requires slots.Keys == slots'.Keys && AllSucceed(slots', env)
    ensures AllSucceed(slots, env)
  {}

  ghost function SlotVotes(hex: string -> string, slots: Slots, clock: string -> int): Votes
  {
    map d | d in slots && slots[d].Copy? ::
      Vote(MirrorSum(hex, slots[d].data), MetadataVersion(slots[d].labels),
           if slots[d].labels.time.Some? then slots[d].labels.time.value else clock(d))
  }

  ghost function MissingFrom(slots: Slots): set<string>
  {
    set d | d in slots && slots[d].Absent?
  }

  ghost function Unlabelled(slots: Slots): set<string>
  {
    set d | d in slots && slots[d].Copy? && !slots[d].labels.version.Counter?
  }

  lemma FullInventory(hex: string -> string, slots: Slots, env: Environment)
    requires Responds(slots, env)
    ensures var inv := InventoryOf(hex, slots, env);
      && VotesIn(inv) == SlotVotes(hex, slots, env.clock)
      && MissingIn(inv) == MissingFrom(slots)
      && UnlabelledIn(inv) == Unlabelled(slots)
      && |RespondingIn(inv)| == |slots|
  {
    assert RespondingIn(InventoryOf(hex, slots, env)) == slots.Keys;
  }

  lemma VotersExist(hex: string -> string, slots: Slots, clock: string -> int)
    requires SomeCopy(slots)
    ensures SlotVotes(hex, slots, clock).Keys != {}
  {
    var d :| d in slots && slots[d].Copy?;
    assert d in SlotVotes(hex, slots, clock);
  }

  ghost function Disagreeing(hex: string -> string, slots: Slots, checksum: string): set<string>
  {
    set d | d in slots && slots[d].Copy? && MirrorSum(hex, slots[d].data) != checksum
  }

  /** A verdict: a checksum and the lowest device holding it. */
  datatype Choice = Choice(source: string, checksum: string)

  ghost predicate Chosen(hex: string -> string, slots: Slots, ch: Choice)
  {
    && ch.source in slots && slots[ch.source].Copy? && MirrorSum(hex, slots[ch.source].data) == ch.checksum
    && (forall d :: d in slots && slots[d].Copy? && MirrorSum(hex, slots[d].data) == ch.checksum ==>
      LessEq(ch.source, d))
  }

  ghost function Targets(hex: string -> string, slots: Slots, ch: Choice): set<string>
  {
    MissingFrom(slots) + Unlabelled(slots) + Disagreeing(hex, slots, ch.checksum) - {ch.source}
  }

  ghost function Kind(hex: string -> string, slots: Slots, ch: Choice): MirrorType
  {
    if Targets(hex, slots, ch) == {} then Skip
    else if MissingFrom(slots) != {} then Create
    else if Unlabelled(slots) != {} then RestoreMetadata
    else Update
  }

  /** The source itself gets labels, which happens before any target is written. */
  ghost predicate LabelsSource(hex: string -> string, slots: Slots, ch: Choice)
    requires Chosen(hex, slots, ch)
  {
    Kind(hex, slots, ch) == RestoreMetadata && slots[ch.source].labels.version.Missing?
  }

  /** A sweep under the verdict `ch` writes to device `d`. */
  ghost predicate WritesTo(hex: string -> string, slots: Slots, ch: Choice, env: Environment, d: string)
    requires Chosen(hex, slots, ch)
  {
    && Kind(hex, slots, ch) != Skip && d in env.writable
    && (LabelsSource(hex, slots, ch) ==> ch.source in env.writable)
    && (d in Targets(hex, slots, ch) || (d == ch.source && LabelsSource(hex, slots, ch)))
  }

  /** What it writes there: new labels over the device's own data, or the source's data. */
  ghost function NewCopy(hex: string -> string, slots: Slots, ch: Choice, env: Environment, d: string): Slot
    requires Chosen(hex, slots, ch) && d in slots
  {
    Copy(if Kind(hex, slots, ch) == RestoreMetadata && slots[d].Copy? then slots[d].data else slots[ch.source].data,
         SyncLabels(slots[ch.source].labels, env.now))
  }

  /** The slot of one device after a sweep under the verdict `ch`. */
  ghost function RepairedSlot(hex: string -> string, slots: Slots, ch: Choice, env: Environment, d: string): Slot
    requires Chosen(hex, slots, ch) && d in slots
  {
    if WritesTo(hex, slots, ch, env, d) then NewCopy(hex, slots, ch, env, d) else slots[d]
  }

  ghost function Repaired(hex: string -> string, slots: Slots, ch: Choice, env: Environment): Slots
    requires Chosen(hex, slots, ch)
  {
    map d | d in slots :: RepairedSlot(hex, slots, ch, env, d)
  }

  /** The verdict of the resolver when every device responds. */
  ghost function ChoiceOf(hex: string -> string, slots: Slots, clock: string -> int): (ch: Choice)
    requires SomeCopy(slots)
    ensures Chosen(hex, slots, ch)
  {
    VotersExist(hex, slots, clock);
    var votes := SlotVotes(hex, slots, clock);
    ChoiceIsChosen(hex, slots, clock);
    Choice(WinningDevice(votes, |slots|), WinningChecksum(votes, |slots|))
  }

  lemma ChoiceIsChosen(hex: string -> string, slots: Slots, clock: string -> int)
    requires SlotVotes(hex, slots, clock).Keys != {}
    ensures var votes := SlotVotes(hex, slots, clock);
      Chosen(hex, slots, Choice(WinningDevice(votes, |slots|), WinningChecksum(votes, |slots|)))
  {
    var votes := SlotVotes(hex, slots, clock);
    VerdictPartition(votes, |slots|);
    var c := WinningChecksum(votes, |slots|);
    forall d | d in slots && slots[d].Copy? && MirrorSum(hex, slots[d].data) == c
      ensures LessEq(WinningDevice(votes, |slots|), d)
    {
      assert votes[d].checksum == c;
    }
  }

  lemma FullPlan(hex: string -> string, slots: Slots, env: Environment)
    requires Responds(slots, env) && SomeCopy(slots)
    ensures var plan, ch := PlanFor(InventoryOf(hex, slots, env)), ChoiceOf(hex, slots, env.clock);
      && plan.Some?
      && plan.value.source == ch.source
      && plan.value.sourceVersion == MetadataVersion(slots[ch.source].labels)
      && plan.value.targets == Targets(hex, slots, ch)
      && plan.value.kind == Kind(hex, slots, ch)
  {
    FullInventory(hex, slots, env);
    VotersExist(hex, slots, env.clock);
    var votes := SlotVotes(hex, slots, env.clock);
    assert Outliers(votes, |slots|) == Disagreeing(hex, slots, WinningChecksum(votes, |slots|));
  }

  lemma WrittenIsRepaired(hex: string -> string, slots: Slots, plan: Plan, ch: Choice, env: Environment, d: string)
    requires Responds(slots, env) && Chosen(hex, slots, ch) && d in slots
    requires plan.source == ch.source && plan.targets == Targets(hex, slots, ch) && plan.kind == Kind(hex, slots, ch)
    ensures RepairedSlot(hex, slots, ch, env, d) ==
      if Starts(slots, plan, env) then Written(slots, plan, env, d) else slots[d]
  {
    if plan.kind == RestoreMetadata { assert d !in MissingFrom(slots); }
  }

  lemma ExecutedIsRepaired(hex: string -> string, slots: Slots, plan: Plan, ch: Choice, env: Environment)
    requires Responds(slots, env) && Chosen(hex, slots, ch)
    requires plan.source == ch.source && plan.targets == Targets(hex, slots, ch) && plan.kind == Kind(hex, slots, ch)
    ensures Executed(slots, plan, env) == Repaired(hex, slots, ch, env)
  {
    var after := Executed(slots, plan, env);
    var repaired := Repaired(hex, slots, ch, env);
    forall d | d in slots ensures d in after && after[d] == repaired[d] {
      WrittenIsRepaired(hex, slots, plan, ch, env, d);
      ExecutedAt(slots, plan, env, d);
    }
    ExecutedKeys(slots, plan, env);
    assert repaired.Keys == slots.Keys;
  }

  lemma ExecutedAt(slots: Slots, plan: Plan, env: Environment, d: string)
    requires d in slots
    ensures d in Executed(slots, plan, env)
    ensures Executed(slots, plan, env)[d] == if Starts(slots, plan, env) then Written(slots, plan, env, d) else slots[d]
  {}

  lemma ExecutedKeys(slots: Slots, plan: Plan, env: Environment)
    ensures Executed(slots, plan, env).Keys == slots.Keys
  {}

  lemma SweptIsRepaired(hex: string -> string, slots: Slots, env: Environment)
    requires Responds(slots, env) && SomeCopy(slots)
    ensures Swept(hex, slots, env) == Repaired(hex, slots, ChoiceOf(hex, slots, env.clock), env)
  {
    FullPlan(hex, slots, env);
    var plan := PlanFor(InventoryOf(hex, slots, env)).value;
    ExecutedIsRepaired(hex, slots, plan, ChoiceOf(hex, slots, env.clock), env);
  }

  // ------------------------------------------------------- one sweep at a time

  /** The device holds content with this checksum. */
  ghost predicate HoldsSum(hex: string -> string, slots: Slots, c: string, d: string)
  {
    d in slots && slots[d].Copy? && MirrorSum(hex, slots[d].data) == c
  }

  /** Every device holds a copy with this checksum. */
  ghost predicate AllHold(hex: string -> string, slots: Slots, checksum: string)
  {
    forall d :: d in slots ==> slots[d].Copy? && MirrorSum(hex, slots[d].data) == checksum
  }

  ghost predicate Agree(hex: string -> string, slots: Slots)
  {
    exists c :: AllHold(hex, slots, c)
  }

  /** In agreement, and nothing left to label except perhaps the source itself. */
  ghost predicate Settled(hex: string -> string, slots: Slots)
  {
    slots.Keys != {} && Agree(hex, slots) && Unlabelled(slots) <= {LowestOf(slots.Keys)}
  }

  ghost predicate SameData(slots: Slots, slots': Slots)
  {
    slots.Keys == slots'.Keys &&
    forall d :: d in slots ==> slots[d].Copy? == slots'[d].Copy? && (slots[d].Copy? ==> slots[d].data == slots'[d].data)
  }

  /** A Create or Update sweep spreads the winner to every device. */
  lemma CopySweep(hex: string -> string, slots: Slots, ch: Choice, env: Environment)
    requires Chosen(hex, slots, ch) && slots.Keys <= env.writable
    requires Kind(hex, slots, ch) in {Create, Update}
    ensures AllHold(hex, Repaired(hex, slots, ch, env), ch.checksum)
    ensures Unlabelled(Repaired(hex, slots, ch, env)) <= Unlabelled(slots) * {ch.source}
  {
    forall d | d in slots
      ensures var after := RepairedSlot(hex, slots, ch, env, d);
        && after.Copy? && MirrorSum(hex, after.data) == ch.checksum
        && (after.labels.version.Counter? || (d == ch.source && d in Unlabelled(slots)))
    {
      if d !in Targets(hex, slots, ch) && d != ch.source {
        assert d !in MissingFrom(slots) && d !in Unlabelled(slots) && d !in Disagreeing(hex, slots, ch.checksum);
      }
    }
  }

  /** What a metadata restoration leaves on one device. */
  ghost predicate Restored(slots: Slots, ch: Choice, d: string, after: Slot)
    requires d in slots
  {
    && slots[d].Copy? && after.Copy? && after.data == slots[d].data
    && (!after.labels.version.Counter? <==> d == ch.source && slots[d].labels.version.Garbled?)
    && (d == ch.source && slots[d].labels.version.Garbled? ==> after == slots[d])
  }

  lemma RestoreTarget(hex: string -> string, slots: Slots, ch: Choice, env: Environment, d: string)
    requires Chosen(hex, slots, ch) && slots.Keys <= env.writable
    requires Kind(hex, slots, ch) == RestoreMetadata && d in slots && d in Targets(hex, slots, ch)
    ensures Restored(slots, ch, d, RepairedSlot(hex, slots, ch, env, d))
  {
    assert d !in MissingFrom(slots);
    assert RepairedSlot(hex, slots, ch, env, d) == Copy(slots[d].data, SyncLabels(slots[ch.source].labels, env.now));
  }

  lemma RestoreOther(hex: string -> string, slots: Slots, ch: Choice, env: Environment, d: string)
    requires Chosen(hex, slots, ch) && slots.Keys <= env.writable
    requires Kind(hex, slots, ch) == RestoreMetadata && d in slots && d !in Targets(hex, slots, ch)
    ensures Restored(slots, ch, d, RepairedSlot(hex, slots, ch, env, d))
  {
    if d == ch.source {
      assert slots[d].Copy?;
    } else {
      assert d !in MissingFrom(slots) && d !in Unlabelled(slots);
      assert RepairedSlot(hex, slots, ch, env, d) == slots[d];
    }
  }

  lemma RestoreSlot(hex: string -> string, slots: Slots, ch: Choice, env: Environment, d: string)
    requires Chosen(hex, slots, ch) && slots.Keys <= env.writable
    requires Kind(hex, slots, ch) == RestoreMetadata && d in slots
    ensures Restored(slots, ch, d, RepairedSlot(hex, slots, ch, env, d))
  {
    if d in Targets(hex, slots, ch) {
      RestoreTarget(hex, slots, ch, env, d);
    } else {
      RestoreOther(hex, slots, ch, env, d);
    }
  }

  lemma RestoreUnlabelled(hex: string -> string, slots: Slots, ch: Choice, env: Environment, d: string)
    requires Chosen(hex, slots, ch) && slots.Keys <= env.writable
    requires Kind(hex, slots, ch) == RestoreMetadata
    ensures d in Unlabelled(Repaired(hex, slots, ch, env)) <==> d == ch.source && slots[d].labels.version.Garbled?
  {
    if d in slots { RestoreSlot(hex, slots, ch, env, d); }
  }

  /** A RestoreMetadata sweep changes no data.  It labels every device, except a
      source whose version label is present but unreadable. */
  lemma RestoreSweep(hex: string -> string, slots: Slots, ch: Choice, env: Environment)
    requires Chosen(hex, slots, ch) && slots.Keys <= env.writable
    requires Kind(hex, slots, ch) == RestoreMetadata
    ensures SameData(slots, Repaired(hex, slots, ch, env))
    ensures Unlabelled(Repaired(hex, slots, ch, env)) ==
            if slots[ch.source].labels.version.Garbled? then {ch.source} else {}
    ensures slots[ch.source].labels.version.Garbled? ==> Repaired(hex, slots, ch, env)[ch.source] == slots[ch.source]
  {
    forall d | d in slots
      ensures slots[d].Copy? && RepairedSlot(hex, slots, ch, env, d).Copy?
      ensures RepairedSlot(hex, slots, ch, env, d).data == slots[d].data
    {
      RestoreSlot(hex, slots, ch, env, d);
    }
    RestoreSlot(hex, slots, ch, env, ch.source);
    forall d ensures d in Unlabelled(Repaired(hex, slots, ch, env)) <==>
                     d == ch.source && slots[d].labels.version.Garbled?
    {
      RestoreUnlabelled(hex, slots, ch, env, d);
    }
  }

  lemma SkipSweep(hex: string -> string, slots: Slots, ch: Choice, env: Environment)
    requires Chosen(hex, slots, ch) && Kind(hex, slots, ch) == Skip
    ensures Repaired(hex, slots, ch, env) == slots
  {}

  lemma AgreeFacts(hex: string -> string, slots: Slots, ch: Choice, c: string)
    requires AllHold(hex, slots, c) && Chosen(hex, slots, ch)
    ensures ch == Choice(LowestOf(slots.Keys), c)
    ensures Targets(hex, slots, ch) == Unlabelled(slots) - {ch.source} && MissingFrom(slots) == {}
  {
    assert IsLowest(ch.source, slots.Keys);
    LowestUnique(ch.source, LowestOf(slots.Keys), slots.Keys);
  }

  /** From agreement, one sweep settles; a settled cluster is left alone. */
  lemma AgreeSettles(hex: string -> string, slots: Slots, ch: Choice, env: Environment)
    requires Chosen(hex, slots, ch) && slots.Keys <= env.writable && Agree(hex, slots)
    ensures Settled(hex, Repaired(hex, slots, ch, env))
    ensures Settled(hex, slots) ==> Kind(hex, slots, ch) == Skip && Repaired(hex, slots, ch, env) == slots
  {
    var c :| AllHold(hex, slots, c);
    AgreeFacts(hex, slots, ch, c);
    if Kind(hex, slots, ch) == Skip {
      SkipSweep(hex, slots, ch, env);
    } else {
      RestoreSweep(hex, slots, ch, env);
      assert AllHold(hex, Repaired(hex, slots, ch, env), c);
    }
  }

  // ---------------------------------------------------------- convergence

  /** The one situation two sweeps do not repair: every device has a copy, the
      copies differ, and the source carries a version label that is no number.
      Such a plan only rewrites labels, and it never rewrites the source's. */
  ghost predicate Jammed(hex: string -> string, slots: Slots, ch: Choice)
    requires Chosen(hex, slots, ch)
  {
    && MissingFrom(slots) == {}
    && Disagreeing(hex, slots, ch.checksum) != {}
    && slots[ch.source].labels.version.Garbled?
  }

  lemma ChosenAgree(hex: string -> string, slots: Slots, ch: Choice)
    requires Chosen(hex, slots, ch)
    ensures Agree(hex, slots) <==> MissingFrom(slots) == {} && Disagreeing(hex, slots, ch.checksum) == {}
  {
    if Agree(hex, slots) {
      var c :| AllHold(hex, slots, c);
      assert c == ch.checksum;
    }
    if MissingFrom(slots) == {} && Disagreeing(hex, slots, ch.checksum) == {} {
      forall d | d in slots ensures slots[d].Copy? && MirrorSum(hex, slots[d].data) == ch.checksum {
        assert d !in MissingFrom(slots) && d !in Disagreeing(hex, slots, ch.checksum);
      }
      assert AllHold(hex, slots, ch.checksum);
    }
  }

  lemma SameDataSameAgreement(hex: string -> string, slots: Slots, slots': Slots)
    requires SameData(slots, slots')
    ensures Agree(hex, slots) <==> Agree(hex, slots')
    ensures MissingFrom(slots) == MissingFrom(slots')
  {
    if Agree(hex, slots) {
      var c :| AllHold(hex, slots, c);
      assert AllHold(hex, slots', c);
    }
    if Agree(hex, slots') {
      var c :| AllHold(hex, slots', c);
      assert AllHold(hex, slots, c);
    }
  }

  /** All devices labelled: one sweep is enough. */
  lemma LabelledSettles(hex: string -> string, slots: Slots, ch: Choice, env: Environment)
    requires Chosen(hex, slots, ch) && slots.Keys <= env.writable && Unlabelled(slots) == {}
    ensures Settled(hex, Repaired(hex, slots, ch, env))
  {
    ChosenAgree(hex, slots, ch);
    if Kind(hex, slots, ch) == Skip {
      assert ch.source !in Disagreeing(hex, slots, ch.checksum) && ch.source !in MissingFrom(slots);
      AgreeSettles(hex, slots, ch, env);
    } else {
      CopySweep(hex, slots, ch, env);
      assert ch.source in Repaired(hex, slots, ch, env);
    }
  }

  /** Two sweeps settle the cluster exactly when it was not jammed. */
  lemma TwoRepairsConverge(hex: string -> string, slots: Slots, ch: Choice, first: Environment,
                           ch': Choice, second: Environment)
    requires Chosen(hex, slots, ch) && slots.Keys <= first.writable && slots.Keys <= second.writable
    requires Chosen(hex, Repaired(hex, slots, ch, first), ch')
    ensures Settled(hex, Repaired(hex, Repaired(hex, slots, ch, first), ch', second)) <==> !Jammed(hex, slots, ch)
  {
    var mid := Repaired(hex, slots, ch, first);
    assert ch.source !in Disagreeing(hex, slots, ch.checksum) && ch.source !in MissingFrom(slots);
    ChosenAgree(hex, slots, ch);
    if MissingFrom(slots) != {} {
      CopySweep(hex, slots, ch, first);
      AgreeSettles(hex, mid, ch', second);
    } else if Disagreeing(hex, slots, ch.checksum) == {} {
      AgreeSettles(hex, slots, ch, first);
      AgreeSettles(hex, mid, ch', second);
    } else if Unlabelled(slots) == {} {
      LabelledSettles(hex, slots, ch, first);
      AgreeSettles(hex, mid, ch', second);
    } else {
      RestoreSweep(hex, slots, ch, first);
      SameDataSameAgreement(hex, slots, mid);
      if Jammed(hex, slots, ch) {
        LabelSweep(hex, mid, ch', second);
        SameDataSameAgreement(hex, mid, Repaired(hex, mid, ch', second));
      } else {
        LabelledSettles(hex, mid, ch', second);
      }
    }
  }

  /** Nothing missing and something unlabelled: the sweep cannot touch data. */
  lemma LabelSweep(hex: string -> string, slots: Slots, ch: Choice, env: Environment)
    requires Chosen(hex, slots, ch) && slots.Keys <= env.writable
    requires MissingFrom(slots) == {} && Unlabelled(slots) != {}
    ensures SameData(slots, Repaired(hex, slots, ch, env))
  {
    if Kind(hex, slots, ch) == RestoreMetadata {
      RestoreSweep(hex, slots, ch, env);
    } else {
      SkipSweep(hex, slots, ch, env);
    }
  }

  /** A sweep, whatever fails during it, only ever copies data that was there. */
  lemma SweepInventsNothing(hex: string -> string, slots: Slots, env: Environment)
    ensures CopiedFrom(slots, Swept(hex, slots, env))
  {
    var after := Swept(hex, slots, env);
    forall d | d in slots && after[d].Copy? ensures HeldBy(slots, after[d].data) {
      var plan := PlanFor(InventoryOf(hex, slots, env));
      if plan.Some? && Starts(slots, plan.value, env) {
        assert after[d] == Written(slots, plan.value, env, d);
        assert after[d].data == slots[plan.value.source].data || (slots[d].Copy? && after[d].data == slots[d].data);
      }
    }
  }

  /** Whatever the devices hold in `after` was on some device in `slots`. */
  ghost predicate CopiedFrom(slots: Slots, after: Slots)
  {
    after.Keys == slots.Keys && forall d :: d in slots && after[d].Copy? ==> HeldBy(slots, after[d].data)
  }

  ghost predicate HeldBy(slots: Slots, data: SecretData)
  {
    exists e :: e in slots && slots[e].Copy? && slots[e].data == data
  }

  lemma RepairKeepsKeys(hex: string -> string, slots: Slots, ch: Choice, env: Environment)
    requires Chosen(hex, slots, ch)
    ensures Repaired(hex, slots, ch, env).Keys == slots.Keys && SomeCopy(Repaired(hex, slots, ch, env))
  {
    assert RepairedSlot(hex, slots, ch, env, ch.source).Copy?;
    assert Repaired(hex, slots, ch, env)[ch.source].Copy?;
  }

  /** Two sweeps in which every read and write succeeds settle a cluster
      exactly when it was not jammed at the start. */
  lemma TwoSweepsConverge(hex: string -> string, slots: Slots, first: Environment, second: Environment)
    requires AllSucceed(slots, first) && AllSucceed(slots, second) && SomeCopy(slots)
    ensures Settled(hex, Swept(hex, Swept(hex, slots, first), second)) <==>
            !Jammed(hex, slots, ChoiceOf(hex, slots, first.clock))
  {
    var ch := ChoiceOf(hex, slots, first.clock);
    SweptIsRepaired(hex, slots, first);
    RepairKeepsKeys(hex, slots, ch, first);
    var mid := Repaired(hex, slots, ch, first);
    SweptIsRepaired(hex, mid, second);
    TwoRepairsConverge(hex, slots, ch, first, ChoiceOf(hex, mid, second.clock), second);
  }

  /** The planner has nothing to do: Skip, without targets. */
  ghost predicate NothingPlanned(hex: string -> string, slots: Slots, env: Environment)
  {
    var plan := PlanFor(InventoryOf(hex, slots, env));
    plan.Some? && plan.value.kind == Skip && plan.value.targets == {}
  }

  lemma SettledSomeCopy(hex: string -> string, slots: Slots, env: Environment)
    requires AllSucceed(slots, env) && Settled(hex, slots)
    ensures SomeCopy(slots)
  {
    var c :| AllHold(hex, slots, c);
    var d :| d in slots;
    assert slots[d].Copy?;
  }

  /** A settled cluster is left as it is. */
  lemma SettledIsFinal(hex: string -> string, slots: Slots, env: Environment)
    requires AllSucceed(slots, env) && Settled(hex, slots)
    ensures NothingPlanned(hex, slots, env) && Swept(hex, slots, env) == slots
  {
    SettledSomeCopy(hex, slots, env);
    FullPlan(hex, slots, env);
    SweptIsRepaired(hex, slots, env);
    AgreeSettles(hex, slots, ChoiceOf(hex, slots, env.clock), env);
  }

  lemma HeldThrough(slots: Slots, mid: Slots, data: SecretData)
    requires HeldBy(mid, data)
    requires CopiedFrom(slots, mid)
    ensures HeldBy(slots, data)
  {
    var m :| m in mid && mid[m].Copy? && mid[m].data == data;
  }

  lemma TwoSweepsInventNothing(hex: string -> string, slots: Slots, first: Environment, second: Environment)
    ensures CopiedFrom(slots, Swept(hex, Swept(hex, slots, first), second))
  {
    SweepInventsNothing(hex, slots, first);
    var mid := Swept(hex, slots, first);
    SweepInventsNothing(hex, mid, second);
    var final := Swept(hex, mid, second);
    forall d | d in slots && final[d].Copy? ensures HeldBy(slots, final[d].data) {
      HeldThrough(slots, mid, final[d].data);
    }
  }

  /** Bounded convergence: two sweeps bring a cluster that is not jammed to one
      checksum held at the start; a third plans nothing and changes nothing. */
  lemma BoundedConvergence(hex: string -> string, slots: Slots, first: Environment, mid: Slots,
                           second: Environment, final: Slots, third: Environment)
    requires AllSucceed(slots, first) && AllSucceed(slots, second) && AllSucceed(slots, third)
    requires SomeCopy(slots) && !Jammed(hex, slots, ChoiceOf(hex, slots, first.clock))
    requires mid == Swept(hex, slots, first) && final == Swept(hex, mid, second)
    ensures Agree(hex, final) && CopiedFrom(slots, final)
    ensures NothingPlanned(hex, final, third) && Swept(hex, final, third) == final
  {
    TwoSweepsInventNothing(hex, slots, first, second);
    TwoSweepsConverge(hex, slots, first, second);
    FinalState(hex, slots, final, third);
  }

  lemma FinalState(hex: string -> string, slots: Slots, final: Slots, third: Environment)
    requires Settled(hex, final) && CopiedFrom(slots, final) && AllSucceed(slots, third)
    ensures Agree(hex, final) && NothingPlanned(hex, final, third) && Swept(hex, final, third) == final
  {
    SettledIsFinal(hex, final, third);
  }

  // ---------------------------------------------------------- jammed for good

  /** The data of a cluster after a sequence of sweeps. */
  ghost function SweptAll(hex: string -> string, slots: Slots, envs: seq<Environment>): Slots
  {
    if envs == [] then slots else SweptAll(hex, Swept(hex, slots, envs[0]), envs[1..])
  }

  /** The winner is held by a majority, so neither labels nor clocks matter. */
  ghost predicate MajorityHolds(hex: string -> string, slots: Slots, checksum: string)
  {
    |slots| >= 3 && 2 * |set d | d in slots && slots[d].Copy? && MirrorSum(hex, slots[d].data) == checksum| > |slots|
  }

  lemma MajorityChoice(hex: string -> string, slots: Slots, clock: string -> int, checksum: string)
    requires MajorityHolds(hex, slots, checksum) && SomeCopy(slots)
    ensures ChoiceOf(hex, slots, clock).checksum == checksum
  {
    var votes := SlotVotes(hex, slots, clock);
    assert Holders(votes, checksum) == set d | d in slots && slots[d].Copy?
      && MirrorSum(hex, slots[d].data) == checksum;
    SubsetSize(votes.Keys, slots.Keys);
    assert |votes| == |votes.Keys| && |slots| == |slots.Keys|;
    MajorityWins(votes, |slots|, checksum);
  }

  lemma TwoOfThree(hex: string -> string, slots: Slots, a: string, b: string, c: string)
    requires a != b && b != c && a != c && slots.Keys == {a, b, c} && slots[a].Copy? && slots[b].Copy?
    requires MirrorSum(hex, slots[a].data) == MirrorSum(hex, slots[b].data)
    ensures MajorityHolds(hex, slots, MirrorSum(hex, slots[a].data))
  {
    var holders := set d | d in slots && slots[d].Copy?
      && MirrorSum(hex, slots[d].data) == MirrorSum(hex, slots[a].data);
    SubsetSize({a, b}, holders);
    assert |{a, b}| == 2 && |slots| == |slots.Keys| == 3;
  }

  lemma SameChoice(hex: string -> string, slots: Slots, slots': Slots, ch: Choice, ch': Choice)
    requires SameData(slots, slots') && Chosen(hex, slots, ch) && Chosen(hex, slots', ch')
    requires ch.checksum == ch'.checksum
    ensures ch == ch'
  {
    assert LessEq(ch.source, ch'.source) && LessEq(ch'.source, ch.source);
    if ch.source != ch'.source { LessAsymmetric(ch.source, ch'.source); }
  }

  lemma SameDataSameMajority(hex: string -> string, slots: Slots, slots': Slots, c: string)
    requires SameData(slots, slots') && MajorityHolds(hex, slots, c)
    ensures MajorityHolds(hex, slots', c)
  {
    assert |slots| == |slots.Keys| && |slots'| == |slots'.Keys|;
    assert (set d | d in slots && slots[d].Copy? && MirrorSum(hex, slots[d].data) == c)
        == (set d | d in slots' && slots'[d].Copy? && MirrorSum(hex, slots'[d].data) == c);
  }

  /** Where the winner has a majority, a jammed cluster stays diverged however
      often it is swept: no sweep changes any data. */
  lemma {:induction false} JammedForever(hex: string -> string, slots: Slots, ch: Choice, envs: seq<Environment>)
    requires Chosen(hex, slots, ch) && Jammed(hex, slots, ch) && MajorityHolds(hex, slots, ch.checksum)
    requires forall i :: 0 <= i < |envs| ==> AllSucceed(slots, envs[i])
    ensures SameData(slots, SweptAll(hex, slots, envs)) && !Agree(hex, SweptAll(hex, slots, envs))
  {
    ChosenAgree(hex, slots, ch);
    if envs != [] {
      assert slots[ch.source].Copy?;
      var env := envs[0];
      SweptIsRepaired(hex, slots, env);
      MajorityChoice(hex, slots, env.clock, ch.checksum);
      SameChoice(hex, slots, slots, ch, ChoiceOf(hex, slots, env.clock));
      JammedStep(hex, slots, ch, env);
      var after := Repaired(hex, slots, ch, env);
      SameDataSameMajority(hex, slots, after, ch.checksum);
      JammedForever(hex, after, ch, envs[1..]);
    }
  }

  lemma JammedStep(hex: string -> string, slots: Slots, ch: Choice, env: Environment)
    requires Chosen(hex, slots, ch) && Jammed(hex, slots, ch) && slots.Keys <= env.writable
    ensures var after := Repaired(hex, slots, ch, env);
      SameData(slots, after) && Chosen(hex, after, ch) && Jammed(hex, after, ch)
  {
    var after := Repaired(hex, slots, ch, env);
    assert ch.source in Unlabelled(slots) && ch.source !in Disagreeing(hex, slots, ch.checksum);
    RestoreSweep(hex, slots, ch, env);
    assert Disagreeing(hex, after, ch.checksum) == Disagreeing(hex, slots, ch.checksum);
    assert MissingFrom(after) == MissingFrom(slots);
  }

  /** Two devices hold `x`, the lower one with a version label that is no number; the third holds `y`. */
  function JammedDevices(a: string, b: string, c: string, x: SecretData, y: SecretData): Slots
  {
    map[a := Copy(x, Labels(Garbled, Some(1), false)),
        b := Copy(x, Labels(Counter(1), Some(1), false)),
        c := Copy(y, Labels(Counter(1), Some(1), false))]
  }

  lemma JammedMajority(hex: string -> string, a: string, b: string, c: string, x: SecretData, y: SecretData)
    requires a != b && b != c && a != c && MirrorSum(hex, x) != MirrorSum(hex, y)
    ensures MajorityHolds(hex, JammedDevices(a, b, c, x, y), MirrorSum(hex, x))
    ensures JammedDevices(a, b, c, x, y).Keys == {a, b, c}
  {
    assert JammedDevices(a, b, c, x, y).Keys == {a, b, c};
    TwoOfThree(hex, JammedDevices(a, b, c, x, y), a, b, c);
  }

  lemma JammedChoice(hex: string -> string, a: string, b: string, c: string, x: SecretData, y: SecretData)
    requires Less(a, b) && a != b && b != c && a != c && MirrorSum(hex, x) != MirrorSum(hex, y)
    ensures Chosen(hex, JammedDevices(a, b, c, x, y), Choice(a, MirrorSum(hex, x)))
    ensures Jammed(hex, JammedDevices(a, b, c, x, y), Choice(a, MirrorSum(hex, x)))
  {
    var slots := JammedDevices(a, b, c, x, y);
    assert slots.Keys == {a, b, c};
    forall d | d in slots && slots[d].Copy? && MirrorSum(hex, slots[d].data) == MirrorSum(hex, x) ensures LessEq(a, d) {
      assert d == a || d == b;
    }
    JammedSets(hex, a, b, c, x, y);
  }

  lemma JammedSets(hex: string -> string, a: string, b: string, c: string, x: SecretData, y: SecretData)
    requires a != b && b != c && a != c && MirrorSum(hex, x) != MirrorSum(hex, y)
    ensures MissingFrom(JammedDevices(a, b, c, x, y)) == {}
    ensures c in Disagreeing(hex, JammedDevices(a, b, c, x, y), MirrorSum(hex, x))
  {}

  /** Such a cluster never comes to agree, though every read and write succeeds. */
  lemma JammedExample(hex: string -> string, a: string, b: string, c: string, x: SecretData, y: SecretData,
                      envs: seq<Environment>)
    requires Less(a, b) && b != c && a != c && MirrorSum(hex, x) != MirrorSum(hex, y)
    requires forall i :: 0 <= i < |envs| ==> AllSucceed(JammedDevices(a, b, c, x, y), envs[i])
    ensures !Agree(hex, SweptAll(hex, JammedDevices(a, b, c, x, y), envs))
  {
    LessIrreflexive(a);
    JammedMajority(hex, a, b, c, x, y);
    JammedChoice(hex, a, b, c, x, y);
    JammedForever(hex, JammedDevices(a, b, c, x, y), Choice(a, MirrorSum(hex, x)), envs);
  }
}
