/** Sweeps in which writes fail: the verdict stands and progress is kept. */
module MirrorStability {
  import opened ResolveLaws
  import opened Checksum
  import opened Replica
  import opened Mirror
  import opened MirrorConvergence

  /** Devices without a copy, or with one that differs from the winner. */
  ghost function Astray(hex: string -> string, slots: Slots, checksum: string): set<string>
  {
    MissingFrom(slots) + Disagreeing(hex, slots, checksum)
  }

  lemma LabelledTargets(hex: string -> string, slots: Slots, ch: Choice)
    requires FullyLabelled(slots) && Chosen(hex, slots, ch)
    ensures Targets(hex, slots, ch) == Astray(hex, slots, ch.checksum)
    ensures Kind(hex, slots, ch) != RestoreMetadata
  {
    assert Unlabelled(slots) == {};
    assert ch.source !in Astray(hex, slots, ch.checksum);
  }

  /** With every copy labelled, a sweep overwrites the astray devices it can
      write to and touches no other. */
  lemma LabelledSweep(hex: string -> string, slots: Slots, ch: Choice, env: Environment, d: string)
    requires FullyLabelled(slots) && Chosen(hex, slots, ch) && d in slots
    ensures Repaired(hex, slots, ch, env)[d] ==
      if d in Astray(hex, slots, ch.checksum) && d in env.writable
      then Copy(slots[ch.source].data, SyncLabels(slots[ch.source].labels, env.now))
      else slots[d]
  {
    LabelledTargets(hex, slots, ch);
  }

  lemma LabelledSweepState(hex: string -> string, slots: Slots, ch: Choice, env: Environment)
    requires FullyLabelled(slots) && Chosen(hex, slots, ch)
    ensures FullyLabelled(Repaired(hex, slots, ch, env))
    ensures Astray(hex, Repaired(hex, slots, ch, env), ch.checksum) == Astray(hex, slots, ch.checksum) - env.writable
  {
    var after := Repaired(hex, slots, ch, env);
    forall d | d in slots
      ensures after[d].Copy? ==> after[d].labels.version.Counter? && after[d].labels.time.Some?
      ensures d in Astray(hex, after, ch.checksum) <==> d in Astray(hex, slots, ch.checksum) && d !in env.writable
    {
      LabelledSweep(hex, slots, ch, env, d);
    }
    assert after.Keys == slots.Keys;
  }

  /** Labelled copies vote the same whenever they are read. */
  lemma ClockIrrelevant(hex: string -> string, slots: Slots, clock: string -> int, clock': string -> int)
    requires FullyLabelled(slots)
    ensures SlotVotes(hex, slots, clock) == SlotVotes(hex, slots, clock')
  {}

  lemma SweepVotes(hex: string -> string, slots: Slots, ch: Choice, env: Environment)
    requires FullyLabelled(slots) && Chosen(hex, slots, ch)
    ensures var votes, votes' :=
        SlotVotes(hex, slots, env.clock), SlotVotes(hex, Repaired(hex, slots, ch, env), env.clock);
      && votes.Keys <= votes'.Keys
      && (forall d :: d in votes' ==> votes'[d].checksum == ch.checksum || (d in votes && votes'[d] == votes[d]))
      && (forall d :: d in votes && votes[d].checksum == ch.checksum ==> d in votes' && votes'[d] == votes[d])
  {
    var after := Repaired(hex, slots, ch, env);
    forall d | d in slots
      ensures slots[d].Copy? ==> after[d].Copy?
      ensures after[d] == slots[d] || (after[d].Copy? && MirrorSum(hex, after[d].data) == ch.checksum)
      ensures slots[d].Copy? && MirrorSum(hex, slots[d].data) == ch.checksum ==> after[d] == slots[d]
    {
      LabelledSweep(hex, slots, ch, env, d);
    }
  }

  /** One sweep in which an arbitrary set of writes fails: the resolver will
      choose the same content again, every copy stays labelled, and exactly the
      astray devices that could be written are no longer astray. */
  lemma VerdictStable(hex: string -> string, slots: Slots, env: Environment, clock: string -> int)
    requires Responds(slots, env) && SomeCopy(slots) && FullyLabelled(slots)
    ensures var c, after := ChoiceOf(hex, slots, env.clock).checksum, Swept(hex, slots, env);
      && after.Keys == slots.Keys && SomeCopy(after) && FullyLabelled(after)
      && ChoiceOf(hex, after, clock).checksum == c
      && Astray(hex, after, c) == Astray(hex, slots, c) - env.writable
  {
    var ch := ChoiceOf(hex, slots, env.clock);
    var after := Repaired(hex, slots, ch, env);
    SweptIsRepaired(hex, slots, env);
    RepairKeepsKeys(hex, slots, ch, env);
    LabelledSweepState(hex, slots, ch, env);
    SweepVotes(hex, slots, ch, env);
    var votes, votes' := SlotVotes(hex, slots, env.clock), SlotVotes(hex, after, env.clock);
    VotersExist(hex, slots, env.clock);
    SubsetSize(votes'.Keys, after.Keys);
    assert |votes'| == |votes'.Keys| && |slots| == |slots.Keys| && |after| == |after.Keys|;
    ConvertsKeepWinner(votes, votes', |slots|);
    ClockIrrelevant(hex, after, env.clock, clock);
  }

  ghost function Reached(envs: seq<Environment>): set<string>
  {
    if envs == [] then {} else envs[0].writable + Reached(envs[1..])
  }

  /** Any run of sweeps, each failing to write where it will: the winner of the
      first is the winner of all, and the devices still astray at the end are
      those no sweep could write to.  So the cluster converges as soon as every
      astray device has been reachable once. */
  lemma {:induction false} RetriesConverge(hex: string -> string, slots: Slots, envs: seq<Environment>,
                                           clock: string -> int)
    requires SomeCopy(slots) && FullyLabelled(slots)
    requires forall i :: 0 <= i < |envs| ==> Responds(slots, envs[i])
    ensures var c, final := ChoiceOf(hex, slots, clock).checksum, SweptAll(hex, slots, envs);
      && SomeCopy(final) && FullyLabelled(final) && ChoiceOf(hex, final, clock).checksum == c
      && Astray(hex, final, c) == Astray(hex, slots, c) - Reached(envs)
  {
    if envs != [] {
      RetryStep(hex, slots, envs[0], clock);
      var after := Swept(hex, slots, envs[0]);
      StillResponds(slots, after, envs);
      RetriesConverge(hex, after, envs[1..], clock);
      ReachedStep(Astray(hex, slots, ChoiceOf(hex, slots, clock).checksum), envs);
    }
  }

  lemma RetryStep(hex: string -> string, slots: Slots, env: Environment, clock: string -> int)
    requires Responds(slots, env) && SomeCopy(slots) && FullyLabelled(slots)
    ensures var c, after := ChoiceOf(hex, slots, clock).checksum, Swept(hex, slots, env);
      && after.Keys == slots.Keys && SomeCopy(after) && FullyLabelled(after)
      && ChoiceOf(hex, after, clock).checksum == c
      && Astray(hex, after, c) == Astray(hex, slots, c) - env.writable
  {
    ClockIrrelevant(hex, slots, clock, env.clock);
    VerdictStable(hex, slots, env, clock);
  }

  lemma StillResponds(slots: Slots, after: Slots, envs: seq<Environment>)
    requires envs != [] && after.Keys == slots.Keys && forall i :: 0 <= i < |envs| ==> Responds(slots, envs[i])
    ensures forall i :: 0 <= i < |envs[1..]| ==> Responds(after, envs[1..][i])
  {
    forall i | 0 <= i < |envs[1..]| ensures Responds(after, envs[1..][i]) { assert Responds(slots, envs[i + 1]); }
  }

  lemma ReachedStep(astray: set<string>, envs: seq<Environment>)
    requires envs != []
    ensures astray - envs[0].writable - Reached(envs[1..]) == astray - Reached(envs)
  {}

  /** No device astray means the copies agree. */
  lemma NoneAstrayAgree(hex: string -> string, slots: Slots, clock: string -> int)
    requires SomeCopy(slots)
    ensures Astray(hex, slots, ChoiceOf(hex, slots, clock).checksum) == {} <==> Agree(hex, slots)
  {
    ChosenAgree(hex, slots, ChoiceOf(hex, slots, clock));
  }
}
