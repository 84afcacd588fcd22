/** Whether a jammed cluster can ever settle.

A jammed cluster keeps its data, and each sweep stamps version 1 on the outliers.
So the winner stays the winner for good if a majority holds it or one of its
copies has a version above 1.  Otherwise a later stamp makes an outlier the
newest copy, the verdict moves to labelled copies, and the cluster settles.
*/
module MirrorJams {
  import opened Resolve
  import opened Checksum
  import opened Replica
  import opened Mirror
  import opened MirrorConvergence
  import opened MirrorClocks

  /** Some copy of the content has a version of 2 or more. */
  ghost predicate HeldAbove(hex: string -> string, slots: Slots, c: string)
  {
    exists d :: HoldsSum(hex, slots, c, d) && MetadataVersion(slots[d].labels) >= 2
  }

  ghost predicate Entrenched(hex: string -> string, slots: Slots, c: string)
  {
    MajorityHolds(hex, slots, c) || HeldAbove(hex, slots, c)
  }

  /** No content but `c` has a majority. */
  ghost predicate NoOtherMajority(hex: string -> string, slots: Slots, c: string)
  {
    forall x :: MajorityHolds(hex, slots, x) ==> x == c
  }

  lemma ChosenNoOther(hex: string -> string, slots: Slots, clock: string -> int)
    requires SomeCopy(slots)
    ensures NoOtherMajority(hex, slots, ChoiceOf(hex, slots, clock).checksum)
  {
    forall x | MajorityHolds(hex, slots, x) ensures x == ChoiceOf(hex, slots, clock).checksum {
      MajorityChoice(hex, slots, clock, x);
    }
  }

  lemma SameDataNoOther(hex: string -> string, slots: Slots, slots': Slots, c: string)
    requires SameData(slots, slots') && NoOtherMajority(hex, slots, c)
    ensures NoOtherMajority(hex, slots', c)
  {
    forall x | MajorityHolds(hex, slots', x) ensures x == c {
      SameDataSameMajority(hex, slots', slots, x);
    }
  }

  /** Then the verdict is `c` or the content of the newest copy; without any majority it is the latter. */
  lemma NewestDecides(hex: string -> string, slots: Slots, clock: string -> int, c: string)
    requires SomeCopy(slots) && NoOtherMajority(hex, slots, c)
    ensures SlotVotes(hex, slots, clock).Keys != {}
    ensures var votes := SlotVotes(hex, slots, clock);
      ChoiceOf(hex, slots, clock).checksum == if MajorityHolds(hex, slots, c) then c else votes[Newest(votes)].checksum
  {
    VotersExist(hex, slots, clock);
    if MajorityHolds(hex, slots, c) {
      MajorityChoice(hex, slots, clock, c);
    } else {
      NoMajorities(hex, slots, clock, c);
    }
  }

  lemma NoMajorities(hex: string -> string, slots: Slots, clock: string -> int, c: string)
    requires NoOtherMajority(hex, slots, c) && !MajorityHolds(hex, slots, c)
    ensures |slots| >= 3 ==> Majorities(SlotVotes(hex, slots, clock), |slots|) == {}
  {
    var votes := SlotVotes(hex, slots, clock);
    if |slots| >= 3 {
      forall d | d in votes ensures !IsMajority(votes, |slots|, votes[d].checksum) {
        var x := votes[d].checksum;
        assert !MajorityHolds(hex, slots, x);
        assert Holders(votes, x) == set e | e in slots && slots[e].Copy? && MirrorSum(hex, slots[e].data) == x;
      }
    }
  }

  // -------------------------------------------------------- what a sweep leaves

  /** The copies of other content are all stamped with version 1 at time `t`. */
  ghost predicate OthersStamped(hex: string -> string, slots: Slots, c: string, t: int)
  {
    forall d :: d in Disagreeing(hex, slots, c) ==> slots[d].labels == Labels(Counter(1), Some(t), false)
  }

  ghost predicate OthersLow(hex: string -> string, slots: Slots, c: string)
  {
    forall d :: d in Disagreeing(hex, slots, c) ==> MetadataVersion(slots[d].labels) <= 1
  }

  lemma JamSlot(hex: string -> string, slots: Slots, ch: Choice, env: Environment, d: string)
    requires Chosen(hex, slots, ch) && Jammed(hex, slots, ch) && slots.Keys <= env.writable && d in slots
    ensures RepairedSlot(hex, slots, ch, env, d) ==
      if d in Targets(hex, slots, ch) then Copy(slots[d].data, Labels(Counter(1), Some(env.now), false)) else slots[d]
  {
    assert ch.source in Unlabelled(slots) && ch.source !in Disagreeing(hex, slots, ch.checksum);
    assert d !in MissingFrom(slots);
  }

  lemma JamAt(hex: string -> string, slots: Slots, ch: Choice, env: Environment, d: string)
    requires Chosen(hex, slots, ch) && Jammed(hex, slots, ch) && slots.Keys <= env.writable && d in slots
    ensures var after := Repaired(hex, slots, ch, env);
      && after[d].Copy? && slots[d].Copy? && after[d].data == slots[d].data
      && (MirrorSum(hex, slots[d].data) != ch.checksum ==> after[d].labels == Labels(Counter(1), Some(env.now), false))
      && (MirrorSum(hex, slots[d].data) == ch.checksum ==>
            if slots[d].labels.version.Counter? || d == ch.source then after[d] == slots[d]
            else after[d].labels == Labels(Counter(1), Some(env.now), false))
  {
    JamSlot(hex, slots, ch, env, d);
    assert d !in MissingFrom(slots);
    assert d in Targets(hex, slots, ch) <==>
      d != ch.source && (d in Unlabelled(slots) || d in Disagreeing(hex, slots, ch.checksum));
  }

  /** A sweep of a jammed cluster stamps the others; only the source is left without a version. */
  lemma JamStamps(hex: string -> string, slots: Slots, ch: Choice, env: Environment)
    requires Chosen(hex, slots, ch) && Jammed(hex, slots, ch) && slots.Keys <= env.writable
    ensures OthersStamped(hex, Repaired(hex, slots, ch, env), ch.checksum, env.now)
    ensures Unlabelled(Repaired(hex, slots, ch, env)) == {ch.source}
  {
    var after := Repaired(hex, slots, ch, env);
    forall d | d in Disagreeing(hex, after, ch.checksum)
      ensures after[d].labels == Labels(Counter(1), Some(env.now), false)
    {
      JamAt(hex, slots, ch, env, d);
    }
    forall d ensures d in Unlabelled(after) <==> d == ch.source {
      if d in slots { JamAt(hex, slots, ch, env, d); }
    }
  }

  // ------------------------------------------------------------- jammed for good

  lemma AboveIsNewest(hex: string -> string, slots: Slots, clock: string -> int, c: string)
    requires SlotVotes(hex, slots, clock).Keys != {} && HeldAbove(hex, slots, c) && OthersLow(hex, slots, c)
    ensures var votes := SlotVotes(hex, slots, clock); votes[Newest(votes)].checksum == c
  {
    var votes := SlotVotes(hex, slots, clock);
    var d :| HoldsSum(hex, slots, c, d) && MetadataVersion(slots[d].labels) >= 2;
    assert d in votes && votes[d].version >= 2;
    var n := Newest(votes);
    assert votes[n].version >= 2;
    assert n !in Disagreeing(hex, slots, c);
  }

  lemma AboveChoice(hex: string -> string, slots: Slots, clock: string -> int, ch: Choice)
    requires Chosen(hex, slots, ch) && NoOtherMajority(hex, slots, ch.checksum)
    requires HeldAbove(hex, slots, ch.checksum) && OthersLow(hex, slots, ch.checksum)
    ensures SomeCopy(slots) && ChoiceOf(hex, slots, clock) == ch
  {
    assert slots[ch.source].Copy?;
    NewestDecides(hex, slots, clock, ch.checksum);
    AboveIsNewest(hex, slots, clock, ch.checksum);
    SameChoice(hex, slots, slots, ch, ChoiceOf(hex, slots, clock));
  }

  lemma AboveStep(hex: string -> string, slots: Slots, ch: Choice, env: Environment)
    requires Chosen(hex, slots, ch) && Jammed(hex, slots, ch) && slots.Keys <= env.writable
    requires HeldAbove(hex, slots, ch.checksum)
    ensures HeldAbove(hex, Repaired(hex, slots, ch, env), ch.checksum)
    ensures OthersLow(hex, Repaired(hex, slots, ch, env), ch.checksum)
  {
    JamStamps(hex, slots, ch, env);
    var d :| HoldsSum(hex, slots, ch.checksum, d) && MetadataVersion(slots[d].labels) >= 2;
    JamAt(hex, slots, ch, env, d);
    assert HoldsSum(hex, Repaired(hex, slots, ch, env), ch.checksum, d);
  }

  /** With a copy of the winner above version 1 and no other above it, no number of sweeps brings agreement. */
  lemma {:induction false} JammedByVersion(hex: string -> string, slots: Slots, ch: Choice, envs: seq<Environment>)
    requires Chosen(hex, slots, ch) && Jammed(hex, slots, ch) && NoOtherMajority(hex, slots, ch.checksum)
    requires HeldAbove(hex, slots, ch.checksum) && OthersLow(hex, slots, ch.checksum)
    requires forall i :: 0 <= i < |envs| ==> AllSucceed(slots, envs[i])
    ensures SameData(slots, SweptAll(hex, slots, envs)) && !Agree(hex, SweptAll(hex, slots, envs))
  {
    ChosenAgree(hex, slots, ch);
    if envs != [] {
      var env, after := envs[0], Repaired(hex, slots, ch, envs[0]);
      AboveChoice(hex, slots, env.clock, ch);
      SweptIsRepaired(hex, slots, env);
      JammedStep(hex, slots, ch, env);
      AboveStep(hex, slots, ch, env);
      SameDataNoOther(hex, slots, after, ch.checksum);
      JammedByVersion(hex, after, ch, envs[1..]);
    }
  }

  /** An entrenched winner of the first sweep: neither that sweep nor any later one brings agreement. */
  lemma EntrenchedForever(hex: string -> string, slots: Slots, ch: Choice, first: Environment, rest: seq<Environment>)
    requires AllSucceed(slots, first) && SomeCopy(slots) && ch == ChoiceOf(hex, slots, first.clock)
    requires Jammed(hex, slots, ch) && Entrenched(hex, slots, ch.checksum)
    requires forall i :: 0 <= i < |rest| ==> AllSucceed(slots, rest[i])
    ensures !Agree(hex, SweptAll(hex, slots, [first] + rest))
  {
    var mid := Repaired(hex, slots, ch, first);
    SweptIsRepaired(hex, slots, first);
    JammedStep(hex, slots, ch, first);
    assert ([first] + rest)[1..] == rest;
    if MajorityHolds(hex, slots, ch.checksum) {
      SameDataSameMajority(hex, slots, mid, ch.checksum);
      JammedForever(hex, mid, ch, rest);
    } else {
      ChosenNoOther(hex, slots, first.clock);
      SameDataNoOther(hex, slots, mid, ch.checksum);
      AboveStep(hex, slots, ch, first);
      JammedByVersion(hex, mid, ch, rest);
    }
  }

  // ------------------------------------------------------------- when it lets go

  /** At version 1 every copy of the winner votes with a time before `t`. */
  ghost predicate Early(hex: string -> string, slots: Slots, c: string, t: int, clock: string -> int)
  {
    forall d :: HoldsSum(hex, slots, c, d) ==>
      MetadataVersion(slots[d].labels) <= 1 &&
      (MetadataVersion(slots[d].labels) == 1 ==>
        (if slots[d].labels.time.Some? then slots[d].labels.time.value else clock(d)) < t)
  }

  /** Others stamped later than every copy of the winner: one of them is chosen. */
  lemma OthersWin(hex: string -> string, slots: Slots, clock: string -> int, c: string, t: int)
    requires SomeCopy(slots) && NoOtherMajority(hex, slots, c) && !MajorityHolds(hex, slots, c)
    requires Disagreeing(hex, slots, c) != {} && OthersStamped(hex, slots, c, t) && Early(hex, slots, c, t, clock)
    ensures ChoiceOf(hex, slots, clock).checksum != c
  {
    NewestDecides(hex, slots, clock, c);
    var votes := SlotVotes(hex, slots, clock);
    var n := Newest(votes);
    var d :| d in Disagreeing(hex, slots, c);
    assert d in votes && votes[d].version == 1 && votes[d].timestamp == t;
    assert votes[n].checksum == c ==> HoldsSum(hex, slots, c, n);
    assert n == d || Beats(n, votes[n], d, votes[d]);
  }

  /** Once other content is chosen its source is labelled, so the sweep labels everything. */
  lemma SwitchSweep(hex: string -> string, slots: Slots, c: string, t: int, ch: Choice, env: Environment)
    requires Chosen(hex, slots, ch) && ch.checksum != c && OthersStamped(hex, slots, c, t)
    requires MissingFrom(slots) == {} && Unlabelled(slots) != {} && slots.Keys <= env.writable
    ensures Unlabelled(Repaired(hex, slots, ch, env)) == {}
  {
    assert ch.source in Disagreeing(hex, slots, c);
    var u :| u in Unlabelled(slots);
    assert u in Targets(hex, slots, ch);
    RestoreSweep(hex, slots, ch, env);
  }

  lemma LabelledThenSettled(hex: string -> string, slots: Slots, env: Environment)
    requires AllSucceed(slots, env) && SomeCopy(slots) && Unlabelled(slots) == {}
    ensures Settled(hex, Swept(hex, slots, env)) && Swept(hex, slots, env).Keys == slots.Keys
  {
    SweptIsRepaired(hex, slots, env);
    LabelledSettles(hex, slots, ChoiceOf(hex, slots, env.clock), env);
  }

  /** A jammed cluster after its first sweep. */
  ghost predicate Loose(hex: string -> string, slots: Slots, ch: Choice, t: int)
  {
    && Chosen(hex, slots, ch) && Jammed(hex, slots, ch)
    && NoOtherMajority(hex, slots, ch.checksum) && !MajorityHolds(hex, slots, ch.checksum)
    && OthersStamped(hex, slots, ch.checksum, t) && Unlabelled(slots) == {ch.source}
  }

  lemma LooseStep(hex: string -> string, slots: Slots, ch: Choice, t: int, env: Environment, clock: string -> int)
    requires Loose(hex, slots, ch, t) && slots.Keys <= env.writable && Early(hex, slots, ch.checksum, env.now, clock)
    ensures Loose(hex, Repaired(hex, slots, ch, env), ch, env.now)
    ensures Early(hex, Repaired(hex, slots, ch, env), ch.checksum, env.now, clock)
  {
    var after := Repaired(hex, slots, ch, env);
    JammedStep(hex, slots, ch, env);
    JamStamps(hex, slots, ch, env);
    SameDataNoOther(hex, slots, after, ch.checksum);
    if MajorityHolds(hex, after, ch.checksum) { SameDataSameMajority(hex, after, slots, ch.checksum); }
    forall d | HoldsSum(hex, after, ch.checksum, d) ensures after[d] == slots[d] {
      JamAt(hex, slots, ch, env, d);
      assert slots[d].labels.version.Counter? || d in Unlabelled(slots);
    }
  }

  /** The sweep after the others were stamped last leaves everything labelled. */
  lemma LooseSwitches(hex: string -> string, slots: Slots, ch: Choice, t: int, env: Environment)
    requires Loose(hex, slots, ch, t) && AllSucceed(slots, env) && SomeCopy(slots)
    requires ChoiceOf(hex, slots, env.clock).checksum != ch.checksum
    ensures Swept(hex, slots, env).Keys == slots.Keys && SomeCopy(Swept(hex, slots, env))
    ensures Unlabelled(Swept(hex, slots, env)) == {}
  {
    var ch' := ChoiceOf(hex, slots, env.clock);
    SweptIsRepaired(hex, slots, env);
    RepairKeepsKeys(hex, slots, ch', env);
    SwitchSweep(hex, slots, ch.checksum, t, ch', env);
  }

  /** Three more sweeps settle it, if the first of them stamps a time later than any copy of the winner shows. */
  lemma LooseSettles(hex: string -> string, slots: Slots, ch: Choice, t: int,
                     second: Environment, third: Environment, fourth: Environment)
    requires Loose(hex, slots, ch, t) && Early(hex, slots, ch.checksum, second.now, third.clock)
    requires AllSucceed(slots, second) && AllSucceed(slots, third) && AllSucceed(slots, fourth)
    ensures Settled(hex, Swept(hex, Swept(hex, Swept(hex, slots, second), third), fourth))
  {
    assert slots[ch.source].Copy?;
    var mid := Swept(hex, slots, second);
    if ChoiceOf(hex, slots, second.clock).checksum == ch.checksum {
      SameChoice(hex, slots, slots, ch, ChoiceOf(hex, slots, second.clock));
      SweptIsRepaired(hex, slots, second);
      RepairKeepsKeys(hex, slots, ch, second);
      LooseStep(hex, slots, ch, t, second, third.clock);
      OthersWin(hex, mid, third.clock, ch.checksum, second.now);
      LooseSwitches(hex, mid, ch, second.now, third);
      LabelledThenSettled(hex, Swept(hex, mid, third), fourth);
    } else {
      LooseSwitches(hex, slots, ch, t, second);
      LabelledThenSettled(hex, mid, third);
      SettledIsFinal(hex, Swept(hex, mid, third), fourth);
    }
  }

  /** The first sweep of a jammed cluster whose winner is not entrenched. */
  lemma FirstLoosens(hex: string -> string, slots: Slots, ch: Choice, first: Environment)
    requires AllSucceed(slots, first) && SomeCopy(slots) && ch == ChoiceOf(hex, slots, first.clock)
    requires Jammed(hex, slots, ch) && !Entrenched(hex, slots, ch.checksum)
    ensures var mid := Swept(hex, slots, first);
      && mid.Keys == slots.Keys && Loose(hex, mid, ch, first.now)
      && forall d :: HoldsSum(hex, mid, ch.checksum, d) ==> MetadataVersion(mid[d].labels) <= 1
  {
    var mid := Repaired(hex, slots, ch, first);
    SweptIsRepaired(hex, slots, first);
    JammedStep(hex, slots, ch, first);
    JamStamps(hex, slots, ch, first);
    ChosenNoOther(hex, slots, first.clock);
    SameDataNoOther(hex, slots, mid, ch.checksum);
    if MajorityHolds(hex, mid, ch.checksum) { SameDataSameMajority(hex, mid, slots, ch.checksum); }
    forall d | HoldsSum(hex, mid, ch.checksum, d) ensures MetadataVersion(mid[d].labels) <= 1 {
      JamAt(hex, slots, ch, first, d);
      assert HoldsSum(hex, slots, ch.checksum, d);
    }
  }

  /** Sweeps in which everything succeeds, at times beyond any on the devices. */
  lemma LateSweep(slots: Slots) returns (env: Environment)
    ensures AllSucceed(slots, env)
    ensures forall d :: env.clock(d) < env.now
    ensures forall d :: d in slots && slots[d].Copy? && slots[d].labels.time.Some? ==>
      slots[d].labels.time.value < env.now
  {
    var b := BeyondAll(slots);
    var keys := slots.Keys;
    env := Environment(keys, keys, keys, keys, keys, keys, keys, d => 0, b);
  }

  /** Whatever sweeps follow the first, and however successful, the cluster does not settle. */
  ghost predicate NeverSettles(hex: string -> string, slots: Slots, first: Environment)
  {
    forall rest: seq<Environment> :: (forall i :: 0 <= i < |rest| ==> AllSucceed(slots, rest[i])) ==>
      !Settled(hex, SweptAll(hex, slots, [first] + rest))
  }

  lemma SweptCons(hex: string -> string, slots: Slots, env: Environment, rest: seq<Environment>)
    ensures SweptAll(hex, slots, [env] + rest) == SweptAll(hex, Swept(hex, slots, env), rest)
  {
    assert ([env] + rest)[1..] == rest;
  }

  lemma ThreeSweeps(hex: string -> string, slots: Slots, env: Environment)
    ensures SweptAll(hex, slots, [env, env, env]) == Swept(hex, Swept(hex, Swept(hex, slots, env), env), env)
  {
    assert [env, env, env] == [env] + [env, env] && [env, env] == [env] + [env] && [env] == [env] + [];
    SweptCons(hex, slots, env, [env, env]);
    SweptCons(hex, Swept(hex, slots, env), env, [env]);
    SweptCons(hex, Swept(hex, Swept(hex, slots, env), env), env, []);
  }

  lemma LooseLetsGo(hex: string -> string, slots: Slots, ch: Choice, t: int) returns (env: Environment)
    requires Loose(hex, slots, ch, t)
    requires forall d :: HoldsSum(hex, slots, ch.checksum, d) ==> MetadataVersion(slots[d].labels) <= 1
    ensures AllSucceed(slots, env) && Settled(hex, SweptAll(hex, slots, [env, env, env]))
  {
    env := LateSweep(slots);
    LooseSettles(hex, slots, ch, t, env, env, env);
    ThreeSweeps(hex, slots, env);
  }

  /** Sweeps that settle a jammed cluster whose winner is not entrenched. */
  lemma LetsGo(hex: string -> string, slots: Slots, first: Environment, mid: Slots, ch: Choice)
    returns (rest: seq<Environment>)
    requires mid == Swept(hex, slots, first) && mid.Keys == slots.Keys && Loose(hex, mid, ch, first.now)
    requires forall d :: HoldsSum(hex, mid, ch.checksum, d) ==> MetadataVersion(mid[d].labels) <= 1
    ensures forall i :: 0 <= i < |rest| ==> AllSucceed(slots, rest[i])
    ensures Settled(hex, SweptAll(hex, slots, [first] + rest))
  {
    var env := LooseLetsGo(hex, mid, ch, first.now);
    SameKeysSucceed(slots, mid, env);
    rest := [env, env, env];
    SweptCons(hex, slots, first, rest);
  }

  /** A jammed cluster never settles if and only if its winner has a majority or a copy above version 1. */
  lemma JammedForGoodIff(hex: string -> string, slots: Slots, first: Environment)
    requires AllSucceed(slots, first) && SomeCopy(slots) && Jammed(hex, slots, ChoiceOf(hex, slots, first.clock))
    ensures NeverSettles(hex, slots, first) <==> Entrenched(hex, slots, ChoiceOf(hex, slots, first.clock).checksum)
  {
    var ch := ChoiceOf(hex, slots, first.clock);
    if Entrenched(hex, slots, ch.checksum) {
      forall rest: seq<Environment> | forall i :: 0 <= i < |rest| ==> AllSucceed(slots, rest[i])
        ensures !Settled(hex, SweptAll(hex, slots, [first] + rest))
      {
        EntrenchedForever(hex, slots, ch, first, rest);
      }
    } else {
      FirstLoosens(hex, slots, ch, first);
      var rest := LetsGo(hex, slots, first, Swept(hex, slots, first), ch);
    }
  }
}
