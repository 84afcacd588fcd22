/** When the verdict depends on the moment a device is read.

A copy without a timestamp votes with the time of its own inventory, so the
clocks can decide which copy is newest.
*/
module MirrorClocks {
  import opened GoStrings
  import opened Resolve
  import opened Checksum
  import opened Replica
  import opened MirrorConvergence

  /** The verdict is the same whatever the clocks show. */
  ghost predicate ClockFree(hex: string -> string, slots: Slots)
    requires SomeCopy(slots)
  {
    forall clock, clock' :: ChoiceOf(hex, slots, clock).checksum == ChoiceOf(hex, slots, clock').checksum
  }

  ghost predicate HasMajority(hex: string -> string, slots: Slots)
  {
    exists c :: MajorityHolds(hex, slots, c)
  }

  /** A copy at the highest version. */
  ghost predicate AtTop(slots: Slots, d: string)
  {
    d in slots && slots[d].Copy? &&
    forall e :: e in slots && slots[e].Copy? ==> MetadataVersion(slots[e].labels) <= MetadataVersion(slots[d].labels)
  }

  ghost predicate Untimed(slots: Slots, d: string)
  {
    AtTop(slots, d) && slots[d].labels.time.None?
  }

  ghost predicate Timed(slots: Slots, d: string)
  {
    AtTop(slots, d) && slots[d].labels.time.Some?
  }

  /** The newest of the copies at the highest version that carry a timestamp. */
  ghost predicate LatestTimed(slots: Slots, d: string)
  {
    Timed(slots, d) && forall e :: Timed(slots, e) && e != d ==> Precedes(slots, e, d)
  }

  ghost predicate Precedes(slots: Slots, e: string, d: string)
    requires Timed(slots, e) && Timed(slots, d)
  {
    var t, t' := slots[e].labels.time.value, slots[d].labels.time.value;
    t < t' || (t == t' && Less(d, e))
  }

  ghost predicate Candidate(slots: Slots, d: string)
  {
    Untimed(slots, d) || LatestTimed(slots, d)
  }

  /** Whichever candidate is newest, it has the same content. */
  ghost predicate CandidatesAgree(hex: string -> string, slots: Slots)
  {
    forall a, b :: Candidate(slots, a) && Candidate(slots, b) ==>
      MirrorSum(hex, slots[a].data) == MirrorSum(hex, slots[b].data)
  }

  // -------------------------------------------- candidates are what can win

  lemma NewestIsCandidate(hex: string -> string, slots: Slots, clock: string -> int)
    requires SlotVotes(hex, slots, clock).Keys != {}
    ensures Candidate(slots, Newest(SlotVotes(hex, slots, clock)))
  {
    var votes := SlotVotes(hex, slots, clock);
    var w := Newest(votes);
    forall e | e in slots && slots[e].Copy?
      ensures MetadataVersion(slots[e].labels) <= MetadataVersion(slots[w].labels)
    {
      assert e in votes;
    }
    assert AtTop(slots, w);
    if Timed(slots, w) {
      forall e | Timed(slots, e) && e != w ensures Precedes(slots, e, w) {
        assert e in votes && Beats(w, votes[w], e, votes[e]);
      }
    }
  }

  /** A number beyond every timestamp, on both sides. */
  lemma {:induction false} BeyondAll(slots: Slots) returns (b: int)
    ensures b > 0
    ensures forall d :: d in slots && slots[d].Copy? && slots[d].labels.time.Some? ==>
      -b < slots[d].labels.time.value < b
    decreases |slots|
  {
    if slots.Keys == {} {
      b := 1;
    } else {
      var d :| d in slots;
      var rest := slots - {d};
      var below := BeyondAll(rest);
      b := below;
      if slots[d].Copy? && slots[d].labels.time.Some? {
        var t := slots[d].labels.time.value;
        b := below + 1 + if t < 0 then -t else t;
      }
      forall e | e in slots && e != d && slots[e].Copy? && slots[e].labels.time.Some?
        ensures -b < slots[e].labels.time.value < b
      {
        assert e in rest && rest[e] == slots[e];
      }
    }
  }

  ghost function Favouring(slots: Slots, a: string, b: int): string -> int
  {
    d => if d == a && Untimed(slots, a) then b else -b
  }

  lemma FavouredBeats(hex: string -> string, slots: Slots, a: string, b: int, x: string)
    requires Candidate(slots, a) && x in slots && slots[x].Copy? && x != a && b > 0
    requires forall d :: d in slots && slots[d].Copy? && slots[d].labels.time.Some? ==>
      -b < slots[d].labels.time.value < b
    ensures var votes := SlotVotes(hex, slots, Favouring(slots, a, b));
      a in votes && x in votes && Beats(a, votes[a], x, votes[x])
  {
    if MetadataVersion(slots[x].labels) == MetadataVersion(slots[a].labels) {
      assert AtTop(slots, x);
      if slots[x].labels.time.Some? && LatestTimed(slots, a) { assert Precedes(slots, x, a); }
    }
  }

  /** Every candidate is the newest copy under some clock. */
  lemma CandidateWins(hex: string -> string, slots: Slots, a: string) returns (clock: string -> int)
    requires Candidate(slots, a)
    ensures SlotVotes(hex, slots, clock).Keys != {} && Newest(SlotVotes(hex, slots, clock)) == a
  {
    var b := BeyondAll(slots);
    clock := Favouring(slots, a, b);
    var votes := SlotVotes(hex, slots, clock);
    assert a in votes;
    forall x | x in votes && x != a ensures Beats(a, votes[a], x, votes[x]) { FavouredBeats(hex, slots, a, b, x); }
    NewestUnique(votes, a, Newest(votes));
  }

  // ------------------------------------------------------ the exact condition

  lemma NoMajorityChoice(hex: string -> string, slots: Slots, clock: string -> int)
    requires SomeCopy(slots) && !HasMajority(hex, slots)
    ensures var votes := SlotVotes(hex, slots, clock);
      votes.Keys != {} && ChoiceOf(hex, slots, clock).checksum == votes[Newest(votes)].checksum
  {
    var votes := SlotVotes(hex, slots, clock);
    VotersExist(hex, slots, clock);
    if |slots| >= 3 {
      forall d | d in votes ensures !IsMajority(votes, |slots|, votes[d].checksum) {
        var c := votes[d].checksum;
        assert !MajorityHolds(hex, slots, c);
        assert Holders(votes, c) == set e | e in slots && slots[e].Copy? && MirrorSum(hex, slots[e].data) == c;
      }
    }
  }

  lemma AgreeingClockFree(hex: string -> string, slots: Slots)
    requires SomeCopy(slots) && !HasMajority(hex, slots) && CandidatesAgree(hex, slots)
    ensures ClockFree(hex, slots)
  {
    forall clock, clock'
      ensures ChoiceOf(hex, slots, clock).checksum == ChoiceOf(hex, slots, clock').checksum
    {
      NoMajorityChoice(hex, slots, clock);
      NoMajorityChoice(hex, slots, clock');
      NewestIsCandidate(hex, slots, clock);
      NewestIsCandidate(hex, slots, clock');
    }
  }

  lemma DisagreeingClockBound(hex: string -> string, slots: Slots, a: string, b: string)
    requires SomeCopy(slots) && !HasMajority(hex, slots) && Candidate(slots, a) && Candidate(slots, b)
    requires MirrorSum(hex, slots[a].data) != MirrorSum(hex, slots[b].data)
    ensures !ClockFree(hex, slots)
  {
    var clock := CandidateWins(hex, slots, a);
    var clock' := CandidateWins(hex, slots, b);
    NoMajorityChoice(hex, slots, clock);
    NoMajorityChoice(hex, slots, clock');
  }

  /** The verdict does not depend on when devices are read if and only if some content has a majority, or
  the copies at the highest version that could be newest, those without a timestamp and the latest
  of the others, all hold the same content. */
  lemma ClockFreeIff(hex: string -> string, slots: Slots)
    requires SomeCopy(slots)
    ensures ClockFree(hex, slots) <==> HasMajority(hex, slots) || CandidatesAgree(hex, slots)
  {
    if HasMajority(hex, slots) {
      var c :| MajorityHolds(hex, slots, c);
      forall clock ensures ChoiceOf(hex, slots, clock).checksum == c { MajorityChoice(hex, slots, clock, c); }
    } else if CandidatesAgree(hex, slots) {
      AgreeingClockFree(hex, slots);
    } else {
      var a, b :| Candidate(slots, a) && Candidate(slots, b)
        && MirrorSum(hex, slots[a].data) != MirrorSum(hex, slots[b].data);
      DisagreeingClockBound(hex, slots, a, b);
    }
  }

  // ------------------------------------------------------------ a case of it

  /** A clock that reads the given device last. */
  function ReadsLast(d: string): string -> int
  {
    e => if e == d then 1 else 0
  }

  function TwoUnlabelled(x: SecretData, y: SecretData): Slots
  {
    map["a" := Copy(x, NO_LABELS), "b" := Copy(y, NO_LABELS)]
  }

  lemma TwoCopies(x: SecretData, y: SecretData)
    ensures SomeCopy(TwoUnlabelled(x, y)) && TwoUnlabelled(x, y).Keys == {"a", "b"}
  {
    assert TwoUnlabelled(x, y)["a"].Copy?;
  }

  /** Without timestamps the verdict can flip between sweeps: two copies with no
      labels, on two devices, are decided by the moment each is read. */
  lemma UnlabelledVerdictFlips(hex: string -> string, x: SecretData, y: SecretData)
    requires MirrorSum(hex, x) != MirrorSum(hex, y)
    ensures SomeCopy(TwoUnlabelled(x, y))
    ensures ChoiceOf(hex, TwoUnlabelled(x, y), ReadsLast("a")).checksum == MirrorSum(hex, x)
    ensures ChoiceOf(hex, TwoUnlabelled(x, y), ReadsLast("b")).checksum == MirrorSum(hex, y)
  {
    TwoCopies(x, y);
    FlipCase(hex, TwoUnlabelled(x, y), "a", "b", ReadsLast("a"));
    FlipCase(hex, TwoUnlabelled(x, y), "b", "a", ReadsLast("b"));
  }

  lemma FlipCase(hex: string -> string, slots: Slots, newer: string, older: string, clock: string -> int)
    requires newer != older && slots.Keys == {newer, older} && clock(newer) > clock(older)
    requires slots[newer].Copy? && slots[older].Copy? && SomeCopy(slots)
    requires slots[newer].labels == NO_LABELS && slots[older].labels == NO_LABELS
    ensures ChoiceOf(hex, slots, clock).checksum == MirrorSum(hex, slots[newer].data)
  {
    var votes := SlotVotes(hex, slots, clock);
    assert votes.Keys == {newer, older};
    assert |slots| == |slots.Keys| == 2;
    assert IsNewest(votes, newer);
    NewestUnique(votes, newer, Newest(votes));
  }
}
