/** How far a delete reaches.

A delete leaves tombstones of version 0, so that a copy which the delete missed
counts as newer; and the mirror neither looks at the mark nor passes it on.
*/
module Deletes {
  import Resolve
  import opened ResolveLaws
  import opened Checksum
  import opened Replica
  import opened Mirror
  import opened MirrorConvergence
  import opened MirrorFailures
  import opened ApiWrite
  import opened Readers

  // ---------------------------------------------------------------- reading

  ghost function LiveIn(copies: Reads): set<string>
  {
    set d | d in copies && !copies[d].labels.deleted
  }

  ghost function DeletedIn(copies: Reads): set<string>
  {
    set d | d in copies && copies[d].labels.deleted
  }

  /** Deletions have no version above 0, live copies have one. */
  ghost predicate DeletionsFirst(copies: Reads)
  {
    && (forall d :: d in LiveIn(copies) ==> VersionOf(copies[d]) >= 1)
    && (forall d :: d in DeletedIn(copies) ==> VersionOf(copies[d]) <= 0)
  }

  lemma LiveIsLast(hex: string -> string, copies: Reads, d: string)
    requires DeletionsFirst(copies) && LiveIn(copies) != {} && LastWritten(copies, d)
    ensures ContentOf(hex, copies[d]).Live?
  {
    var e :| e in LiveIn(copies);
    assert d != e ==> Later(copies, d, e);
    assert d in LiveIn(copies) || d in DeletedIn(copies);
  }

  /** Then a secret reads as not found if and only if no live copy is read, or tombstones are most of the devices
  that the reader counts. */
  lemma DeletedReadIff(hex: string -> string, copies: Reads, n: int)
    requires DeletionsFirst(copies) && |copies| <= n
    ensures Authoritative(hex, copies, n) == None <==>
            LiveIn(copies) == {} || (n >= 3 && 2 * |DeletedIn(copies)| > n)
  {
    NotFoundIff(hex, copies, n);
    assert Backers(hex, copies, Deletion) == DeletedIn(copies);
    if copies.Keys != {} {
      var only := OnePrevails(hex, copies, n);
      if LiveIn(copies) == {} {
        NoLivePrevails(hex, copies, n, only);
      } else if d :| LastWritten(copies, d) && ContentOf(hex, copies[d]) == Deletion {
        LiveIsLast(hex, copies, d);
      }
    }
  }

  lemma NoLivePrevails(hex: string -> string, copies: Reads, n: int, k: Content)
    requires LiveIn(copies) == {} && Prevails(hex, copies, n, k)
    ensures k == Deletion
  {
    if Backed(hex, copies, n, k) {
      var d := BackedHasBacker(hex, copies, n, k);
      assert d !in LiveIn(copies);
    } else {
      var d :| LastWritten(copies, d) && ContentOf(hex, copies[d]) == k;
      assert d !in LiveIn(copies);
    }
  }

  // ---------------------------------------------------------- after a delete

  /** Copies are live at version 1 or above. */
  ghost predicate AllLive(slots: Slots)
  {
    forall d :: d in slots && slots[d].Copy? ==> !slots[d].labels.deleted && MetadataVersion(slots[d].labels) >= 1
  }

  /** The devices that still have their copy. */
  ghost function Missed(slots: Slots, req: Removal): set<string>
  {
    set d | d in slots && slots[d].Copy? && !(d in req.clients && (d in req.accepting || d in req.erasing))
  }

  /** The devices that took a tombstone. */
  ghost function Marked(slots: Slots, req: Removal): set<string>
  {
    slots.Keys * req.clients * req.accepting
  }

  lemma SeenAt(slots: Slots, req: Removal, heard: set<string>, d: string)
    requires AllLive(slots)
    ensures var seen := ReadsFrom(AfterDelete(slots, req), heard, heard);
      && (d in seen <==> d in heard && (d in Missed(slots, req) || d in Marked(slots, req)))
      && (d in seen && d in Marked(slots, req) ==> seen[d].labels.deleted && VersionOf(seen[d]) == 0)
      && (d in seen && d !in Marked(slots, req) ==>
            d in Missed(slots, req) && !seen[d].labels.deleted && VersionOf(seen[d]) >= 1)
  {}

  lemma SeenAfterDelete(slots: Slots, req: Removal, heard: set<string>)
    requires AllLive(slots)
    ensures var seen := ReadsFrom(AfterDelete(slots, req), heard, heard);
      && DeletionsFirst(seen) && |seen| <= |heard|
      && LiveIn(seen) == Missed(slots, req) * heard && DeletedIn(seen) == Marked(slots, req) * heard
  {
    var seen := ReadsFrom(AfterDelete(slots, req), heard, heard);
    forall d ensures d in LiveIn(seen) <==> d in Missed(slots, req) * heard { SeenAt(slots, req, heard, d); }
    forall d ensures d in DeletedIn(seen) <==> d in Marked(slots, req) * heard { SeenAt(slots, req, heard, d); }
    forall d | d in seen ensures if seen[d].labels.deleted then VersionOf(seen[d]) <= 0 else VersionOf(seen[d]) >= 1 {
      SeenAt(slots, req, heard, d);
    }
    SubsetSize(seen.Keys, heard);
    assert |seen| == |seen.Keys|;
  }

  /** After a delete a reader finds nothing if and only if it hears no device that the delete missed, or hears
  tombstones from most of the devices it counts. */
  lemma DeleteHoldsIff(hex: string -> string, slots: Slots, req: Removal, heard: set<string>, n: int)
    requires AllLive(slots) && |heard| <= n
    ensures Authoritative(hex, ReadsFrom(AfterDelete(slots, req), heard, heard), n) == None <==>
            Missed(slots, req) * heard == {} || (n >= 3 && 2 * |Marked(slots, req) * heard| > n)
  {
    SeenAfterDelete(slots, req, heard);
    DeletedReadIff(hex, ReadsFrom(AfterDelete(slots, req), heard, heard), n);
  }

  /** Of two devices one misses the delete, which succeeds: the secret is still read. */
  lemma DeleteUndone(hex: string -> string, a: string, b: string, x: SecretData, t: int, slots: Slots, req: Removal)
    requires a != b && slots == map[a := Copy(x, Labels(Counter(1), Some(t), false)),
                                    b := Copy(x, Labels(Counter(1), Some(t), false))]
    requires req.clients == {a} == req.erasing == req.accepting
    ensures Marked(slots, req) != {}
    ensures Authoritative(hex, ReadsFrom(AfterDelete(slots, req), {a, b}, {a, b}), 2) == Some(x)
  {
    assert a in Marked(slots, req) && b in Missed(slots, req);
    assert |{a, b}| == 2;
    var seen := ReadsFrom(AfterDelete(slots, req), {a, b}, {a, b});
    SeenAfterDelete(slots, req, {a, b});
    DeleteHoldsIff(hex, slots, req, {a, b}, 2);
    NeverServesDeleted(hex, seen, 2);
  }

  // -------------------------------------------------------- the mirror forgets

  ghost function Tombstones(slots: Slots): set<string>
  {
    set d | d in slots && slots[d].Copy? && slots[d].labels.deleted
  }

  /** A sweep, whatever fails during it, clears the mark on every device it writes to and sets none. */
  lemma SweepForgetsDeletion(hex: string -> string, slots: Slots, env: Environment)
    ensures var v, after := Visible(slots, env), Swept(hex, slots, env);
      Tombstones(after) == if SomeCopy(v)
        then set d | d in Tombstones(slots) && !WritesAt(hex, slots, env, ChoiceOf(hex, v, env.clock), d)
        else Tombstones(slots)
  {
    SweepKeys(hex, slots, env);
    forall d | d in slots
      ensures d in Tombstones(Swept(hex, slots, env)) <==>
        d in Tombstones(slots) &&
        !(SomeCopy(Visible(slots, env)) && WritesAt(hex, slots, env, ChoiceOf(hex, Visible(slots, env), env.clock), d))
    {
      SweptSlot(hex, slots, env, d);
    }
  }

  /** One tombstone beside one copy that the delete missed. */
  ghost predicate HalfDeleted(slots: Slots, a: string, b: string, x: SecretData, t: int)
  {
    && a != b && slots.Keys == {a, b}
    && slots[a] == Copy(map[], Labels(Counter(0), Some(t), true))
      && slots[b] == Copy(x, Labels(Counter(1), Some(0), false))
  }

  lemma HigherOfTwo(votes: Resolve.Votes, a: string, b: string, n: int)
    requires votes.Keys == {a, b} && votes[a].version < votes[b].version && n < 3
    ensures Resolve.WinningChecksum(votes, n) == votes[b].checksum
  {
    assert Resolve.IsNewest(votes, b);
    Resolve.NewestUnique(votes, b, Resolve.Newest(votes));
  }

  lemma HalfDeletedVotes(hex: string -> string, slots: Slots, a: string, b: string, x: SecretData, t: int,
                         clock: string -> int)
    requires HalfDeleted(slots, a, b, x, t)
    ensures var votes := SlotVotes(hex, slots, clock);
      && votes.Keys == {a, b} && votes[a].version == 0 && votes[b].version == 1
      && votes[b].checksum == MirrorSum(hex, x) && |slots| == 2
  {
    assert |slots| == |slots.Keys| == 2;
  }

  lemma OnlyHolder(hex: string -> string, slots: Slots, a: string, b: string, ch: Choice)
    requires slots.Keys == {a, b} && Chosen(hex, slots, ch) && !HoldsSum(hex, slots, ch.checksum, a)
    ensures ch.source == b
  {}

  lemma HalfDeletedChoice(hex: string -> string, slots: Slots, a: string, b: string, x: SecretData, t: int,
                          clock: string -> int)
    requires HalfDeleted(slots, a, b, x, t) && MirrorSum(hex, x) != MirrorSum(hex, map[])
    ensures SomeCopy(slots) && ChoiceOf(hex, slots, clock) == Choice(b, MirrorSum(hex, x))
  {
    assert slots[b].Copy?;
    HalfDeletedVotes(hex, slots, a, b, x, t, clock);
    HigherOfTwo(SlotVotes(hex, slots, clock), a, b, |slots|);
    OnlyHolder(hex, slots, a, b, ChoiceOf(hex, slots, clock));
  }

  /** The next undisturbed sweep brings a deleted secret back: the copy that was missed is written over the
  tombstone. */
  lemma MirrorRevivesDeleted(hex: string -> string, slots: Slots, a: string, b: string, x: SecretData, t: int,
                             env: Environment)
    requires HalfDeleted(slots, a, b, x, t) && MirrorSum(hex, x) != MirrorSum(hex, map[]) && AllSucceed(slots, env)
    ensures var after := Swept(hex, slots, env);
      a in after && after[a].Copy? && after[a].data == x && !after[a].labels.deleted
  {
    HalfDeletedChoice(hex, slots, a, b, x, t, env.clock);
    SweptIsRepaired(hex, slots, env);
    HalfDeletedRepair(hex, slots, a, b, x, t, env);
  }

  lemma HalfDeletedTargets(hex: string -> string, slots: Slots, a: string, b: string, x: SecretData, t: int)
    requires HalfDeleted(slots, a, b, x, t) && MirrorSum(hex, x) != MirrorSum(hex, map[])
    ensures a in Targets(hex, slots, Choice(b, MirrorSum(hex, x)))
    ensures MissingFrom(slots) == {} == Unlabelled(slots)
  {
    assert a in Disagreeing(hex, slots, MirrorSum(hex, x));
  }

  lemma HalfDeletedRepair(hex: string -> string, slots: Slots, a: string, b: string, x: SecretData, t: int,
                          env: Environment)
    requires HalfDeleted(slots, a, b, x, t) && MirrorSum(hex, x) != MirrorSum(hex, map[]) && AllSucceed(slots, env)
    requires Chosen(hex, slots, Choice(b, MirrorSum(hex, x)))
    ensures var after := Repaired(hex, slots, Choice(b, MirrorSum(hex, x)), env);
      a in after && after[a].Copy? && after[a].data == x && !after[a].labels.deleted
  {
    HalfDeletedTargets(hex, slots, a, b, x, t);
    assert WritesTo(hex, slots, Choice(b, MirrorSum(hex, x)), env, a);
  }
}
