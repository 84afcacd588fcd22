/** How long an accepted write lasts, sweep after sweep.

The mirror resolves by the number of devices that respond and takes a secret it
cannot read for missing, so a sweep can undo a write that most devices accepted.
*/
module Durability {
  import opened Resolve
  import opened ResolveLaws
  import opened Checksum
  import opened Replica
  import opened Mirror
  import opened MirrorConvergence
  import opened MirrorFailures
  import opened MirrorStability
  import opened ApiWrite

  // ------------------------------------------------------- a lasting write

  /** Every copy is labelled, with a version of at least 1. */
  ghost predicate Stamped(slots: Slots)
  {
    FullyLabelled(slots) && forall d :: d in slots && slots[d].Copy? ==> MetadataVersion(slots[d].labels) >= 1
  }

  /** The holders have content `c` at `version`; any other content is older. */
  ghost predicate Lasting(hex: string -> string, slots: Slots, c: string, version: int, holders: set<string>)
  {
    && holders <= slots.Keys
    && (forall d :: d in holders ==>
          slots[d].Copy? && MirrorSum(hex, slots[d].data) == c && MetadataVersion(slots[d].labels) == version)
    && (forall d :: d in slots && slots[d].Copy? && MirrorSum(hex, slots[d].data) != c ==>
          MetadataVersion(slots[d].labels) < version)
  }

  lemma LastingOutlasts(hex: string -> string, slots: Slots, clock: string -> int, c: string, version: int,
                        holders: set<string>)
    requires Lasting(hex, slots, c, version, holders)
    ensures Outlasts(SlotVotes(hex, slots, clock), c, version, holders)
    ensures |SlotVotes(hex, slots, clock)| <= |slots|
  {
    SubsetSize(SlotVotes(hex, slots, clock).Keys, slots.Keys);
    assert |slots| == |slots.Keys|;
    assert |SlotVotes(hex, slots, clock)| == |SlotVotes(hex, slots, clock).Keys|;
  }

  /** The copies of a part are contested when most of it holds other content. */
  ghost predicate OutvotedIn(hex: string -> string, part: Slots, c: string)
  {
    |part| >= 3 && exists d :: d in part && HeldByMost(hex, part, c, d)
  }

  ghost predicate HeldByMost(hex: string -> string, part: Slots, c: string, d: string)
    requires d in part
  {
    part[d].Copy? && MirrorSum(hex, part[d].data) != c
      && 2 * |SumHolders(hex, part, MirrorSum(hex, part[d].data))| > |part|
  }

  ghost function SumHolders(hex: string -> string, slots: Slots, c: string): set<string>
  {
    set d | d in slots && slots[d].Copy? && MirrorSum(hex, slots[d].data) == c
  }

  lemma OutvotedIsContested(hex: string -> string, slots: Slots, clock: string -> int, c: string)
    ensures OutvotedIn(hex, slots, c) <==> !Uncontested(SlotVotes(hex, slots, clock), |slots|, c)
  {
    var votes := SlotVotes(hex, slots, clock);
    forall x ensures SumHolders(hex, slots, x) == Holders(votes, x) {}
    if OutvotedIn(hex, slots, c) {
      var d :| d in slots && HeldByMost(hex, slots, c, d);
      assert d in votes && votes[d].checksum != c && IsMajority(votes, |slots|, votes[d].checksum);
    }
    if !Uncontested(votes, |slots|, c) {
      var d :| d in votes && votes[d].checksum != c && IsMajority(votes, |slots|, votes[d].checksum);
      assert HeldByMost(hex, slots, c, d);
    }
  }

  /** Among the responding devices the lasting write is chosen exactly when it
      is not outvoted there. */
  lemma LastingChosen(hex: string -> string, part: Slots, clock: string -> int, c: string, version: int,
                      holders: set<string>)
    requires Lasting(hex, part, c, version, holders) && holders != {}
    ensures SomeCopy(part)
    ensures ChoiceOf(hex, part, clock).checksum == c <==> !OutvotedIn(hex, part, c)
  {
    var h :| h in holders;
    assert part[h].Copy?;
    LastingOutlasts(hex, part, clock, c, version, holders);
    NewestWinsUnlessOutvoted(SlotVotes(hex, part, clock), |part|, c, version, holders);
    OutvotedIsContested(hex, part, clock, c);
  }

  // ------------------------------------------------------------- one sweep

  /** The holders whose secret and metadata a sweep reads. */
  ghost function Sighted(slots: Slots, env: Environment, holders: set<string>): set<string>
  {
    holders * Heard(slots, env) * env.readable * env.described
  }

  lemma LastingVisible(hex: string -> string, slots: Slots, env: Environment, c: string, version: int,
                       holders: set<string>)
    requires Lasting(hex, slots, c, version, holders) && version >= 1
    ensures Lasting(hex, Visible(slots, env), c, version, Sighted(slots, env, holders))
  {}

  /** The devices hold content `c`. */
  ghost predicate HoldContent(hex: string -> string, slots: Slots, devices: set<string>, c: string)
  {
    forall d :: d in devices ==> d in slots && slots[d].Copy? && MirrorSum(hex, slots[d].data) == c
  }

  lemma HoldEach(hex: string -> string, slots: Slots, devices: set<string>, c: string)
    requires forall d :: d in devices ==> HoldContent(hex, slots, {d}, c)
    ensures HoldContent(hex, slots, devices, c)
  {
    forall d | d in devices ensures d in slots && slots[d].Copy? && MirrorSum(hex, slots[d].data) == c {
      assert d in {d};
    }
  }

  lemma HoldOne(hex: string -> string, slots: Slots, devices: set<string>, c: string, d: string)
    requires d in devices && !HoldContent(hex, slots, {d}, c)
    ensures !HoldContent(hex, slots, devices, c)
  {}

  /** The sweep can only rewrite labels: nothing looks missing and some copy looks unlabelled. */
  ghost predicate LabelsOnly(v: Slots)
  {
    MissingFrom(v) == {} && Unlabelled(v) != {}
  }

  /** Content `c` survives on the holders: none of them can be overwritten, nothing is visible, `c` is
  what the sweep chooses, the copy it chooses cannot be read again, or it only rewrites labels. */
  ghost predicate Spares(hex: string -> string, slots: Slots, env: Environment, c: string, holders: set<string>)
  {
    var v := Visible(slots, env);
    || holders * Heard(slots, env) * env.writable == {}
    || !SomeCopy(v)
    || ChoiceOf(hex, v, env.clock).checksum == c
    || ChoiceOf(hex, v, env.clock).source !in env.reread
    || LabelsOnly(v)
  }

  /** What a sweep leaves where it writes: the device's own data if it only rewrites labels, else what it chose. */
  lemma WrittenContent(hex: string -> string, slots: Slots, env: Environment, ch: Choice, d: string)
    requires Chosen(hex, Visible(slots, env), ch) && d in slots && slots[d].Copy? && WritesAt(hex, slots, env, ch, d)
    ensures d in Heard(slots, env) * env.writable
    ensures LabelsOnly(Visible(slots, env)) ==> CopyAt(hex, slots, env, ch, d).data == slots[d].data
    ensures !LabelsOnly(Visible(slots, env)) ==> MirrorSum(hex, CopyAt(hex, slots, env, ch, d).data) == ch.checksum
  {}

  /** A holder of other content is written to, if it can be. */
  lemma HolderIsWritten(hex: string -> string, slots: Slots, env: Environment, ch: Choice, d: string)
    requires Chosen(hex, Visible(slots, env), ch) && d in Heard(slots, env) * env.writable && slots[d].Copy?
    requires MirrorSum(hex, slots[d].data) != ch.checksum && ch.source in env.reread && !LabelsOnly(Visible(slots, env))
    ensures WritesAt(hex, slots, env, ch, d)
  {
    var v := Visible(slots, env);
    assert d in MissingFrom(v) || d in Disagreeing(hex, v, ch.checksum);
    assert d in Targets(hex, v, ch);
  }

  lemma SparedHolder(hex: string -> string, slots: Slots, env: Environment, c: string, holders: set<string>, d: string)
    requires HoldContent(hex, slots, holders, c) && Spares(hex, slots, env, c, holders) && d in holders
    ensures HoldContent(hex, Swept(hex, slots, env), {d}, c)
  {
    var v := Visible(slots, env);
    SweptSlot(hex, slots, env, d);
    if SomeCopy(v) && WritesAt(hex, slots, env, ChoiceOf(hex, v, env.clock), d) {
      WrittenContent(hex, slots, env, ChoiceOf(hex, v, env.clock), d);
      assert d in holders * Heard(slots, env) * env.writable;
    }
  }

  lemma OverwrittenHolder(hex: string -> string, slots: Slots, env: Environment, c: string, holders: set<string>,
                          d: string)
    requires HoldContent(hex, slots, holders, c) && !Spares(hex, slots, env, c, holders)
    requires d in holders * Heard(slots, env) * env.writable
    ensures !HoldContent(hex, Swept(hex, slots, env), {d}, c)
  {
    var ch := ChoiceOf(hex, Visible(slots, env), env.clock);
    HolderIsWritten(hex, slots, env, ch, d);
    WrittenContent(hex, slots, env, ch, d);
    SweptSlot(hex, slots, env, d);
  }

  /** The exact condition under which a sweep, whatever fails during it, leaves content on its holders. */
  lemma SweepKeepsContentIff(hex: string -> string, slots: Slots, env: Environment, c: string, holders: set<string>)
    requires HoldContent(hex, slots, holders, c)
    ensures HoldContent(hex, Swept(hex, slots, env), holders, c) <==> Spares(hex, slots, env, c, holders)
  {
    if Spares(hex, slots, env, c, holders) {
      forall d | d in holders ensures HoldContent(hex, Swept(hex, slots, env), {d}, c) {
        SparedHolder(hex, slots, env, c, holders, d);
      }
      HoldEach(hex, Swept(hex, slots, env), holders, c);
    } else {
      var d :| d in holders * Heard(slots, env) * env.writable;
      OverwrittenHolder(hex, slots, env, c, holders, d);
      HoldOne(hex, Swept(hex, slots, env), holders, c, d);
    }
  }

  /** Where a holder is read with its metadata, the newest write is what the sweep chooses if and only if
  it is not outvoted among the devices that respond. */
  lemma SightedChoice(hex: string -> string, slots: Slots, env: Environment, c: string, version: int,
                      holders: set<string>)
    requires Lasting(hex, slots, c, version, holders) && version >= 1 && Sighted(slots, env, holders) != {}
    ensures SomeCopy(Visible(slots, env))
    ensures ChoiceOf(hex, Visible(slots, env), env.clock).checksum == c <==> !OutvotedIn(hex, Visible(slots, env), c)
  {
    LastingVisible(hex, slots, env, c, version, holders);
    LastingChosen(hex, Visible(slots, env), env.clock, c, version, Sighted(slots, env, holders));
  }

  // -------------------------------------------------------- runs of sweeps

  /** A sweep that reads no holder, or a quorum of them among the devices that respond. */
  ghost predicate ReadsQuorum(slots: Slots, env: Environment, holders: set<string>)
  {
    var seen := holders * Heard(slots, env) * env.readable;
    seen == {} || Quorum(seen, |Heard(slots, env)|)
  }

  /** Devices that respond but whose secret cannot be read: the sweep may overwrite them. */
  ghost function Unread(slots: Slots, env: Environment): set<string>
  {
    Heard(slots, env) - env.readable
  }

  lemma OthersAreFew(hex: string -> string, part: Slots, holders: set<string>, c: string, c': string)
    requires holders <= SumHolders(hex, part, c) && c != c'
    ensures |SumHolders(hex, part, c')| + |holders| <= |part|
  {
    var others := SumHolders(hex, part, c');
    assert others !! holders;
    SubsetSize(others + holders, part.Keys);
    assert |others + holders| == |others| + |holders|;
    assert |part| == |part.Keys|;
  }

  lemma QuorumNotOutvoted(hex: string -> string, part: Slots, c: string, version: int, holders: set<string>)
    requires Lasting(hex, part, c, version, holders) && Quorum(holders, |part|)
    ensures !OutvotedIn(hex, part, c)
  {
    if |part| >= 3 {
      forall d | d in part ensures !HeldByMost(hex, part, c, d) {
        if part[d].Copy? && MirrorSum(hex, part[d].data) != c {
          OthersAreFew(hex, part, holders, c, MirrorSum(hex, part[d].data));
        }
      }
    }
  }

  lemma VisibleStamped(slots: Slots, env: Environment)
    requires Stamped(slots) && DescribesRead(slots, env)
    ensures Stamped(Visible(slots, env))
    ensures forall d :: d in Visible(slots, env) && Visible(slots, env)[d].Copy? ==> Visible(slots, env)[d] == slots[d]
  {}

  lemma QuorumChoice(hex: string -> string, slots: Slots, env: Environment, c: string, version: int,
                     holders: set<string>)
    requires Lasting(hex, slots, c, version, holders) && version >= 1 && DescribesRead(slots, env)
    requires ReadsQuorum(slots, env, holders) && holders * Heard(slots, env) * env.readable != {}
    ensures SomeCopy(Visible(slots, env)) && ChoiceOf(hex, Visible(slots, env), env.clock).checksum == c
  {
    var v, seen := Visible(slots, env), Sighted(slots, env, holders);
    assert seen == holders * Heard(slots, env) * env.readable;
    LastingVisible(hex, slots, env, c, version, holders);
    assert |v| == |v.Keys| && v.Keys == Heard(slots, env);
    QuorumNotOutvoted(hex, v, c, version, seen);
    SightedChoice(hex, slots, env, c, version, holders);
  }

  /** A copy that a sweep of labelled copies writes.  Where the source's metadata cannot be read again it is
  stamped with version 1, which is not above the source's own. */
  lemma LabelledCopy(hex: string -> string, slots: Slots, env: Environment, ch: Choice, d: string)
    requires Stamped(slots) && DescribesRead(slots, env) && Chosen(hex, Visible(slots, env), ch)
    requires d in slots && WritesAt(hex, slots, env, ch, d)
    ensures d in Astray(hex, Visible(slots, env), ch.checksum)
    ensures slots[ch.source].Copy? && MirrorSum(hex, slots[ch.source].data) == ch.checksum
    ensures var copy := CopyAt(hex, slots, env, ch, d);
      && copy.data == slots[ch.source].data && copy.labels.version.Counter? && copy.labels.time.Some?
      && 1 <= MetadataVersion(copy.labels) <= MetadataVersion(slots[ch.source].labels)
  {
    VisibleStamped(slots, env);
    LabelledTargets(hex, Visible(slots, env), ch);
    assert ch.source in Visible(slots, env) && Visible(slots, env)[ch.source] == slots[ch.source];
  }

  lemma LastingSlot(hex: string -> string, slots: Slots, env: Environment, c: string, version: int,
                    holders: set<string>, d: string)
    requires Stamped(slots) && DescribesRead(slots, env) && ReadsQuorum(slots, env, holders)
    requires Lasting(hex, slots, c, version, holders) && version >= 1 && d in slots
    ensures var after := Swept(hex, slots, env);
      && d in after
      && (d in holders - Unread(slots, env) ==> after[d] == slots[d])
      && (after[d].Copy? ==>
            after[d].labels.version.Counter? && after[d].labels.time.Some? && MetadataVersion(after[d].labels) >= 1)
      && (after[d].Copy? && MirrorSum(hex, after[d].data) != c ==> MetadataVersion(after[d].labels) < version)
  {
    var v := Visible(slots, env);
    SweptSlot(hex, slots, env, d);
    VisibleStamped(slots, env);
    if SomeCopy(v) && WritesAt(hex, slots, env, ChoiceOf(hex, v, env.clock), d) {
      LabelledCopy(hex, slots, env, ChoiceOf(hex, v, env.clock), d);
      if d in holders - Unread(slots, env) {
        assert d in holders * Heard(slots, env) * env.readable;
        QuorumChoice(hex, slots, env, c, version, holders);
      }
    }
  }

  lemma SweepKeepsLasting(hex: string -> string, slots: Slots, env: Environment, c: string, version: int,
                          holders: set<string>)
    requires Stamped(slots) && DescribesRead(slots, env) && ReadsQuorum(slots, env, holders)
    requires Lasting(hex, slots, c, version, holders) && version >= 1
    ensures Lasting(hex, Swept(hex, slots, env), c, version, holders - Unread(slots, env))
    ensures Stamped(Swept(hex, slots, env))
  {
    var after := Swept(hex, slots, env);
    SweepKeys(hex, slots, env);
    forall d | d in slots
      ensures d in holders - Unread(slots, env) ==> after[d] == slots[d]
      ensures after[d].Copy? ==>
        after[d].labels.version.Counter? && after[d].labels.time.Some? && MetadataVersion(after[d].labels) >= 1
      ensures after[d].Copy? && MirrorSum(hex, after[d].data) != c ==> MetadataVersion(after[d].labels) < version
    {
      LastingSlot(hex, slots, env, c, version, holders, d);
    }
  }

  /** The holders left once those that responded without being read are given up, sweep by sweep. */
  ghost function Surviving(slots: Slots, envs: seq<Environment>, holders: set<string>): set<string>
  {
    if envs == [] then holders else Surviving(slots, envs[1..], holders - Unread(slots, envs[0]))
  }

  /** Each sweep reads the metadata of what it reads, and none or a quorum of the surviving holders. */
  ghost predicate GoodSweeps(slots: Slots, envs: seq<Environment>, holders: set<string>)
  {
    envs == [] ||
    (DescribesRead(slots, envs[0]) && ReadsQuorum(slots, envs[0], holders)
     && GoodSweeps(slots, envs[1..], holders - Unread(slots, envs[0])))
  }

  lemma {:induction false} SameDevices(slots: Slots, slots': Slots, envs: seq<Environment>, holders: set<string>)
    requires slots.Keys == slots'.Keys
    ensures Surviving(slots, envs, holders) == Surviving(slots', envs, holders)
    ensures GoodSweeps(slots, envs, holders) == GoodSweeps(slots', envs, holders)
  {
    if envs != [] {
      assert Heard(slots, envs[0]) == Heard(slots', envs[0]);
      SameDevices(slots, slots', envs[1..], holders - Unread(slots, envs[0]));
    }
  }

  /** A newest write stays newest, on the holders that survive, through every run of such sweeps. */
  lemma {:induction false} SweepsKeepLasting(hex: string -> string, slots: Slots, envs: seq<Environment>,
                                             c: string, version: int, holders: set<string>)
    requires Stamped(slots) && GoodSweeps(slots, envs, holders) && Lasting(hex, slots, c, version, holders)
      && version >= 1
    ensures SweptAll(hex, slots, envs).Keys == slots.Keys
    ensures Lasting(hex, SweptAll(hex, slots, envs), c, version, Surviving(slots, envs, holders))
  {
    if envs != [] {
      var after, left := Swept(hex, slots, envs[0]), holders - Unread(slots, envs[0]);
      SweepKeepsLasting(hex, slots, envs[0], c, version, holders);
      SweepKeys(hex, slots, envs[0]);
      SameDevices(slots, after, envs[1..], left);
      SweepsKeepLasting(hex, after, envs[1..], c, version, left);
    }
  }

  lemma WriteLasts(hex: string -> string, slots: Slots, req: Request)
    requires ReadsAll(slots, req)
    ensures Lasting(hex, AfterWrite(slots, req), MirrorSum(hex, req.data), Minted(slots, req), Accepting(slots, req))
    ensures Minted(slots, req) >= 1 && AfterWrite(slots, req).Keys == slots.Keys
    ensures Stamped(slots) ==> Stamped(AfterWrite(slots, req))
  {}

  /** Durable write: a write that read every version is the verdict on every later view with one surviving
  accepting device, as long as a quorum of the accepting devices survives: at once, and after any run of sweeps that
  each read none or a quorum of them, whichever of their writes fail. */
  lemma DurableWrite(hex: string -> string, slots: Slots, req: Request, envs: seq<Environment>,
                     view: set<string>, clock: string -> int)
    requires ReadsAll(slots, req) && Quorum(Surviving(slots, envs, Accepting(slots, req)), |slots|)
    requires envs != [] ==> Stamped(slots) && GoodSweeps(slots, envs, Accepting(slots, req))
    requires view * Surviving(slots, envs, Accepting(slots, req)) != {}
    ensures var seen := Restrict(SlotVotes(hex, SweptAll(hex, AfterWrite(slots, req), envs), clock), view);
      seen.Keys != {} && WinningChecksum(seen, |slots|) == MirrorSum(hex, req.data)
  {
    var c, version, holders := MirrorSum(hex, req.data), Minted(slots, req), Accepting(slots, req);
    var written := AfterWrite(slots, req);
    WriteLasts(hex, slots, req);
    SameDevices(slots, written, envs, holders);
    if envs != [] { SweepsKeepLasting(hex, written, envs, c, version, holders); }
    var final, left := SweptAll(hex, written, envs), Surviving(slots, envs, holders);
    assert |final| == |final.Keys| == |slots.Keys| == |slots|;
    LastingOutlasts(hex, final, clock, c, version, left);
    QuorumWins(SlotVotes(hex, final, clock), |slots|, c, version, left, view);
  }

  // ------------------------------------------- what partial response costs

  /** The devices that accepted the write, and all devices. */
  const THREE := {"a", "b", "c"}
  const FIVE := {"a", "b", "c", "d", "e"}

  function FiveDevices(x: SecretData, y: SecretData): Slots
  {
    map d | d in FIVE ::
      if d in THREE then Copy(x, Labels(Counter(2), Some(9), false)) else Copy(y, Labels(Counter(1), Some(1), false))
  }

  /** Only the last three devices respond, and nothing fails on them. */
  ghost predicate HearsLate(env: Environment)
  {
    && env.available == {"c", "d", "e"} == env.connected == env.readable == env.described
    && env.reread == {"c", "d", "e"} == env.redescribed == env.writable
  }

  /** Three of five devices accepted `x`.  A sweep that hears one of them beside
      the two that missed it counts three devices, takes the old `y` for the
      majority, and overwrites the newer copy with it. */
  lemma PartialSweepRevertsWrite(hex: string -> string, x: SecretData, y: SecretData, slots: Slots, env: Environment)
    requires MirrorSum(hex, x) != MirrorSum(hex, y) && slots == FiveDevices(x, y)
    requires HearsLate(env)
    ensures Quorum(THREE, |slots|) && Lasting(hex, slots, MirrorSum(hex, x), 2, THREE)
    ensures !HoldContent(hex, Swept(hex, slots, env), THREE, MirrorSum(hex, x))
  {
    FiveFacts(hex, x, y);
    FiveHeard(hex, x, y, slots, env);
    SightedChoice(hex, slots, env, MirrorSum(hex, x), 2, THREE);
    SweepKeepsContentIff(hex, slots, env, MirrorSum(hex, x), THREE);
  }

  lemma FiveHeard(hex: string -> string, x: SecretData, y: SecretData, slots: Slots, env: Environment)
    requires MirrorSum(hex, x) != MirrorSum(hex, y) && slots == FiveDevices(x, y)
    requires HearsLate(env)
    ensures "c" in Sighted(slots, env, THREE) && "c" in THREE * Heard(slots, env) * env.writable
    ensures forall d :: d in Visible(slots, env) ==> d in env.reread
    ensures Unlabelled(Visible(slots, env)) == {} && OutvotedIn(hex, Visible(slots, env), MirrorSum(hex, x))
  {
    assert Heard(slots, env) == {"c", "d", "e"};
    StaleMajority(hex, Visible(slots, env), MirrorSum(hex, x), MirrorSum(hex, y));
  }

  lemma FiveFacts(hex: string -> string, x: SecretData, y: SecretData)
    ensures FiveDevices(x, y).Keys == FIVE && FullyLabelled(FiveDevices(x, y))
    ensures Quorum(THREE, |FiveDevices(x, y)|) && Lasting(hex, FiveDevices(x, y), MirrorSum(hex, x), 2, THREE)
  {
    assert FiveDevices(x, y).Keys == FIVE;
    assert |FiveDevices(x, y)| == |FIVE| == 5 && |THREE| == 3;
  }

  lemma StaleMajority(hex: string -> string, part: Slots, c: string, c': string)
    requires part.Keys == {"c", "d", "e"} && part["d"].Copy? && part["e"].Copy? && c != c'
    requires MirrorSum(hex, part["d"].data) == c' && MirrorSum(hex, part["e"].data) == c'
    ensures OutvotedIn(hex, part, c)
  {
    assert |part| == |part.Keys| == 3;
    SubsetSize({"d", "e"}, SumHolders(hex, part, c'));
    assert HeldByMost(hex, part, c, "d");
  }

  // --------------------------------------------- what an unreadable copy costs

  const PAIR := {"a", "b"}

  function ThreeDevices(x: SecretData, y: SecretData): Slots
  {
    map d | d in THREE ::
      if d in PAIR then Copy(y, Labels(Counter(2), Some(9), false)) else Copy(x, Labels(Counter(1), Some(1), false))
  }

  lemma LoneChoice(hex: string -> string, v: Slots, ch: Choice, lone: string)
    requires Chosen(hex, v, ch) && MissingFrom(v) == v.Keys - {lone}
    ensures ch.source == lone
  {
    assert ch.source !in MissingFrom(v);
  }

  lemma MissingIsWritten(hex: string -> string, slots: Slots, env: Environment, ch: Choice, d: string)
    requires Chosen(hex, Visible(slots, env), ch) && d in MissingFrom(Visible(slots, env)) && d in env.writable
    requires ch.source in env.reread
    ensures WritesAt(hex, slots, env, ch, d) && DataAt(hex, slots, env, ch, d) == slots[ch.source].data
  {
    assert d in Targets(hex, Visible(slots, env), ch);
  }

  /** Where a single copy is visible, a sweep writes it to every writable device that looks empty. */
  lemma LoneCopySpreads(hex: string -> string, slots: Slots, env: Environment, lone: string, d: string)
    requires lone in Visible(slots, env) && Visible(slots, env)[lone].Copy?
    requires MissingFrom(Visible(slots, env)) == Visible(slots, env).Keys - {lone}
    requires d in Visible(slots, env) && d != lone && d in env.writable && lone in env.reread
    ensures d in Swept(hex, slots, env) && Swept(hex, slots, env)[d].Copy?
    ensures Swept(hex, slots, env)[d].data == slots[lone].data
  {
    var v := Visible(slots, env);
    assert SomeCopy(v);
    var ch := ChoiceOf(hex, v, env.clock);
    LoneChoice(hex, v, ch, lone);
    MissingIsWritten(hex, slots, env, ch, d);
    SweptSlot(hex, slots, env, d);
  }

  lemma ThreeFacts(hex: string -> string, x: SecretData, y: SecretData)
    requires MirrorSum(hex, x) != MirrorSum(hex, y)
    ensures ThreeDevices(x, y).Keys == THREE
    ensures Quorum(PAIR, |ThreeDevices(x, y)|) && Lasting(hex, ThreeDevices(x, y), MirrorSum(hex, y), 2, PAIR)
  {
    assert ThreeDevices(x, y).Keys == THREE;
    assert |ThreeDevices(x, y)| == |THREE| == 3 && |PAIR| == 2;
  }

  lemma OnlyOldVisible(x: SecretData, y: SecretData, slots: Slots, env: Environment)
    requires slots == ThreeDevices(x, y)
    requires env.available == THREE == env.connected && env.readable == {"c"}
    ensures Visible(slots, env).Keys == THREE && Visible(slots, env)["c"].Copy?
    ensures MissingFrom(Visible(slots, env)) == THREE - {"c"}
  {
    assert slots.Keys == THREE && Heard(slots, env) == THREE;
  }

  /** Two of three devices accepted `y`.  A sweep that reaches all three but can read only the third takes
  the two for empty and writes the old `x` over both: nothing of the accepted write is left. */
  lemma UnreadableSweepErasesWrite(hex: string -> string, x: SecretData, y: SecretData, slots: Slots, env: Environment)
    requires MirrorSum(hex, x) != MirrorSum(hex, y) && slots == ThreeDevices(x, y)
    requires env.available == THREE == env.connected == env.described == env.writable
      && env.readable == {"c"} == env.reread
    ensures Quorum(PAIR, |slots|) && Lasting(hex, slots, MirrorSum(hex, y), 2, PAIR)
    ensures forall d :: d in PAIR ==> Erased(hex, slots, env, d, x)
  {
    ThreeFacts(hex, x, y);
    OnlyOldVisible(x, y, slots, env);
    forall d | d in PAIR ensures Erased(hex, slots, env, d, x) { LoneCopySpreads(hex, slots, env, "c", d); }
  }

  /** After the sweep the device holds `x`. */
  ghost predicate Erased(hex: string -> string, slots: Slots, env: Environment, d: string, x: SecretData)
  {
    d in Swept(hex, slots, env) && Swept(hex, slots, env)[d].Copy? && Swept(hex, slots, env)[d].data == x
  }

  // --------------------------------------- what a write during a sweep meets

  /** Only device `a` has the secret. */
  ghost predicate Alone(slots: Slots, a: string, b: string, c: string, x: SecretData)
  {
    && a != b && b != c && a != c && slots.Keys == {a, b, c}
    && slots[a] == Copy(x, Labels(Counter(1), Some(1), false)) && slots[b] == slots[c] == Absent
  }

  lemma AloneTargets(hex: string -> string, slots: Slots, a: string, b: string, c: string, x: SecretData, ch: Choice)
    requires Alone(slots, a, b, c, x) && Chosen(hex, slots, ch)
    ensures ch.source == a && Targets(hex, slots, ch) == {b, c} && Kind(hex, slots, ch) == Create
  {
    assert MissingFrom(slots) == {b, c};
    assert Unlabelled(slots) == {} == Disagreeing(hex, slots, ch.checksum);
  }

  lemma AlonePlan(hex: string -> string, slots: Slots, a: string, b: string, c: string, x: SecretData, env: Environment)
    requires Alone(slots, a, b, c, x) && AllSucceed(slots, env)
    ensures var plan := PlanFor(InventoryOf(hex, slots, env));
      plan.Some? && plan.value.source == a && plan.value.targets == {b, c} && plan.value.kind == Create
  {
    assert slots[a].Copy?;
    FullPlan(hex, slots, env);
    AloneTargets(hex, slots, a, b, c, x, ChoiceOf(hex, slots, env.clock));
  }

  ghost predicate HasCopyOf(slots: Slots, d: string, x: SecretData)
  {
    d in slots && slots[d].Copy? && slots[d].data == x
  }

  /** Executing a Create plan leaves the source's data on the source and on every target. */
  lemma CreateSpreads(slots: Slots, plan: Plan, env: Environment, x: SecretData, d: string)
    requires plan.kind == Create && HasCopyOf(slots, plan.source, x) && AllSucceed(slots, env)
    requires d in slots && (d == plan.source || d in plan.targets)
    ensures HasCopyOf(Executed(slots, plan, env), d, x)
  {
    ExecutedAt(slots, plan, env, d);
  }

  /** Every device holds `x`. */
  ghost predicate AllCopiesOf(slots: Slots, x: SecretData)
  {
    forall d :: d in slots ==> HasCopyOf(slots, d, x)
  }

  lemma CreateSpreadsAll(slots: Slots, plan: Plan, env: Environment, a: string, b: string, c: string, x: SecretData)
    requires plan.kind == Create && plan.source == a && plan.targets == {b, c}
    requires slots.Keys == {a, b, c} && HasCopyOf(slots, a, x) && AllSucceed(slots, env)
    ensures AllCopiesOf(Executed(slots, plan, env), x)
  {
    ExecutedKeys(slots, plan, env);
    forall d | d in slots ensures HasCopyOf(Executed(slots, plan, env), d, x) { CreateSpreads(slots, plan, env, x, d); }
  }

  ghost predicate MissesSource(a: string, b: string, c: string, req: Request)
  {
    req.clients == {a, b, c} == req.readable && req.accepting == {b, c}
  }

  lemma AloneWritten(slots: Slots, a: string, b: string, c: string, x: SecretData, req: Request)
    requires Alone(slots, a, b, c, x) && MissesSource(a, b, c, req)
    ensures Quorum(Accepting(slots, req), |slots|)
    ensures AfterWrite(slots, req).Keys == slots.Keys && HasCopyOf(AfterWrite(slots, req), a, x)
  {
    assert Accepting(slots, req) == {b, c} && |{b, c}| == 2 && |slots| == |slots.Keys| == 3;
  }

  /** A sweep has planned to copy `x` to the two empty devices when another write is accepted by these two, a
  quorum, and not by the source.  The sweep then reads its source again, and writes `x` over both. */
  lemma WriteDuringSweepErased(hex: string -> string, slots: Slots, a: string, b: string, c: string, x: SecretData,
                               env: Environment, req: Request, plan: Option<Plan>)
    requires Alone(slots, a, b, c, x) && AllSucceed(slots, env) && MissesSource(a, b, c, req)
    requires plan == PlanFor(InventoryOf(hex, slots, env))
    ensures Quorum(Accepting(slots, req), |slots|) && plan.Some?
    ensures AllCopiesOf(Executed(AfterWrite(slots, req), plan.value, env), x)
  {
    AlonePlan(hex, slots, a, b, c, x, env);
    AloneWritten(slots, a, b, c, x, req);
    var written := AfterWrite(slots, req);
    SameKeysSucceed(written, slots, env);
    CreateSpreadsAll(written, plan.value, env, a, b, c, x);
  }
}
