/** Whole runs of API writes and mirror sweeps: version and content stay coupled. */
module Runs {
  import opened GoStrings
  import opened ResolveLaws
  import opened Checksum
  import opened Replica
  import opened Mirror
  import opened MirrorConvergence
  import opened MirrorFailures
  import opened ApiWrite
  import Durability

  datatype Step = Write(req: Request) | Sweep(env: Environment)

  ghost function Next(hex: string -> string, slots: Slots, step: Step): Slots
  {
    match step
    case Write(req) => AfterWrite(slots, req)
    case Sweep(env) => Swept(hex, slots, env)
  }

  ghost function Run(hex: string -> string, slots: Slots, steps: seq<Step>): Slots
  {
    if steps == [] then slots else Next(hex, Run(hex, slots, steps[..|steps| - 1]), steps[|steps| - 1])
  }

  ghost predicate Empty(slots: Slots)
  {
    forall d :: d in slots ==> slots[d].Absent?
  }

  // -------------------------------------------------------------- coupling

  ghost function VersionAt(slots: Slots, d: string): int
    requires d in slots && slots[d].Copy?
  {
    MetadataVersion(slots[d].labels)
  }

  /** Every copy carries a version counter between 1 and `bound`. */
  ghost predicate VersionsUpto(slots: Slots, bound: int)
  {
    forall d :: d in slots && slots[d].Copy? ==> slots[d].labels.version.Counter? && 1 <= VersionAt(slots, d) <= bound
  }

  /** Copies with the same version hold the same data. */
  ghost predicate Coupled(slots: Slots)
  {
    forall d, e :: d in slots && e in slots && slots[d].Copy? && slots[e].Copy? ==>
      VersionAt(slots, d) == VersionAt(slots, e) ==> slots[d].data == slots[e].data
  }

  /** Some device of `slots` holds this data at this version. */
  ghost predicate HasPair(slots: Slots, version: int, data: SecretData)
  {
    exists s :: s in slots && slots[s].Copy? && VersionAt(slots, s) == version && slots[s].data == data
  }

  /** Whatever `after` holds, it holds at a version and with data that `slots` had together. */
  ghost predicate NoNewPairs(slots: Slots, after: Slots)
  {
    after.Keys == slots.Keys && forall d :: d in after && after[d].Copy? ==>
      HasPair(slots, VersionAt(after, d), after[d].data)
  }

  // ---------------------------------------------------------------- sweeps

  /** The version a sweep stamps: that of the source, or 1 when its metadata cannot be read again. */
  ghost function Stamp(slots: Slots, env: Environment, ch: Choice): int
    requires ch.source in slots && slots[ch.source].Copy?
  {
    if ch.source in env.redescribed then VersionAt(slots, ch.source) else 1
  }

  lemma StampedCopy(hex: string -> string, slots: Slots, env: Environment, ch: Choice, d: string, bound: int)
    requires VersionsUpto(slots, bound) && Chosen(hex, Visible(slots, env), ch) && d in slots
    ensures slots[ch.source].Copy? && 1 <= Stamp(slots, env, ch) <= bound
    ensures var copy := CopyAt(hex, slots, env, ch, d);
      copy.labels.version.Counter? && MetadataVersion(copy.labels) == Stamp(slots, env, ch)
  {
    assert VersionAt(slots, ch.source) >= 1;
  }

  /** The write to `d` stamps a version on data that no device holds at that version: the source's
  version on other data that only gets new labels, or version 1 because the source's metadata could
  not be read again. */
  ghost predicate RemintsAt(hex: string -> string, slots: Slots, env: Environment, ch: Choice, d: string)
    requires Chosen(hex, Visible(slots, env), ch) && d in slots
  {
    && WritesAt(hex, slots, env, ch, d)
    && if ch.source in env.redescribed then DataAt(hex, slots, env, ch, d) != slots[ch.source].data
       else !HasPair(slots, 1, DataAt(hex, slots, env, ch, d))
  }

  ghost predicate Remints(hex: string -> string, slots: Slots, env: Environment)
  {
    var v := Visible(slots, env);
    SomeCopy(v) && exists d :: d in slots && RemintsAt(hex, slots, env, ChoiceOf(hex, v, env.clock), d)
  }

  lemma NewPairIff(hex: string -> string, slots: Slots, env: Environment, ch: Choice, d: string, bound: int)
    requires VersionsUpto(slots, bound) && Coupled(slots) && Chosen(hex, Visible(slots, env), ch)
    requires d in slots && WritesAt(hex, slots, env, ch, d)
    ensures HasPair(slots, Stamp(slots, env, ch), DataAt(hex, slots, env, ch, d)) <==>
      !RemintsAt(hex, slots, env, ch, d)
  {
    var version, data := Stamp(slots, env, ch), DataAt(hex, slots, env, ch, d);
    if ch.source in env.redescribed {
      assert HasPair(slots, version, slots[ch.source].data);
      if HasPair(slots, version, data) {
        var s :| s in slots && slots[s].Copy? && VersionAt(slots, s) == version && slots[s].data == data;
        assert slots[s].data == slots[ch.source].data;
      }
    }
  }

  /** One device after a sweep: stamped by it, or as it was. */
  lemma SweptPair(hex: string -> string, slots: Slots, env: Environment, d: string, bound: int)
    requires VersionsUpto(slots, bound) && d in slots
    ensures var v, after := Visible(slots, env), Swept(hex, slots, env);
      && d in after && (after[d].Copy? ==> after[d].labels.version.Counter? && 1 <= VersionAt(after, d) <= bound)
      && if SomeCopy(v) && WritesAt(hex, slots, env, ChoiceOf(hex, v, env.clock), d)
         then after[d].Copy? && VersionAt(after, d) == Stamp(slots, env, ChoiceOf(hex, v, env.clock))
              && after[d].data == DataAt(hex, slots, env, ChoiceOf(hex, v, env.clock), d)
         else after[d] == slots[d]
  {
    var v := Visible(slots, env);
    SweptSlot(hex, slots, env, d);
    if SomeCopy(v) { StampedCopy(hex, slots, env, ChoiceOf(hex, v, env.clock), d, bound); }
  }

  lemma SweptVersions(hex: string -> string, slots: Slots, env: Environment, bound: int)
    requires VersionsUpto(slots, bound)
    ensures VersionsUpto(Swept(hex, slots, env), bound)
  {
    var after := Swept(hex, slots, env);
    SweepKeys(hex, slots, env);
    forall d | d in after && after[d].Copy?
      ensures after[d].labels.version.Counter? && 1 <= VersionAt(after, d) <= bound
    {
      SweptPair(hex, slots, env, d, bound);
    }
  }

  lemma KnownPair(hex: string -> string, slots: Slots, env: Environment, d: string, bound: int)
    requires VersionsUpto(slots, bound) && Coupled(slots) && d in slots && !Remints(hex, slots, env)
    ensures var after := Swept(hex, slots, env);
      d in after && (after[d].Copy? ==> HasPair(slots, VersionAt(after, d), after[d].data))
  {
    var v := Visible(slots, env);
    SweptPair(hex, slots, env, d, bound);
    if SomeCopy(v) && WritesAt(hex, slots, env, ChoiceOf(hex, v, env.clock), d) {
      NewPairIff(hex, slots, env, ChoiceOf(hex, v, env.clock), d, bound);
    } else if slots[d].Copy? {
      assert HasPair(slots, VersionAt(slots, d), slots[d].data);
    }
  }

  lemma RemintedPair(hex: string -> string, slots: Slots, env: Environment, bound: int)
    requires VersionsUpto(slots, bound) && Coupled(slots) && Remints(hex, slots, env)
    ensures !NoNewPairs(slots, Swept(hex, slots, env))
  {
    var ch := ChoiceOf(hex, Visible(slots, env), env.clock);
    var d :| d in slots && RemintsAt(hex, slots, env, ch, d);
    NewPairIff(hex, slots, env, ch, d, bound);
    SweptPair(hex, slots, env, d, bound);
  }

  /** The exact condition for a sweep, whatever fails in it, to spread only version and data pairs that
  were already there. It never stamps a version above the newest. */
  lemma SweepMintsIff(hex: string -> string, slots: Slots, env: Environment, bound: int)
    requires VersionsUpto(slots, bound) && Coupled(slots)
    ensures NoNewPairs(slots, Swept(hex, slots, env)) <==> !Remints(hex, slots, env)
    ensures VersionsUpto(Swept(hex, slots, env), bound)
  {
    var after := Swept(hex, slots, env);
    SweepKeys(hex, slots, env);
    SweptVersions(hex, slots, env, bound);
    if Remints(hex, slots, env) {
      RemintedPair(hex, slots, env, bound);
    } else {
      forall d | d in after && after[d].Copy? ensures HasPair(slots, VersionAt(after, d), after[d].data) {
        KnownPair(hex, slots, env, d, bound);
      }
    }
  }

  /** Whatever is read again when the plan is executed, its metadata is read again too. */
  ghost predicate DescribesReread(slots: Slots, env: Environment)
  {
    Heard(slots, env) * env.reread <= env.redescribed
  }

  /** A sweep that both times reads the metadata of whatever it reads makes no such pair. */
  lemma DescribedNeverRemints(hex: string -> string, slots: Slots, env: Environment, bound: int)
    requires VersionsUpto(slots, bound) && DescribesRead(slots, env) && DescribesReread(slots, env)
    ensures !Remints(hex, slots, env)
  {
    var v := Visible(slots, env);
    assert Unlabelled(v) == {};
  }

  // -------------------------------------------- when a sweep keeps the coupling

  /** The sweep leaves version 1 alone on this device, on other data than the source's. */
  ghost predicate KeepsOther(hex: string -> string, slots: Slots, env: Environment, ch: Choice, e: string)
    requires Chosen(hex, Visible(slots, env), ch)
  {
    && e in slots && slots[e].Copy? && VersionAt(slots, e) == 1
    && slots[e].data != slots[ch.source].data && !WritesAt(hex, slots, env, ch, e)
  }

  /** The write to `d` puts one version on two contents: `d` keeps other data than the source under the
  source's version, or both get version 1, or version 1 stays on other data elsewhere. */
  ghost predicate SplitsAt(hex: string -> string, slots: Slots, env: Environment, ch: Choice, d: string)
    requires Chosen(hex, Visible(slots, env), ch) && d in slots
  {
    && WritesAt(hex, slots, env, ch, d)
    && (DataAt(hex, slots, env, ch, d) != slots[ch.source].data
        || (ch.source !in env.redescribed && exists e :: KeepsOther(hex, slots, env, ch, e)))
  }

  ghost predicate Splits(hex: string -> string, slots: Slots, env: Environment)
  {
    var v := Visible(slots, env);
    SomeCopy(v) && exists d :: d in slots && SplitsAt(hex, slots, env, ChoiceOf(hex, v, env.clock), d)
  }

  /** After a sweep that writes at all, the source has the stamp: as its own version, or written to it. */
  lemma SourceStamped(hex: string -> string, slots: Slots, env: Environment, ch: Choice, d: string, bound: int)
    requires VersionsUpto(slots, bound) && Chosen(hex, Visible(slots, env), ch) && ch.source in slots
    requires d in slots && WritesAt(hex, slots, env, ch, d) && DataAt(hex, slots, env, ch, d) != slots[ch.source].data
    ensures DataAt(hex, slots, env, ch, ch.source) == slots[ch.source].data
    ensures WritesAt(hex, slots, env, ch, ch.source) || VersionAt(slots, ch.source) == Stamp(slots, env, ch)
  {}

  lemma SplitClash(hex: string -> string, slots: Slots, env: Environment, d: string, bound: int)
    requires VersionsUpto(slots, bound) && SomeCopy(Visible(slots, env)) && d in slots
    requires SplitsAt(hex, slots, env, ChoiceOf(hex, Visible(slots, env), env.clock), d)
    ensures !Coupled(Swept(hex, slots, env))
  {
    var ch, after := ChoiceOf(hex, Visible(slots, env), env.clock), Swept(hex, slots, env);
    SweptPair(hex, slots, env, d, bound);
    if DataAt(hex, slots, env, ch, d) != slots[ch.source].data {
      SourceStamped(hex, slots, env, ch, d, bound);
      SweptPair(hex, slots, env, ch.source, bound);
      BrokenCoupling(after, d, ch.source);
    } else {
      var e :| KeepsOther(hex, slots, env, ch, e);
      SweptPair(hex, slots, env, e, bound);
      BrokenCoupling(after, d, e);
    }
  }

  lemma BrokenCoupling(slots: Slots, d: string, e: string)
    requires d in slots && e in slots && slots[d].Copy? && slots[e].Copy?
    requires VersionAt(slots, d) == VersionAt(slots, e) && slots[d].data != slots[e].data
    ensures !Coupled(slots)
  {}

  /** Where no write splits, whatever has the stamp after a sweep has the source's data. */
  lemma StampHasSource(hex: string -> string, slots: Slots, env: Environment, e: string, bound: int)
    requires VersionsUpto(slots, bound) && Coupled(slots) && !Splits(hex, slots, env) && e in slots
    requires SomeCopy(Visible(slots, env))
    requires var ch := ChoiceOf(hex, Visible(slots, env), env.clock);
      exists d :: d in slots && WritesAt(hex, slots, env, ch, d)
    ensures var ch, after := ChoiceOf(hex, Visible(slots, env), env.clock), Swept(hex, slots, env);
      && ch.source in slots && slots[ch.source].Copy? && e in after
      && (after[e].Copy? && VersionAt(after, e) == Stamp(slots, env, ch) ==> after[e].data == slots[ch.source].data)
  {
    var ch := ChoiceOf(hex, Visible(slots, env), env.clock);
    var d :| d in slots && WritesAt(hex, slots, env, ch, d);
    SweptPair(hex, slots, env, e, bound);
    assert !SplitsAt(hex, slots, env, ch, d) && !SplitsAt(hex, slots, env, ch, e);
    assert !WritesAt(hex, slots, env, ch, e) && ch.source !in env.redescribed ==> !KeepsOther(hex, slots, env, ch, e);
  }

  lemma UnsplitPair(hex: string -> string, slots: Slots, env: Environment, d: string, e: string, bound: int)
    requires VersionsUpto(slots, bound) && Coupled(slots) && !Splits(hex, slots, env) && d in slots && e in slots
    ensures var after := Swept(hex, slots, env);
      d in after && e in after &&
      (after[d].Copy? && after[e].Copy? && VersionAt(after, d) == VersionAt(after, e) ==>
        after[d].data == after[e].data)
  {
    var v := Visible(slots, env);
    SweptPair(hex, slots, env, d, bound);
    SweptPair(hex, slots, env, e, bound);
    if SomeCopy(v) {
      var ch := ChoiceOf(hex, v, env.clock);
      if WritesAt(hex, slots, env, ch, d) || WritesAt(hex, slots, env, ch, e) {
        StampHasSource(hex, slots, env, d, bound);
        StampHasSource(hex, slots, env, e, bound);
      }
    }
  }

  /** The exact condition for a sweep, whatever fails in it, to leave equal versions on equal data. */
  lemma SweepCouplesIff(hex: string -> string, slots: Slots, env: Environment, bound: int)
    requires VersionsUpto(slots, bound) && Coupled(slots)
    ensures Coupled(Swept(hex, slots, env)) <==> !Splits(hex, slots, env)
    ensures Splits(hex, slots, env) ==> Remints(hex, slots, env)
  {
    var after := Swept(hex, slots, env);
    SweepKeys(hex, slots, env);
    SweepMintsIff(hex, slots, env, bound);
    if Splits(hex, slots, env) {
      var d :| d in slots && SplitsAt(hex, slots, env, ChoiceOf(hex, Visible(slots, env), env.clock), d);
      SplitClash(hex, slots, env, d, bound);
      if NoNewPairs(slots, after) { NoNewPairsCoupled(slots, after); }
    } else {
      forall d, e | d in after && e in after && after[d].Copy? && after[e].Copy?
        && VersionAt(after, d) == VersionAt(after, e)
        ensures after[d].data == after[e].data
      {
        UnsplitPair(hex, slots, env, d, e, bound);
      }
    }
  }

  lemma NoNewPairsCoupled(slots: Slots, after: Slots)
    requires NoNewPairs(slots, after) && Coupled(slots)
    ensures Coupled(after)
  {
    forall d, e | d in after && e in after && after[d].Copy? && after[e].Copy?
      && VersionAt(after, d) == VersionAt(after, e)
      ensures after[d].data == after[e].data
    {
      var s :| s in slots && slots[s].Copy? && VersionAt(slots, s) == VersionAt(after, d)
        && slots[s].data == after[d].data;
      var t :| t in slots && slots[t].Copy? && VersionAt(slots, t) == VersionAt(after, e)
        && slots[t].data == after[e].data;
    }
  }

  // ---------------------------------------------------------------- writes

  /** No device that keeps its copy holds other data at the version the write mints. */
  ghost predicate NoClash(slots: Slots, req: Request)
  {
    forall d :: d in slots && slots[d].Copy? && d !in Accepting(slots, req) ==>
      VersionAt(slots, d) == Minted(slots, req) ==> slots[d].data == req.data
  }

  lemma UnclashedCoupled(slots: Slots, req: Request)
    requires Coupled(slots) && NoClash(slots, req)
    ensures Coupled(AfterWrite(slots, req))
  {
    var after := AfterWrite(slots, req);
    forall d, e | d in after && e in after && after[d].Copy? && after[e].Copy?
      && VersionAt(after, d) == VersionAt(after, e)
      ensures after[d].data == after[e].data
    {
      CoupledPair(slots, req, d, e);
    }
  }

  lemma CoupledPair(slots: Slots, req: Request, d: string, e: string)
    requires Coupled(slots) && NoClash(slots, req) && d in slots && e in slots
    requires var after := AfterWrite(slots, req);
      after[d].Copy? && after[e].Copy? && VersionAt(after, d) == VersionAt(after, e)
    ensures AfterWrite(slots, req)[d].data == AfterWrite(slots, req)[e].data
  {
    var acc := Accepting(slots, req);
    assert d !in acc && e in acc ==> VersionAt(slots, d) == Minted(slots, req);
    assert e !in acc && d in acc ==> VersionAt(slots, e) == Minted(slots, req);
  }

  /** The version a write mints from the metadata it can read. */
  ghost function NextFrom(slots: Slots, clients: set<string>, readable: set<string>): int
  {
    Increment(NewestVersion(slots, clients * readable))
  }

  /** Some device already holds the version to be minted, and another client could accept the write. */
  ghost predicate MayClash(slots: Slots, clients: set<string>, readable: set<string>, d: string, e: string)
  {
    && d in slots && slots[d].Copy? && VersionAt(slots, d) == NextFrom(slots, clients, readable)
    && e in slots && e in clients && e != d
  }

  /** Whatever is written and whichever devices accept it, the coupling is kept. */
  ghost predicate WritesKeepCoupling(slots: Slots, clients: set<string>, readable: set<string>)
  {
    forall req: Request :: req.clients == clients && req.readable == readable ==> Coupled(AfterWrite(slots, req))
  }

  lemma ClashingWrite(slots: Slots, clients: set<string>, readable: set<string>, d: string, e: string)
    returns (req: Request)
    requires MayClash(slots, clients, readable, d, e)
    ensures req.clients == clients && req.readable == readable && !Coupled(AfterWrite(slots, req))
  {
    var other: SecretData := if slots[d].data == map[] then map["k" := ""] else map[];
    assert "k" in map["k" := ""];
    req := Request(clients, readable, {e}, other, 0, false);
    var after := AfterWrite(slots, req);
    assert e in Accepting(slots, req) && d !in Accepting(slots, req);
    assert after[d] == slots[d] && after[e] == Stored(slots, req);
    assert VersionAt(after, d) == VersionAt(after, e) && after[d].data != after[e].data;
  }

  /** Before a write, its clients and the metadata it can read decide: every write from here keeps equal
  versions on equal data if and only if no stored copy has the version it will mint while another client could
  accept it. */
  lemma WritesKeepCouplingIff(slots: Slots, clients: set<string>, readable: set<string>)
    requires Coupled(slots)
    ensures WritesKeepCoupling(slots, clients, readable) <==> !exists d, e :: MayClash(slots, clients, readable, d, e)
  {
    if d, e :| MayClash(slots, clients, readable, d, e) {
      var req := ClashingWrite(slots, clients, readable, d, e);
    } else {
      forall req: Request | req.clients == clients && req.readable == readable ensures Coupled(AfterWrite(slots, req)) {
        SafeWrite(slots, req);
      }
    }
  }

  lemma SafeWrite(slots: Slots, req: Request)
    requires Coupled(slots) && forall d, e :: !MayClash(slots, req.clients, req.readable, d, e)
    ensures Coupled(AfterWrite(slots, req))
  {
    if Accepting(slots, req) == {} {
      assert AfterWrite(slots, req) == slots;
    } else {
      var a :| a in Accepting(slots, req);
      forall d | d in slots && slots[d].Copy? && d !in Accepting(slots, req)
        ensures VersionAt(slots, d) != Minted(slots, req)
      {
        assert !MayClash(slots, req.clients, req.readable, d, a);
      }
      UnclashedCoupled(slots, req);
    }
  }

  /** The write sees a version at least as high as any stored one. */
  ghost predicate SeesNewest(slots: Slots, req: Request)
  {
    forall d :: d in slots && slots[d].Copy? ==> VersionAt(slots, d) <= NewestVersion(slots, req.clients * req.readable)
  }

  lemma SightedWrite(slots: Slots, req: Request, bound: nat)
    requires VersionsUpto(slots, bound) && Coupled(slots) && SeesNewest(slots, req) && bound < MAX_INT64
    ensures VersionsUpto(AfterWrite(slots, req), bound + 1) && Coupled(AfterWrite(slots, req))
    ensures 1 <= Minted(slots, req) <= bound + 1
    ensures forall d :: d in slots && slots[d].Copy? ==> VersionAt(slots, d) < Minted(slots, req)
  {
    MintedBounds(slots, req, bound);
    UnclashedCoupled(slots, req);
  }

  lemma MintedBounds(slots: Slots, req: Request, bound: nat)
    requires VersionsUpto(slots, bound) && bound < MAX_INT64
    ensures Minted(slots, req) == NewestVersion(slots, req.clients * req.readable) + 1
    ensures 1 <= Minted(slots, req) <= bound + 1
  {
    var devices := req.clients * req.readable;
    var v := NewestVersion(slots, devices);
    if v > 0 {
      var d :| d in devices && d in slots && slots[d].Copy? && MetadataVersion(slots[d].labels) == v;
      assert VersionAt(slots, d) <= bound;
    }
  }

  /** In this run every write sees the newest stored version and no sweep puts one version on two contents. */
  ghost predicate Sound(hex: string -> string, slots: Slots, steps: seq<Step>)
  {
    forall k :: 0 <= k < |steps| ==> StepSound(hex, Run(hex, slots, steps[..k]), steps[k])
  }

  ghost predicate StepSound(hex: string -> string, slots: Slots, step: Step)
  {
    match step
    case Write(req) => SeesNewest(slots, req)
    case Sweep(env) => !Splits(hex, slots, env)
  }

  /** Every run of such writes and sweeps from an empty cluster, whatever else fails, leaves copies with
  equal versions holding equal data. */
  lemma {:induction false} EveryRunCoupled(hex: string -> string, slots: Slots, steps: seq<Step>)
    requires Empty(slots) && Sound(hex, slots, steps) && |steps| < MAX_INT64
    ensures Coupled(Run(hex, slots, steps)) && VersionsUpto(Run(hex, slots, steps), |steps|)
  {
    if steps != [] {
      var k := |steps| - 1;
      var before, step := Run(hex, slots, steps[..k]), steps[k];
      assert forall j :: 0 <= j < k ==> steps[..k][..j] == steps[..j];
      EveryRunCoupled(hex, slots, steps[..k]);
      assert StepSound(hex, before, step);
      if step.Write? {
        SightedWrite(before, step.req, k);
      } else {
        SweepCouplesIff(hex, before, step.env, k);
        SweptVersions(hex, before, step.env, k);
        VersionsUptoMore(Swept(hex, before, step.env), k);
      }
    }
  }

  lemma VersionsUptoMore(slots: Slots, bound: int)
    requires VersionsUpto(slots, bound)
    ensures VersionsUpto(slots, bound + 1)
  {}

  /** Two writes on the two sides of a partition mint the same version for
      different data: reading only part of the devices is not enough. */
  lemma SplitWritesClash(x: SecretData, y: SecretData, slots: Slots, first: Request, second: Request)
    requires x != y && slots == map["a" := Absent, "b" := Absent]
    requires first == Request({"a"}, {"a"}, {"a"}, x, 1, false)
    requires second == Request({"b"}, {"b"}, {"b"}, y, 2, false)
    ensures !SeesNewest(AfterWrite(slots, first), second)
    ensures !Coupled(AfterWrite(AfterWrite(slots, first), second))
  {
    NewestVersionUnique(slots, first.clients * first.readable, 0, NewestVersion(slots, first.clients * first.readable));
    var mid := AfterWrite(slots, first);
    assert "a" in Accepting(slots, first) && mid["b"].Absent?;
    assert mid["a"] == Copy(x, Labels(Counter(1), Some(1), false));
    var seen := second.clients * second.readable;
    assert seen == {"b"};
    NewestVersionUnique(mid, seen, 0, NewestVersion(mid, seen));
    assert VersionAt(mid, "a") == 1;
    assert "b" in Accepting(mid, second) && "a" !in Accepting(mid, second);
    var final := AfterWrite(mid, second);
    assert VersionAt(final, "a") == VersionAt(final, "b") == 1;
  }

  // ------------------------------------------------- a failing metadata read

  /** Devices `a` and `c` have `y` at version 2, device `b` still has `x` at version 1. */
  function Lagging(a: string, b: string, c: string, x: SecretData, y: SecretData): Slots
  {
    map[a := Copy(y, Labels(Counter(2), Some(2), false)),
        b := Copy(x, Labels(Counter(1), Some(1), false)),
        c := Copy(y, Labels(Counter(2), Some(2), false))]
  }

  /** The same without the metadata of `c`. */
  function LaggingView(a: string, b: string, c: string, x: SecretData, y: SecretData): Slots
  {
    Lagging(a, b, c, x, y)[c := Copy(y, NO_LABELS)]
  }

  lemma LaggingFacts(a: string, b: string, c: string, x: SecretData, y: SecretData)
    requires a != b && b != c && a != c
    ensures LaggingView(a, b, c, x, y).Keys == {a, b, c}
    ensures LaggingView(a, b, c, x, y)[a] == Copy(y, Labels(Counter(2), Some(2), false))
    ensures LaggingView(a, b, c, x, y)[b] == Copy(x, Labels(Counter(1), Some(1), false))
  {}

  lemma LaggingMajority(hex: string -> string, a: string, b: string, c: string, x: SecretData, y: SecretData)
    requires a != b && b != c && a != c && MirrorSum(hex, x) != MirrorSum(hex, y)
    ensures MajorityHolds(hex, LaggingView(a, b, c, x, y), MirrorSum(hex, y))
  {
    assert LaggingView(a, b, c, x, y).Keys == {a, c, b};
    TwoOfThree(hex, LaggingView(a, b, c, x, y), a, c, b);
  }

  lemma LaggingChoice(hex: string -> string, a: string, b: string, c: string, x: SecretData, y: SecretData,
                      clock: string -> int)
    requires a != b && b != c && Less(a, c) && MirrorSum(hex, x) != MirrorSum(hex, y)
    ensures SomeCopy(LaggingView(a, b, c, x, y))
    ensures ChoiceOf(hex, LaggingView(a, b, c, x, y), clock) == Choice(a, MirrorSum(hex, y))
  {
    LessIrreflexive(a);
    LaggingFacts(a, b, c, x, y);
    LaggingMajority(hex, a, b, c, x, y);
    LowestMajority(hex, LaggingView(a, b, c, x, y), clock, MirrorSum(hex, y), a, b, c);
  }

  lemma LowestMajority(hex: string -> string, v: Slots, clock: string -> int, sum: string, a: string, b: string,
                       c: string)
    requires v.Keys == {a, b, c} && Less(a, c) && MajorityHolds(hex, v, sum)
    requires v[a].Copy? && MirrorSum(hex, v[a].data) == sum
    requires v[b].Copy? && MirrorSum(hex, v[b].data) != sum
    ensures SomeCopy(v) && ChoiceOf(hex, v, clock) == Choice(a, sum)
  {
    MajorityChoice(hex, v, clock, sum);
    LowestOfTwo(hex, v, ChoiceOf(hex, v, clock), a, b, c);
  }

  lemma LowestOfTwo(hex: string -> string, v: Slots, ch: Choice, a: string, b: string, c: string)
    requires Chosen(hex, v, ch) && v.Keys == {a, b, c} && Less(a, c)
    requires v[a].Copy? && MirrorSum(hex, v[a].data) == ch.checksum
    requires v[b].Copy? && MirrorSum(hex, v[b].data) != ch.checksum
    ensures ch.source == a
  {
    assert LessEq(ch.source, a);
    if ch.source == c { LessAsymmetric(a, c); }
  }

  lemma LaggingWrite(hex: string -> string, a: string, b: string, c: string, x: SecretData, y: SecretData,
                     slots: Slots, env: Environment)
    requires a != b && b != c && a != c && MirrorSum(hex, x) != MirrorSum(hex, y) && slots == Lagging(a, b, c, x, y)
    requires LosesMetadata(a, b, c, env) && Visible(slots, env) == LaggingView(a, b, c, x, y)
    requires Chosen(hex, Visible(slots, env), Choice(a, MirrorSum(hex, y)))
    ensures var ch := Choice(a, MirrorSum(hex, y));
      && !WritesAt(hex, slots, env, ch, a) && WritesAt(hex, slots, env, ch, b)
      && CopyAt(hex, slots, env, ch, b) == Copy(x, Labels(Counter(2), Some(env.now), false))
  {
    LaggingSets(hex, a, b, c, x, y);
  }

  lemma LaggingSets(hex: string -> string, a: string, b: string, c: string, x: SecretData, y: SecretData)
    requires a != b && b != c && a != c && MirrorSum(hex, x) != MirrorSum(hex, y)
    ensures var v, ch := LaggingView(a, b, c, x, y), Choice(a, MirrorSum(hex, y));
      && c in Unlabelled(v) && MissingFrom(v) == {} && b in Targets(hex, v, ch) && a !in Targets(hex, v, ch)
  {
    assert b in Disagreeing(hex, LaggingView(a, b, c, x, y), MirrorSum(hex, y));
  }

  lemma LaggingSeen(a: string, b: string, c: string, x: SecretData, y: SecretData, env: Environment)
    requires a != b && b != c && a != c
    requires env.available == {a, b, c} == env.connected == env.readable && env.described == {a, b}
    ensures Visible(Lagging(a, b, c, x, y), env) == LaggingView(a, b, c, x, y)
  {
    assert Lagging(a, b, c, x, y).Keys == {a, b, c};
  }

  ghost predicate LosesMetadata(a: string, b: string, c: string, env: Environment)
  {
    && env.available == {a, b, c} == env.connected == env.readable == env.writable && env.described == {a, b}
    && env.reread == {a, b, c} && a in env.redescribed
  }

  lemma LaggingBefore(a: string, b: string, c: string, x: SecretData, y: SecretData)
    requires a != b && b != c && a != c
    ensures Coupled(Lagging(a, b, c, x, y)) && VersionsUpto(Lagging(a, b, c, x, y), 2)
  {}

  lemma LaggingAfter(hex: string -> string, a: string, b: string, c: string, x: SecretData, y: SecretData,
                     slots: Slots, env: Environment)
    requires a != b && b != c && Less(a, c) && MirrorSum(hex, x) != MirrorSum(hex, y) && slots == Lagging(a, b, c, x, y)
    requires LosesMetadata(a, b, c, env)
    ensures var after := Swept(hex, slots, env);
      && a in after && after[a] == Copy(y, Labels(Counter(2), Some(2), false))
      && b in after && after[b] == Copy(x, Labels(Counter(2), Some(env.now), false))
  {
    LessIrreflexive(a);
    LaggingSeen(a, b, c, x, y, env);
    LaggingChoice(hex, a, b, c, x, y, env.clock);
    LaggingWrite(hex, a, b, c, x, y, slots, env);
    SweptSlot(hex, slots, env, a);
    SweptSlot(hex, slots, env, b);
  }

  /** Reading the second copy of `y` without its metadata makes the sweep a restoration of labels: the
  device with the old `x` keeps it and is stamped with version 2. */
  lemma MetadataFailureClash(hex: string -> string, a: string, b: string, c: string, x: SecretData, y: SecretData,
                             slots: Slots, env: Environment)
    requires a != b && b != c && Less(a, c) && MirrorSum(hex, x) != MirrorSum(hex, y) && slots == Lagging(a, b, c, x, y)
    requires LosesMetadata(a, b, c, env)
    ensures Coupled(slots) && VersionsUpto(slots, 2) && Splits(hex, slots, env)
    ensures !Coupled(Swept(hex, slots, env))
  {
    LessIrreflexive(a);
    LaggingBefore(a, b, c, x, y);
    LaggingAfter(hex, a, b, c, x, y, slots, env);
    BrokenCoupling(Swept(hex, slots, env), a, b);
    SweepCouplesIff(hex, slots, env, 2);
  }

  // --------------------------------------------- a failing second metadata read

  /** Devices `a` and `c` have `y` at version 2, devices `b` and `d` still have `x` at version 1. */
  ghost predicate Halved(slots: Slots, a: string, b: string, c: string, d: string, x: SecretData, y: SecretData)
  {
    && a != b && a != c && a != d && b != c && b != d && c != d && slots.Keys == {a, b, c, d}
    && slots[a] == slots[c] == Copy(y, Labels(Counter(2), Some(2), false))
    && slots[b] == slots[d] == Copy(x, Labels(Counter(1), Some(1), false))
  }

  /** Everything is read for the inventory.  When the plan is executed the metadata of `a` cannot be read
  again, and `d` cannot be written. */
  ghost predicate LosesReread(a: string, b: string, c: string, d: string, env: Environment)
  {
    && env.available == {a, b, c, d} == env.connected == env.readable == env.described == env.reread
    && env.redescribed == {b, c, d} && env.writable == {a, b, c}
  }

  lemma HalvedBefore(a: string, b: string, c: string, d: string, slots: Slots, x: SecretData, y: SecretData)
    requires Halved(slots, a, b, c, d, x, y)
    ensures Coupled(slots) && VersionsUpto(slots, 2)
  {
    forall e | e in slots ensures slots[e] == slots[a] || slots[e] == slots[b] {}
  }

  lemma HalvedSeen(a: string, b: string, c: string, d: string, slots: Slots, env: Environment)
    requires slots.Keys == {a, b, c, d} && LosesReread(a, b, c, d, env)
    ensures Visible(slots, env) == slots && DescribesRead(slots, env)
  {
    assert Heard(slots, env) == slots.Keys;
    forall e | e in slots ensures AsRead(slots[e], true, true) == slots[e] {}
  }

  lemma HalvedLasting(hex: string -> string, a: string, b: string, c: string, d: string, slots: Slots,
                      x: SecretData, y: SecretData)
    requires Halved(slots, a, b, c, d, x, y) && MirrorSum(hex, x) != MirrorSum(hex, y)
    ensures Durability.Lasting(hex, slots, MirrorSum(hex, y), 2, {a, c})
  {}

  lemma HalvedNotOutvoted(hex: string -> string, a: string, b: string, c: string, d: string, slots: Slots,
                          x: SecretData, y: SecretData)
    requires Halved(slots, a, b, c, d, x, y) && MirrorSum(hex, x) != MirrorSum(hex, y)
    ensures !Durability.OutvotedIn(hex, slots, MirrorSum(hex, y))
  {
    HalvedCount(hex, a, b, c, d, slots, x, y);
    forall e | e in slots ensures slots[e] == slots[a] || slots[e] == slots[b] {}
  }

  lemma HalvedCount(hex: string -> string, a: string, b: string, c: string, d: string, slots: Slots,
                    x: SecretData, y: SecretData)
    requires Halved(slots, a, b, c, d, x, y) && MirrorSum(hex, x) != MirrorSum(hex, y)
    ensures 2 * |Durability.SumHolders(hex, slots, MirrorSum(hex, x))| <= |slots|
  {
    assert |slots| == |slots.Keys| == 4 && |{b, d}| == 2;
    assert Durability.SumHolders(hex, slots, MirrorSum(hex, x)) <= {b, d};
    SubsetSize(Durability.SumHolders(hex, slots, MirrorSum(hex, x)), {b, d});
  }

  lemma HalvedLowest(hex: string -> string, a: string, b: string, c: string, d: string, slots: Slots,
                     x: SecretData, y: SecretData, ch: Choice)
    requires Halved(slots, a, b, c, d, x, y) && MirrorSum(hex, x) != MirrorSum(hex, y) && Less(a, c)
    requires Chosen(hex, slots, ch) && ch.checksum == MirrorSum(hex, y)
    ensures ch.source == a
  {
    assert LessEq(ch.source, a);
    if ch.source == c { LessAsymmetric(a, c); }
  }

  /** Two against two is no majority, so the newer content is chosen, from the lower of its holders. */
  lemma HalvedChoice(hex: string -> string, a: string, b: string, c: string, d: string, slots: Slots,
                     x: SecretData, y: SecretData, clock: string -> int)
    requires Halved(slots, a, b, c, d, x, y) && MirrorSum(hex, x) != MirrorSum(hex, y) && Less(a, c)
    ensures SomeCopy(slots) && ChoiceOf(hex, slots, clock) == Choice(a, MirrorSum(hex, y))
  {
    HalvedLasting(hex, a, b, c, d, slots, x, y);
    HalvedNotOutvoted(hex, a, b, c, d, slots, x, y);
    Durability.LastingChosen(hex, slots, clock, MirrorSum(hex, y), 2, {a, c});
    HalvedLowest(hex, a, b, c, d, slots, x, y, ChoiceOf(hex, slots, clock));
  }

  lemma HalvedSets(hex: string -> string, a: string, b: string, c: string, d: string, slots: Slots,
                   x: SecretData, y: SecretData)
    requires Halved(slots, a, b, c, d, x, y) && MirrorSum(hex, x) != MirrorSum(hex, y)
    ensures MissingFrom(slots) == {} == Unlabelled(slots) && b in Targets(hex, slots, Choice(a, MirrorSum(hex, y)))
  {
    assert b in Disagreeing(hex, slots, MirrorSum(hex, y));
  }

  lemma HalvedSplits(hex: string -> string, a: string, b: string, c: string, d: string, slots: Slots,
                     x: SecretData, y: SecretData, env: Environment)
    requires Halved(slots, a, b, c, d, x, y) && MirrorSum(hex, x) != MirrorSum(hex, y)
    requires LosesReread(a, b, c, d, env) && Visible(slots, env) == slots
    requires Chosen(hex, slots, Choice(a, MirrorSum(hex, y)))
    ensures SplitsAt(hex, slots, env, Choice(a, MirrorSum(hex, y)), b)
  {
    var ch := Choice(a, MirrorSum(hex, y));
    HalvedSets(hex, a, b, c, d, slots, x, y);
    assert WritesAt(hex, slots, env, ch, b);
    assert KeepsOther(hex, slots, env, ch, d);
  }

  /** The plan copies `y` from `a` to `b`; without the metadata of `a` it is stamped with version 1, which
  `d` still has on the old `x`. */
  lemma RereadFailureClash(hex: string -> string, a: string, b: string, c: string, d: string, slots: Slots,
                           x: SecretData, y: SecretData, env: Environment)
    requires Halved(slots, a, b, c, d, x, y) && MirrorSum(hex, x) != MirrorSum(hex, y) && Less(a, c)
    requires LosesReread(a, b, c, d, env)
    ensures Coupled(slots) && VersionsUpto(slots, 2) && DescribesRead(slots, env)
    ensures Splits(hex, slots, env) && !Coupled(Swept(hex, slots, env))
  {
    HalvedBefore(a, b, c, d, slots, x, y);
    HalvedSeen(a, b, c, d, slots, env);
    HalvedChoice(hex, a, b, c, d, slots, x, y, env.clock);
    HalvedSplits(hex, a, b, c, d, slots, x, y, env);
    SweepCouplesIff(hex, slots, env, 2);
  }
}
