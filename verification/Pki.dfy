/** Replicas that get-or-create one certificate authority and its leaves in
shared cluster Secrets, step by step and in any interleaving.

Create fails when the Secret exists, Update fails when the Secret was written
since it was read, nobody deletes.  Every API call may be refused, or take
effect and still report an error; every replica may stop at any step.  An
external controller may write any leaf Secret it marks as its own.
*/
module Pki {
  import opened Replica

  const SECOND := 1_000_000_000

  /** Certificate authorities are numbered in the order they are generated. */
  type CaId = nat

  datatype Cert = Cert(issuer: CaId, notAfter: int)

  datatype Name = Server | Client

  /** A leaf Secret: its resource version, provenance, trusted CA, and leaf if there is a parseable one. */
  datatype Secret = Secret(version: nat, external: bool, trusted: CaId, cert: Option<Cert>)

  datatype Bundle = Bundle(ca: CaId, client: Cert, external: bool)

  datatype Config = Config(validity: int, renewBefore: int)

  /** Where a replica is inside EnsurePKI. */
  datatype Pc =
    | Idle
    | NoCa
    | Generated(mine: CaId)
    | LostRace
    | HasCa(ca: CaId, name: Name)
    | Fetched(ca: CaId, name: Name, seen: Option<Secret>)
    | Due(ca: CaId, name: Name, seen: Option<Secret>, checked: int)
    | Issued(ca: CaId, name: Name, seen: Option<Secret>, checked: int, leaf: Cert)
    | Effective(ca: CaId, name: Name, cert: Option<Cert>, external: bool)

  /** `assured` keeps, for each leaf, the clock of the latest check that ended with a leaf found or made good;
  `began` when each replica's current call began, and `completed` when the calls that returned a bundle began. */
  datatype State = State(
    ca: Option<CaId>, leaves: map<Name, Secret>, generated: nat, now: int, pcs: seq<Pc>, returned: set<Bundle>,
    assured: map<Name, int>, began: map<nat, int>, completed: set<int>)

  /** How an API call ends: as asked, refused, or done with the answer lost. */
  datatype Outcome = Fine | Refused | AnswerLost

  datatype Action =
    | Act(i: nat, outcome: Outcome)
    | Stop(i: nat)
    | External(name: Name, trusted: CaId, cert: Option<Cert>)
    | Tick(elapsed: nat)

  // ------------------------------------------------------------- certificates

  /** Certificate times carry whole seconds. */
  function Truncated(t: int): (r: int)
    ensures t - SECOND < r <= t
  {
    t - t % SECOND
  }

  function IssuedAt(ca: CaId, now: int, cfg: Config): Cert
  {
    Cert(ca, Truncated(now + cfg.validity))
  }

  predicate NeedsRotation(cert: Option<Cert>, now: int, cfg: Config)
  {
    cert.None? || now > cert.value.notAfter - cfg.renewBefore
  }

  // -------------------------------------------------------------------- steps

  function At(s: State, i: nat, pc: Pc): State
    requires i < |s.pcs|
  {
    s.(pcs := s.pcs[i := pc])
  }

  function Began(s: State, i: nat): int
  {
    if i in s.began then s.began[i] else s.now
  }

  /** Only replica `i` has moved. */
  predicate MovesOnly(s: State, r: State, i: nat)
  {
    |r.pcs| == |s.pcs| && forall j :: 0 <= j < |s.pcs| && j != i ==> r.pcs[j] == s.pcs[j]
  }

  function CreateCa(s: State, i: nat, mine: CaId, outcome: Outcome): (r: State)
    requires i < |s.pcs|
    ensures MovesOnly(s, r, i)
  {
    if outcome == Refused then At(s, i, Idle)
    else if s.ca.Some? then At(s, i, if outcome == Fine then LostRace else Idle)
    else At(s.(ca := Some(mine)), i, if outcome == Fine then HasCa(mine, Server) else Idle)
  }

  function Assure(s: State, name: Name, checked: int): State
  {
    s.(assured := s.assured[name := checked])
  }

  function Decide(s: State, i: nat, pc: Pc, cfg: Config): (r: State)
    requires i < |s.pcs| && pc.Fetched?
    ensures MovesOnly(s, r, i)
  {
    match pc.seen
    case Some(secret) =>
      if secret.external then At(s, i, Effective(pc.ca, pc.name, secret.cert, true))
      else if NeedsRotation(secret.cert, s.now, cfg) then At(s, i, Due(pc.ca, pc.name, pc.seen, s.now))
      else At(Assure(s, pc.name, s.now), i, Effective(pc.ca, pc.name, secret.cert, false))
    case None => At(s, i, Due(pc.ca, pc.name, pc.seen, s.now))
  }

  /** The Secret a write leaves, if the API server accepts the write. */
  function Accepted(leaves: map<Name, Secret>, pc: Pc): Option<Secret>
    requires pc.Issued?
  {
    if pc.seen.None? then
      if pc.name in leaves then None else Some(Secret(0, false, pc.ca, Some(pc.leaf)))
    else if pc.name in leaves && leaves[pc.name].version == pc.seen.value.version
    then Some(Secret(leaves[pc.name].version + 1, false, pc.ca, Some(pc.leaf)))
    else None
  }

  function WriteLeaf(s: State, i: nat, pc: Pc, outcome: Outcome): (r: State)
    requires i < |s.pcs| && pc.Issued?
    ensures MovesOnly(s, r, i)
  {
    var accepted := Accepted(s.leaves, pc);
    if outcome == Refused || accepted.None? then At(s, i, Idle)
    else
      var s' := s.(leaves := s.leaves[pc.name := accepted.value]);
      if outcome == Fine
      then At(Assure(s', pc.name, pc.checked), i, Effective(pc.ca, pc.name, Some(pc.leaf), false))
      else At(s', i, Idle)
  }

  /** After the server leaf comes the client leaf, and after that the bundle, if the client leaf parses. */
  function Proceed(s: State, i: nat, pc: Pc): (r: State)
    requires i < |s.pcs| && pc.Effective?
    ensures MovesOnly(s, r, i)
  {
    if pc.name == Server then At(s, i, HasCa(pc.ca, Client))
    else if pc.cert.None? then At(s, i, Idle)
    else
      At(s.(returned := s.returned + {Bundle(pc.ca, pc.cert.value, pc.external)},
            completed := s.completed + {Began(s, i)}), i, Idle)
  }

  function Advance(s: State, i: nat, outcome: Outcome, cfg: Config): (r: State)
    requires i < |s.pcs|
    ensures MovesOnly(s, r, i)
  {
    var pc := s.pcs[i];
    match pc
    case Idle =>
      if outcome != Fine then s
      else At(s.(began := s.began[i := s.now]), i, if s.ca.Some? then HasCa(s.ca.value, Server) else NoCa)
    case NoCa => At(s.(generated := s.generated + 1), i, Generated(s.generated))
    case Generated(mine) => CreateCa(s, i, mine, outcome)
    case LostRace => At(s, i, if outcome == Fine && s.ca.Some? then HasCa(s.ca.value, Server) else Idle)
    case HasCa(ca, name) =>
      if outcome != Fine then At(s, i, Idle)
      else At(s, i, Fetched(ca, name, if name in s.leaves then Some(s.leaves[name]) else None))
    case Fetched(ca, name, seen) => Decide(s, i, pc, cfg)
    case Due(ca, name, seen, checked) => At(s, i, Issued(ca, name, seen, checked, IssuedAt(ca, s.now, cfg)))
    case Issued(ca, name, seen, checked, leaf) => WriteLeaf(s, i, pc, outcome)
    case Effective(ca, name, cert, external) => Proceed(s, i, pc)
  }

  function Apply(s: State, a: Action, cfg: Config): State
  {
    match a
    case Act(i, outcome) => if i < |s.pcs| then Advance(s, i, outcome, cfg) else s
    case Stop(i) => if i < |s.pcs| then At(s, i, Idle) else s
    case External(name, trusted, cert) =>
      var version := if name in s.leaves then s.leaves[name].version + 1 else 0;
      s.(leaves := s.leaves[name := Secret(version, true, trusted, cert)])
    case Tick(elapsed) => s.(now := s.now + elapsed)
  }

  function Run(s: State, actions: seq<Action>, cfg: Config): State
  {
    if actions == [] then s else Apply(Run(s, actions[..|actions| - 1], cfg), actions[|actions| - 1], cfg)
  }

  predicate Empty(s: State)
  {
    && s.ca.None? && s.leaves == map[] && s.returned == {} && s.assured == map[] && s.completed == {}
    && forall i :: 0 <= i < |s.pcs| ==> s.pcs[i] == Idle
  }

  // --------------------------------------------------------------- invariants

  predicate SelfSigned(secret: Secret, ca: Option<CaId>)
  {
    !secret.external ==>
      ca.Some? && secret.trusted == ca.value && secret.cert.Some? && secret.cert.value.issuer == ca.value
  }

  /** A Secret read earlier: unchanged if its version is. */
  predicate Snapshot(seen: Option<Secret>, leaves: map<Name, Secret>, name: Name)
  {
    seen.Some? ==>
      && name in leaves
      && seen.value.version <= leaves[name].version
      && (seen.value.version == leaves[name].version ==> seen.value == leaves[name])
  }

  predicate PcOk(pc: Pc, ca: Option<CaId>, leaves: map<Name, Secret>)
  {
    match pc
    case LostRace => ca.Some?
    case HasCa(c, name) => ca == Some(c)
    case Fetched(c, name, seen) => ca == Some(c) && Snapshot(seen, leaves, name)
      && (seen.Some? ==> SelfSigned(seen.value, ca))
    case Due(c, name, seen, checked) =>
      ca == Some(c) && Snapshot(seen, leaves, name) && (seen.Some? ==> !seen.value.external)
    case Issued(c, name, seen, checked, leaf) =>
      ca == Some(c) && Snapshot(seen, leaves, name) && leaf.issuer == c && (seen.Some? ==> !seen.value.external)
    case Effective(c, name, cert, external) =>
      ca == Some(c) && (!external ==> cert.Some? && cert.value.issuer == c)
    case _ => true
  }

  predicate BundleOk(b: Bundle, ca: Option<CaId>)
  {
    ca == Some(b.ca) && (!b.external ==> b.client.issuer == b.ca)
  }

  ghost predicate PcsOk(s: State)
  {
    forall i :: 0 <= i < |s.pcs| ==> PcOk(s.pcs[i], s.ca, s.leaves)
  }

  ghost predicate LeavesOk(s: State)
  {
    forall n :: n in s.leaves ==> SelfSigned(s.leaves[n], s.ca)
  }

  ghost predicate BundlesOk(s: State)
  {
    forall b :: b in s.returned ==> BundleOk(b, s.ca)
  }

  ghost predicate Inv(s: State)
  {
    PcsOk(s) && LeavesOk(s) && BundlesOk(s)
  }

  /** The CA, once stored, never changes, and leaf Secrets only move to higher versions. */
  predicate Forward(s: State, s': State)
  {
    && (s.ca.Some? ==> s'.ca == s.ca)
    && (forall n :: n in s.leaves ==>
          n in s'.leaves && (s'.leaves[n] == s.leaves[n] || s'.leaves[n].version > s.leaves[n].version))
  }

  lemma PcForward(pc: Pc, s: State, s': State)
    requires PcOk(pc, s.ca, s.leaves) && Forward(s, s')
    ensures PcOk(pc, s'.ca, s'.leaves)
  {}

  lemma StepForward(s: State, a: Action, cfg: Config)
    ensures Forward(s, Apply(s, a, cfg))
  {}

  /** The acting replica's own new position is sound. */
  lemma ActorOk(s: State, i: nat, outcome: Outcome, cfg: Config)
    requires Inv(s) && i < |s.pcs|
    ensures |Advance(s, i, outcome, cfg).pcs| == |s.pcs|
    ensures PcOk(Advance(s, i, outcome, cfg).pcs[i], Advance(s, i, outcome, cfg).ca, Advance(s, i, outcome, cfg).leaves)
  {
    assert PcOk(s.pcs[i], s.ca, s.leaves);
    PcsLength(s, i, outcome, cfg);
    if s.pcs[i].HasCa? {
      FetchOk(s, i, outcome, cfg);
    } else if s.pcs[i].Fetched? {
      DecideOk(s, i, cfg);
    } else {
      OtherOk(s, i, outcome, cfg);
    }
  }

  lemma FetchOk(s: State, i: nat, outcome: Outcome, cfg: Config)
    requires i < |s.pcs| && s.pcs[i].HasCa? && PcOk(s.pcs[i], s.ca, s.leaves) && LeavesOk(s)
    ensures PcOk(Advance(s, i, outcome, cfg).pcs[i], Advance(s, i, outcome, cfg).ca, Advance(s, i, outcome, cfg).leaves)
  {
    var name := s.pcs[i].name;
    if name in s.leaves { assert SelfSigned(s.leaves[name], s.ca); }
  }

  lemma DecideOk(s: State, i: nat, cfg: Config)
    requires i < |s.pcs| && s.pcs[i].Fetched? && PcOk(s.pcs[i], s.ca, s.leaves)
    ensures var r := Decide(s, i, s.pcs[i], cfg); PcOk(r.pcs[i], r.ca, r.leaves)
  {}

  lemma OtherOk(s: State, i: nat, outcome: Outcome, cfg: Config)
    requires i < |s.pcs| && !s.pcs[i].HasCa? && !s.pcs[i].Fetched? && PcOk(s.pcs[i], s.ca, s.leaves)
    ensures PcOk(Advance(s, i, outcome, cfg).pcs[i], Advance(s, i, outcome, cfg).ca, Advance(s, i, outcome, cfg).leaves)
  {}

  lemma OthersStay(s: State, a: Action, cfg: Config, j: nat)
    requires j < |s.pcs| && (a.Act? || a.Stop? ==> a.i != j)
    ensures |Apply(s, a, cfg).pcs| == |s.pcs| && Apply(s, a, cfg).pcs[j] == s.pcs[j]
  {
    if a.Act? && a.i < |s.pcs| { assert MovesOnly(s, Advance(s, a.i, a.outcome, cfg), a.i); }
  }

  lemma PcsKept(s: State, a: Action, cfg: Config)
    requires Inv(s)
    ensures PcsOk(Apply(s, a, cfg))
  {
    var s' := Apply(s, a, cfg);
    StepForward(s, a, cfg);
    if a.Act? && a.i < |s.pcs| { ActorOk(s, a.i, a.outcome, cfg); }
    forall j | 0 <= j < |s'.pcs| ensures PcOk(s'.pcs[j], s'.ca, s'.leaves) {
      if !(a.Act? && a.i == j) && !(a.Stop? && a.i == j) {
        PcKept(s, a, cfg, j);
      }
    }
  }

  lemma PcKept(s: State, a: Action, cfg: Config, j: nat)
    requires PcsOk(s) && j < |Apply(s, a, cfg).pcs| && (a.Act? || a.Stop? ==> a.i != j)
    ensures PcOk(Apply(s, a, cfg).pcs[j], Apply(s, a, cfg).ca, Apply(s, a, cfg).leaves)
  {
    assert |Apply(s, a, cfg).pcs| == |s.pcs|;
    OthersStay(s, a, cfg, j);
    StepForward(s, a, cfg);
    PcForward(s.pcs[j], s, Apply(s, a, cfg));
  }

  lemma LeavesKept(s: State, a: Action, cfg: Config)
    requires Inv(s)
    ensures LeavesOk(Apply(s, a, cfg))
  {
    StepForward(s, a, cfg);
    if a.Act? && a.i < |s.pcs| { assert PcOk(s.pcs[a.i], s.ca, s.leaves); }
  }

  lemma BundlesKept(s: State, a: Action, cfg: Config)
    requires Inv(s)
    ensures BundlesOk(Apply(s, a, cfg))
  {
    StepForward(s, a, cfg);
    if a.Act? && a.i < |s.pcs| { assert PcOk(s.pcs[a.i], s.ca, s.leaves); }
  }

  // -------------------------------------------------------------- all the runs

  lemma {:induction false} EveryRunKeepsInv(s: State, actions: seq<Action>, cfg: Config)
    requires Empty(s)
    ensures Inv(Run(s, actions, cfg))
  {
    if actions != [] {
      var init, last := actions[..|actions| - 1], actions[|actions| - 1];
      EveryRunKeepsInv(s, init, cfg);
      StepInv(Run(s, init, cfg), last, cfg);
    }
  }

  /** Whatever the interleaving, every bundle any replica ever returned trusts the one stored CA, and
  every self-managed leaf is signed by it and delivered with it. */
  lemma OneCa(s: State, actions: seq<Action>, cfg: Config)
    requires Empty(s)
    ensures var t := Run(s, actions, cfg);
            && (forall b :: b in t.returned ==> t.ca == Some(b.ca) && (!b.external ==> b.client.issuer == b.ca))
            && (forall n :: n in t.leaves && !t.leaves[n].external ==>
                  t.ca == Some(t.leaves[n].trusted) && t.leaves[n].cert.Some?
                  && t.leaves[n].cert.value.issuer == t.leaves[n].trusted)
  {
    EveryRunKeepsInv(s, actions, cfg);
  }

  /** The stored CA outlives every continuation of the run. */
  lemma {:induction false} CaIsForever(s: State, actions: seq<Action>, cfg: Config)
    requires s.ca.Some?
    ensures Run(s, actions, cfg).ca == s.ca
  {
    if actions != [] {
      CaIsForever(s, actions[..|actions| - 1], cfg);
      StepForward(Run(s, actions[..|actions| - 1], cfg), actions[|actions| - 1], cfg);
    }
  }

  /** No replica changes a leaf Secret that an external controller owns. */
  lemma ExternalUntouched(s: State, actions: seq<Action>, cfg: Config, a: Action, n: Name)
    requires Empty(s) && !a.External?
    ensures var t := Run(s, actions, cfg);
            n in t.leaves && t.leaves[n].external ==>
              n in Apply(t, a, cfg).leaves && Apply(t, a, cfg).leaves[n] == t.leaves[n]
  {
    EveryRunKeepsInv(s, actions, cfg);
    var t := Run(s, actions, cfg);
    if a.Act? && a.i < |t.pcs| { assert PcOk(t.pcs[a.i], t.ca, t.leaves); }
  }

  // ------------------------------------------------------------------ rotation

  function Min(a: int, b: int): int { if a < b then a else b }

  /** A self-managed Secret that was due at the given time. */
  predicate DueAt(secret: Secret, now: int, cfg: Config)
  {
    secret.external || NeedsRotation(secret.cert, now, cfg)
  }

  /** A self-managed Secret can only have been replaced because it was due. */
  predicate Superseded(seen: Option<Secret>, s: State, name: Name, cfg: Config)
  {
    seen.Some? && name in s.leaves && seen.value.version < s.leaves[name].version && !s.leaves[name].external ==>
      DueAt(seen.value, s.now, cfg)
  }

  /** A pending replacement is of a Secret that was due, and no later check has found that Secret good. */
  predicate Pending(seen: Option<Secret>, checked: int, s: State, name: Name, cfg: Config)
  {
    && checked <= s.now
    && (seen.Some? ==> DueAt(seen.value, checked, cfg))
    && (seen.Some? && name in s.assured && name in s.leaves && seen.value.version == s.leaves[name].version ==>
          s.assured[name] <= checked)
  }

  predicate PcTimely(pc: Pc, s: State, cfg: Config)
  {
    match pc
    case Fetched(c, name, seen) => Superseded(seen, s, name, cfg)
    case Due(c, name, seen, checked) => Superseded(seen, s, name, cfg) && Pending(seen, checked, s, name, cfg)
    case Issued(c, name, seen, checked, leaf) =>
      && Superseded(seen, s, name, cfg) && Pending(seen, checked, s, name, cfg)
      && leaf.notAfter > checked + cfg.validity - SECOND
    case _ => true
  }

  predicate LeafTimely(s: State, n: Name, cfg: Config)
  {
    n in s.assured ==>
      && n in s.leaves && s.assured[n] <= s.now
      && (!s.leaves[n].external ==>
            s.leaves[n].cert.Some?
            && s.leaves[n].cert.value.notAfter > s.assured[n] + Min(cfg.renewBefore, cfg.validity) - SECOND)
  }

  ghost predicate Timely(s: State, cfg: Config)
  {
    && (forall i :: 0 <= i < |s.pcs| ==> PcTimely(s.pcs[i], s, cfg))
    && (forall n :: LeafTimely(s, n, cfg))
  }

  lemma DueLater(secret: Secret, t: int, t': int, cfg: Config)
    requires DueAt(secret, t, cfg) && t <= t'
    ensures DueAt(secret, t', cfg)
  {}

  /** A check can only find good the Secret that is stored now. */
  lemma GoodIsCurrent(s: State, pc: Pc, cfg: Config)
    requires pc.Fetched? && PcOk(pc, s.ca, s.leaves) && PcTimely(pc, s, cfg)
    requires pc.seen.Some? && !DueAt(pc.seen.value, s.now, cfg)
    ensures pc.name in s.leaves && (s.leaves[pc.name] == pc.seen.value || s.leaves[pc.name].external)
  {}

  /** Finding a leaf good leaves no replacement of it pending. */
  lemma OthersAfterGood(s: State, pc: Pc, other: Pc, cfg: Config)
    requires pc.Fetched? && PcOk(pc, s.ca, s.leaves) && PcTimely(pc, s, cfg)
    requires pc.seen.Some? && !DueAt(pc.seen.value, s.now, cfg)
    requires PcOk(other, s.ca, s.leaves) && PcTimely(other, s, cfg)
    ensures PcTimely(other, Assure(s, pc.name, s.now), cfg)
  {
    GoodIsCurrent(s, pc, cfg);
  }

  lemma LeavesAfterGood(s: State, pc: Pc, cfg: Config, n: Name)
    requires pc.Fetched? && PcOk(pc, s.ca, s.leaves) && PcTimely(pc, s, cfg)
    requires pc.seen.Some? && !DueAt(pc.seen.value, s.now, cfg) && LeafTimely(s, n, cfg)
    ensures LeafTimely(Assure(s, pc.name, s.now), n, cfg)
  {
    GoodIsCurrent(s, pc, cfg);
  }

  function Stored(s: State, pc: Pc): State
    requires pc.Issued? && Accepted(s.leaves, pc).Some?
  {
    s.(leaves := s.leaves[pc.name := Accepted(s.leaves, pc).value])
  }

  lemma OthersAfterWrite(s: State, pc: Pc, other: Pc, cfg: Config, assured: map<Name, int>)
    requires pc.Issued? && PcOk(pc, s.ca, s.leaves) && PcTimely(pc, s, cfg) && Accepted(s.leaves, pc).Some?
    requires PcOk(other, s.ca, s.leaves) && PcTimely(other, s, cfg)
    requires assured == s.assured || assured == s.assured[pc.name := pc.checked]
    ensures PcTimely(other, Stored(s, pc).(assured := assured), cfg)
  {
    if other.Fetched? || other.Due? || other.Issued? {
      SupersededByWrite(s, pc, other.seen, other.name, cfg);
    }
  }

  lemma SupersededByWrite(s: State, pc: Pc, seen: Option<Secret>, name: Name, cfg: Config)
    requires pc.Issued? && PcOk(pc, s.ca, s.leaves) && PcTimely(pc, s, cfg) && Accepted(s.leaves, pc).Some?
    requires Snapshot(seen, s.leaves, name) && Superseded(seen, s, name, cfg)
    ensures Superseded(seen, Stored(s, pc), name, cfg)
  {
    if seen.Some? && name == pc.name {
      DueLater(pc.seen.value, pc.checked, s.now, cfg);
    }
  }

  lemma LeavesAfterWrite(s: State, pc: Pc, cfg: Config, n: Name, assured: map<Name, int>)
    requires pc.Issued? && PcOk(pc, s.ca, s.leaves) && PcTimely(pc, s, cfg) && Accepted(s.leaves, pc).Some?
    requires LeafTimely(s, n, cfg)
    requires assured == s.assured || assured == s.assured[pc.name := pc.checked]
    ensures LeafTimely(Stored(s, pc).(assured := assured), n, cfg)
  {}

  // ------------------------------------------------------ timely in every run

  lemma PcTimelyFrame(pc: Pc, s: State, s': State, cfg: Config)
    requires PcTimely(pc, s, cfg) && s'.leaves == s.leaves && s'.assured == s.assured && s'.now >= s.now
    ensures PcTimely(pc, s', cfg)
  {}

  lemma OthersAfterExternal(pc: Pc, s: State, a: Action, cfg: Config)
    requires a.External? && PcOk(pc, s.ca, s.leaves) && PcTimely(pc, s, cfg)
    ensures PcTimely(pc, Apply(s, a, cfg), cfg)
  {}

  lemma DecidedTimely(s: State, i: nat, cfg: Config)
    requires i < |s.pcs| && s.pcs[i].Fetched? && PcOk(s.pcs[i], s.ca, s.leaves) && PcTimely(s.pcs[i], s, cfg)
    requires LeafTimely(s, s.pcs[i].name, cfg)
    ensures PcTimely(Decide(s, i, s.pcs[i], cfg).pcs[i], Decide(s, i, s.pcs[i], cfg), cfg)
  {}

  lemma IssuedTimely(s: State, i: nat, cfg: Config, outcome: Outcome)
    requires i < |s.pcs| && s.pcs[i].Due? && PcTimely(s.pcs[i], s, cfg)
    ensures PcTimely(Advance(s, i, outcome, cfg).pcs[i], Advance(s, i, outcome, cfg), cfg)
  {}

  lemma FetchedTimely(s: State, i: nat, cfg: Config, outcome: Outcome)
    requires i < |s.pcs| && s.pcs[i].HasCa?
    ensures PcTimely(Advance(s, i, outcome, cfg).pcs[i], Advance(s, i, outcome, cfg), cfg)
  {}

  lemma FreeTimely(s: State, i: nat, cfg: Config, outcome: Outcome)
    requires i < |s.pcs| && !s.pcs[i].HasCa? && !s.pcs[i].Fetched? && !s.pcs[i].Due?
    ensures PcTimely(Advance(s, i, outcome, cfg).pcs[i], Advance(s, i, outcome, cfg), cfg)
  {}

  lemma PcsLength(s: State, i: nat, outcome: Outcome, cfg: Config)
    requires i < |s.pcs|
    ensures |Advance(s, i, outcome, cfg).pcs| == |s.pcs|
  {
    assert MovesOnly(s, Advance(s, i, outcome, cfg), i);
  }

  lemma ActorAfterStep(s: State, i: nat, outcome: Outcome, cfg: Config)
    requires i < |s.pcs| && PcOk(s.pcs[i], s.ca, s.leaves) && PcTimely(s.pcs[i], s, cfg)
    requires s.pcs[i].Fetched? ==> LeafTimely(s, s.pcs[i].name, cfg)
    ensures |Advance(s, i, outcome, cfg).pcs| == |s.pcs|
    ensures PcTimely(Advance(s, i, outcome, cfg).pcs[i], Advance(s, i, outcome, cfg), cfg)
  {
    PcsLength(s, i, outcome, cfg);
    if s.pcs[i].HasCa? {
      FetchedTimely(s, i, cfg, outcome);
    } else if s.pcs[i].Fetched? {
      DecidedTimely(s, i, cfg);
    } else if s.pcs[i].Due? {
      IssuedTimely(s, i, cfg, outcome);
    } else {
      FreeTimely(s, i, cfg, outcome);
    }
  }

  lemma ActorTimely(s: State, i: nat, outcome: Outcome, cfg: Config)
    requires Inv(s) && Timely(s, cfg) && i < |s.pcs|
    ensures |Advance(s, i, outcome, cfg).pcs| == |s.pcs|
    ensures PcTimely(Advance(s, i, outcome, cfg).pcs[i], Advance(s, i, outcome, cfg), cfg)
  {
    ActorAfterStep(s, i, outcome, cfg);
  }

  lemma OtherTimely(s: State, i: nat, outcome: Outcome, cfg: Config, j: nat)
    requires Inv(s) && Timely(s, cfg) && i < |s.pcs| && j < |s.pcs| && i != j
    ensures |Advance(s, i, outcome, cfg).pcs| == |s.pcs|
    ensures PcTimely(Advance(s, i, outcome, cfg).pcs[j], Advance(s, i, outcome, cfg), cfg)
  {
    var pc, other, s' := s.pcs[i], s.pcs[j], Advance(s, i, outcome, cfg);
    assert PcOk(pc, s.ca, s.leaves) && PcTimely(pc, s, cfg);
    assert PcOk(other, s.ca, s.leaves) && PcTimely(other, s, cfg);
    assert s'.pcs[j] == other;
    if pc.Fetched? && pc.seen.Some? && !DueAt(pc.seen.value, s.now, cfg) {
      OthersAfterGood(s, pc, other, cfg);
      PcTimelyFrame(other, Assure(s, pc.name, s.now), s', cfg);
    } else if pc.Issued? && outcome != Refused && Accepted(s.leaves, pc).Some? {
      OthersAfterWrite(s, pc, other, cfg, s'.assured);
      PcTimelyFrame(other, Stored(s, pc).(assured := s'.assured), s', cfg);
    } else {
      PcTimelyFrame(other, s, s', cfg);
    }
  }

  lemma LeafAfterStep(s: State, i: nat, outcome: Outcome, cfg: Config, n: Name)
    requires i < |s.pcs| && PcOk(s.pcs[i], s.ca, s.leaves) && PcTimely(s.pcs[i], s, cfg) && LeafTimely(s, n, cfg)
    ensures LeafTimely(Advance(s, i, outcome, cfg), n, cfg)
  {
    var pc, s' := s.pcs[i], Advance(s, i, outcome, cfg);
    if pc.Fetched? && pc.seen.Some? && !DueAt(pc.seen.value, s.now, cfg) {
      LeavesAfterGood(s, pc, cfg, n);
    } else if pc.Issued? && outcome != Refused && Accepted(s.leaves, pc).Some? {
      LeavesAfterWrite(s, pc, cfg, n, s'.assured);
    }
  }

  lemma LeafStaysTimely(s: State, i: nat, outcome: Outcome, cfg: Config, n: Name)
    requires Inv(s) && Timely(s, cfg) && i < |s.pcs|
    ensures LeafTimely(Advance(s, i, outcome, cfg), n, cfg)
  {
    LeafAfterStep(s, i, outcome, cfg, n);
  }

  lemma ActTimely(s: State, i: nat, outcome: Outcome, cfg: Config)
    requires Inv(s) && Timely(s, cfg) && i < |s.pcs|
    ensures Timely(Advance(s, i, outcome, cfg), cfg)
  {
    var s' := Advance(s, i, outcome, cfg);
    ActorTimely(s, i, outcome, cfg);
    forall j | 0 <= j < |s'.pcs| ensures PcTimely(s'.pcs[j], s', cfg) {
      if j != i { OtherTimely(s, i, outcome, cfg, j); }
    }
    forall n ensures LeafTimely(s', n, cfg) { LeafStaysTimely(s, i, outcome, cfg, n); }
  }

  lemma StepTimely(s: State, a: Action, cfg: Config)
    requires Inv(s) && Timely(s, cfg)
    ensures Timely(Apply(s, a, cfg), cfg)
  {
    var s' := Apply(s, a, cfg);
    match a
    case Act(i, outcome) => if i < |s.pcs| { ActTimely(s, i, outcome, cfg); }
    case Stop(i) => StopTimely(s, i, cfg);
    case External(name, trusted, cert) =>
      forall j | 0 <= j < |s'.pcs| ensures PcTimely(s'.pcs[j], s', cfg) {
        assert PcOk(s.pcs[j], s.ca, s.leaves) && PcTimely(s.pcs[j], s, cfg);
        OthersAfterExternal(s.pcs[j], s, a, cfg);
      }
      forall n ensures LeafTimely(s', n, cfg) { assert LeafTimely(s, n, cfg); }
    case Tick(elapsed) =>
      forall j | 0 <= j < |s'.pcs| ensures PcTimely(s'.pcs[j], s', cfg) { PcTimelyFrame(s.pcs[j], s, s', cfg); }
      forall n ensures LeafTimely(s', n, cfg) { assert LeafTimely(s, n, cfg); }
  }

  lemma StopTimely(s: State, i: nat, cfg: Config)
    requires Timely(s, cfg)
    ensures Timely(Apply(s, Stop(i), cfg), cfg)
  {
    var s' := Apply(s, Stop(i), cfg);
    forall j | 0 <= j < |s'.pcs| ensures PcTimely(s'.pcs[j], s', cfg) {
      if s'.pcs[j] == s.pcs[j] { PcTimelyFrame(s.pcs[j], s, s', cfg); }
    }
    forall n ensures LeafTimely(s', n, cfg) { assert LeafTimely(s, n, cfg); }
  }

  lemma {:induction false} EveryRunIsTimely(s: State, actions: seq<Action>, cfg: Config)
    requires Empty(s)
    ensures Timely(Run(s, actions, cfg), cfg)
  {
    if actions != [] {
      var init, last := actions[..|actions| - 1], actions[|actions| - 1];
      EveryRunIsTimely(s, init, cfg);
      EveryRunKeepsInv(s, init, cfg);
      StepTimely(Run(s, init, cfg), last, cfg);
    }
  }

  // ------------------------------------------------------- not before it is due

  /** A self-managed leaf that enters its last `renewBefore` of validity. */
  predicate Expiring(secret: Secret, now: int, cfg: Config)
  {
    secret.cert.Some? && now > secret.cert.value.notAfter - cfg.renewBefore
  }

  lemma WriteReplacesDue(s: State, pc: Pc, cfg: Config)
    requires pc.Issued? && PcOk(pc, s.ca, s.leaves) && PcTimely(pc, s, cfg) && Accepted(s.leaves, pc).Some?
    requires pc.name in s.leaves && !s.leaves[pc.name].external && s.leaves[pc.name].cert.Some?
    ensures Expiring(s.leaves[pc.name], s.now, cfg)
  {
    assert pc.seen.value == s.leaves[pc.name];
    DueLater(pc.seen.value, pc.checked, s.now, cfg);
  }

  lemma StepReplacesDue(s: State, a: Action, cfg: Config, n: Name)
    requires Inv(s) && Timely(s, cfg) && !(a.External? && a.name == n) && n in s.leaves && !s.leaves[n].external
    ensures n in Apply(s, a, cfg).leaves
    ensures Apply(s, a, cfg).leaves[n] == s.leaves[n] || Expiring(s.leaves[n], s.now, cfg)
  {
    StepForward(s, a, cfg);
    assert SelfSigned(s.leaves[n], s.ca);
    if a.Act? && a.i < |s.pcs| && s.pcs[a.i].Issued? {
      var pc := s.pcs[a.i];
      assert PcOk(pc, s.ca, s.leaves) && PcTimely(pc, s, cfg);
      if pc.name == n && Accepted(s.leaves, pc).Some? { WriteReplacesDue(s, pc, cfg); }
    }
  }

  /** In every run, a step of a replica changes a self-managed leaf only in its last RenewBefore of validity. */
  lemma RotatedOnlyWhenDue(s: State, actions: seq<Action>, cfg: Config, a: Action, n: Name)
    requires Empty(s) && !a.External?
    ensures var t := Run(s, actions, cfg);
      n in t.leaves && !t.leaves[n].external ==>
        && n in Apply(t, a, cfg).leaves
        && (Apply(t, a, cfg).leaves[n] != t.leaves[n] ==>
              t.leaves[n].cert.Some? && t.now > t.leaves[n].cert.value.notAfter - cfg.renewBefore)
  {
    EveryRunKeepsInv(s, actions, cfg);
    EveryRunIsTimely(s, actions, cfg);
    var t := Run(s, actions, cfg);
    if n in t.leaves && !t.leaves[n].external { StepReplacesDue(t, a, cfg, n); }
  }

  /** Leaves, stored or about to be, are valid for no longer than configured from now, up to a whole second. */
  predicate PcBounded(pc: Pc, now: int, cfg: Config)
  {
    pc.Issued? ==> pc.leaf.notAfter <= now + cfg.validity && pc.leaf.notAfter % SECOND == 0
  }

  predicate LeafBounded(s: State, n: Name, cfg: Config)
  {
    n in s.leaves && !s.leaves[n].external && s.leaves[n].cert.Some? ==>
      s.leaves[n].cert.value.notAfter <= s.now + cfg.validity && s.leaves[n].cert.value.notAfter % SECOND == 0
  }

  ghost predicate Bounded(s: State, cfg: Config)
  {
    && (forall n :: LeafBounded(s, n, cfg))
    && (forall i :: 0 <= i < |s.pcs| ==> PcBounded(s.pcs[i], s.now, cfg))
  }

  lemma StepNow(s: State, a: Action, cfg: Config)
    ensures Apply(s, a, cfg).now >= s.now
  {}

  lemma ActorBounded(s: State, i: nat, outcome: Outcome, cfg: Config)
    requires i < |s.pcs|
    ensures |Advance(s, i, outcome, cfg).pcs| == |s.pcs|
    ensures PcBounded(Advance(s, i, outcome, cfg).pcs[i], Advance(s, i, outcome, cfg).now, cfg)
  {
    PcsLength(s, i, outcome, cfg);
  }

  lemma PcStaysBounded(s: State, a: Action, cfg: Config, j: nat)
    requires j < |s.pcs| && PcBounded(s.pcs[j], s.now, cfg)
    ensures j < |Apply(s, a, cfg).pcs| && PcBounded(Apply(s, a, cfg).pcs[j], Apply(s, a, cfg).now, cfg)
  {
    StepNow(s, a, cfg);
    if a.Act? && a.i == j {
      ActorBounded(s, j, a.outcome, cfg);
    } else if !(a.Stop? && a.i == j) {
      OthersStay(s, a, cfg, j);
    }
  }

  lemma LeafStaysBounded(s: State, a: Action, cfg: Config, n: Name)
    requires LeafBounded(s, n, cfg) && (a.Act? && a.i < |s.pcs| ==> PcBounded(s.pcs[a.i], s.now, cfg))
    ensures LeafBounded(Apply(s, a, cfg), n, cfg)
  {}

  lemma StepBounded(s: State, a: Action, cfg: Config)
    requires Bounded(s, cfg)
    ensures Bounded(Apply(s, a, cfg), cfg)
  {
    var s' := Apply(s, a, cfg);
    ApplyLength(s, a, cfg);
    forall n ensures LeafBounded(s', n, cfg) { LeafStaysBounded(s, a, cfg, n); }
    forall j | 0 <= j < |s'.pcs| ensures PcBounded(s'.pcs[j], s'.now, cfg) { PcStaysBounded(s, a, cfg, j); }
  }

  /** In every run no self-managed leaf outlasts the configured validity, counted from now. */
  lemma {:induction false} EveryRunBounded(s: State, actions: seq<Action>, cfg: Config)
    requires Empty(s)
    ensures Bounded(Run(s, actions, cfg), cfg)
  {
    if actions != [] {
      EveryRunBounded(s, actions[..|actions| - 1], cfg);
      StepBounded(Run(s, actions[..|actions| - 1], cfg), actions[|actions| - 1], cfg);
    }
  }

  lemma StepInv(s: State, a: Action, cfg: Config)
    requires Inv(s)
    ensures Inv(Apply(s, a, cfg))
  {
    PcsKept(s, a, cfg);
    LeavesKept(s, a, cfg);
    BundlesKept(s, a, cfg);
  }

  lemma {:induction false} StaysTimely(t: State, more: seq<Action>, cfg: Config)
    requires Inv(t) && Timely(t, cfg)
    ensures Inv(Run(t, more, cfg)) && Timely(Run(t, more, cfg), cfg)
  {
    if more != [] {
      var init, last := more[..|more| - 1], more[|more| - 1];
      StaysTimely(t, init, cfg);
      StepInv(Run(t, init, cfg), last, cfg);
      StepTimely(Run(t, init, cfg), last, cfg);
    }
  }

  ghost predicate NoTakeover(more: seq<Action>, n: Name)
  {
    forall i :: 0 <= i < |more| ==> !(more[i].External? && more[i].name == n)
  }

  lemma {:induction false} FreshStays(t: State, more: seq<Action>, cfg: Config, n: Name)
    requires Inv(t) && Timely(t, cfg) && n in t.leaves && !t.leaves[n].external && NoTakeover(more, n)
    requires !Expiring(t.leaves[n], Run(t, more, cfg).now, cfg)
    ensures n in Run(t, more, cfg).leaves && Run(t, more, cfg).leaves[n] == t.leaves[n]
  {
    if more != [] {
      var init, last := more[..|more| - 1], more[|more| - 1];
      var was := Run(t, init, cfg);
      StaysTimely(t, init, cfg);
      StepNow(was, last, cfg);
      assert NoTakeover(init, n);
      FreshStays(t, init, cfg, n);
      StepReplacesDue(was, last, cfg, n);
    }
  }

  /** So from any point of any run, a self-managed leaf stays as it is, whatever the replicas do, until its last
  RenewBefore of validity or until an external controller takes it over. */
  lemma LeafStaysUntilDue(s: State, actions: seq<Action>, more: seq<Action>, cfg: Config, n: Name)
    requires Empty(s) && NoTakeover(more, n)
    ensures var t := Run(s, actions, cfg);
      var u := Run(t, more, cfg);
      n in t.leaves && !t.leaves[n].external && t.leaves[n].cert.Some?
      && u.now <= t.leaves[n].cert.value.notAfter - cfg.renewBefore ==>
        n in u.leaves && u.leaves[n] == t.leaves[n]
  {
    EveryRunKeepsInv(s, actions, cfg);
    EveryRunIsTimely(s, actions, cfg);
    var t := Run(s, actions, cfg);
    if n in t.leaves && !t.leaves[n].external && t.leaves[n].cert.Some?
       && Run(t, more, cfg).now <= t.leaves[n].cert.value.notAfter - cfg.renewBefore {
      FreshStays(t, more, cfg, n);
    }
  }

  /** Until `period` after the latest check that ended well, a self-managed leaf keeps its validity. */
  lemma AssuredValidity(s: State, cfg: Config, n: Name, b: int, period: int)
    requires Timely(s, cfg) && Covered(s, n, b) && s.now <= b + period
    ensures s.leaves[n].external || (s.leaves[n].cert.Some?
            && s.leaves[n].cert.value.notAfter - s.now > Min(cfg.renewBefore, cfg.validity) - period - SECOND)
  {
    assert LeafTimely(s, n, cfg);
  }

  // ------------------------------------------------------------ completed calls

  /** The leaf is external, or a check since `b` has ended well. */
  predicate Covered(s: State, n: Name, b: int)
  {
    n in s.leaves && (s.leaves[n].external || (n in s.assured && s.assured[n] >= b))
  }

  /** What a call that began at `b` has already seen to. */
  predicate PcCovered(pc: Pc, s: State, b: int)
  {
    match pc
    case HasCa(c, name) => name == Client ==> Covered(s, Server, b)
    case Fetched(c, name, seen) =>
      && (name == Client ==> Covered(s, Server, b))
      && (seen.Some? && seen.value.external ==> name in s.leaves && s.leaves[name].external)
    case Due(c, name, seen, checked) => (name == Client ==> Covered(s, Server, b)) && checked >= b
    case Issued(c, name, seen, checked, leaf) => (name == Client ==> Covered(s, Server, b)) && checked >= b
    case Effective(c, name, cert, external) => (name == Client ==> Covered(s, Server, b)) && Covered(s, name, b)
    case _ => true
  }

  /** A replica in the middle of a call knows when it began. */
  predicate ReplicaCovered(s: State, i: nat)
    requires i < |s.pcs|
  {
    s.pcs[i] == Idle || (i in s.began && s.began[i] <= s.now && PcCovered(s.pcs[i], s, s.began[i]))
  }

  ghost predicate AllCovered(s: State)
  {
    && (forall i :: 0 <= i < |s.pcs| ==> ReplicaCovered(s, i))
    && (forall b, n :: b in s.completed ==> Covered(s, n, b))
  }

  /** What external controllers own stays theirs, and the assured times only grow. */
  predicate Steady(s: State, s': State)
  {
    forall n :: n in s.leaves ==>
      && n in s'.leaves && (s.leaves[n].external ==> s'.leaves[n].external)
      && (n in s.assured && !s.leaves[n].external ==> n in s'.assured && s'.assured[n] >= s.assured[n])
  }

  lemma CoveredSteady(s: State, s': State, n: Name, b: int)
    requires Covered(s, n, b) && Steady(s, s')
    ensures Covered(s', n, b)
  {}

  lemma PcCoveredSteady(pc: Pc, s: State, s': State, b: int)
    requires PcCovered(pc, s, b) && Steady(s, s')
    ensures PcCovered(pc, s', b)
  {}

  lemma ActSteady(s: State, i: nat, outcome: Outcome, cfg: Config)
    requires i < |s.pcs| && PcOk(s.pcs[i], s.ca, s.leaves) && PcTimely(s.pcs[i], s, cfg)
    requires forall n :: LeafTimely(s, n, cfg)
    ensures Steady(s, Advance(s, i, outcome, cfg))
  {
    forall n ensures n in s.assured ==> n in s.leaves && s.assured[n] <= s.now { assert LeafTimely(s, n, cfg); }
  }

  lemma StepSteady(s: State, a: Action, cfg: Config)
    requires Inv(s) && Timely(s, cfg)
    ensures Steady(s, Apply(s, a, cfg))
  {
    if a.Act? && a.i < |s.pcs| { ActSteady(s, a.i, a.outcome, cfg); }
  }

  lemma DecidedCovered(s: State, i: nat, cfg: Config)
    requires i < |s.pcs| && s.pcs[i].Fetched? && PcOk(s.pcs[i], s.ca, s.leaves) && ReplicaCovered(s, i)
    requires Steady(s, Decide(s, i, s.pcs[i], cfg))
    ensures ReplicaCovered(Decide(s, i, s.pcs[i], cfg), i)
  {
    if s.pcs[i].name == Client { CoveredSteady(s, Decide(s, i, s.pcs[i], cfg), Server, s.began[i]); }
  }

  lemma WrittenCovered(s: State, i: nat, outcome: Outcome)
    requires i < |s.pcs| && s.pcs[i].Issued? && ReplicaCovered(s, i)
    requires Steady(s, WriteLeaf(s, i, s.pcs[i], outcome))
    ensures ReplicaCovered(WriteLeaf(s, i, s.pcs[i], outcome), i)
  {
    if s.pcs[i].name == Client { CoveredSteady(s, WriteLeaf(s, i, s.pcs[i], outcome), Server, s.began[i]); }
  }

  lemma OtherwiseCovered(s: State, i: nat, outcome: Outcome, cfg: Config)
    requires i < |s.pcs| && !s.pcs[i].Fetched? && !s.pcs[i].Issued? && ReplicaCovered(s, i)
    ensures |Advance(s, i, outcome, cfg).pcs| == |s.pcs| && ReplicaCovered(Advance(s, i, outcome, cfg), i)
  {}

  lemma ActorCovered(s: State, i: nat, outcome: Outcome, cfg: Config)
    requires i < |s.pcs| && PcOk(s.pcs[i], s.ca, s.leaves) && ReplicaCovered(s, i)
    requires Steady(s, Advance(s, i, outcome, cfg))
    ensures |Advance(s, i, outcome, cfg).pcs| == |s.pcs| && ReplicaCovered(Advance(s, i, outcome, cfg), i)
  {
    PcsLength(s, i, outcome, cfg);
    if s.pcs[i].Fetched? {
      DecidedCovered(s, i, cfg);
    } else if s.pcs[i].Issued? {
      WrittenCovered(s, i, outcome);
    } else {
      OtherwiseCovered(s, i, outcome, cfg);
    }
  }

  lemma OtherCovered(s: State, a: Action, cfg: Config, j: nat)
    requires j < |s.pcs| && (a.Act? || a.Stop? ==> a.i != j) && ReplicaCovered(s, j) && Steady(s, Apply(s, a, cfg))
    ensures j < |Apply(s, a, cfg).pcs| && ReplicaCovered(Apply(s, a, cfg), j)
  {
    OthersStay(s, a, cfg, j);
    OthersBegan(s, a, cfg, j);
    if s.pcs[j] != Idle { PcCoveredSteady(s.pcs[j], s, Apply(s, a, cfg), s.began[j]); }
  }

  lemma OthersBegan(s: State, a: Action, cfg: Config, j: nat)
    requires a.Act? || a.Stop? ==> a.i != j
    ensures j in s.began ==> j in Apply(s, a, cfg).began && Apply(s, a, cfg).began[j] == s.began[j]
    ensures Apply(s, a, cfg).now >= s.now
  {}

  lemma CompletedCovered(s: State, a: Action, cfg: Config, b: int, n: Name)
    requires AllCovered(s) && b in Apply(s, a, cfg).completed && Steady(s, Apply(s, a, cfg))
    ensures Covered(Apply(s, a, cfg), n, b)
  {
    if b !in s.completed { NewlyCompleted(s, a, cfg, b, n); }
    CoveredSteady(s, Apply(s, a, cfg), n, b);
  }

  lemma NewlyCompleted(s: State, a: Action, cfg: Config, b: int, n: Name)
    requires AllCovered(s) && b in Apply(s, a, cfg).completed && b !in s.completed
    ensures Covered(s, n, b)
  {
    assert a.Act? && a.i < |s.pcs| && ReplicaCovered(s, a.i);
    assert s.pcs[a.i].Effective? && s.pcs[a.i].name == Client && b == s.began[a.i];
  }

  lemma StepCovered(s: State, a: Action, cfg: Config)
    requires Inv(s) && Timely(s, cfg) && AllCovered(s)
    ensures AllCovered(Apply(s, a, cfg))
  {
    var s' := Apply(s, a, cfg);
    StepSteady(s, a, cfg);
    forall b, n | b in s'.completed ensures Covered(s', n, b) { CompletedCovered(s, a, cfg, b, n); }
    ApplyLength(s, a, cfg);
    forall j | 0 <= j < |s'.pcs| ensures ReplicaCovered(s', j) {
      assert PcOk(s.pcs[j], s.ca, s.leaves) && ReplicaCovered(s, j);
      EachCovered(s, a, cfg, j);
    }
  }

  lemma ApplyLength(s: State, a: Action, cfg: Config)
    ensures |Apply(s, a, cfg).pcs| == |s.pcs|
  {
    if a.Act? && a.i < |s.pcs| { PcsLength(s, a.i, a.outcome, cfg); }
  }

  lemma EachCovered(s: State, a: Action, cfg: Config, j: nat)
    requires j < |s.pcs| && PcOk(s.pcs[j], s.ca, s.leaves) && ReplicaCovered(s, j) && Steady(s, Apply(s, a, cfg))
    ensures j < |Apply(s, a, cfg).pcs| && ReplicaCovered(Apply(s, a, cfg), j)
  {
    ApplyLength(s, a, cfg);
    if a.Act? && a.i == j {
      ActorCovered(s, j, a.outcome, cfg);
    } else if !(a.Stop? && a.i == j) {
      OtherCovered(s, a, cfg, j);
    }
  }

  lemma {:induction false} EveryRunCovered(s: State, actions: seq<Action>, cfg: Config)
    requires Empty(s)
    ensures AllCovered(Run(s, actions, cfg))
  {
    if actions != [] {
      var init, last := actions[..|actions| - 1], actions[|actions| - 1];
      EveryRunCovered(s, init, cfg);
      EveryRunKeepsInv(s, init, cfg);
      EveryRunIsTimely(s, init, cfg);
      StepCovered(Run(s, init, cfg), last, cfg);
    }
  }

  /** Whatever the interleaving, if some replica's EnsurePKI that began no longer ago than `period` has returned
  its bundle, then each leaf Secret exists and is externally managed or has more than
  min(RenewBefore, LeafValidity) - period of validity left, up to the second lost to truncation. */
  lemma LeafNeverLapses(s: State, actions: seq<Action>, cfg: Config, n: Name, b: int, period: int)
    requires Empty(s) && b in Run(s, actions, cfg).completed && Run(s, actions, cfg).now <= b + period
    ensures var t := Run(s, actions, cfg);
      n in t.leaves && (t.leaves[n].external || (t.leaves[n].cert.Some?
        && t.leaves[n].cert.value.notAfter - t.now > Min(cfg.renewBefore, cfg.validity) - period - SECOND))
  {
    EveryRunIsTimely(s, actions, cfg);
    EveryRunCovered(s, actions, cfg);
    AssuredValidity(Run(s, actions, cfg), cfg, n, b, period);
  }

  // --------------------------------------------------- what a bundle delivers

  /** A self-managed leaf found or made good by a call lasts from when the call began. */
  predicate Lasts(cert: Option<Cert>, b: int, cfg: Config)
  {
    cert.Some? && cert.value.notAfter > b + Min(cfg.renewBefore, cfg.validity) - SECOND
  }

  predicate ReplicaLasts(s: State, i: nat, cfg: Config)
    requires i < |s.pcs|
  {
    s.pcs[i].Effective? && !s.pcs[i].external ==> i in s.began && Lasts(s.pcs[i].cert, s.began[i], cfg)
  }

  lemma ActorLasts(s: State, i: nat, outcome: Outcome, cfg: Config)
    requires i < |s.pcs| && PcOk(s.pcs[i], s.ca, s.leaves) && PcTimely(s.pcs[i], s, cfg)
    requires ReplicaCovered(s, i) && ReplicaLasts(s, i, cfg)
    ensures |Advance(s, i, outcome, cfg).pcs| == |s.pcs| && ReplicaLasts(Advance(s, i, outcome, cfg), i, cfg)
  {
    PcsLength(s, i, outcome, cfg);
  }

  lemma ReplicaStaysLasting(s: State, a: Action, cfg: Config, j: nat)
    requires j < |s.pcs| && PcOk(s.pcs[j], s.ca, s.leaves) && PcTimely(s.pcs[j], s, cfg)
    requires ReplicaCovered(s, j) && ReplicaLasts(s, j, cfg)
    ensures j < |Apply(s, a, cfg).pcs| && ReplicaLasts(Apply(s, a, cfg), j, cfg)
  {
    ApplyLength(s, a, cfg);
    if a.Act? && a.i == j {
      ActorLasts(s, j, a.outcome, cfg);
    } else if !(a.Stop? && a.i == j) {
      OthersStay(s, a, cfg, j);
      OthersBegan(s, a, cfg, j);
    }
  }

  lemma {:induction false} EveryReplicaLasts(s: State, actions: seq<Action>, cfg: Config, j: nat)
    requires Empty(s) && j < |s.pcs|
    ensures j < |Run(s, actions, cfg).pcs| && ReplicaLasts(Run(s, actions, cfg), j, cfg)
  {
    if actions != [] {
      var init, last := actions[..|actions| - 1], actions[|actions| - 1];
      var t := Run(s, init, cfg);
      EveryReplicaLasts(s, init, cfg, j);
      EveryRunKeepsInv(s, init, cfg);
      EveryRunIsTimely(s, init, cfg);
      EveryRunCovered(s, init, cfg);
      assert PcOk(t.pcs[j], t.ca, t.leaves) && PcTimely(t.pcs[j], t, cfg) && ReplicaCovered(t, j);
      ReplicaStaysLasting(t, last, cfg, j);
    }
  }

  lemma {:induction false} RunLength(s: State, actions: seq<Action>, cfg: Config)
    ensures |Run(s, actions, cfg).pcs| == |s.pcs|
  {
    if actions != [] {
      RunLength(s, actions[..|actions| - 1], cfg);
      ApplyLength(Run(s, actions[..|actions| - 1], cfg), actions[|actions| - 1], cfg);
    }
  }

  lemma ReturningStep(t: State, a: Action, cfg: Config, b: Bundle)
    requires b !in t.returned && b in Apply(t, a, cfg).returned
    ensures a.Act? && a.i < |t.pcs| && t.pcs[a.i].Effective? && t.pcs[a.i].name == Client
    ensures t.pcs[a.i].cert == Some(b.client) && t.pcs[a.i].external == b.external
  {}

  /** In every run, a bundle that a step returns delivers a client leaf which, if self-managed, was valid for
  min(RenewBefore, LeafValidity) from when the call began, up to the second lost to truncation. */
  lemma BundleLasts(s: State, actions: seq<Action>, cfg: Config, a: Action, b: Bundle)
    requires Empty(s) && b !in Run(s, actions, cfg).returned && b in Apply(Run(s, actions, cfg), a, cfg).returned
    ensures a.Act? && a.i < |s.pcs| && a.i in Run(s, actions, cfg).began
    ensures !b.external ==>
      b.client.notAfter > Run(s, actions, cfg).began[a.i] + Min(cfg.renewBefore, cfg.validity) - SECOND
  {
    var t := Run(s, actions, cfg);
    RunLength(s, actions, cfg);
    EveryRunCovered(s, actions, cfg);
    ReturningStep(t, a, cfg, b);
    assert ReplicaCovered(t, a.i);
    EveryReplicaLasts(s, actions, cfg, a.i);
  }

  // ------------------------------------------------------- who manages a leaf

  /** Only an external controller makes a leaf external. */
  lemma OnlyTakeover(s: State, a: Action, cfg: Config, n: Name)
    requires !a.External? && n in Apply(s, a, cfg).leaves && Apply(s, a, cfg).leaves[n].external
    ensures n in s.leaves && s.leaves[n].external
  {}

  predicate TakenOver(s: State, n: Name)
  {
    n in s.leaves && s.leaves[n].external
  }

  /** What a replica takes for external is. */
  predicate PcTruthful(pc: Pc, s: State)
  {
    match pc
    case Fetched(c, name, seen) => seen.Some? && seen.value.external ==> TakenOver(s, name)
    case Effective(c, name, cert, external) => external ==> TakenOver(s, name)
    case _ => true
  }

  ghost predicate Truthful(s: State)
  {
    && (forall i :: 0 <= i < |s.pcs| ==> PcTruthful(s.pcs[i], s))
    && (forall b :: b in s.returned && b.external ==> TakenOver(s, Client))
  }

  lemma PcTruthfulSteady(pc: Pc, s: State, s': State)
    requires PcTruthful(pc, s) && Steady(s, s')
    ensures PcTruthful(pc, s')
  {}

  lemma ActorTruthful(s: State, i: nat, outcome: Outcome, cfg: Config)
    requires i < |s.pcs| && PcTruthful(s.pcs[i], s)
    ensures |Advance(s, i, outcome, cfg).pcs| == |s.pcs|
    ensures PcTruthful(Advance(s, i, outcome, cfg).pcs[i], Advance(s, i, outcome, cfg))
  {
    PcsLength(s, i, outcome, cfg);
  }

  lemma BundleTruthful(s: State, a: Action, cfg: Config, b: Bundle)
    requires Truthful(s) && Steady(s, Apply(s, a, cfg)) && b in Apply(s, a, cfg).returned && b.external
    ensures TakenOver(Apply(s, a, cfg), Client)
  {
    if b !in s.returned {
      assert a.Act? && a.i < |s.pcs| && s.pcs[a.i].Effective? && PcTruthful(s.pcs[a.i], s);
    }
    assert TakenOver(s, Client);
  }

  lemma StepTruthful(s: State, a: Action, cfg: Config)
    requires Inv(s) && Timely(s, cfg) && Truthful(s)
    ensures Truthful(Apply(s, a, cfg))
  {
    var s' := Apply(s, a, cfg);
    StepSteady(s, a, cfg);
    ApplyLength(s, a, cfg);
    forall b | b in s'.returned && b.external ensures TakenOver(s', Client) { BundleTruthful(s, a, cfg, b); }
    forall j | 0 <= j < |s'.pcs| ensures PcTruthful(s'.pcs[j], s') {
      assert PcTruthful(s.pcs[j], s);
      if a.Act? && a.i == j {
        ActorTruthful(s, j, a.outcome, cfg);
      } else if !(a.Stop? && a.i == j) {
        OthersStay(s, a, cfg, j);
        PcTruthfulSteady(s.pcs[j], s, s');
      }
    }
  }

  /** In every run, a bundle that is returned as external belongs to a client leaf that an external controller owns. */
  lemma {:induction false} EveryRunTruthful(s: State, actions: seq<Action>, cfg: Config)
    requires Empty(s)
    ensures Truthful(Run(s, actions, cfg))
  {
    if actions != [] {
      var init, last := actions[..|actions| - 1], actions[|actions| - 1];
      EveryRunTruthful(s, init, cfg);
      EveryRunKeepsInv(s, init, cfg);
      EveryRunIsTimely(s, init, cfg);
      StepTruthful(Run(s, init, cfg), last, cfg);
    }
  }

  // ------------------------------------------------------------ ends of a call

  /** An API call that fails, or whose answer is lost, ends the call to EnsurePKI without a bundle; so do a write
  that the API server rejects and a client leaf that cannot be parsed.  A call that returns a bundle is over. */
  lemma EndOfCall(s: State, i: nat, outcome: Outcome, cfg: Config)
    requires i < |s.pcs|
    ensures var pc, t := s.pcs[i], Advance(s, i, outcome, cfg);
      && (outcome != Fine && (pc.Generated? || pc.LostRace? || pc.HasCa? || pc.Issued?) ==>
            t.pcs[i] == Idle && t.returned == s.returned && t.completed == s.completed)
      && (pc.Issued? && Accepted(s.leaves, pc).None? ==>
            t.pcs[i] == Idle && t.returned == s.returned && t.leaves == s.leaves)
      && (pc.Effective? && pc.name == Client ==> t.pcs[i] == Idle)
      && (pc.Effective? && pc.cert.None? ==> t.returned == s.returned && t.completed == s.completed)
      && (t.returned != s.returned || t.completed != s.completed ==> t.pcs[i] == Idle)
  {
    PcsLength(s, i, outcome, cfg);
  }

  /** The CAs that replicas have generated, stored or not, are different ones. */
  predicate NewCa(s: State, i: nat)
    requires i < |s.pcs|
  {
    s.pcs[i].Generated? ==>
      && s.pcs[i].mine < s.generated && s.ca != Some(s.pcs[i].mine)
      && forall j :: 0 <= j < |s.pcs| && j != i && s.pcs[j].Generated? ==> s.pcs[j].mine != s.pcs[i].mine
  }

  ghost predicate NewCas(s: State)
  {
    (s.ca.Some? ==> s.ca.value < s.generated) && forall i :: 0 <= i < |s.pcs| ==> NewCa(s, i)
  }

  /** What a step does to the CAs: it may number a new one, and it may store its own. */
  lemma CaStep(s: State, i: nat, outcome: Outcome, cfg: Config)
    requires i < |s.pcs|
    ensures var t := Advance(s, i, outcome, cfg);
      && |t.pcs| == |s.pcs|
      && (t.pcs[i].Generated? ==> s.pcs[i].NoCa? && t.pcs[i].mine == s.generated && t.ca == s.ca)
      && t.generated == s.generated + (if s.pcs[i].NoCa? then 1 else 0)
      && (t.ca == s.ca || (s.pcs[i].Generated? && t.ca == Some(s.pcs[i].mine)))
  {
    PcsLength(s, i, outcome, cfg);
  }

  lemma NewCaStays(s: State, i: nat, outcome: Outcome, cfg: Config, j: nat)
    requires NewCas(s) && i < |s.pcs| && j < |s.pcs|
    ensures j < |Advance(s, i, outcome, cfg).pcs| && NewCa(Advance(s, i, outcome, cfg), j)
  {
    var t := Advance(s, i, outcome, cfg);
    assert MovesOnly(s, t, i) && NewCa(s, i) && NewCa(s, j);
    CaStep(s, i, outcome, cfg);
    forall k | 0 <= k < |t.pcs| && k != j && t.pcs[k].Generated? && t.pcs[j].Generated?
      ensures t.pcs[k].mine != t.pcs[j].mine
    {
      assert NewCa(s, k);
    }
  }

  lemma ActNewCas(s: State, i: nat, outcome: Outcome, cfg: Config)
    requires NewCas(s) && i < |s.pcs|
    ensures NewCas(Advance(s, i, outcome, cfg))
  {
    var t := Advance(s, i, outcome, cfg);
    assert NewCa(s, i);
    CaStep(s, i, outcome, cfg);
    forall j | 0 <= j < |t.pcs| ensures NewCa(t, j) { NewCaStays(s, i, outcome, cfg, j); }
  }

  /** In every run no two replicas hold the same CA of their own making, and none holds the stored one. */
  lemma {:induction false} EveryRunNewCas(s: State, actions: seq<Action>, cfg: Config)
    requires Empty(s)
    ensures NewCas(Run(s, actions, cfg))
  {
    if actions != [] {
      var init, last := actions[..|actions| - 1], actions[|actions| - 1];
      var was := Run(s, init, cfg);
      EveryRunNewCas(s, init, cfg);
      if last.Act? {
        if last.i < |was.pcs| { ActNewCas(was, last.i, last.outcome, cfg); }
      } else {
        StillNewCas(was, last, cfg);
      }
    }
  }

  lemma StillNewCas(s: State, a: Action, cfg: Config)
    requires NewCas(s) && !a.Act?
    ensures NewCas(Apply(s, a, cfg))
  {
    var t := Apply(s, a, cfg);
    ApplyLength(s, a, cfg);
    forall j | 0 <= j < |t.pcs| ensures NewCa(t, j) { assert NewCa(s, j); }
  }

  // ---------------------------------------------------------- a call that completes

  /** `k` undisturbed steps of replica `i`. */
  function Solo(i: nat, k: nat): (r: seq<Action>)
    ensures |r| == k && forall j :: 0 <= j < k ==> r[j] == Act(i, Fine)
  {
    if k == 0 then [] else [Act(i, Fine)] + Solo(i, k - 1)
  }

  lemma {:induction false} RunCons(s: State, a: Action, rest: seq<Action>, cfg: Config)
    ensures Run(s, [a] + rest, cfg) == Run(Apply(s, a, cfg), rest, cfg)
  {
    if rest == [] {
      assert [a] + rest == [a] && [a][..0] == [];
      assert Run(s, [a], cfg) == Apply(Run(s, [], cfg), a, cfg);
    } else {
      var init, last := rest[..|rest| - 1], rest[|rest| - 1];
      assert ([a] + rest)[..|rest|] == [a] + init && ([a] + rest)[|rest|] == last;
      RunCons(s, a, init, cfg);
    }
  }

  function SeenNow(s: State, name: Name): Option<Secret>
  {
    if name in s.leaves then Some(s.leaves[name]) else None
  }

  /** The client leaf is missing, self-managed, or can be parsed. */
  predicate ClientUsable(s: State)
  {
    TakenOver(s, Client) ==> s.leaves[Client].cert.Some?
  }

  /** What replica `i` has read is still what is stored. */
  predicate UpToNow(s: State, pc: Pc)
  {
    match pc
    case Fetched(c, name, seen) => seen == SeenNow(s, name)
    case Due(c, name, seen, checked) => seen == SeenNow(s, name)
    case Issued(c, name, seen, checked, leaf) => seen == SeenNow(s, name)
    case Effective(c, name, cert, external) => name == Client ==> cert.Some?
    case _ => true
  }

  /** Replica `i` is inside a call that began at `b`, and nothing stands in its way. */
  ghost predicate Ready(s: State, i: nat, b: int)
  {
    && i < |s.pcs| && s.pcs[i] != Idle && i in s.began && s.began[i] == b
    && PcOk(s.pcs[i], s.ca, s.leaves) && UpToNow(s, s.pcs[i]) && ClientUsable(s)
    && LeavesOk(s)
  }

  /** How many steps are left at most. */
  function Left(pc: Pc): nat
  {
    match pc
    case Idle => 0
    case NoCa => 14
    case Generated(mine) => 13
    case LostRace => 12
    case HasCa(ca, name) => if name == Server then 11 else 6
    case Fetched(ca, name, seen) => if name == Server then 10 else 5
    case Due(ca, name, seen, checked) => if name == Server then 9 else 4
    case Issued(ca, name, seen, checked, leaf) => if name == Server then 8 else 3
    case Effective(ca, name, cert, external) => if name == Server then 7 else 2
  }

  /** One more step completes the call or brings it nearer. */
  ghost predicate Nearer(s: State, s': State, i: nat, b: int)
  {
    b in s'.completed || (Ready(s', i, b) && i < |s.pcs| && Left(s'.pcs[i]) < Left(s.pcs[i]))
  }

  lemma SoloEarly(s: State, i: nat, b: int, cfg: Config)
    requires Ready(s, i, b) && (s.pcs[i].NoCa? || s.pcs[i].Generated? || s.pcs[i].LostRace? || s.pcs[i].HasCa?)
    ensures Nearer(s, Advance(s, i, Fine, cfg), i, b)
  {}

  lemma SoloDecide(s: State, i: nat, b: int, cfg: Config)
    requires Ready(s, i, b) && s.pcs[i].Fetched?
    ensures Nearer(s, Advance(s, i, Fine, cfg), i, b)
  {}

  lemma SoloIssue(s: State, i: nat, b: int, cfg: Config)
    requires Ready(s, i, b) && s.pcs[i].Due?
    ensures Nearer(s, Advance(s, i, Fine, cfg), i, b)
  {}

  lemma SoloWrite(s: State, i: nat, b: int, cfg: Config)
    requires Ready(s, i, b) && s.pcs[i].Issued?
    ensures Nearer(s, Advance(s, i, Fine, cfg), i, b)
  {
    assert Accepted(s.leaves, s.pcs[i]).Some?;
  }

  lemma SoloEnd(s: State, i: nat, b: int, cfg: Config)
    requires Ready(s, i, b) && s.pcs[i].Effective?
    ensures Nearer(s, Advance(s, i, Fine, cfg), i, b)
  {}

  lemma SoloStep(s: State, i: nat, b: int, cfg: Config)
    requires Ready(s, i, b)
    ensures Nearer(s, Apply(s, Act(i, Fine), cfg), i, b)
  {
    match s.pcs[i]
    case Fetched(c, name, seen) => SoloDecide(s, i, b, cfg);
    case Due(c, name, seen, checked) => SoloIssue(s, i, b, cfg);
    case Issued(c, name, seen, checked, leaf) => SoloWrite(s, i, b, cfg);
    case Effective(c, name, cert, external) => SoloEnd(s, i, b, cfg);
    case _ => SoloEarly(s, i, b, cfg);
  }

  lemma SoloCons(s: State, i: nat, k: nat, cfg: Config)
    ensures Run(s, Solo(i, k + 1), cfg) == Run(Apply(s, Act(i, Fine), cfg), Solo(i, k), cfg)
  {
    RunCons(s, Act(i, Fine), Solo(i, k), cfg);
  }

  lemma SoloNone(s: State, i: nat, cfg: Config)
    ensures Run(s, Solo(i, 0), cfg) == s
  {}

  lemma {:induction false} SoloCompletes(s: State, i: nat, b: int, cfg: Config) returns (k: nat)
    requires Ready(s, i, b)
    ensures k <= Left(s.pcs[i]) && b in Run(s, Solo(i, k), cfg).completed
    decreases Left(s.pcs[i])
  {
    var s' := Apply(s, Act(i, Fine), cfg);
    SoloStep(s, i, b, cfg);
    if b in s'.completed {
      k := 1;
      SoloNone(s', i, cfg);
      SoloCons(s, i, 0, cfg);
    } else {
      var more := SoloCompletes(s', i, b, cfg);
      k := more + 1;
      SoloCons(s, i, more, cfg);
    }
  }

  /** The replica has not read a leaf yet that it could be about to replace. */
  predicate Unread(pc: Pc)
  {
    pc == Idle || pc == NoCa || pc.Generated? || pc == LostRace || pc.HasCa?
  }

  /** From every point of every run, a replica that holds no snapshot of a leaf and is then left alone completes the
  call it is in, or the one it begins, within fifteen steps: having lost the race for the CA or meeting leaves of
  an external controller does not stop it, unless that client leaf cannot be parsed. */
  lemma EveryCallCompletes(s: State, actions: seq<Action>, cfg: Config, i: nat) returns (k: nat)
    requires Empty(s) && i < |Run(s, actions, cfg).pcs|
    requires Unread(Run(s, actions, cfg).pcs[i]) && ClientUsable(Run(s, actions, cfg))
    ensures k <= 15
    ensures var t := Run(s, actions, cfg);
      (if t.pcs[i] == Idle then t.now else Began(t, i)) in Run(t, Solo(i, k), cfg).completed
  {
    var t := Run(s, actions, cfg);
    EveryRunKeepsInv(s, actions, cfg);
    EveryRunCovered(s, actions, cfg);
    assert ReplicaCovered(t, i) && PcOk(t.pcs[i], t.ca, t.leaves);
    if t.pcs[i] == Idle {
      var t' := Apply(t, Act(i, Fine), cfg);
      var more := SoloCompletes(t', i, t.now, cfg);
      k := more + 1;
      SoloCons(t, i, more, cfg);
    } else {
      k := SoloCompletes(t, i, t.began[i], cfg);
    }
  }
}
