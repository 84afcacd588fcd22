/** The pool agent reconciler: one agent deployment per discovered serial, pinned
to the node that holds the device.

All API calls succeed here; what may hold a step back is the discovery pod of a
node not being current.  `nameOf` is the agent name of a serial, absent for a
device without a usable serial.
*/
module AgentReconcile {
  import opened Replica
  import opened Discovery

  const HOSTNAME := "kubernetes.io/hostname"
  const CAPABILITY_ALL := "ALL"

  datatype SecurityContext = SecurityContext(
    privileged: Option<bool>, escalation: Option<bool>, readOnlyRoot: Option<bool>, drop: Option<seq<string>>)

  datatype Container = Container(image: string, security: Option<SecurityContext>)

  /** A node affinity requirement; `isIn` says whether its operator is In. */
  datatype Requirement = Requirement(key: string, isIn: bool, values: seq<string>)

  /** The fields of a deployment that the reconciler reads. */
  datatype Deployment = Deployment(
    isAgent: bool, device: string, serial: string, selector: Option<map<string, string>>,
    affinity: Option<seq<seq<Requirement>>>, containers: seq<Container>, hasTls: bool, devicePaths: seq<string>)

  type Deployments = map<string, Deployment>

  datatype Config = Config(device: string, image: string, tls: bool, grace: int, absence: int)

  datatype PoolStatus = PoolStatus(ready: bool, created: int)

  // ------------------------------------------------------------------- checks

  predicate SelectsNode(d: Deployment, node: string)
  {
    d.selector.Some? && (if HOSTNAME in d.selector.value then d.selector.value[HOSTNAME] else "") == node
  }

  predicate SecurityDrift(sc: Option<SecurityContext>)
  {
    || sc.None?
    || sc.value.privileged == Some(true)
    || sc.value.escalation != Some(false)
    || sc.value.readOnlyRoot != Some(true)
    || sc.value.drop.None? || CAPABILITY_ALL !in sc.value.drop.value
  }

  predicate ConfigDrift(d: Deployment, cfg: Config)
    requires d.containers != []
  {
    || (cfg.image != "" && d.containers[0].image != cfg.image)
    || cfg.tls != d.hasTls
    || SecurityDrift(d.containers[0].security)
  }

  predicate Names(r: Requirement, node: string)
  {
    r.key == HOSTNAME && r.isIn && node in r.values
  }

  predicate Pinned(terms: seq<seq<Requirement>>, node: string)
  {
    exists i, j :: 0 <= i < |terms| && 0 <= j < |terms[i]| && Names(terms[i][j], node)
  }

  predicate DeviceDrift(d: Deployment, dev: Device)
  {
    || d.affinity.None? || !Pinned(d.affinity.value, dev.node)
    || exists i :: 0 <= i < |d.devicePaths| && d.devicePaths[i] != dev.path
  }

  /** The deployment the reconciler creates for a device. */
  function Template(dev: Device, cfg: Config): Deployment
  {
    Deployment(true, cfg.device, dev.serial, Some(map[HOSTNAME := dev.node]),
               Some([[Requirement(HOSTNAME, true, [dev.node])]]),
               [Container(cfg.image, Some(SecurityContext(Some(false), Some(false), Some(true),
                                                          Some([CAPABILITY_ALL]))))],
               cfg.tls, [])
  }

  predicate UpToDate(d: Deployment, dev: Device, cfg: Config)
  {
    SelectsNode(d, dev.node) && d.containers != [] && !ConfigDrift(d, cfg) && !DeviceDrift(d, dev)
  }

  lemma TemplateIsUpToDate(dev: Device, cfg: Config)
    ensures UpToDate(Template(dev, cfg), dev, cfg)
  {
    var terms := Template(dev, cfg).affinity.value;
    assert Names(terms[0][0], dev.node);
  }

  // ---------------------------------------------------------------- decisions

  datatype Decision = Ensure(dev: Device) | Delete | Leave

  function LastWith(group: seq<Device>, available: bool): Option<Device>
  {
    if group == [] then None
    else if group[|group| - 1].available == available then Some(group[|group| - 1])
    else LastWith(group[..|group| - 1], available)
  }

  /** What to do about the devices that share a serial. */
  function Decide(group: seq<Device>, now: int, grace: int): Decision
  {
    var active, lost := LastWith(group, true), LastWith(group, false);
    if active.Some? && lost.Some? then
      if now - lost.value.lastSeen < grace then Ensure(active.value) else Leave
    else if active.Some? then Ensure(active.value)
    else if lost.Some? && now - lost.value.lastSeen > grace then Delete
    else Leave
  }

  datatype Verdict = Fine | Replace | Deferred | Broken

  function Gate(dev: Device, current: set<string>): Verdict
  {
    if dev.node in current then Replace else Deferred
  }

  function Assess(o: Option<Deployment>, dev: Device, cfg: Config, current: set<string>): Verdict
  {
    match o
    case None => Gate(dev, current)
    case Some(d) =>
      if !SelectsNode(d, dev.node) then Gate(dev, current)
      else if d.containers == [] then Broken
      else if ConfigDrift(d, cfg) || DeviceDrift(d, dev) then Gate(dev, current)
      else Fine
  }

  function Effect(o: Option<Deployment>, decision: Decision, cfg: Config, current: set<string>): Option<Deployment>
  {
    match decision
    case Ensure(dev) => if Assess(o, dev, cfg, current) == Replace then Some(Template(dev, cfg)) else o
    case Delete => None
    case Leave => o
  }

  predicate HeldBack(o: Option<Deployment>, decision: Decision, cfg: Config, current: set<string>)
  {
    decision.Ensure? && Assess(o, decision.dev, cfg, current) in {Deferred, Broken}
  }

  // ----------------------------------------------------------------- grouping

  type Groups = map<string, seq<Device>>

  function GroupOf(groups: Groups, serial: string): seq<Device>
  {
    if serial in groups then groups[serial] else []
  }

  function Grouped(devices: seq<Device>): Groups
  {
    if devices == [] then map[]
    else
      var init, last := Grouped(devices[..|devices| - 1]), devices[|devices| - 1];
      init[last.serial := GroupOf(init, last.serial) + [last]]
  }

  method GroupBySerial(devices: seq<Device>) returns (groups: Groups)
    ensures groups == Grouped(devices)
  {
    groups := map[];
    for i := 0 to |devices|
      invariant groups == Grouped(devices[..i])
    {
      assert devices[..i + 1][..i] == devices[..i];
      groups := groups[devices[i].serial := GroupOf(groups, devices[i].serial) + [devices[i]]];
    }
    assert devices[..|devices|] == devices;
  }

  /** One entry per serial. */
  ghost predicate OnePerSerial(devices: seq<Device>)
  {
    forall i, j :: 0 <= i < j < |devices| ==> devices[i].serial != devices[j].serial
  }

  /** The pool's devices with a serial, in order. */
  function WithSerial(devices: seq<Device>, serial: string): seq<Device>
  {
    if devices == [] then []
    else
      var init, last := devices[..|devices| - 1], devices[|devices| - 1];
      WithSerial(init, serial) + if last.serial == serial then [last] else []
  }

  /** A group is all of the pool's devices with its serial in order, and there is one for each serial. */
  lemma {:induction false} GroupIsWithSerial(devices: seq<Device>, serial: string)
    ensures GroupOf(Grouped(devices), serial) == WithSerial(devices, serial)
    ensures serial in Grouped(devices) <==> exists i :: 0 <= i < |devices| && devices[i].serial == serial
  {
    if devices != [] {
      var init := devices[..|devices| - 1];
      GroupIsWithSerial(init, serial);
      assert forall i :: 0 <= i < |init| ==> init[i] == devices[i];
    }
  }

  lemma {:induction false} SerialFrom(devices: seq<Device>, s: string) returns (i: nat)
    requires s in Grouped(devices)
    ensures i < |devices| && devices[i].serial == s
  {
    if s == devices[|devices| - 1].serial {
      i := |devices| - 1;
    } else {
      i := SerialFrom(devices[..|devices| - 1], s);
    }
  }

  lemma NewSerial(devices: seq<Device>)
    requires OnePerSerial(devices) && devices != []
    ensures devices[|devices| - 1].serial !in Grouped(devices[..|devices| - 1])
  {
    var init, last := devices[..|devices| - 1], devices[|devices| - 1];
    if last.serial in Grouped(init) { var i := SerialFrom(init, last.serial); }
  }

  lemma {:induction false} GroupAt(devices: seq<Device>, i: nat)
    requires OnePerSerial(devices) && i < |devices|
    ensures devices[i].serial in Grouped(devices) && GroupOf(Grouped(devices), devices[i].serial) == [devices[i]]
  {
    NewSerial(devices);
    if i < |devices| - 1 {
      assert devices[..|devices| - 1][i] == devices[i];
      GroupAt(devices[..|devices| - 1], i);
    }
  }

  // ------------------------------------------------------- effect of a whole pass

  function At(ds: Deployments, n: string): Option<Deployment>
  {
    if n in ds then Some(ds[n]) else None
  }

  /** What one reconcile run sees: agent names, nodes with a current discovery pod, the clock. */
  datatype Env = Env(cfg: Config, nameOf: string -> Option<string>, current: set<string>, now: int)

  /** These serials have different agent names, which lower-casing and cutting them to length can prevent. */
  ghost predicate NamesApart(nameOf: string -> Option<string>, serials: set<string>)
  {
    forall s, s' :: s in serials && s' in serials && nameOf(s).Some? && nameOf(s) == nameOf(s') ==> s == s'
  }

  function DecisionFor(groups: Groups, serial: string, env: Env): Decision
  {
    Decide(GroupOf(groups, serial), env.now, env.cfg.grace)
  }

  ghost predicate Named(nameOf: string -> Option<string>, serials: set<string>, n: string)
  {
    exists s :: s in serials && nameOf(s) == Some(n)
  }

  ghost predicate Dealt(before: Deployments, after: Deployments, groups: Groups, serial: string, env: Env)
  {
    var name := env.nameOf(serial);
    name.Some? ==>
      At(after, name.value) == Effect(At(before, name.value), DecisionFor(groups, serial, env), env.cfg, env.current)
  }

  /** Nothing but the agents of these serials has changed. */
  ghost predicate OnlyNamed(before: Deployments, after: Deployments, serials: set<string>, env: Env)
  {
    forall n :: !Named(env.nameOf, serials, n) ==> At(after, n) == At(before, n)
  }

  /** The serials in `done` have had their effect, and nothing else has changed. */
  ghost predicate Passed(before: Deployments, after: Deployments, groups: Groups, done: set<string>, env: Env)
  {
    && (forall s :: s in done ==> Dealt(before, after, groups, s, env))
    && OnlyNamed(before, after, done, env)
  }

  ghost predicate Stuck(before: Deployments, groups: Groups, serial: string, env: Env)
  {
    var name := env.nameOf(serial);
    name.Some? && HeldBack(At(before, name.value), DecisionFor(groups, serial, env), env.cfg, env.current)
  }

  predicate Idles(o: Option<Deployment>, decision: Decision, cfg: Config, current: set<string>)
  {
    match decision
    case Ensure(dev) => Assess(o, dev, cfg, current) != Replace
    case Delete => o.None?
    case Leave => true
  }

  ghost predicate AllIdle(before: Deployments, groups: Groups, env: Env)
  {
    forall s :: s in groups && env.nameOf(s).Some? ==>
      Idles(At(before, env.nameOf(s).value), DecisionFor(groups, s, env), env.cfg, env.current)
  }

  lemma NotYetNamed(nameOf: string -> Option<string>, done: set<string>, serial: string)
    requires NamesApart(nameOf, done + {serial}) && serial !in done && nameOf(serial).Some?
    ensures !Named(nameOf, done, nameOf(serial).value)
  {
    forall s | s in done ensures nameOf(s) != nameOf(serial) { assert s in done + {serial}; }
  }

  /** Dealing with one more serial. */
  lemma PassedOneMore(before: Deployments, mid: Deployments, after: Deployments, groups: Groups, done: set<string>,
                      env: Env, serial: string)
    requires NamesApart(env.nameOf, done + {serial}) && Passed(before, mid, groups, done, env) && serial !in done
    requires Dealt(mid, after, groups, serial, env)
    requires forall n :: env.nameOf(serial) != Some(n) ==> At(after, n) == At(mid, n)
    ensures Passed(before, after, groups, done + {serial}, env)
  {
    if env.nameOf(serial).Some? { NotYetNamed(env.nameOf, done, serial); }
    forall s | s in done + {serial} ensures Dealt(before, after, groups, s, env) {
      if s != serial { assert Dealt(before, mid, groups, s, env); }
    }
    forall n | !Named(env.nameOf, done + {serial}, n) ensures At(after, n) == At(before, n) {
      assert serial in done + {serial};
      assert forall s :: s in done ==> s in done + {serial};
    }
  }

  // ------------------------------------------------------------------ reaping

  predicate Orphan(d: Deployment, n: string, expected: set<string>, device: string)
  {
    d.isAgent && d.device == device && n !in expected
  }

  function Reaped(ds: Deployments, expected: set<string>, device: string): Deployments
  {
    map n | n in ds && !Orphan(ds[n], n, expected, device) :: ds[n]
  }

  function ExpectedNames(devices: seq<Device>, nameOf: string -> Option<string>): set<string>
  {
    set i | 0 <= i < |devices| && nameOf(devices[i].serial).Some? :: nameOf(devices[i].serial).value
  }

  // ------------------------------------------------------------ the reconciler

  class AgentReconciler {
    var deployments: Deployments
    var created: nat
    var deleted: nat

    constructor (initial: Deployments)
      ensures deployments == initial && created == 0 && deleted == 0
    {
      deployments, created, deleted := initial, 0, 0;
    }

    method DeleteAgent(name: string)
      modifies `deployments, `deleted
      ensures deployments == old(deployments) - {name}
      ensures name !in old(deployments) ==> deleted == old(deleted)
    {
      if name in deployments { deleted := deleted + 1; }
      deployments := deployments - {name};
    }

    method EnsureAgentOnNode(dev: Device, name: string, env: Env) returns (v: Verdict)
      modifies this
      ensures v == Assess(At(old(deployments), name), dev, env.cfg, env.current)
      ensures deployments == if v == Replace then old(deployments)[name := Template(dev, env.cfg)] else old(deployments)
      ensures v != Replace ==> created == old(created) && deleted == old(deleted)
    {
      if name in deployments {
        var d := deployments[name];
        if !SelectsNode(d, dev.node) {
          if dev.node !in env.current { return Deferred; }
          DeleteAgent(name);
        } else {
          if |d.containers| == 0 { return Broken; }
          if !ConfigDrift(d, env.cfg) && !DeviceDrift(d, dev) { return Fine; }
          if dev.node !in env.current { return Deferred; }
          DeleteAgent(name);
        }
      }
      if dev.node !in env.current { return Deferred; }
      deployments, created := deployments[name := Template(dev, env.cfg)], created + 1;
      return Replace;
    }

    /** One serial's turn. */
    method DealWith(groups: Groups, serial: string, name: string, env: Env) returns (held: bool)
      requires env.nameOf(serial) == Some(name)
      modifies this
      ensures Dealt(old(deployments), deployments, groups, serial, env)
      ensures forall n :: n != name ==> At(deployments, n) == At(old(deployments), n)
      ensures held == Stuck(old(deployments), groups, serial, env)
      ensures Idles(At(old(deployments), name), DecisionFor(groups, serial, env), env.cfg, env.current) ==>
              deployments == old(deployments) && created == old(created) && deleted == old(deleted)
    {
      held := false;
      match DecisionFor(groups, serial, env)
      case Ensure(dev) =>
        var v := EnsureAgentOnNode(dev, name, env);
        held := v == Deferred || v == Broken;
      case Delete => DeleteAgent(name);
      case Leave =>
    }

    method EnsureAgentDeployments(devices: seq<Device>, env: Env) returns (held: bool)
      modifies this
      ensures OnlyNamed(old(deployments), deployments, Grouped(devices).Keys, env)
      ensures NamesApart(env.nameOf, Grouped(devices).Keys) ==>
              Passed(old(deployments), deployments, Grouped(devices), Grouped(devices).Keys, env)
      ensures NamesApart(env.nameOf, Grouped(devices).Keys) ==>
              (held <==> exists s :: s in Grouped(devices) && Stuck(old(deployments), Grouped(devices), s, env))
      ensures AllIdle(old(deployments), Grouped(devices), env) ==>
              deployments == old(deployments) && created == old(created) && deleted == old(deleted)
    {
      var groups := GroupBySerial(devices);
      held := false;
      var left := groups.Keys;
      while left != {}
        invariant left <= groups.Keys
        invariant OnlyNamed(old(deployments), deployments, groups.Keys, env)
        invariant NamesApart(env.nameOf, groups.Keys) ==>
                  Passed(old(deployments), deployments, groups, groups.Keys - left, env)
        invariant NamesApart(env.nameOf, groups.Keys) ==>
                  (held <==> exists s :: s in groups.Keys - left && Stuck(old(deployments), groups, s, env))
        invariant AllIdle(old(deployments), groups, env) ==>
                  deployments == old(deployments) && created == old(created) && deleted == old(deleted)
        decreases |left|
      {
        var serial :| serial in left;
        ghost var done, mid := groups.Keys - left, deployments;
        assert groups.Keys - (left - {serial}) == done + {serial};
        left := left - {serial};
        var name := env.nameOf(serial);
        ghost var apart := NamesApart(env.nameOf, groups.Keys);
        if name.Some? {
          if apart {
            NotYetNamed(env.nameOf, done, serial);
            assert At(mid, name.value) == At(old(deployments), name.value);
          }
          var h := DealWith(groups, serial, name.value, env);
          held := held || h;
        }
        if apart { PassedOneMore(old(deployments), mid, deployments, groups, done, env, serial); }
      }
      assert groups.Keys - left == groups.Keys;
    }

    method ReapOrphanedAgents(devices: seq<Device>, env: Env)
      modifies this
      ensures var expected := ExpectedNames(devices, env.nameOf);
              deployments == if expected == {} then old(deployments)
                             else Reaped(old(deployments), expected, env.cfg.device)
      ensures deployments == old(deployments) ==> created == old(created) && deleted == old(deleted)
    {
      var expected := ExpectedNames(devices, env.nameOf);
      if expected == {} { return; }
      var left := deployments.Keys;
      while left != {}
        invariant left <= deployments.Keys <= old(deployments).Keys && created == old(created)
        invariant forall n :: n in deployments ==> deployments[n] == old(deployments)[n]
        invariant forall n :: n in old(deployments) && n !in left ==>
                    (n in deployments <==> !Orphan(old(deployments)[n], n, expected, env.cfg.device))
        invariant deployments.Keys == old(deployments).Keys ==> deleted == old(deleted)
        decreases |left|
      {
        var name :| name in left;
        left := left - {name};
        if Orphan(deployments[name], name, expected, env.cfg.device) { DeleteAgent(name); }
      }
      assert deployments == Reaped(old(deployments), expected, env.cfg.device);
    }

    /** The part of Reconcile that runs for a Ready pool with devices. */
    method EnsureAndReap(devices: seq<Device>, env: Env) returns (held: bool)
      modifies this
      ensures NamesApart(env.nameOf, Grouped(devices).Keys) ==>
              (held <==> exists s :: s in Grouped(devices) && Stuck(old(deployments), Grouped(devices), s, env))
      ensures NamesApart(env.nameOf, Grouped(devices).Keys) && !held ==>
              Reconciled(old(deployments), deployments, devices, env)
      ensures Settled(old(deployments), devices, env) ==>
              deployments == old(deployments) && created == old(created) && deleted == old(deleted)
    {
      held := EnsureAgentDeployments(devices, env);
      ghost var mid := deployments;
      if !held { ReapOrphanedAgents(devices, env); }
    }

    method CleanupStaleAgents(devices: seq<Device>, env: Env, pool: PoolStatus)
      modifies this
      ensures deployments == AfterCleanup(old(deployments), devices, env, pool)
      ensures deployments == old(deployments) ==> created == old(created) && deleted == old(deleted)
    {
      var available, lastSeen := AnyAvailable(devices);
      if available { return; }
      if lastSeen == 0 {
        if env.now - pool.created > env.cfg.absence { DeleteDevice(env.cfg.device); }
      } else if env.now - lastSeen > env.cfg.absence {
        DeleteDevice(env.cfg.device);
      }
    }

    method DeleteDevice(device: string)
      modifies this
      ensures deployments == WithoutDevice(old(deployments), device)
      ensures deployments == old(deployments) ==> created == old(created) && deleted == old(deleted)
    {
      var left := deployments.Keys;
      while left != {}
        invariant left <= deployments.Keys <= old(deployments).Keys && created == old(created)
        invariant forall n :: n in deployments ==> deployments[n] == old(deployments)[n]
        invariant forall n :: n in old(deployments) && n !in left ==>
                    (n in deployments <==> old(deployments)[n].device != device)
        invariant deployments.Keys == old(deployments).Keys ==> deleted == old(deleted)
        decreases |left|
      {
        var name :| name in left;
        left := left - {name};
        if deployments[name].device == device { DeleteAgent(name); }
      }
      assert deployments == WithoutDevice(old(deployments), device);
    }

    /** Agents are ensured and reaped for a Ready pool with devices; unless that was held back, stale agents
    are then cleaned up, whatever the pool. */
    method Reconcile(devices: seq<Device>, env: Env, pool: PoolStatus) returns (held: bool)
      modifies this
      ensures NamesApart(env.nameOf, Grouped(devices).Keys) ==>
              (held <==> pool.ready && devices != []
                         && exists s :: s in Grouped(devices) && Stuck(old(deployments), Grouped(devices), s, env))
      ensures NamesApart(env.nameOf, Grouped(devices).Keys) && !held && pool.ready && devices != [] ==>
              exists mid :: Reconciled(old(deployments), mid, devices, env)
                && deployments == AfterCleanup(mid, devices, env, pool)
      ensures !(pool.ready && devices != []) ==> deployments == AfterCleanup(old(deployments), devices, env, pool)
      ensures Settled(old(deployments), devices, env) && !LongGone(devices, env, pool) ==>
              deployments == old(deployments) && created == old(created) && deleted == old(deleted)
    {
      held := false;
      if pool.ready && devices != [] {
        held := EnsureAndReap(devices, env);
        if held { return; }
      }
      CleanupStaleAgents(devices, env, pool);
    }
  }

  // ------------------------------------------------------------ absent devices

  /** Whether any device is available, and when the others were last seen; 0 stands for never. */
  method AnyAvailable(devices: seq<Device>) returns (available: bool, lastSeen: int)
    ensures available <==> exists i :: 0 <= i < |devices| && devices[i].available
    ensures !available ==> lastSeen == LatestSeen(devices)
  {
    available, lastSeen := false, 0;
    for i := 0 to |devices|
      invariant !available && lastSeen == LatestSeen(devices[..i])
      invariant forall j :: 0 <= j < i ==> !devices[j].available
    {
      if devices[i].available { return true, lastSeen; }
      assert devices[..i + 1][..i] == devices[..i];
      if devices[i].lastSeen > lastSeen { lastSeen := devices[i].lastSeen; }
    }
    assert devices[..|devices|] == devices;
  }

  function LatestSeen(devices: seq<Device>): int
  {
    if devices == [] then 0
    else
      var init, last := devices[..|devices| - 1], devices[|devices| - 1];
      if last.lastSeen > LatestSeen(init) then last.lastSeen else LatestSeen(init)
  }

  /** It is the latest of the times, or 0 if none is later than that. */
  lemma {:induction false} LatestSeenIsMax(devices: seq<Device>)
    ensures LatestSeen(devices) >= 0 && forall i :: 0 <= i < |devices| ==> devices[i].lastSeen <= LatestSeen(devices)
    ensures LatestSeen(devices) == 0 || exists i :: 0 <= i < |devices| && devices[i].lastSeen == LatestSeen(devices)
  {
    if devices != [] {
      var init := devices[..|devices| - 1];
      assert forall i :: 0 <= i < |init| ==> init[i] == devices[i];
      LatestSeenIsMax(init);
      assert devices[|devices| - 1].lastSeen <= LatestSeen(devices);
    }
  }

  /** No device has been available for longer than the absence timeout. */
  predicate LongGone(devices: seq<Device>, env: Env, pool: PoolStatus)
  {
    && (forall i :: 0 <= i < |devices| ==> !devices[i].available)
    && env.now - (if LatestSeen(devices) == 0 then pool.created else LatestSeen(devices)) > env.cfg.absence
  }

  function WithoutDevice(ds: Deployments, device: string): Deployments
  {
    map n | n in ds && ds[n].device != device :: ds[n]
  }

  function AfterCleanup(ds: Deployments, devices: seq<Device>, env: Env, pool: PoolStatus): Deployments
  {
    if LongGone(devices, env, pool) then WithoutDevice(ds, env.cfg.device) else ds
  }

  /** The deployments after an undisturbed reconcile run. */
  ghost predicate Reconciled(before: Deployments, after: Deployments, devices: seq<Device>, env: Env)
  {
    exists mid :: Passed(before, mid, Grouped(devices), Grouped(devices).Keys, env)
               && after == Swept(mid, devices, env)
  }

  function Swept(ds: Deployments, devices: seq<Device>, env: Env): Deployments
  {
    var expected := ExpectedNames(devices, env.nameOf);
    if expected == {} then ds else Reaped(ds, expected, env.cfg.device)
  }

  /** Nothing is left to do. */
  ghost predicate Settled(ds: Deployments, devices: seq<Device>, env: Env)
  {
    AllIdle(ds, Grouped(devices), env) && Swept(ds, devices, env) == ds
  }

  // -------------------------------------------------------------- every pool

  lemma SweptKeepsExpected(ds: Deployments, devices: seq<Device>, env: Env, s: string, n: string)
    requires s in Grouped(devices) && env.nameOf(s) == Some(n)
    ensures At(Swept(ds, devices, env), n) == At(ds, n)
  {
    var i := SerialFrom(devices, s);
    assert env.nameOf(devices[i].serial) == Some(n);
    assert n in ExpectedNames(devices, env.nameOf);
  }

  /** In every pool the agent of a discovered serial ends as its decision says, reaping included. */
  lemma AgentOfSerial(before: Deployments, after: Deployments, devices: seq<Device>, env: Env, s: string, n: string)
    requires Reconciled(before, after, devices, env) && s in Grouped(devices) && env.nameOf(s) == Some(n)
    ensures At(after, n) == Effect(At(before, n), DecisionFor(Grouped(devices), s, env), env.cfg, env.current)
  {
    var mid :| Passed(before, mid, Grouped(devices), Grouped(devices).Keys, env) && after == Swept(mid, devices, env);
    assert Dealt(before, mid, Grouped(devices), s, env);
    SweptKeepsExpected(mid, devices, env, s, n);
  }

  /** Entry `k` of the pool is the last one of the serial that is available, or that is lost. */
  predicate IsLast(devices: seq<Device>, k: nat, s: string, available: bool)
  {
    && k < |devices| && devices[k].serial == s && devices[k].available == available
    && forall j :: k < j < |devices| ==> !(devices[j].serial == s && devices[j].available == available)
  }

  lemma LastWithSnoc(group: seq<Device>, d: Device, available: bool)
    ensures LastWith(group + [d], available) == if d.available == available then Some(d) else LastWith(group, available)
  {
    assert (group + [d])[..|group|] == group;
  }

  lemma WithSerialSnoc(devices: seq<Device>, d: Device, s: string, available: bool)
    ensures LastWith(WithSerial(devices + [d], s), available) ==
            if d.serial == s && d.available == available then Some(d) else LastWith(WithSerial(devices, s), available)
  {
    assert (devices + [d])[..|devices|] == devices;
    if d.serial == s {
      LastWithSnoc(WithSerial(devices, s), d, available);
    } else {
      assert WithSerial(devices + [d], s) == WithSerial(devices, s);
    }
  }

  lemma {:induction false} LastIs(devices: seq<Device>, k: nat, s: string, available: bool)
    requires IsLast(devices, k, s, available)
    ensures LastWith(WithSerial(devices, s), available) == Some(devices[k])
  {
    var init, last := devices[..|devices| - 1], devices[|devices| - 1];
    assert devices == init + [last];
    WithSerialSnoc(init, last, s, available);
    if k < |init| { LastIs(init, k, s, available); }
  }

  lemma {:induction false} NoneIs(devices: seq<Device>, s: string, available: bool)
    requires forall j :: 0 <= j < |devices| ==> !(devices[j].serial == s && devices[j].available == available)
    ensures LastWith(WithSerial(devices, s), available) == None
  {
    if devices != [] {
      var init, last := devices[..|devices| - 1], devices[|devices| - 1];
      assert devices == init + [last];
      NoneIs(init, s, available);
      WithSerialSnoc(init, last, s, available);
    }
  }

  lemma {:induction false} FindLast(devices: seq<Device>, s: string, available: bool) returns (k: int)
    ensures k == -1 ==> forall j :: 0 <= j < |devices| ==>
      !(devices[j].serial == s && devices[j].available == available)
    ensures k != -1 ==> k >= 0 && IsLast(devices, k, s, available)
  {
    k := |devices| - 1;
    while k >= 0 && !(devices[k].serial == s && devices[k].available == available)
      invariant -1 <= k < |devices|
      invariant forall j :: k < j < |devices| ==> !(devices[j].serial == s && devices[j].available == available)
    {
      k := k - 1;
    }
  }

  /** No entry of the serial is lost, or the last lost one only within the grace period. */
  predicate LostLately(devices: seq<Device>, s: string, env: Env)
  {
    forall l :: 0 <= l < |devices| && IsLast(devices, l, s, false) ==> env.now - devices[l].lastSeen < env.cfg.grace
  }

  /** What is decided about a serial with an available entry. */
  lemma DecidedActive(devices: seq<Device>, env: Env, s: string, k: nat)
    requires IsLast(devices, k, s, true)
    ensures s in Grouped(devices)
    ensures DecisionFor(Grouped(devices), s, env) == if LostLately(devices, s, env) then Ensure(devices[k]) else Leave
  {
    GroupIsWithSerial(devices, s);
    LastIs(devices, k, s, true);
    var l := FindLast(devices, s, false);
    if l == -1 {
      NoneIs(devices, s, false);
    } else {
      LastIs(devices, l, s, false);
      assert LostLately(devices, s, env) <==> env.now - devices[l].lastSeen < env.cfg.grace;
    }
  }

  /** What is decided about a serial all of whose entries are lost. */
  lemma DecidedLost(devices: seq<Device>, env: Env, s: string, k: nat)
    requires IsLast(devices, k, s, false)
    requires forall j :: 0 <= j < |devices| && devices[j].serial == s ==> !devices[j].available
    ensures s in Grouped(devices)
    ensures DecisionFor(Grouped(devices), s, env) ==
            if env.now - devices[k].lastSeen > env.cfg.grace then Delete else Leave
  {
    GroupIsWithSerial(devices, s);
    LastIs(devices, k, s, false);
    NoneIs(devices, s, true);
  }

  /** Which available serials end with an up-to-date agent on their device's node: those without an entry
  lost past the grace period, and those that had one already. */
  lemma ServedIff(before: Deployments, after: Deployments, devices: seq<Device>, env: Env, s: string, n: string,
                  k: nat)
    requires Reconciled(before, after, devices, env) && env.nameOf(s) == Some(n)
    requires IsLast(devices, k, s, true) && !Stuck(before, Grouped(devices), s, env)
    ensures (n in after && UpToDate(after[n], devices[k], env.cfg)) <==>
            LostLately(devices, s, env) || (n in before && UpToDate(before[n], devices[k], env.cfg))
  {
    DecidedActive(devices, env, s, k);
    AgentOfSerial(before, after, devices, env, s, n);
    TemplateIsUpToDate(devices[k], env.cfg);
    assert At(after, n).Some? <==> n in after;
    assert At(before, n).Some? <==> n in before;
    if LostLately(devices, s, env) { EnsuredIsUpToDate(At(before, n), devices[k], env); }
  }

  /** A serial all of whose entries are lost keeps its agent, as it is, for the grace period after the last of them
  was seen, and not longer. */
  lemma LostKeptIff(before: Deployments, after: Deployments, devices: seq<Device>, env: Env, s: string, n: string,
                    k: nat)
    requires Reconciled(before, after, devices, env) && env.nameOf(s) == Some(n)
    requires IsLast(devices, k, s, false)
    requires forall j :: 0 <= j < |devices| && devices[j].serial == s ==> !devices[j].available
    ensures n in after <==> n in before && env.now - devices[k].lastSeen <= env.cfg.grace
    ensures n in after ==> after[n] == before[n]
  {
    DecidedLost(devices, env, s, k);
    AgentOfSerial(before, after, devices, env, s, n);
    assert At(after, n).Some? <==> n in after;
    assert At(before, n).Some? <==> n in before;
  }

  /** With a grace period of 300 a device lost at 1000 keeps its agent at 1300 and not at 1301. */
  lemma LostExample(serial: string, n: string, node: string, d: Deployment, env: Env, after: Deployments)
    requires env.nameOf(serial) == Some(n) && env.cfg.grace == 300 && (env.now == 1300 || env.now == 1301)
    requires Reconciled(map[n := d], after, [Device(serial, "", node, 1000, false, "")], env)
    ensures env.now == 1300 ==> n in after && after[n] == d
    ensures env.now == 1301 ==> n !in after
  {
    LostKeptIff(map[n := d], after, [Device(serial, "", node, 1000, false, "")], env, serial, n, 0);
  }

  lemma EnsuredIsUpToDate(o: Option<Deployment>, dev: Device, env: Env)
    requires !HeldBack(o, Ensure(dev), env.cfg, env.current)
    ensures var e := Effect(o, Ensure(dev), env.cfg, env.current); e.Some? && UpToDate(e.value, dev, env.cfg)
  {
    TemplateIsUpToDate(dev, env.cfg);
  }

  /** A device that is back on another node while its old entry is lost past the grace period: no agent is
  created for it. */
  lemma MovedTooLate(serial: string, n: string, was: string, node: string, seen: int, env: Env, after: Deployments)
    requires env.nameOf(serial) == Some(n) && 0 < seen <= env.now - env.cfg.grace
    requires var devices := [Device(serial, "", was, seen, false, ""), Device(serial, "", node, env.now, true, "")];
      Reconciled(map[], after, devices, env)
    ensures n !in after
  {
    var lost, active := Device(serial, "", was, seen, false, ""), Device(serial, "", node, env.now, true, "");
    var devices := [lost, active];
    assert devices[..1] == [lost] && [lost][..0] == [];
    assert Grouped([]) == map[] && GroupOf(map[], serial) + [lost] == [lost];
    assert Grouped([lost]) == map[serial := [lost]];
    assert Grouped(devices)[serial] == [lost] + [active];
    assert ([lost] + [active])[..1] == [lost];
    assert LastWith([lost], false) == Some(lost);
    AgentOfSerial(map[], after, devices, env, serial, n);
  }

  // ------------------------------------------------------- what an agent is like

  predicate PinsTo(r: Requirement, node: string)
  {
    r.key == "kubernetes.io/hostname" && r.isIn && node in r.values
  }

  predicate LockedDown(sc: Option<SecurityContext>)
  {
    && sc.Some? && sc.value.privileged != Some(true) && sc.value.escalation == Some(false)
    && sc.value.readOnlyRoot == Some(true) && sc.value.drop.Some? && "ALL" in sc.value.drop.value
  }

  /** An agent that runs on the device's node and nowhere else, with the configured image and TLS, locked down, and
  with no other device mapped into it. */
  ghost predicate FitFor(d: Deployment, dev: Device, cfg: Config)
  {
    && d.selector.Some?
    && (if "kubernetes.io/hostname" in d.selector.value then d.selector.value["kubernetes.io/hostname"] == dev.node
        else dev.node == "")
    && d.affinity.Some? && (exists t, r :: t in d.affinity.value && r in t && PinsTo(r, dev.node))
    && d.containers != [] && (cfg.image != "" ==> d.containers[0].image == cfg.image)
    && d.hasTls == cfg.tls && LockedDown(d.containers[0].security)
    && forall path :: path in d.devicePaths ==> path == dev.path
  }

  lemma PinnedIff(terms: seq<seq<Requirement>>, node: string)
    ensures Pinned(terms, node) <==> exists t, r :: t in terms && r in t && PinsTo(r, node)
  {
    if Pinned(terms, node) {
      var i, j :| 0 <= i < |terms| && 0 <= j < |terms[i]| && Names(terms[i][j], node);
      assert terms[i] in terms && terms[i][j] in terms[i] && PinsTo(terms[i][j], node);
    }
    if t, r :| t in terms && r in t && PinsTo(r, node) {
      var i :| 0 <= i < |terms| && terms[i] == t;
      var j :| 0 <= j < |t| && t[j] == r;
      assert Names(terms[i][j], node);
    }
  }

  lemma PathsIff(paths: seq<string>, path: string)
    ensures (forall p :: p in paths ==> p == path) <==> !exists i :: 0 <= i < |paths| && paths[i] != path
  {
    if i :| 0 <= i < |paths| && paths[i] != path { assert paths[i] in paths; }
  }

  lemma UpToDateIff(d: Deployment, dev: Device, cfg: Config)
    ensures UpToDate(d, dev, cfg) <==> FitFor(d, dev, cfg)
  {
    if d.affinity.Some? { PinnedIff(d.affinity.value, dev.node); }
    PathsIff(d.devicePaths, dev.path);
  }

  /** After a run that is not held back, the agent of every device that is served is fit for it. */
  lemma ServedIsFit(before: Deployments, after: Deployments, devices: seq<Device>, env: Env, s: string, n: string,
                    k: nat)
    requires Reconciled(before, after, devices, env) && env.nameOf(s) == Some(n)
    requires IsLast(devices, k, s, true) && !Stuck(before, Grouped(devices), s, env) && LostLately(devices, s, env)
    ensures n in after && FitFor(after[n], devices[k], env.cfg)
  {
    ServedIff(before, after, devices, env, s, n, k);
    UpToDateIff(after[n], devices[k], env.cfg);
  }

  /** Whatever a run creates for a serial carries the labels by which it is found again: those of an agent, of the
  pool's device and of the serial. */
  lemma CreatedIsOwned(before: Deployments, after: Deployments, devices: seq<Device>, env: Env, s: string, n: string)
    requires Reconciled(before, after, devices, env) && s in Grouped(devices) && env.nameOf(s) == Some(n)
    requires n in after && !(n in before && before[n] == after[n])
    ensures after[n].isAgent && after[n].device == env.cfg.device && after[n].serial == s
  {
    AgentOfSerial(before, after, devices, env, s, n);
    assert At(after, n) == Some(after[n]);
    var k := FindLast(devices, s, true);
    if k != -1 {
      DecidedActive(devices, env, s, k);
    } else {
      var l := FindLast(devices, s, false);
      var i := SerialFrom(devices, s);
      DecidedLost(devices, env, s, l);
    }
  }

  /** A pool none of whose devices has an agent name loses and gains nothing. */
  lemma NamelessKeepsAll(before: Deployments, after: Deployments, devices: seq<Device>, env: Env)
    requires Reconciled(before, after, devices, env)
    requires forall i :: 0 <= i < |devices| ==> env.nameOf(devices[i].serial) == None
    ensures after == before
  {
    var mid :| Passed(before, mid, Grouped(devices), Grouped(devices).Keys, env) && after == Swept(mid, devices, env);
    assert ExpectedNames(devices, env.nameOf) == {};
    forall n ensures At(mid, n) == At(before, n) {
      forall s | s in Grouped(devices) ensures env.nameOf(s) != Some(n) { var i := SerialFrom(devices, s); }
      assert !Named(env.nameOf, Grouped(devices).Keys, n);
    }
    assert forall n :: n in mid <==> At(mid, n).Some?;
    assert forall n :: n in before <==> At(before, n).Some?;
  }

  /** An agent of the pool's device that no discovered serial names any more is gone after the run. */
  lemma OrphanReaped(before: Deployments, after: Deployments, devices: seq<Device>, env: Env, n: string, i: nat)
    requires Reconciled(before, after, devices, env) && n in before && before[n].isAgent
    requires before[n].device == env.cfg.device && i < |devices| && env.nameOf(devices[i].serial).Some?
    requires forall j :: 0 <= j < |devices| ==> env.nameOf(devices[j].serial) != Some(n)
    ensures n !in after
  {
    var mid :| Passed(before, mid, Grouped(devices), Grouped(devices).Keys, env) && after == Swept(mid, devices, env);
    forall s | s in Grouped(devices) ensures env.nameOf(s) != Some(n) { var j := SerialFrom(devices, s); }
    assert !Named(env.nameOf, Grouped(devices).Keys, n);
    assert At(mid, n) == At(before, n) == Some(before[n]);
    assert env.nameOf(devices[i].serial).value in ExpectedNames(devices, env.nameOf);
  }

  /** When the cleanup removes a device's agents: none of its entries is available, and each was last seen longer
  ago than the absence timeout; if none was ever seen, the pool itself is older than that. */
  lemma LongGoneIff(devices: seq<Device>, env: Env, pool: PoolStatus)
    ensures LongGone(devices, env, pool) <==>
      && (forall i :: 0 <= i < |devices| ==> !devices[i].available)
      && if forall i :: 0 <= i < |devices| ==> devices[i].lastSeen <= 0 then env.now > pool.created + env.cfg.absence
         else forall i :: 0 <= i < |devices| && devices[i].lastSeen > 0 ==>
           env.now > devices[i].lastSeen + env.cfg.absence
  {
    LatestSeenIsMax(devices);
  }

  /** It then removes everything that carries the device's label, agent or not, and nothing else. */
  lemma CleanupIsExact(ds: Deployments, devices: seq<Device>, env: Env, pool: PoolStatus, n: string)
    ensures n in AfterCleanup(ds, devices, env, pool) <==>
            n in ds && !(LongGone(devices, env, pool) && ds[n].device == env.cfg.device)
    ensures n in AfterCleanup(ds, devices, env, pool) ==> AfterCleanup(ds, devices, env, pool)[n] == ds[n]
  {}

  // ------------------------------------------------------ exactness and fixpoint

  /** A pool with one available entry for each serial, every one of which has an agent name. */
  ghost predicate CleanPool(devices: seq<Device>, env: Env)
  {
    && NamesApart(env.nameOf, Grouped(devices).Keys) && OnePerSerial(devices)
    && forall i :: 0 <= i < |devices| ==> devices[i].available && env.nameOf(devices[i].serial).Some?
  }

  function NameAt(devices: seq<Device>, env: Env, i: nat): string
    requires i < |devices| && env.nameOf(devices[i].serial).Some?
  {
    env.nameOf(devices[i].serial).value
  }

  ghost predicate NamesSome(devices: seq<Device>, env: Env, n: string)
  {
    exists i :: 0 <= i < |devices| && env.nameOf(devices[i].serial) == Some(n)
  }

  lemma DecideOne(d: Device, now: int, grace: int)
    requires d.available
    ensures Decide([d], now, grace) == Ensure(d)
  {
    var group := [d];
    assert group[..|group| - 1] == [];
    assert LastWith(group, true) == Some(d);
    assert LastWith(group, false) == LastWith([], false) == None;
  }

  lemma CleanDecision(devices: seq<Device>, env: Env, i: nat)
    requires CleanPool(devices, env) && i < |devices|
    ensures devices[i].serial in Grouped(devices)
    ensures DecisionFor(Grouped(devices), devices[i].serial, env) == Ensure(devices[i])
  {
    GroupAt(devices, i);
    DecideOne(devices[i], env.now, env.cfg.grace);
  }

  lemma ExpectedIff(devices: seq<Device>, env: Env, n: string)
    ensures n in ExpectedNames(devices, env.nameOf) <==> NamesSome(devices, env, n)
  {}

  lemma HeldBackIff(o: Option<Deployment>, dev: Device, cfg: Config, current: set<string>)
    requires dev.node in current
    ensures HeldBack(o, Ensure(dev), cfg, current) <==>
            o.Some? && SelectsNode(o.value, dev.node) && o.value.containers == []
  {}

  /** With every node current, only a deployment without containers can hold the run back. */
  lemma StuckIff(before: Deployments, devices: seq<Device>, env: Env, i: nat)
    requires CleanPool(devices, env) && i < |devices| && devices[i].node in env.current
    ensures Stuck(before, Grouped(devices), devices[i].serial, env) <==>
            NameAt(devices, env, i) in before && SelectsNode(before[NameAt(devices, env, i)], devices[i].node)
            && before[NameAt(devices, env, i)].containers == []
  {
    CleanDecision(devices, env, i);
    HeldBackIff(At(before, NameAt(devices, env, i)), devices[i], env.cfg, env.current);
  }

  lemma {:induction false} EnsuredUpToDate(before: Deployments, mid: Deployments, devices: seq<Device>, env: Env,
                                           i: nat)
    requires CleanPool(devices, env) && i < |devices|
    requires Passed(before, mid, Grouped(devices), Grouped(devices).Keys, env)
    requires !Stuck(before, Grouped(devices), devices[i].serial, env)
    ensures NameAt(devices, env, i) in mid && UpToDate(mid[NameAt(devices, env, i)], devices[i], env.cfg)
  {
    CleanDecision(devices, env, i);
    TemplateIsUpToDate(devices[i], env.cfg);
    assert Dealt(before, mid, Grouped(devices), devices[i].serial, env);
    assert At(mid, NameAt(devices, env, i)).Some?;
  }

  lemma ReapKeepsNamed(ds: Deployments, devices: seq<Device>, env: Env, i: nat)
    requires CleanPool(devices, env) && i < |devices| && NameAt(devices, env, i) in ds
    ensures NameAt(devices, env, i) in Swept(ds, devices, env)
    ensures Swept(ds, devices, env)[NameAt(devices, env, i)] == ds[NameAt(devices, env, i)]
  {
    assert env.nameOf(devices[i].serial) == Some(NameAt(devices, env, i));
    ExpectedIff(devices, env, NameAt(devices, env, i));
  }

  lemma HasAgent(before: Deployments, mid: Deployments, devices: seq<Device>, env: Env, i: nat)
    requires CleanPool(devices, env) && i < |devices|
    requires Passed(before, mid, Grouped(devices), Grouped(devices).Keys, env)
    requires !Stuck(before, Grouped(devices), devices[i].serial, env)
    ensures NameAt(devices, env, i) in Swept(mid, devices, env)
    ensures UpToDate(Swept(mid, devices, env)[NameAt(devices, env, i)], devices[i], env.cfg)
  {
    EnsuredUpToDate(before, mid, devices, env, i);
    ReapKeepsNamed(mid, devices, env, i);
  }

  lemma NoOtherAgent(mid: Deployments, devices: seq<Device>, env: Env, n: string)
    requires devices != [] && CleanPool(devices, env) && n in Swept(mid, devices, env)
    requires Swept(mid, devices, env)[n].isAgent && Swept(mid, devices, env)[n].device == env.cfg.device
    ensures NamesSome(devices, env, n)
  {
    SomeExpected(devices, env);
    ExpectedIff(devices, env, n);
  }

  /** A deployment that is neither named by the pool nor an agent of its device. */
  ghost predicate Foreign(ds: Deployments, devices: seq<Device>, env: Env, n: string)
  {
    n in ds && !NamesSome(devices, env, n) && !(ds[n].isAgent && ds[n].device == env.cfg.device)
  }

  lemma ForeignKept(before: Deployments, mid: Deployments, devices: seq<Device>, env: Env, n: string)
    requires CleanPool(devices, env) && Foreign(before, devices, env, n)
    requires Passed(before, mid, Grouped(devices), Grouped(devices).Keys, env)
    ensures At(Swept(mid, devices, env), n) == Some(before[n])
  {
    NotNamed(devices, env, n);
    assert At(mid, n) == At(before, n);
  }

  /** After a run that nothing held back, every device has an up-to-date agent pinned to its node, the
  pool's device has no other agents, and no other deployment has changed. */
  lemma ReconcileExact(before: Deployments, after: Deployments, devices: seq<Device>, env: Env)
    requires devices != [] && CleanPool(devices, env) && Reconciled(before, after, devices, env)
    requires forall s :: s in Grouped(devices) ==> !Stuck(before, Grouped(devices), s, env)
    ensures forall i :: 0 <= i < |devices| ==>
              NameAt(devices, env, i) in after && UpToDate(after[NameAt(devices, env, i)], devices[i], env.cfg)
    ensures forall n :: n in after && after[n].isAgent && after[n].device == env.cfg.device ==>
      NamesSome(devices, env, n)
    ensures forall n :: Foreign(before, devices, env, n) ==> At(after, n) == Some(before[n])
  {
    var mid :| Passed(before, mid, Grouped(devices), Grouped(devices).Keys, env) && after == Swept(mid, devices, env);
    forall i | 0 <= i < |devices|
      ensures NameAt(devices, env, i) in after && UpToDate(after[NameAt(devices, env, i)], devices[i], env.cfg)
    {
      CleanDecision(devices, env, i);
      HasAgent(before, mid, devices, env, i);
    }
    forall n | n in after && after[n].isAgent && after[n].device == env.cfg.device ensures NamesSome(devices, env, n) {
      NoOtherAgent(mid, devices, env, n);
    }
    forall n | Foreign(before, devices, env, n) ensures At(after, n) == Some(before[n]) {
      ForeignKept(before, mid, devices, env, n);
    }
  }

  /** Two devices on different nodes whose serials share an agent name cannot both be served, whatever the
  deployments are. */
  lemma SharedNameUnserved(ds: Deployments, devices: seq<Device>, env: Env, i: nat, j: nat)
    requires i < |devices| && j < |devices| && devices[i].node != devices[j].node
    requires env.nameOf(devices[i].serial).Some? && env.nameOf(devices[i].serial) == env.nameOf(devices[j].serial)
    ensures !(NameAt(devices, env, i) in ds && UpToDate(ds[NameAt(devices, env, i)], devices[i], env.cfg)
              && UpToDate(ds[NameAt(devices, env, j)], devices[j], env.cfg))
  {}

  lemma SomeExpected(devices: seq<Device>, env: Env)
    requires devices != [] && CleanPool(devices, env)
    ensures ExpectedNames(devices, env.nameOf) != {}
  {
    assert env.nameOf(devices[0].serial).value in ExpectedNames(devices, env.nameOf);
  }

  lemma NotNamed(devices: seq<Device>, env: Env, n: string)
    requires CleanPool(devices, env) && !NamesSome(devices, env, n)
    ensures !Named(env.nameOf, Grouped(devices).Keys, n)
  {
    forall s | s in Grouped(devices) ensures env.nameOf(s) != Some(n) {
      var i := SerialFrom(devices, s);
    }
  }

  lemma UpToDateIsIdle(ds: Deployments, devices: seq<Device>, env: Env, i: nat)
    requires CleanPool(devices, env) && i < |devices|
    requires NameAt(devices, env, i) in ds && UpToDate(ds[NameAt(devices, env, i)], devices[i], env.cfg)
    ensures Idles(At(ds, NameAt(devices, env, i)), DecisionFor(Grouped(devices), devices[i].serial, env),
                  env.cfg, env.current)
  {
    CleanDecision(devices, env, i);
  }

  /** A second run on the unchanged pool, at any later time and whatever discovery is doing, deletes and
  creates nothing. */
  lemma ReconcileFixpoint(before: Deployments, after: Deployments, devices: seq<Device>, env: Env, later: Env)
    requires devices != [] && CleanPool(devices, env) && Reconciled(before, after, devices, env)
    requires forall s :: s in Grouped(devices) ==> !Stuck(before, Grouped(devices), s, env)
    requires later.cfg == env.cfg && later.nameOf == env.nameOf
    ensures Settled(after, devices, later)
  {
    ReconcileExact(before, after, devices, env);
    assert CleanPool(devices, later);
    forall s | s in Grouped(devices) && later.nameOf(s).Some?
      ensures Idles(At(after, later.nameOf(s).value), DecisionFor(Grouped(devices), s, later), later.cfg, later.current)
    {
      var i := SerialFrom(devices, s);
      assert NameAt(devices, env, i) == NameAt(devices, later, i);
      UpToDateIsIdle(after, devices, later, i);
    }
    SweptAgain(after, devices, env, later);
  }

  lemma SweptAgain(after: Deployments, devices: seq<Device>, env: Env, later: Env)
    requires later.cfg == env.cfg && later.nameOf == env.nameOf
    requires forall n :: n in after && after[n].isAgent && after[n].device == env.cfg.device ==>
      NamesSome(devices, env, n)
    ensures Swept(after, devices, later) == after
  {
    var expected := ExpectedNames(devices, later.nameOf);
    forall n | n in after ensures !Orphan(after[n], n, expected, later.cfg.device) {
      ExpectedIff(devices, env, n);
    }
  }
}
